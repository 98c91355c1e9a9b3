/**
 * The literal search-and-replace facade of `StringUtils`: null and empty
 * checks, the choice of scanner by pattern length, and the wiring of a
 * scanner to a fresh job whose result is returned. A Java `null` is
 * `None`; a call that throws returns `Threw`.
 */
module StringUtils {
  import opened Strings
  import BNDM
  import NS
  import Functions

  /** The two `Algorithm` implementations. */
  datatype Scanner = BNDMScanner | NSScanner

  /** `algorithm(pattern)`: the bit-parallel scanner for patterns of two characters or more. */
  function Algorithm(pattern: Text): (s: Scanner)
    ensures s == BNDMScanner <==> |pattern| > 1
    ensures s == NSScanner <==> |pattern| <= 1
  {
    if |pattern| > 1 then BNDMScanner else NSScanner
  }

  /** `isEmpty(cs)`: null or of length 0. */
  function IsEmpty(cs: Option<Text>): (b: bool)
    ensures b <==> cs == None || cs == Some([])
  {
    cs == None || |cs.value| == 0
  }

  /** `notValid(source, pattern)`: 0 for a null or empty pattern, else -1 for a null or empty source, else 1. */
  function NotValid(source: Option<Text>, pattern: Option<Text>): (r: int)
    ensures r == 0 <==> pattern == None || pattern == Some([])
    ensures r == -1 <==> pattern.Some? && pattern.value != [] && (source == None || source == Some([]))
    ensures r == 1 <==> pattern.Some? && pattern.value != [] && source.Some? && source.value != []
  {
    if IsEmpty(pattern) then 0
    else if IsEmpty(source) then -1
    else 1
  }

  /** `notValid(source, what, with)`: there is nothing to replace, or nothing to replace it with. */
  function NotValidReplace(source: Option<Text>, what: Option<Text>, with: Option<Text>): (b: bool)
    ensures b <==> IsEmpty(what) || IsEmpty(source) || with == None
  {
    NotValid(source, what) < 1 || with == None
  }

  /** What `algorithm(pattern).find(source, pattern, job, onlyFirst)` hands to `job.apply`, in order. */
  function ScanReports(source: Text, pattern: Text, onlyFirst: bool): seq<int>
    requires pattern != [] || onlyFirst
  {
    match Algorithm(pattern)
    case BNDMScanner => BNDM.Reports(source, pattern, onlyFirst)
    case NSScanner => NS.Reports(source, pattern, onlyFirst)
  }

  /** Runs the scanner `algorithm(pattern)` chooses. An empty pattern stops only with `onlyFirst`. */
  method Scan(source: Text, pattern: Text, onlyFirst: bool) returns (reports: seq<int>)
    requires pattern != [] || onlyFirst
    ensures reports == ScanReports(source, pattern, onlyFirst)
  {
    match Algorithm(pattern)
    case BNDMScanner =>
      reports := BNDM.Find(source, pattern, onlyFirst);
    case NSScanner =>
      reports := NS.Find(source, pattern, onlyFirst);
  }

  /** `indexOf(source, what, new Find(), onlyFirst)`: the last position the scan reports, or -1. */
  method RunFind(source: Text, what: Text, onlyFirst: bool) returns (r: int)
    requires what != [] || onlyFirst
    ensures r == LastOr(ScanReports(source, what, onlyFirst), INDEX_NOT_FOUND)
  {
    var job := new Functions.Find();
    var reports := Scan(source, what, onlyFirst);
    Deliver(job, reports);
    r := job.Result();
  }

  /** The scanner's `job.apply` calls: each report, in order. */
  method Deliver(job: Functions.Find, reports: seq<int>)
    requires job.Valid()
    modifies job
    ensures job.Valid() && job.applied == old(job.applied) + reports
  {
    var k := 0;
    while k < |reports|
      invariant 0 <= k <= |reports|
      invariant job.Valid() && job.applied == old(job.applied) + reports[..k]
    {
      job.Apply(reports[k]);
      assert reports[..k + 1] == reports[..k] + [reports[k]];
      k := k + 1;
    }
    assert reports[..k] == reports;
  }

  /** `indexOf(source, what, new FindAll(), false)`: every position the scan reports, in order. */
  method RunFindAll(source: Text, what: Text) returns (r: seq<int>)
    requires what != []
    ensures r == ScanReports(source, what, false)
  {
    var job := new Functions.FindAll();
    var reports := Scan(source, what, false);
    var k := 0;
    while k < |reports|
      invariant 0 <= k <= |reports|
      invariant job.positions == reports[..k]
    {
      job.Apply(reports[k]);
      assert reports[..k + 1] == reports[..k] + [reports[k]];
      k := k + 1;
    }
    assert reports[..k] == reports;
    r := job.Result();
  }

  /** What the private `indexOf(source, what, onlyFirst)` returns. */
  function IndexOfResult(source: Option<Text>, what: Option<Text>, onlyFirst: bool): int
  {
    var index := NotValid(source, what);
    if index < 1 then index
    else LastOr(ScanReports(source.value, what.value, onlyFirst), INDEX_NOT_FOUND)
  }

  /** The private `indexOf(source, what, onlyFirst)`: validation, then a `Find` job. */
  method IndexOfWith(source: Option<Text>, what: Option<Text>, onlyFirst: bool) returns (r: int)
    ensures r == IndexOfResult(source, what, onlyFirst)
  {
    var index := NotValid(source, what);
    if index < 1 {
      return index;
    }
    r := RunFind(source.value, what.value, onlyFirst);
  }

  /** `indexOf(source, what)`: the first position reported by a scan that stops at the first. */
  method IndexOf(source: Option<Text>, what: Option<Text>) returns (r: int)
    ensures r == IndexOfResult(source, what, true)
  {
    r := IndexOfWith(source, what, true);
  }

  /** `lastIndexOf(source, what)`: the last position reported by a full scan. */
  method LastIndexOf(source: Option<Text>, what: Option<Text>) returns (r: int)
    ensures r == IndexOfResult(source, what, false)
  {
    r := IndexOfWith(source, what, false);
  }

  /**
   * `indexesOf(source, what)`: every position of a full scan, with no
   * validation, so a null argument throws; an empty pattern in a non-null
   * source never stops.
   */
  method IndexesOf(source: Option<Text>, what: Option<Text>) returns (r: Outcome<seq<int>>)
    requires !(what == Some([]) && source.Some?)
    ensures what == None || source == None ==> r == Threw(NullPointerException)
    ensures what.Some? && source.Some? ==> r == Returned(ScanReports(source.value, what.value, false))
  {
    if what == None || source == None {
      return Threw(NullPointerException);
    }
    var positions := RunFindAll(source.value, what.value);
    r := Returned(positions);
  }

  /** What the private `replace(source, what, with, onlyFirst)` returns or throws. */
  function ReplaceResult(source: Option<Text>, what: Option<Text>, with: Option<Text>, onlyFirst: bool): Outcome<Option<Text>>
  {
    if NotValidReplace(source, what, with) then Returned(source)
    else Wrapped(Functions.Replacing(source.value, with.value, |what.value|, ScanReports(source.value, what.value, onlyFirst)))
  }

  /** A returned text as a non-null reference; an exception as it is. */
  function Wrapped(outcome: Outcome<Text>): Outcome<Option<Text>>
  {
    match outcome
    case Returned(t) => Returned(Some(t))
    case Threw(e) => Threw(e)
  }

  /**
   * The private `replace(source, what, with, onlyFirst)`: validation, then a
   * `Replace` job fed every reported position, then its result. The first
   * `apply` that throws ends the call.
   */
  method ReplaceWith(source: Option<Text>, what: Option<Text>, with: Option<Text>, onlyFirst: bool)
    returns (r: Outcome<Option<Text>>)
    ensures r == ReplaceResult(source, what, with, onlyFirst)
  {
    if NotValidReplace(source, what, with) {
      return Returned(source);
    }
    var s, w, x := source.value, what.value, with.value;
    var job := new Functions.Replace(s, w, x);
    var reports := Scan(s, w, onlyFirst);
    var k := 0;
    while k < |reports|
      invariant 0 <= k <= |reports|
      invariant job.content == s && job.with == x && job.length == |w|
      invariant job.Valid() && job.applied == reports[..k]
    {
      var applied := job.Apply(reports[k]);
      if applied.Threw? {
        NotAppliable(s, |w|, reports, k);
        return Threw(applied.exception);
      }
      assert reports[..k + 1] == reports[..k] + [reports[k]];
      k := k + 1;
    }
    assert reports[..k] == reports;
    var out := job.Result();
    match out
    case Returned(t) =>
      r := Returned(Some(t));
    case Threw(e) =>
      r := Threw(e);
  }

  /** When the `Apply` of the `k`-th position fails, replacing at all of them throws. */
  lemma NotAppliable(content: Text, length: nat, positions: seq<int>, k: nat)
    requires k < |positions| && Functions.Appliable(content, length, positions[..k])
    requires !(0 <= Functions.Cursor(length, positions[..k]) <= positions[k] <= |content|)
    ensures !Functions.Completes(content, length, positions)
  {
    var prefix := positions[..k + 1];
    assert prefix[..k] == positions[..k];
    assert !Functions.Appliable(content, length, prefix);
    if Functions.Appliable(content, length, positions) {
      Functions.AppliablePrefix(content, length, positions, k + 1);
    }
  }

  /** `replace(source, what, with)`: every reported occurrence replaced. */
  method Replace(source: Option<Text>, what: Option<Text>, with: Option<Text>) returns (r: Outcome<Option<Text>>)
    ensures r == ReplaceResult(source, what, with, false)
  {
    r := ReplaceWith(source, what, with, false);
  }

  /** `replaceOnce(source, what, with)`: the first reported occurrence replaced. */
  method ReplaceOnce(source: Option<Text>, what: Option<Text>, with: Option<Text>) returns (r: Outcome<Option<Text>>)
    ensures r == ReplaceResult(source, what, with, true)
  {
    r := ReplaceWith(source, what, with, true);
  }

  // Properties of the scanners as the facade sees them.

  /** A text occurs in itself at offset 0 only. */
  lemma OccurrencesOfItself(source: Text)
    ensures Occurrences(source, source) == [0]
  {
    assert MatchesAt(source, source, 0);
    AscendingUnique([0], Occurrences(source, source));
  }

  /**
   * For a pattern of 1 to 32 characters, the scanner the facade picks
   * reports every occurrence, overlapping ones included, in ascending
   * order, and with `onlyFirst` just the first one.
   */
  lemma ScanFindsOccurrences(source: Text, pattern: Text)
    requires 1 <= |pattern| <= 32
    ensures ScanReports(source, pattern, false) == Occurrences(source, pattern)
    ensures ScanReports(source, pattern, true) == TakeFirst(Occurrences(source, pattern))
  {
    if |pattern| == 1 {
      NS.SingleCharChain(source, pattern);
    } else if pattern == source {
      OccurrencesOfItself(source);
    }
  }

  /**
   * A pattern longer than 32 characters does not fit the scanner's word: it
   * is reported only when it is the whole source, at 0, and otherwise never,
   * even where it occurs.
   */
  lemma ScanWidePattern(source: Text, pattern: Text, onlyFirst: bool)
    requires |pattern| > 32
    ensures ScanReports(source, pattern, onlyFirst) == if pattern == source then [0] else []
  {
  }

  /**
   * `indexOf` agrees with `String.indexOf` exactly when the pattern fits the
   * scanner's word, is the whole source, or does not occur at all: 0 for an
   * empty pattern, -1 for an empty source, the first occurrence otherwise. A
   * longer pattern that occurs elsewhere in the source is missed.
   */
  lemma IndexOfAgreesWithString(source: Text, what: Text)
    ensures IndexOfResult(Some(source), Some(what), true) == Strings.IndexOf(source, what, 0)
      <==> |what| <= 32 || what == source || Occurrences(source, what) == []
  {
    IndexOfIsFirstOccurrence(source, what);
    IndexOfLeast(source, what, 0);
    if what == [] {
      assert MatchesAt(source, what, 0);
    } else if source == [] {
      NoOccurrenceInEmpty(source, what);
    } else if |what| <= 32 {
      ScanFindsOccurrences(source, what);
    } else if what == source {
      OccurrencesOfItself(source);
    } else {
      ScanWidePattern(source, what, true);
    }
  }

  /** A non-empty pattern does not occur in the empty string. */
  lemma NoOccurrenceInEmpty(source: Text, what: Text)
    requires source == [] && what != []
    ensures Occurrences(source, what) == []
  {
    var r := Occurrences(source, what);
    assert |r| == 0 || MatchesAt(source, what, r[0]);
  }

  /** A null pattern gives 0, and a null source with a non-empty pattern gives -1, from every `indexOf` variant. */
  lemma IndexOfNulls(source: Option<Text>, what: Option<Text>, onlyFirst: bool)
    ensures what == None ==> IndexOfResult(source, what, onlyFirst) == 0
    ensures source == None && what.Some? && what.value != [] ==> IndexOfResult(source, what, onlyFirst) == INDEX_NOT_FOUND
  {
  }

  /**
   * `lastIndexOf` finds the last occurrence of a pattern of 1 to 32
   * characters, or -1, and answers 0 for an empty pattern.
   */
  lemma LastIndexOfIsLastOccurrence(source: Text, what: Text)
    requires |what| <= 32
    ensures what == [] ==> IndexOfResult(Some(source), Some(what), false) == 0
    ensures what != [] ==>
      IndexOfResult(Some(source), Some(what), false) == LastOr(Occurrences(source, what), INDEX_NOT_FOUND)
  {
    if what != [] && source != [] {
      ScanFindsOccurrences(source, what);
    } else if what != [] {
      NoOccurrenceInEmpty(source, what);
    }
  }

  /**
   * `indexesOf` returns occurrences only, strictly ascending; for a pattern
   * of 1 to 32 characters it returns all of them, overlapping ones included.
   */
  lemma IndexesOfAreOccurrences(source: Text, what: Text)
    requires what != []
    ensures var r := ScanReports(source, what, false);
      (forall i :: 0 <= i < |r| ==> MatchesAt(source, what, r[i])) &&
      (forall i, k :: 0 <= i < k < |r| ==> r[i] < r[k]) &&
      (|what| <= 32 ==> r == Occurrences(source, what))
  {
    if |what| <= 32 {
      ScanFindsOccurrences(source, what);
    } else if what == source {
      assert MatchesAt(source, what, 0);
    }
  }

  /** Replacing throws only for a reason: with nothing to replace, or nothing to replace it with, `replace` returns the source. */
  lemma ReplaceInvalidReturnsSource(source: Option<Text>, what: Option<Text>, with: Option<Text>, onlyFirst: bool)
    requires source == None || what == None || with == None || what == Some([]) || source == Some([])
    ensures ReplaceResult(source, what, with, onlyFirst) == Returned(source)
  {
  }

  /**
   * `replaceOnce` with a pattern of 1 to 32 characters splices `with` over
   * the first occurrence, and returns the source unchanged when there is
   * none.
   */
  lemma ReplaceOnceSplicesFirst(source: Text, what: Text, with: Text)
    requires source != [] && 1 <= |what| <= 32
    ensures var occ := Occurrences(source, what);
      ReplaceResult(Some(source), Some(what), Some(with), true) ==
        if occ == [] then Returned(Some(source))
        else Returned(Some(source[..occ[0]] + with + source[occ[0] + |what|..]))
  {
    ScanFindsOccurrences(source, what);
    var occ := Occurrences(source, what);
    if occ == [] {
      Functions.ReplacedNothing(source, with, |what|);
    } else {
      assert MatchesAt(source, what, occ[0]);
      Functions.ReplacedOne(source, with, |what|, occ[0]);
    }
  }

  /**
   * `replace` with a pattern of 1 to 32 characters replaces at every
   * occurrence, overlapping ones included, so that it throws exactly when
   * two occurrences overlap (`Functions.ReplacingWindows`).
   */
  lemma ReplaceAtOccurrences(source: Text, what: Text, with: Text)
    requires source != [] && 1 <= |what| <= 32
    ensures ReplaceResult(Some(source), Some(what), Some(with), false) ==
      Wrapped(Functions.Replacing(source, with, |what|, Occurrences(source, what)))
  {
    ScanFindsOccurrences(source, what);
  }

  /** `replace` with a pattern of 1 to 32 characters throws exactly when two occurrences overlap. */
  lemma ReplaceThrowsIffOverlap(source: Text, what: Text, with: Text)
    requires source != [] && 1 <= |what| <= 32
    ensures var occ := Occurrences(source, what);
      (exists i, k :: 0 <= i < k < |occ| && occ[k] < occ[i] + |what|) <==>
        ReplaceResult(Some(source), Some(what), Some(with), false) == Threw(StringIndexOutOfBoundsException)
  {
    ReplaceAtOccurrences(source, what, with);
    Functions.ReplacingWindows(source, with, |what|, Occurrences(source, what));
  }

  /** Applying the next `indexOf` hit of the chain: the cursor moves past it, and the buffer gains the text before it and `with`. */
  lemma ChainNext(source: Text, what: Text, with: Text, start: nat, e: int, done: seq<int>, all: seq<int>)
    requires what != [] && e == Strings.IndexOf(source, what, start) && e != INDEX_NOT_FOUND
    requires done + NS.Chain(source, what, start) == all
    requires Functions.Appliable(source, |what|, done) && Functions.Cursor(|what|, done) == start
    requires Functions.Appliable(source, |what|, all)
    ensures start <= e && e + |what| <= |source|
    ensures (done + [e]) + NS.Chain(source, what, e + |what|) == all
    ensures Functions.Appliable(source, |what|, done + [e]) && Functions.Cursor(|what|, done + [e]) == e + |what|
    ensures Functions.Spliced(source, with, |what|, done + [e]) ==
      Functions.Spliced(source, with, |what|, done) + source[start..e] + with
  {
    NS.ChainStep(source, what, start, e);
    var next := done + [e];
    assert next + NS.Chain(source, what, e + |what|) == all;
    assert all[..|next|] == next;
    Functions.AppliablePrefix(source, |what|, all, |next|);
    Functions.SplicedLast(source, with, |what|, next);
    assert next[..|next| - 1] == done;
  }

  /**
   * Replacing at the chain of `indexOf` hits `all`, from the report that
   * leaves the cursor at `start` on, is `String.replace` applied to the rest
   * of the text.
   */
  lemma {:induction false} ReplacedChain(source: Text, what: Text, with: Text, start: nat, done: seq<int>, all: seq<int>)
    requires what != [] && start <= |source|
    requires done + NS.Chain(source, what, start) == all
    requires Functions.Appliable(source, |what|, done) && Functions.Cursor(|what|, done) == start
    requires Functions.Completes(source, |what|, all)
    ensures Functions.Replaced(source, with, |what|, all) ==
      Functions.Spliced(source, with, |what|, done) + StringReplace(source, what, with, start)
    decreases |source| - start
  {
    var e := Strings.IndexOf(source, what, start);
    StringReplaceStep(source, what, with, start, e);
    var before := Functions.Spliced(source, with, |what|, done);
    if e == INDEX_NOT_FOUND {
      assert NS.Chain(source, what, start) == [];
      assert done == all;
      assert Functions.Replaced(source, with, |what|, all) == before + source[start..];
    } else {
      ChainNext(source, what, with, start, e, done, all);
      ReplacedChain(source, what, with, e + |what|, done + [e], all);
      var after := StringReplace(source, what, with, e + |what|);
      assert Functions.Replaced(source, with, |what|, all) == before + source[start..e] + with + after;
      Regroup(before, source[start..e], with, after);
    }
  }

  /** Concatenation regrouped to the right. */
  lemma Regroup(a: Text, b: Text, c: Text, d: Text)
    ensures a + b + c + d == a + (b + c + d)
  {
  }

  /** When replacing at the whole chain throws nothing, it gives what `String.replace` gives. */
  lemma ChainReplacesLikeString(source: Text, what: Text, with: Text)
    requires what != [] && Functions.Completes(source, |what|, NS.Chain(source, what, 0))
    ensures Functions.Replacing(source, with, |what|, NS.Chain(source, what, 0)) ==
      Returned(StringReplace(source, what, with, 0))
  {
    ReplacedChain(source, what, with, 0, [], NS.Chain(source, what, 0));
    assert Functions.Spliced(source, with, |what|, []) == [];
    assert Functions.Replaced(source, with, |what|, NS.Chain(source, what, 0)) == StringReplace(source, what, with, 0);
  }

  /**
   * `replace` agrees with `String.replace` for a pattern of 1 to 32
   * characters whose occurrences do not overlap, as those of a
   * one-character pattern never do.
   */
  lemma ReplaceAgreesWithString(source: Text, what: Text, with: Text)
    requires source != [] && 1 <= |what| <= 32
    requires var occ := Occurrences(source, what);
      |what| == 1 || forall i, k :: 0 <= i < k < |occ| ==> occ[i] + |what| <= occ[k]
    ensures ReplaceResult(Some(source), Some(what), Some(with), false) == Returned(Some(StringReplace(source, what, with, 0)))
  {
    var occ := Occurrences(source, what);
    forall i, k | 0 <= i < k < |occ|
      ensures occ[i] + |what| <= occ[k]
    {
      if |what| == 1 {
        assert occ[i] < occ[k];
      }
    }
    NS.ChainIsOccurrences(source, what);
    Functions.WindowsCompleteIff(source, |what|, occ);
    ChainReplacesLikeString(source, what, with);
    ReplaceAtOccurrences(source, what, with);
  }

  // The examples of the documentation comments, and one the tests rely on.

  /**
   * "a" in "aba" replaced everywhere by `with` gives `with` "b" `with`:
   * "zbz" for "z", "b" for the empty text.
   */
  lemma ReplaceAba(with: Text)
    ensures ReplaceResult(Some([97, 98, 97]), Some([97]), Some(with), false) == Returned(Some(with + [98] + with))
  {
    AbaOccurrences();
    ReplaceAtOccurrences([97, 98, 97], [97], with);
    AbaSpliced(with);
  }

  /**
   * "a" in "aba" replaced once by `with` gives `with` "ba": "zba" for "z",
   * "ba" for the empty text.
   */
  lemma ReplaceOnceAba(with: Text)
    ensures ReplaceResult(Some([97, 98, 97]), Some([97]), Some(with), true) == Returned(Some(with + [98, 97]))
  {
    var s: Text := [97, 98, 97];
    AbaOccurrences();
    ReplaceOnceSplicesFirst(s, [97], with);
    assert s[..0] + with + s[1..] == with + [98, 97];
  }

  /** Replacing the windows of length 1 at 0 and 2 of "aba". */
  lemma AbaSpliced(with: Text)
    ensures Functions.Replacing([97, 98, 97], with, 1, [0, 2]) == Returned(with + [98] + with)
  {
    var s: Text, ps := [97, 98, 97], [0, 2];
    Functions.WindowsCompleteIff(s, 1, ps);
    assert Functions.Completes(s, 1, ps);
    Functions.SplicedLast(s, with, 1, ps);
    assert ps[..1] == [0];
    assert Functions.Spliced(s, with, 1, [0]) == with by {
      Functions.SplicedLast(s, with, 1, [0]);
      assert [0][..0] == [];
    }
    assert Functions.Spliced(s, with, 1, ps) == with + [98] + with by {
      assert s[1..2] == [98];
    }
    assert Functions.Cursor(1, ps) == 3 && s[3..] == [];
    assert Functions.Replaced(s, with, 1, ps) == with + [98] + with;
    assert Functions.Replacing(s, with, 1, ps) == Returned(with + [98] + with);
  }

  /** "a" occurs in "aba" at 0 and 2. */
  lemma AbaOccurrences()
    ensures Occurrences([97, 98, 97], [97]) == [0, 2]
  {
    var s: Text, w: Text := [97, 98, 97], [97];
    assert MatchesAt(s, w, 0) && MatchesAt(s, w, 2);
    assert s[1..2] == [98];
    AscendingUnique([0, 2], Occurrences(s, w));
  }

  /** "aa" occurs in "aaaa" at 0, 1 and 2, and `indexesOf` returns all three. */
  lemma IndexesOfOverlapping()
    ensures ScanReports([97, 97, 97, 97], [97, 97], false) == [0, 1, 2]
  {
    var s: Text, w: Text := [97, 97, 97, 97], [97, 97];
    assert MatchesAt(s, w, 0) && MatchesAt(s, w, 1) && MatchesAt(s, w, 2);
    AscendingUnique([0, 1, 2], Occurrences(s, w));
    ScanFindsOccurrences(s, w);
  }

  /** Replacing the overlapping "aa" of "aaa" throws, since the second window starts inside the first. */
  lemma ReplaceOverlappingThrows()
    ensures ReplaceResult(Some([97, 97, 97]), Some([97, 97]), Some([120]), false) == Threw(StringIndexOutOfBoundsException)
  {
    var s: Text, w: Text := [97, 97, 97], [97, 97];
    assert MatchesAt(s, w, 0) && MatchesAt(s, w, 1);
    var occ := Occurrences(s, w);
    assert 0 in occ && 1 in occ;
    ReplaceThrowsIffOverlap(s, w, [120]);
    var i :| 0 <= i < |occ| && occ[i] == 0;
    var k :| 0 <= k < |occ| && occ[k] == 1;
    assert i < k;
  }
}
