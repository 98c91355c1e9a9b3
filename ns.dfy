/**
 * The naive scanner the library uses for one-character patterns: it asks
 * `String.indexOf(pattern, start)` for the next occurrence, reports it and
 * resumes the search just after it, so the occurrences it reports never
 * overlap.
 */
module NS {
  import opened Strings

  /**
   * The positions the scan reports from `start` on: the first occurrence at
   * or after `start`, then the chain that resumes one pattern length later.
   */
  function Chain(source: Text, pattern: Text, start: nat): seq<int>
    requires pattern != []
    decreases |source| + 1 - start
  {
    IndexOfLeast(source, pattern, start);
    var end := IndexOf(source, pattern, start);
    if end == INDEX_NOT_FOUND then []
    else [end] + Chain(source, pattern, end + |pattern|)
  }

  /**
   * Each report of the chain is an occurrence at or after `start`, and each
   * lies at least one pattern length after every one before it, so no two
   * overlap.
   */
  lemma {:induction false} ChainOccurrences(source: Text, pattern: Text, start: nat)
    requires pattern != []
    ensures forall i :: 0 <= i < |Chain(source, pattern, start)| ==>
      start <= Chain(source, pattern, start)[i] && MatchesAt(source, pattern, Chain(source, pattern, start)[i])
    ensures forall i, k :: 0 <= i < k < |Chain(source, pattern, start)| ==>
      Chain(source, pattern, start)[i] + |pattern| <= Chain(source, pattern, start)[k]
    decreases |source| + 1 - start
  {
    IndexOfLeast(source, pattern, start);
    var end := IndexOf(source, pattern, start);
    if end != INDEX_NOT_FOUND {
      ChainOccurrences(source, pattern, end + |pattern|);
      var r, rest := Chain(source, pattern, start), Chain(source, pattern, end + |pattern|);
      assert r == [end] + rest;
      assert start <= end && MatchesAt(source, pattern, end);
      forall i | 0 <= i < |r|
        ensures start <= r[i] && MatchesAt(source, pattern, r[i])
      {
        if i > 0 {
          assert r[i] == rest[i - 1];
        }
      }
      forall i, k | 0 <= i < k < |r|
        ensures r[i] + |pattern| <= r[k]
      {
        assert r[k] == rest[k - 1];
        if i > 0 {
          assert r[i] == rest[i - 1];
        }
      }
    }
  }

  /**
   * What `NS.find` hands to its job: with `onlyFirst`, the first occurrence
   * (an empty pattern occurs at 0); otherwise the chain from 0.
   */
  function Reports(source: Text, pattern: Text, onlyFirst: bool): seq<int>
    requires pattern != [] || onlyFirst
  {
    if onlyFirst then TakeFirst(Occurrences(source, pattern)) else Chain(source, pattern, 0)
  }

  /** One link of the chain: the next `indexOf` hit, then the chain one pattern length past it. */
  lemma ChainStep(source: Text, pattern: Text, start: nat, end: int)
    requires pattern != [] && end == IndexOf(source, pattern, start) && end != INDEX_NOT_FOUND
    ensures start <= end && end + |pattern| <= |source|
    ensures Chain(source, pattern, start) == [end] + Chain(source, pattern, end + |pattern|)
  {
    IndexOfLeast(source, pattern, start);
  }

  /** Reporting the next hit and resuming past it keeps the reports a prefix of the whole chain. */
  lemma ChainAdvance(source: Text, pattern: Text, start: nat, end: int, reports: seq<int>)
    requires pattern != [] && end == IndexOf(source, pattern, start) && end != INDEX_NOT_FOUND
    requires reports + Chain(source, pattern, start) == Chain(source, pattern, 0)
    ensures start < end + |pattern| <= |source|
    ensures (reports + [end]) + Chain(source, pattern, end + |pattern|) == Chain(source, pattern, 0)
  {
    ChainStep(source, pattern, start, end);
    assert (reports + [end]) + Chain(source, pattern, end + |pattern|) == reports + Chain(source, pattern, start);
  }

  /** `NS.find`: report `indexOf` hits, each search resuming one pattern length after the last hit. */
  method Find(source: Text, pattern: Text, onlyFirst: bool) returns (reports: seq<int>)
    requires pattern != [] || onlyFirst
    ensures reports == Reports(source, pattern, onlyFirst)
  {
    reports := [];
    var start := 0;
    var end := IndexOf(source, pattern, start);
    var length := |pattern|;

    if end == INDEX_NOT_FOUND {
      IndexOfIsFirstOccurrence(source, pattern);
      if !onlyFirst {
        IndexOfLeast(source, pattern, 0);
      }
      return;
    }

    while end != INDEX_NOT_FOUND
      invariant 0 <= start <= |source|
      invariant end == IndexOf(source, pattern, start)
      invariant onlyFirst ==> start == 0 && reports == []
      invariant pattern != [] ==> reports + Chain(source, pattern, start) == Chain(source, pattern, 0)
      decreases |source| - start
    {
      if onlyFirst {
        IndexOfIsFirstOccurrence(source, pattern);
        reports := reports + [end];
        return;
      }
      ChainAdvance(source, pattern, start, end, reports);
      reports := reports + [end];
      start := end + length;
      end := IndexOf(source, pattern, start);
    }
  }

  /** A pattern that does not occur is never reported. */
  lemma NothingToReport(source: Text, pattern: Text, onlyFirst: bool)
    requires pattern != [] || onlyFirst
    requires forall p :: !MatchesAt(source, pattern, p)
    ensures Reports(source, pattern, onlyFirst) == []
  {
    if !onlyFirst {
      IndexOfLeast(source, pattern, 0);
    }
  }

  /**
   * The chain misses no occurrence at or after `start` except those that
   * overlap a reported one: each such occurrence starts inside the span of
   * some report, the `i`-th.
   */
  lemma {:induction false} ChainCovers(source: Text, pattern: Text, start: nat, v: int) returns (i: nat)
    requires pattern != [] && start <= v && MatchesAt(source, pattern, v)
    ensures i < |Chain(source, pattern, start)|
    ensures Chain(source, pattern, start)[i] <= v < Chain(source, pattern, start)[i] + |pattern|
    decreases |source| + 1 - start
  {
    IndexOfLeast(source, pattern, start);
    var end := IndexOf(source, pattern, start);
    ChainStep(source, pattern, start, end);
    if v >= end + |pattern| {
      var k := ChainCovers(source, pattern, end + |pattern|, v);
      i := k + 1;
    } else {
      i := 0;
    }
  }

  /**
   * For a one-character pattern, the only kind the library sends here for a
   * full scan, the chain is every offset holding that character, in
   * ascending order.
   */
  lemma SingleCharChain(source: Text, pattern: Text)
    requires |pattern| == 1
    ensures Chain(source, pattern, 0) == Occurrences(source, pattern)
    ensures forall k :: k in Chain(source, pattern, 0) <==> 0 <= k < |source| && source[k] == pattern[0]
  {
    var r := Chain(source, pattern, 0);
    var occ := Occurrences(source, pattern);
    ChainOccurrences(source, pattern, 0);
    forall v
      ensures v in r <==> v in occ
    {
      if v in occ {
        var i := ChainCovers(source, pattern, 0, v);
      }
    }
    AscendingUnique(r, occ);
    forall k
      ensures k in r <==> 0 <= k < |source| && source[k] == pattern[0]
    {
      if 0 <= k < |source| {
        assert source[k..k + 1] == [source[k]];
      }
    }
  }

  /**
   * When no two occurrences overlap, the chain is every occurrence: an
   * occurrence the chain skipped would overlap the report it was skipped for.
   */
  lemma ChainIsOccurrences(source: Text, pattern: Text)
    requires pattern != []
    requires var occ := Occurrences(source, pattern);
      forall i, k :: 0 <= i < k < |occ| ==> occ[i] + |pattern| <= occ[k]
    ensures Chain(source, pattern, 0) == Occurrences(source, pattern)
  {
    var r := Chain(source, pattern, 0);
    var occ := Occurrences(source, pattern);
    ChainOccurrences(source, pattern, 0);
    forall v | v in occ
      ensures v in r
    {
      var i := ChainCovers(source, pattern, 0, v);
      var a :| 0 <= a < |occ| && occ[a] == r[i];
      var b :| 0 <= b < |occ| && occ[b] == v;
    }
    AscendingUnique(r, occ);
  }
}
