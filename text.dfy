/**
 * Java's `String` as the library sees it: a sequence of UTF-16 code units,
 * `null` as an absent value, exceptions as an outcome, and the two host
 * primitives the search layer is measured against: `String.indexOf` and
 * the set of all occurrences of a pattern.
 */
module Strings {

  /** A Java `char`: one UTF-16 code unit. */
  type Char16 = c: int | 0 <= c < 0x1_0000

  /** A Java `String` that is not null. */
  type Text = seq<Char16>

  /** `StringUtils.INDEX_NOT_FOUND`, also the "no match" value of `String.indexOf`. */
  const INDEX_NOT_FOUND: int := -1

  /** A reference that may be `null`. */
  datatype Option<T> = None | Some(value: T)

  /** The Java exceptions the search layer can raise. */
  datatype JavaException = NullPointerException | StringIndexOutOfBoundsException

  /** A Java call either returns a value or throws. */
  datatype Outcome<T> = Returned(value: T) | Threw(exception: JavaException)

  /** `pattern` occurs in `source` starting at offset `p`. */
  predicate MatchesAt(source: Text, pattern: Text, p: int)
  {
    0 <= p && p + |pattern| <= |source| && source[p..p + |pattern|] == pattern
  }

  /** `r` is the least occurrence of `pattern` in `source` at or after `from`, or -1 when there is none. */
  ghost predicate LeastFrom(source: Text, pattern: Text, from: int, r: int)
  {
    if r == INDEX_NOT_FOUND then
      forall p :: from <= p ==> !MatchesAt(source, pattern, p)
    else
      from <= r && MatchesAt(source, pattern, r) &&
      forall p :: from <= p < r ==> !MatchesAt(source, pattern, p)
  }

  /**
   * `source.indexOf(pattern, from)` of the Java platform: a negative `from`
   * counts as 0, and an empty pattern asked for beyond the end answers the
   * length of the source. `IndexOfLeast` states what it finds.
   */
  function IndexOf(source: Text, pattern: Text, from: int): int
    decreases |source| - from
  {
    if from < 0 then IndexOf(source, pattern, 0)
    else if from >= |source| then (if |pattern| == 0 then |source| else INDEX_NOT_FOUND)
    else if MatchesAt(source, pattern, from) then from
    else IndexOf(source, pattern, from + 1)
  }

  /**
   * `indexOf` answers the least occurrence at or after `from` (0 when `from`
   * is negative), or -1 when there is none; only an empty pattern asked for
   * beyond the end answers the length of the source instead.
   */
  lemma {:induction false} IndexOfLeast(source: Text, pattern: Text, from: int)
    ensures |pattern| == 0 && from > |source| ==> IndexOf(source, pattern, from) == |source|
    ensures !(|pattern| == 0 && from > |source|) ==>
      LeastFrom(source, pattern, if from < 0 then 0 else from, IndexOf(source, pattern, from))
    decreases |source| - from
  {
    if from < 0 {
      IndexOfLeast(source, pattern, 0);
    } else if from < |source| && !MatchesAt(source, pattern, from) {
      IndexOfLeast(source, pattern, from + 1);
    }
  }

  /** All offsets below `hi` where `pattern` occurs in `source`, in ascending order. */
  function OccurrencesBelow(source: Text, pattern: Text, hi: nat): (r: seq<int>)
    ensures forall i :: 0 <= i < |r| ==> 0 <= r[i] < hi && MatchesAt(source, pattern, r[i])
    ensures forall p :: 0 <= p < hi && MatchesAt(source, pattern, p) ==> p in r
    ensures forall i, k :: 0 <= i < k < |r| ==> r[i] < r[k]
  {
    if hi == 0 then []
    else OccurrencesBelow(source, pattern, hi - 1) + (if MatchesAt(source, pattern, hi - 1) then [hi - 1] else [])
  }

  /** Every offset where `pattern` occurs in `source`, overlapping ones included, in ascending order. */
  function Occurrences(source: Text, pattern: Text): (r: seq<int>)
    ensures forall i :: 0 <= i < |r| ==> MatchesAt(source, pattern, r[i])
    ensures forall p :: MatchesAt(source, pattern, p) <==> p in r
    ensures forall i, k :: 0 <= i < k < |r| ==> r[i] < r[k]
  {
    OccurrencesBelow(source, pattern, |source| + 1)
  }

  /** The first element of `s`, as a sequence of length at most one. */
  function TakeFirst(s: seq<int>): (r: seq<int>)
    ensures |r| <= 1 && r <= s
    ensures |r| == 1 <==> s != []
  {
    if s == [] then [] else [s[0]]
  }

  /** The last element of `s`, or `otherwise` when `s` is empty. */
  function LastOr(s: seq<int>, otherwise: int): (r: int)
    ensures s == [] ==> r == otherwise
    ensures s != [] ==> r == s[|s| - 1] && r in s
  {
    if s == [] then otherwise else s[|s| - 1]
  }

  /** No occurrence in [lo, hi) means the occurrences below `hi` are those below `lo`. */
  lemma {:induction false} OccurrencesBelowSkip(source: Text, pattern: Text, lo: nat, hi: nat)
    requires lo <= hi
    requires forall p :: lo <= p < hi ==> !MatchesAt(source, pattern, p)
    ensures OccurrencesBelow(source, pattern, hi) == OccurrencesBelow(source, pattern, lo)
    decreases hi - lo
  {
    if lo < hi {
      OccurrencesBelowSkip(source, pattern, lo, hi - 1);
    }
  }

  /** Raising the bound only appends: the occurrences below `lo` are a prefix of those below `hi`. */
  lemma {:induction false} OccurrencesBelowPrefix(source: Text, pattern: Text, lo: nat, hi: nat)
    requires lo <= hi
    ensures OccurrencesBelow(source, pattern, lo) <= OccurrencesBelow(source, pattern, hi)
    decreases hi - lo
  {
    if lo < hi {
      OccurrencesBelowPrefix(source, pattern, lo, hi - 1);
    }
  }

  /** Once the bound passes the last place a match can start, every occurrence is below it. */
  lemma OccurrencesBelowAll(source: Text, pattern: Text, hi: nat)
    requires hi > |source| - |pattern|
    ensures OccurrencesBelow(source, pattern, hi) == Occurrences(source, pattern)
  {
    var top := |source| + 1;
    if hi <= top {
      OccurrencesBelowSkip(source, pattern, hi, top);
    } else {
      OccurrencesBelowSkip(source, pattern, top, hi);
    }
  }

  /** When nothing occurs below `j` and `j` is an occurrence, `j` is the first occurrence. */
  lemma FirstOccurrenceAt(source: Text, pattern: Text, j: nat)
    requires OccurrencesBelow(source, pattern, j) == []
    requires MatchesAt(source, pattern, j)
    ensures TakeFirst(Occurrences(source, pattern)) == [j]
  {
    OccurrencesBelowPrefix(source, pattern, j + 1, |source| + 1);
    assert OccurrencesBelow(source, pattern, j + 1) == [j];
  }

  /** `String.indexOf(pattern)` finds the first of all occurrences, or -1 when there is none. */
  lemma {:induction false} IndexOfIsFirstOccurrence(source: Text, pattern: Text)
    ensures Occurrences(source, pattern) == [] ==> IndexOf(source, pattern, 0) == INDEX_NOT_FOUND
    ensures Occurrences(source, pattern) != [] ==> IndexOf(source, pattern, 0) == Occurrences(source, pattern)[0]
  {
    var occ := Occurrences(source, pattern);
    var r := IndexOf(source, pattern, 0);
    IndexOfLeast(source, pattern, 0);
    if r != INDEX_NOT_FOUND {
      assert MatchesAt(source, pattern, r);
    }
    if occ != [] {
      assert MatchesAt(source, pattern, occ[0]);
      assert forall i :: 0 < i < |occ| ==> occ[0] < occ[i];
    }
  }

  /** Two strictly ascending sequences with the same elements are equal. */
  lemma {:induction false} AscendingUnique(a: seq<int>, b: seq<int>)
    requires forall i, k :: 0 <= i < k < |a| ==> a[i] < a[k]
    requires forall i, k :: 0 <= i < k < |b| ==> b[i] < b[k]
    requires forall v :: v in a <==> v in b
    ensures a == b
  {
    assert a == [] <==> b == [] by {
      if a != [] {
        assert a[0] in a;
      }
      if b != [] {
        assert b[0] in b;
      }
    }
    if a != [] {
      assert a[0] == b[0] by {
        assert a[0] in a && b[0] in b;
        var i :| 0 <= i < |b| && b[i] == a[0];
        var k :| 0 <= k < |a| && a[k] == b[0];
        assert b[0] <= b[i] && a[0] <= a[k];
      }
      forall v ensures v in a[1..] <==> v in b[1..] {
        if v in a[1..] {
          assert v in b && v != b[0];
        }
        if v in b[1..] {
          assert v in a && v != a[0];
        }
      }
      AscendingUnique(a[1..], b[1..]);
      assert a == [a[0]] + a[1..] && b == [b[0]] + b[1..];
    }
  }

  /** Three adjacent slices from the start join into one. */
  lemma Adjacent(s: Text, a: int, b: int, c: int)
    requires 0 <= a <= b <= c <= |s|
    ensures s[..a] + s[a..b] + s[b..c] == s[..c]
  {
    assert s[..a] + s[a..b] == s[..b];
  }

  /**
   * `String.replace(target, replacement)` for a non-empty target, applied to
   * the text from `from` on: each `indexOf` hit, searching on from just
   * after the previous one, is replaced, and the rest is kept.
   */
  function StringReplace(source: Text, target: Text, replacement: Text, from: nat): Text
    requires target != [] && from <= |source|
    decreases |source| - from
  {
    IndexOfLeast(source, target, from);
    var i := IndexOf(source, target, from);
    if i == INDEX_NOT_FOUND then source[from..]
    else source[from..i] + replacement + StringReplace(source, target, replacement, i + |target|)
  }

  /**
   * One step of `String.replace`: with no further hit the rest is kept;
   * otherwise the text up to the hit, the replacement, then the rest
   * replaced.
   */
  lemma StringReplaceStep(source: Text, target: Text, replacement: Text, from: nat, i: int)
    requires target != [] && from <= |source| && i == IndexOf(source, target, from)
    ensures i == INDEX_NOT_FOUND ==> StringReplace(source, target, replacement, from) == source[from..]
    ensures i != INDEX_NOT_FOUND ==> from <= i && i + |target| <= |source|
    ensures i != INDEX_NOT_FOUND ==>
      StringReplace(source, target, replacement, from) ==
        source[from..i] + replacement + StringReplace(source, target, replacement, i + |target|)
  {
    IndexOfLeast(source, target, from);
  }
}
