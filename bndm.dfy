/**
 * Backward Nondeterministic DAWG Matching over 32-bit words, as the library
 * runs it for patterns of two characters or more.
 *
 * The scan slides a window of the pattern's length over the source. Inside
 * a window it reads characters right to left and keeps in `d` one bit per
 * place of the pattern where the suffix of the window read so far still
 * occurs. A window read to its start with a bit left is a match; the last
 * place where some bit was alive tells how far the window may move.
 */
module BNDM {
  import opened Strings
  import opened Bits32

  /** Size of the character table: one entry per UTF-16 code unit. */
  const ALPHABET: nat := 0x1_0000

  /** The word `s` of the preprocessing loop after `n` shifts: bit `n` alone, or 0 once `n` is past bit 31. */
  function ShiftedOne(n: nat): bv32
  {
    if n == 0 then 1 else ShiftedOne(n - 1) << 1
  }

  /**
   * The mask of character `c` once the last `done` characters of the
   * pattern have been entered, last character first.
   */
  function PartialMask(pattern: Text, c: Char16, done: nat): bv32
    requires done <= |pattern|
  {
    if done == 0 then 0
    else PartialMask(pattern, c, done - 1) | (if pattern[|pattern| - done] == c then ShiftedOne(done - 1) else 0)
  }

  /** The mask of character `c` for `pattern`. */
  function Mask(pattern: Text, c: Char16): bv32
  {
    PartialMask(pattern, c, |pattern|)
  }

  /** `masks` is the character table of `pattern`. */
  ghost predicate MasksFor(pattern: Text, masks: seq<bv32>)
  {
    |masks| == ALPHABET && forall c: Char16 :: masks[c] == Mask(pattern, c)
  }

  /** After `n` shifts, exactly bit `n` of the word is set; none once `n` reaches 32. */
  lemma {:induction false} ShiftedOneBit(n: nat, k: nat)
    requires k < 32
    ensures Bit(ShiftedOne(n), k) <==> k == n
  {
    if n == 0 {
      BitOne(k);
    } else {
      BitShl(ShiftedOne(n - 1), k);
      if k > 0 {
        ShiftedOneBit(n - 1, k - 1);
      }
    }
  }

  /** Bit `k` of a partial mask is set exactly when `c` stands `k` places from the end and that place is entered. */
  lemma {:induction false} PartialMaskBit(pattern: Text, c: Char16, done: nat, k: nat)
    requires done <= |pattern| && k < 32
    ensures Bit(PartialMask(pattern, c, done), k) <==> k < done && pattern[|pattern| - 1 - k] == c
  {
    if done == 0 {
      BitZero(k);
    } else {
      var entered := if pattern[|pattern| - done] == c then ShiftedOne(done - 1) else 0;
      PartialMaskBit(pattern, c, done - 1, k);
      BitOr(PartialMask(pattern, c, done - 1), entered, k);
      if pattern[|pattern| - done] == c {
        ShiftedOneBit(done - 1, k);
      } else {
        BitZero(k);
      }
    }
  }

  /**
   * Bit `k` of the mask of `c` is set exactly when `c` stands `k` places
   * from the end of the pattern; only the last 32 characters of a longer
   * pattern leave a bit.
   */
  lemma MaskBit(pattern: Text, masks: seq<bv32>, c: Char16, k: nat)
    requires MasksFor(pattern, masks) && k < 32
    ensures Bit(masks[c], k) <==> k < |pattern| && pattern[|pattern| - 1 - k] == c
  {
    PartialMaskBit(pattern, c, |pattern|, k);
  }

  /** Shifting the word for place `n` once gives the word for place `n + 1`. */
  lemma ShiftedOneNext(n: nat)
    ensures ShiftedOne(n + 1) == ShiftedOne(n) << 1
  {
  }

  /** Entering the character at offset `i` changes only the mask of that character. */
  lemma EnterPlace(pattern: Text, c: Char16, i: nat)
    requires i < |pattern|
    ensures PartialMask(pattern, c, |pattern| - i) ==
      if pattern[i] == c then PartialMask(pattern, c, |pattern| - 1 - i) | ShiftedOne(|pattern| - 1 - i)
      else PartialMask(pattern, c, |pattern| - 1 - i)
  {
  }

  /** A table with one zero word per character, as `new int[ALPHABET_SIZE]` allocates it. */
  method NewTable() returns (b: array<bv32>)
    ensures fresh(b) && b.Length == ALPHABET
    ensures forall c: Char16 :: b[c] == 0
  {
    b := new bv32[ALPHABET];
    var i := 0;
    while i < b.Length
      invariant 0 <= i <= b.Length
      invariant forall c :: 0 <= c < i ==> b[c] == 0
    {
      b[i] := 0;
      i := i + 1;
    }
  }

  /** One step of the preprocessing loop: the character at offset `i` gains the word `s`. */
  method AddPlace(b: array<bv32>, pattern: Text, i: nat, s: bv32)
    requires b.Length == ALPHABET && i < |pattern|
    requires s == ShiftedOne(|pattern| - 1 - i)
    requires forall c: Char16 :: b[c] == PartialMask(pattern, c, |pattern| - 1 - i)
    modifies b
    ensures forall c: Char16 :: b[c] == PartialMask(pattern, c, |pattern| - i)
  {
    b[pattern[i]] := b[pattern[i]] | s;
    forall c: Char16
      ensures b[c] == PartialMask(pattern, c, |pattern| - i)
    {
      EnterPlace(pattern, c, i);
    }
  }

  /** `BNDM.find`'s preprocessing: a zeroed table, then each pattern character's mask gains the shifted word. */
  method BuildMasks(pattern: Text) returns (b: array<bv32>)
    ensures fresh(b) && b.Length == ALPHABET
    ensures forall c: Char16 :: b[c] == Mask(pattern, c)
  {
    b := NewTable();
    var s: bv32 := 1;
    var i := |pattern| - 1;
    ghost var done: nat := 0;
    while i >= 0
      invariant -1 <= i < |pattern| && done == |pattern| - 1 - i
      invariant s == ShiftedOne(done)
      invariant forall c: Char16 :: b[c] == PartialMask(pattern, c, done)
    {
      AddPlace(b, pattern, i, s);
      ShiftedOneNext(done);
      s := s << 1;
      i := i - 1;
      done := done + 1;
    }
  }

  /** The table `BuildMasks` fills, read as a sequence, holds every character's mask. */
  lemma TableMasks(pattern: Text, b: array<bv32>)
    requires b.Length == ALPHABET
    requires forall c: Char16 :: b[c] == Mask(pattern, c)
    ensures MasksFor(pattern, b[..])
  {
    assert forall c: Char16 :: b[..][c] == b[c];
  }

  /**
   * With the window at `j`, once the characters from offset `lo` to the end
   * of the window have been read, they occur in the pattern at place `p`;
   * the word tracks only the last 32 places of the pattern.
   */
  ghost predicate Viable(pattern: Text, source: Text, j: int, lo: int, p: int)
    requires 0 <= j && j + |pattern| <= |source| && 0 <= lo <= |pattern|
  {
    0 <= p <= lo && |pattern| - 32 <= p &&
    pattern[p..p + |pattern| - lo] == source[j + lo..j + |pattern|]
  }

  /** `d` just after reading offset `lo` of the window: bit `k` stands for place `m - 1 - k`. */
  ghost predicate AfterRead(pattern: Text, source: Text, j: int, lo: int, d: bv32)
    requires 0 <= j && j + |pattern| <= |source| && 0 <= lo <= |pattern|
  {
    forall k: nat :: k < 32 ==> (Bit(d, k) <==> Viable(pattern, source, j, lo, |pattern| - 1 - k))
  }

  /**
   * `d` at the head of the inner loop with offsets `lo` and up read: all
   * ones before the first read, and otherwise the shifted word, whose bit
   * `k` stands for place `m - k` (bit 0 is clear, since that place lies
   * past the part read).
   */
  ghost predicate AtHead(pattern: Text, source: Text, j: int, lo: int, d: bv32)
    requires 0 <= j && j + |pattern| <= |source| && 0 <= lo <= |pattern|
  {
    if lo == |pattern| then d == !0
    else forall k: nat :: k < 32 ==> (Bit(d, k) <==> Viable(pattern, source, j, lo, |pattern| - k))
  }

  /** Extending the read part by one character to the left: the place moves one to the left too. */
  lemma ViableStep(pattern: Text, source: Text, j: int, lo: int, p: int)
    requires 0 <= j && j + |pattern| <= |source| && 1 <= lo <= |pattern|
    requires |pattern| - 32 <= p <= |pattern| - 1
    ensures Viable(pattern, source, j, lo - 1, p) <==>
      0 <= p && pattern[p] == source[j + lo - 1] && (lo == |pattern| || Viable(pattern, source, j, lo, p + 1))
  {
    var m := |pattern|;
    if 0 <= p <= lo - 1 {
      assert pattern[p..p + m - lo + 1] == [pattern[p]] + pattern[p + 1..p + 1 + m - lo];
      assert source[j + lo - 1..j + m] == [source[j + lo - 1]] + source[j + lo..j + m];
    }
  }

  /** Reading one more character keeps bit `k` exactly when it was alive and the character fits. */
  lemma ReadBit(pattern: Text, source: Text, j: int, lo: int, d: bv32, mask: bv32, k: nat)
    requires 0 <= j && j + |pattern| <= |source| && 1 <= lo <= |pattern| && k < 32
    requires Bit(mask, k) <==> k < |pattern| && pattern[|pattern| - 1 - k] == source[j + lo - 1]
    requires Bit(d, k) <==> lo == |pattern| || Viable(pattern, source, j, lo, |pattern| - k)
    ensures Bit(d & mask, k) <==> Viable(pattern, source, j, lo - 1, |pattern| - 1 - k)
  {
    BitAnd(d, mask, k);
    ViableStep(pattern, source, j, lo, |pattern| - 1 - k);
  }

  /** One bit of the word at the head of the inner loop. */
  lemma HeadBit(pattern: Text, source: Text, j: int, lo: int, d: bv32, k: nat)
    requires 0 <= j && j + |pattern| <= |source| && 0 <= lo <= |pattern| && k < 32
    requires AtHead(pattern, source, j, lo, d)
    ensures Bit(d, k) <==> lo == |pattern| || Viable(pattern, source, j, lo, |pattern| - k)
  {
    if lo == |pattern| {
      BitAllOnes(k);
    }
  }

  /** Bit `k` after a read, in terms of the character table and the word before it. */
  lemma ReadBitFromTable(pattern: Text, source: Text, j: int, lo: int, d: bv32, masks: seq<bv32>, k: nat)
    requires 0 <= j && j + |pattern| <= |source| && 1 <= lo <= |pattern| && k < 32
    requires MasksFor(pattern, masks)
    requires AtHead(pattern, source, j, lo, d)
    ensures Bit(d & masks[source[j + lo - 1]], k) <==> Viable(pattern, source, j, lo - 1, |pattern| - 1 - k)
  {
    MaskBit(pattern, masks, source[j + lo - 1], k);
    HeadBit(pattern, source, j, lo, d, k);
    ReadBit(pattern, source, j, lo, d, masks[source[j + lo - 1]], k);
  }

  /** Reading the character at offset `i` of the window is an `&` with that character's mask. */
  lemma ReadStep(pattern: Text, source: Text, j: int, i: int, d: bv32, masks: seq<bv32>)
    requires 0 <= j && j + |pattern| <= |source| && 0 <= i < |pattern|
    requires MasksFor(pattern, masks)
    requires AtHead(pattern, source, j, i + 1, d)
    ensures AfterRead(pattern, source, j, i, d & masks[source[j + i]])
  {
    var lo := i + 1;
    assert lo - 1 == i;
    var e := d & masks[source[j + i]];
    forall k: nat | k < 32
      ensures Bit(e, k) <==> Viable(pattern, source, j, i, |pattern| - 1 - k)
    {
      ReadBitFromTable(pattern, source, j, lo, d, masks, k);
    }
    assert AfterRead(pattern, source, j, i, e);
  }

  /** Shifting left by one moves from "just read" to "ready for the next read". */
  lemma ShiftStep(pattern: Text, source: Text, j: int, lo: int, d: bv32)
    requires 0 <= j && j + |pattern| <= |source| && 0 <= lo < |pattern|
    requires AfterRead(pattern, source, j, lo, d)
    ensures AtHead(pattern, source, j, lo, d << 1)
  {
    var e := d << 1;
    forall k: nat | k < 32
      ensures Bit(e, k) <==> Viable(pattern, source, j, lo, |pattern| - k)
    {
      BitShl(d, k);
    }
  }

  /** Every piece of an occurrence is the matching piece of the source. */
  lemma MatchSlice(source: Text, pattern: Text, a: int, u: int, v: int)
    requires MatchesAt(source, pattern, a) && 0 <= u <= v <= |pattern|
    ensures pattern[u..v] == source[a + u..a + v]
  {
    assert source[a..a + |pattern|] == pattern;
    forall t | 0 <= t < v - u
      ensures pattern[u..v][t] == source[a + u..a + v][t]
    {
      assert pattern[u + t] == source[a..a + |pattern|][u + t];
    }
  }

  /** An occurrence starting inside the part of the window already read keeps `d` alive. */
  lemma AliveAfterRead(pattern: Text, source: Text, j: int, lo: int, d: bv32, q: int)
    requires 0 <= j && j + |pattern| <= |source| && 0 <= lo < |pattern|
    requires AfterRead(pattern, source, j, lo, d)
    ensures |pattern| <= 32 && 0 <= q <= lo && MatchesAt(source, pattern, j + q) ==> d != 0
  {
    var m := |pattern|;
    if m <= 32 && 0 <= q <= lo && MatchesAt(source, pattern, j + q) {
      var p := lo - q;
      var k := m - 1 - p;
      MatchSlice(source, pattern, j + q, p, p + m - lo);
      assert Viable(pattern, source, j, lo, m - 1 - k);
      assert Bit(d, k);
      if d == 0 {
        BitZero(k);
        assert false;
      }
    }
  }

  /** The same, at the head of the inner loop. */
  lemma AliveAtHead(pattern: Text, source: Text, j: int, lo: int, d: bv32, q: int)
    requires 0 <= j && j + |pattern| <= |source| && 0 <= lo < |pattern|
    requires AtHead(pattern, source, j, lo, d)
    ensures |pattern| <= 32 && 0 <= q < lo && MatchesAt(source, pattern, j + q) ==> d != 0
  {
    var m := |pattern|;
    if m <= 32 && 0 <= q < lo && MatchesAt(source, pattern, j + q) {
      var p := lo - q;
      var k := m - p;
      MatchSlice(source, pattern, j + q, p, p + m - lo);
      assert Viable(pattern, source, j, lo, m - k);
      assert Bit(d, k);
      if d == 0 {
        BitZero(k);
        assert false;
      }
    }
  }

  /** After reading the whole window, `d` is nonzero exactly when the window is a match the word can track. */
  lemma FullWindow(pattern: Text, source: Text, j: int, d: bv32)
    requires 0 <= j && j + |pattern| <= |source| && 1 <= |pattern|
    requires AfterRead(pattern, source, j, 0, d)
    ensures d != 0 <==> |pattern| <= 32 && MatchesAt(source, pattern, j)
  {
    AliveAfterRead(pattern, source, j, 0, d, 0);
    if d != 0 {
      var k := SomeBit(d);
      assert Viable(pattern, source, j, 0, |pattern| - 1 - k);
    }
  }

  /**
   * What `find` hands to its job, in order: position 0 when the pattern is
   * the whole source; otherwise nothing for a pattern longer than 32
   * characters, and for a shorter one every occurrence, overlapping ones
   * included, or just the first when only the first is asked for.
   */
  function Reports(source: Text, pattern: Text, onlyFirst: bool): seq<int>
  {
    if |pattern| == |source| && pattern == source then [0]
    else if |pattern| > 32 then []
    else if onlyFirst then TakeFirst(Occurrences(source, pattern))
    else Occurrences(source, pattern)
  }

  /**
   * One window of the searching phase, at offset `j`: reads it right to
   * left while some bit of `d` is alive, and tells whether the whole window
   * matched and how far the window moves next (`last`). No occurrence is
   * skipped by that move.
   */
  method ScanWindow(x: Text, y: Text, b: array<bv32>, j: int) returns (matched: bool, last: int)
    requires 1 <= |x| && 0 <= j && j + |x| <= |y|
    requires MasksFor(x, b[..])
    ensures 1 <= last <= |x|
    ensures matched <==> |x| <= 32 && MatchesAt(y, x, j)
    ensures forall p :: j < p < j + last ==> !(|x| <= 32 && MatchesAt(y, x, p))
  {
    var i := |x| - 1;
    last := |x|;
    matched := false;
    var d: bv32 := !0;
    ghost var hi := |x|;
    while i >= 0 && d != 0
      invariant -1 <= i < |x| && hi == i + 1
      invariant 1 <= last <= |x|
      invariant AtHead(x, y, j, hi, d)
      invariant forall p :: j + hi <= p < j + last && j + 1 <= p ==> !(|x| <= 32 && MatchesAt(y, x, p))
      invariant matched <==> i < 0 && |x| <= 32 && MatchesAt(y, x, j)
      decreases i + 1
    {
      ReadStep(x, y, j, i, d, b[..]);
      assert b[..][y[j + i]] == b[y[j + i]];
      d := d & b[y[j + i]];
      AliveAfterRead(x, y, j, i, d, i);
      if i == 0 {
        FullWindow(x, y, j, d);
      }
      if d != 0 {
        if i > 0 {
          last := i;
        } else {
          matched := true;
        }
      }
      ShiftStep(x, y, j, i, d);
      d := d << 1;
      hi := i;
      i := i - 1;
    }
    if i >= 0 {
      forall p | j <= p < j + hi
        ensures !(|x| <= 32 && MatchesAt(y, x, p))
      {
        AliveAtHead(x, y, j, hi, d, p - j);
      }
    }
  }

  /** Moving the window by `last` collects exactly the match at `j`, if any. */
  lemma Advance(source: Text, pattern: Text, j: nat, last: int, matched: bool)
    requires 1 <= last
    requires matched <==> |pattern| <= 32 && MatchesAt(source, pattern, j)
    requires forall p :: j < p < j + last ==> !(|pattern| <= 32 && MatchesAt(source, pattern, p))
    ensures |pattern| <= 32 ==>
      OccurrencesBelow(source, pattern, j + last) == OccurrencesBelow(source, pattern, j) + (if matched then [j] else [])
  {
    if |pattern| <= 32 {
      OccurrencesBelowSkip(source, pattern, j + 1, j + last);
    }
  }

  /** A first match at `j` is all that `find` reports when only the first is asked for. */
  lemma FirstReport(source: Text, pattern: Text, j: nat)
    requires pattern != source && |pattern| <= 32
    requires OccurrencesBelow(source, pattern, j) == [] && MatchesAt(source, pattern, j)
    ensures Reports(source, pattern, true) == [j]
  {
    FirstOccurrenceAt(source, pattern, j);
  }

  /** Once the window has passed the end, the matches collected are all that `find` reports. */
  lemma ScanComplete(source: Text, pattern: Text, j: nat, onlyFirst: bool, reports: seq<int>)
    requires pattern != source && j > |source| - |pattern|
    requires reports == (if |pattern| <= 32 then OccurrencesBelow(source, pattern, j) else [])
    requires onlyFirst ==> reports == []
    ensures reports == Reports(source, pattern, onlyFirst)
  {
    if |pattern| <= 32 {
      OccurrencesBelowAll(source, pattern, j);
    }
  }

  /**
   * The searching phase of `BNDM.find`: windows at increasing offsets, each
   * moved on by what its reading found. A matching window is reported as
   * soon as it has been read, and with `onlyFirst` the scan stops there.
   */
  method Search(x: Text, y: Text, b: array<bv32>, onlyFirst: bool) returns (reports: seq<int>)
    requires x != [] && x != y
    requires MasksFor(x, b[..])
    ensures reports == Reports(y, x, onlyFirst)
  {
    reports := [];
    var j := 0;
    while j <= |y| - |x|
      invariant 0 <= j
      invariant reports == (if |x| <= 32 then OccurrencesBelow(y, x, j) else [])
      invariant onlyFirst ==> reports == []
      decreases |y| - j
    {
      var matched, last := ScanWindow(x, y, b, j);
      Advance(y, x, j, last, matched);
      if matched {
        reports := reports + [j];
        if onlyFirst {
          FirstReport(y, x, j);
          return;
        }
      }
      j := j + last;
    }
    ScanComplete(y, x, j, onlyFirst, reports);
  }

  /**
   * `BNDM.find`: the positions handed to `job.apply`, in call order. An
   * empty pattern is only handled when the source is empty too; against any
   * other source the scan does not terminate.
   */
  method Find(source: Text, pattern: Text, onlyFirst: bool) returns (reports: seq<int>)
    requires pattern != [] || source == []
    ensures reports == Reports(source, pattern, onlyFirst)
  {
    if |pattern| == |source| && pattern == source {
      reports := [0];
      return;
    }
    var b := BuildMasks(pattern);
    TableMasks(pattern, b);
    reports := Search(pattern, source, b, onlyFirst);
  }
}
