/**
 * The jobs a scanner reports to. Each receives positions through `Apply`,
 * one call per reported occurrence, and is read once through `Result`:
 * `Find` remembers the last position, `FindAll` collects them all, and
 * `Replace` splices a replacement text into a copy of the source at each.
 */
module Functions {
  import opened Strings

  /** The job that keeps the last position it was given, or -1 before any. */
  class Find {
    var result: int
    /** Every position applied so far, in call order. */
    ghost var applied: seq<int>

    ghost predicate Valid()
      reads this
    {
      result == LastOr(applied, INDEX_NOT_FOUND)
    }

    constructor()
      ensures applied == [] && result == INDEX_NOT_FOUND && Valid()
    {
      result := INDEX_NOT_FOUND;
      applied := [];
    }

    /** Overwrites the kept position. */
    method Apply(position: int)
      modifies this
      ensures applied == old(applied) + [position] && result == position
      ensures old(Valid()) ==> Valid()
    {
      result := position;
      applied := applied + [position];
    }

    /** The most recently applied position, or -1 when there was none; reading changes nothing. */
    method Result() returns (r: int)
      requires Valid()
      ensures applied != [] ==> r == applied[|applied| - 1]
      ensures applied == [] ==> r == INDEX_NOT_FOUND
    {
      r := result;
    }
  }

  /** The job that collects every position in call order. */
  class FindAll {
    var positions: seq<int>

    constructor()
      ensures positions == []
    {
      positions := [];
    }

    /** Appends at the end; earlier entries stay as they are. */
    method Apply(position: int)
      modifies this
      ensures positions == old(positions) + [position]
    {
      positions := positions + [position];
    }

    /** The positions, one per `Apply`, in call order. */
    method Result() returns (r: seq<int>)
      ensures r == positions
    {
      r := positions;
    }
  }

  /** Where the text after the last splice starts: just past the last replaced window, or 0. */
  function Cursor(length: nat, positions: seq<int>): int
  {
    if positions == [] then 0 else positions[|positions| - 1] + length
  }

  /**
   * Every `Apply` of `positions`, in order, passes the bounds of
   * `content.substring(lastPosition, position)`: the cursor is not negative,
   * not past the position, and the position is not past the end.
   */
  predicate Appliable(content: Text, length: nat, positions: seq<int>)
    decreases |positions|
  {
    positions == [] ||
    var before := positions[..|positions| - 1];
    Appliable(content, length, before) &&
    0 <= Cursor(length, before) <= positions[|positions| - 1] <= |content|
  }

  /**
   * The buffer after the `Apply` calls of `positions`: for each position,
   * the untouched text since the previous window followed by `with`.
   */
  function Spliced(content: Text, with: Text, length: nat, positions: seq<int>): Text
    requires Appliable(content, length, positions)
    decreases |positions|
  {
    if positions == [] then []
    else
      var before := positions[..|positions| - 1];
      Spliced(content, with, length, before) + content[Cursor(length, before)..positions[|positions| - 1]] + with
  }

  /** The `Apply` calls of `positions` pass, and so does the final `substring(lastPosition)`. */
  predicate Completes(content: Text, length: nat, positions: seq<int>)
  {
    Appliable(content, length, positions) && Cursor(length, positions) <= |content|
  }

  /** What `result()` returns after the `Apply` calls of `positions`: the buffer and the rest of the text. */
  function Replaced(content: Text, with: Text, length: nat, positions: seq<int>): Text
    requires Completes(content, length, positions)
  {
    Spliced(content, with, length, positions) + content[Cursor(length, positions)..]
  }

  /** A fresh `Replace` job given `positions` and then read: the replaced text, or the exception. */
  function Replacing(content: Text, with: Text, length: nat, positions: seq<int>): Outcome<Text>
  {
    if Completes(content, length, positions) then Returned(Replaced(content, with, length, positions))
    else Threw(StringIndexOutOfBoundsException)
  }

  /**
   * The job that rebuilds `content` with `with` in place of the window of
   * `length` characters at each applied position. The initial capacity of
   * the builder does not change what it holds and is not modelled.
   */
  class Replace {
    const content: Text
    const with: Text
    const length: nat
    /** The `StringBuilder`. */
    var result: Text
    var lastPosition: int
    /** Every position applied so far, in call order. */
    ghost var applied: seq<int>

    ghost predicate Valid()
      reads this
    {
      Appliable(content, length, applied) &&
      lastPosition == Cursor(length, applied) &&
      result == Spliced(content, with, length, applied)
    }

    constructor(source: Text, what: Text, with: Text)
      ensures content == source && this.with == with && length == |what|
      ensures result == [] && lastPosition == 0 && applied == [] && Valid()
    {
      this.with := with;
      this.length := |what|;
      this.content := source;
      result := [];
      lastPosition := 0;
      applied := [];
    }

    /**
     * Appends the text since the last window and then `with`, and moves the
     * cursor past the window at `position`; throws, changing nothing, when
     * `substring(lastPosition, position)` is out of bounds.
     */
    method Apply(position: int) returns (outcome: Outcome<()>)
      modifies this
      ensures outcome.Returned? <==> 0 <= old(lastPosition) <= position <= |content|
      ensures outcome.Returned? ==>
        result == old(result) + content[old(lastPosition)..position] + with &&
        lastPosition == position + length &&
        applied == old(applied) + [position]
      ensures outcome.Threw? ==>
        outcome.exception == StringIndexOutOfBoundsException &&
        result == old(result) && lastPosition == old(lastPosition) && applied == old(applied)
      ensures old(Valid()) && outcome.Returned? ==> Valid()
    {
      if 0 <= lastPosition <= position <= |content| {
        result := result + content[lastPosition..position] + with;
        lastPosition := position + length;
        applied := applied + [position];
        outcome := Returned(());
      } else {
        outcome := Threw(StringIndexOutOfBoundsException);
      }
    }

    /**
     * Appends the rest of the text after the last window and returns the
     * buffer; throws when `substring(lastPosition)` is out of bounds. The
     * buffer keeps the appended rest, so a second call appends it again.
     */
    method Result() returns (outcome: Outcome<Text>)
      modifies this
      ensures 0 <= old(lastPosition) <= |content| ==>
        outcome == Returned(old(result) + content[old(lastPosition)..]) &&
        result == outcome.value
      ensures !(0 <= old(lastPosition) <= |content|) ==>
        outcome == Threw(StringIndexOutOfBoundsException) && result == old(result)
      ensures lastPosition == old(lastPosition) && applied == old(applied)
      ensures old(Valid()) ==> outcome == Replacing(content, with, length, applied)
    {
      if 0 <= lastPosition <= |content| {
        result := result + content[lastPosition..];
        outcome := Returned(result);
      } else {
        outcome := Threw(StringIndexOutOfBoundsException);
      }
    }
  }

  /** The last `Apply` of `positions`: what it appended and where it left the cursor. */
  lemma SplicedLast(content: Text, with: Text, length: nat, positions: seq<int>)
    requires positions != [] && Appliable(content, length, positions)
    ensures var before, p := positions[..|positions| - 1], positions[|positions| - 1];
      var c := Cursor(length, before);
      Appliable(content, length, before) && 0 <= c <= p <= |content| &&
      Cursor(length, positions) == p + length &&
      Spliced(content, with, length, positions) == Spliced(content, with, length, before) + content[c..p] + with
  {
  }

  /** Every `Apply` of a prefix of `positions` passes when those of `positions` do. */
  lemma {:induction false} AppliablePrefix(content: Text, length: nat, positions: seq<int>, k: nat)
    requires k <= |positions| && Appliable(content, length, positions)
    ensures Appliable(content, length, positions[..k])
    decreases |positions|
  {
    if k < |positions| {
      var before := positions[..|positions| - 1];
      AppliablePrefix(content, length, before, k);
      assert before[..k] == positions[..k];
    } else {
      assert positions[..k] == positions;
    }
  }

  /**
   * Replacing at `positions` throws nothing exactly when the first is not
   * negative, each lies at least a window after every earlier one, and the
   * last window ends inside the text.
   */
  lemma {:induction false} CompletesIff(content: Text, length: nat, positions: seq<int>)
    ensures Completes(content, length, positions) <==>
      (positions == [] || (0 <= positions[0] && positions[|positions| - 1] + length <= |content|)) &&
      (forall i, k :: 0 <= i < k < |positions| ==> positions[i] + length <= positions[k])
    decreases |positions|
  {
    if positions != [] {
      var n := |positions|;
      var before := positions[..n - 1];
      CompletesIff(content, length, before);
      var last := positions[n - 1];
      if Completes(content, length, positions) {
        assert Appliable(content, length, before);
        AppliableCursor(content, length, before);
        assert forall i :: 0 <= i < n - 1 ==> before[i] == positions[i];
        if before != [] {
          assert before[0] == positions[0];
          assert before[n - 2] + length <= last;
        }
      }
      if (0 <= positions[0] && last + length <= |content|) &&
         (forall i, k :: 0 <= i < k < n ==> positions[i] + length <= positions[k]) {
        assert forall i, k :: 0 <= i < k < n - 1 ==> before[i] + length <= before[k];
        if before != [] {
          assert before[0] == positions[0];
          assert before[n - 2] == positions[n - 2];
          assert positions[n - 2] + length <= last;
        }
        assert Appliable(content, length, before);
      }
    }
  }

  /**
   * For windows that each lie inside the text, as occurrences do, replacing
   * throws nothing exactly when no two of them overlap.
   */
  lemma WindowsCompleteIff(content: Text, length: nat, positions: seq<int>)
    requires forall i :: 0 <= i < |positions| ==> 0 <= positions[i] && positions[i] + length <= |content|
    ensures Completes(content, length, positions) <==>
      forall i, k :: 0 <= i < k < |positions| ==> positions[i] + length <= positions[k]
  {
    CompletesIff(content, length, positions);
  }

  /**
   * Replacing at windows that each lie inside the text throws exactly when
   * two of them overlap; otherwise each window changes the length by the
   * difference of the two texts.
   */
  lemma ReplacingWindows(content: Text, with: Text, length: nat, positions: seq<int>)
    requires forall i :: 0 <= i < |positions| ==> 0 <= positions[i] && positions[i] + length <= |content|
    ensures var apart := forall i, k :: 0 <= i < k < |positions| ==> positions[i] + length <= positions[k];
      (!apart <==> Replacing(content, with, length, positions) == Threw(StringIndexOutOfBoundsException)) &&
      (apart ==>
        Completes(content, length, positions) &&
        |Replaced(content, with, length, positions)| == |content| + |positions| * (|with| - length))
  {
    WindowsCompleteIff(content, length, positions);
    if Completes(content, length, positions) {
      ReplacedLength(content, with, length, positions);
    }
  }

  /** After the `Apply` calls pass, the cursor is past every applied window. */
  lemma {:induction false} AppliableCursor(content: Text, length: nat, positions: seq<int>)
    requires Appliable(content, length, positions)
    ensures forall i :: 0 <= i < |positions| ==> positions[i] + length <= Cursor(length, positions)
    ensures 0 <= Cursor(length, positions)
    decreases |positions|
  {
    if positions != [] {
      var before := positions[..|positions| - 1];
      AppliableCursor(content, length, before);
    }
  }

  /** The buffer holds the text up to the cursor, with `with` (not the window) counted for every position. */
  lemma {:induction false} SplicedLength(content: Text, with: Text, length: nat, positions: seq<int>)
    requires Appliable(content, length, positions)
    ensures |Spliced(content, with, length, positions)| == Cursor(length, positions) + |positions| * (|with| - length)
    decreases |positions|
  {
    if positions != [] {
      var n, d := |positions|, |with| - length;
      var before := positions[..n - 1];
      SplicedLast(content, with, length, positions);
      SplicedLength(content, with, length, before);
      assert (n - 1) * d + d == n * d;
    }
  }

  /** Each replaced window changes the length by the difference of the two texts, and nothing else does. */
  lemma ReplacedLength(content: Text, with: Text, length: nat, positions: seq<int>)
    requires Completes(content, length, positions)
    ensures |Replaced(content, with, length, positions)| == |content| + |positions| * (|with| - length)
  {
    SplicedLength(content, with, length, positions);
  }

  /** With no position applied, the text comes back unchanged. */
  lemma ReplacedNothing(content: Text, with: Text, length: nat)
    ensures Replacing(content, with, length, []) == Returned(content)
  {
    assert Completes(content, length, []);
    assert Spliced(content, with, length, []) + content[0..] == content;
  }

  /** One window inside the text: replacing at it splices `with` over exactly that window. */
  lemma ReplacedOne(content: Text, with: Text, length: nat, p: int)
    requires 0 <= p && p + length <= |content|
    ensures Replacing(content, with, length, [p]) == Returned(content[..p] + with + content[p + length..])
  {
    var ps := [p];
    CompletesIff(content, length, ps);
    assert ps[..|ps| - 1] == [];
    assert Spliced(content, with, length, ps) == content[0..p] + with;
  }

  /** The buffer after splicing occurrences of `what` back in for themselves is the text up to the cursor. */
  lemma {:induction false} SplicedItself(content: Text, what: Text, positions: seq<int>)
    requires Appliable(content, |what|, positions)
    requires forall i :: 0 <= i < |positions| ==> MatchesAt(content, what, positions[i])
    ensures 0 <= Cursor(|what|, positions) <= |content|
    ensures Spliced(content, what, |what|, positions) == content[..Cursor(|what|, positions)]
    decreases |positions|
  {
    if positions != [] {
      var n := |positions|;
      var before := positions[..n - 1];
      SplicedLast(content, what, |what|, positions);
      forall i | 0 <= i < n - 1
        ensures MatchesAt(content, what, before[i])
      {
        assert before[i] == positions[i];
      }
      SplicedItself(content, what, before);
      var c, p := Cursor(|what|, before), positions[n - 1];
      assert MatchesAt(content, what, p);
      Adjacent(content, c, p, p + |what|);
    }
  }

  /** Replacing occurrences of `what` by `what` itself gives the text back. */
  lemma ReplacedItself(content: Text, what: Text, positions: seq<int>)
    requires Completes(content, |what|, positions)
    requires forall i :: 0 <= i < |positions| ==> MatchesAt(content, what, positions[i])
    ensures Replaced(content, what, |what|, positions) == content
  {
    SplicedItself(content, what, positions);
    var c := Cursor(|what|, positions);
    assert content[..c] + content[c..] == content;
  }
}
