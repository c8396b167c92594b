/** Cutting a sequence into contiguous chunks (`<[T]>::chunks`) and gluing them back. */
module Chunking {

  /** The chunks laid end to end. */
  function Flatten<T>(cs: seq<seq<T>>): seq<T> {
    if |cs| == 0 then [] else cs[0] + Flatten(cs[1..])
  }

  /**
   * Consecutive chunks of `size` elements, the last one possibly shorter;
   * no chunk at all for an empty sequence.
   */
  function Chunks<T>(s: seq<T>, size: nat): (cs: seq<seq<T>>)
    requires size >= 1
    ensures Flatten(cs) == s
    ensures |cs| <= |s|
    ensures forall c :: 0 <= c < |cs| ==> 1 <= |cs[c]| <= size
    ensures forall c :: 0 <= c < |cs| - 1 ==> |cs[c]| == size
    ensures forall c, x :: 0 <= c < |cs| && x in cs[c] ==> x in s
    decreases |s|
  {
    if |s| == 0 then []
    else if |s| <= size then
      assert Flatten([s]) == s + Flatten<T>([]);
      [s]
    else
      var rest := Chunks(s[size..], size);
      var cs := [s[..size]] + rest;
      assert cs[1..] == rest;
      assert s == s[..size] + s[size..];
      cs
  }

  /** Replacing every chunk by a rearrangement of itself rearranges the whole. */
  lemma {:induction false} FlattenMultiset<T>(cs: seq<seq<T>>, ds: seq<seq<T>>)
    requires |cs| == |ds|
    requires forall c :: 0 <= c < |cs| ==> multiset(cs[c]) == multiset(ds[c])
    ensures multiset(Flatten(cs)) == multiset(Flatten(ds))
  {
    if |cs| > 0 {
      FlattenMultiset(cs[1..], ds[1..]);
    }
  }

  /** Sum of the cursor values: how many elements the cursors have passed in all. */
  function SumOf(idx: seq<nat>): nat {
    if |idx| == 0 then 0 else idx[0] + SumOf(idx[1..])
  }

  /** Every cursor stays within its chunk. */
  ghost predicate CursorsInRange<T>(cs: seq<seq<T>>, idx: seq<nat>) {
    |idx| == |cs| && forall c :: 0 <= c < |cs| ==> idx[c] <= |cs[c]|
  }

  /** The elements the cursors have passed: chunk by chunk, the prefix before each cursor. */
  ghost function Consumed<T>(cs: seq<seq<T>>, idx: seq<nat>): seq<T>
    requires CursorsInRange(cs, idx)
  {
    if |cs| == 0 then [] else cs[0][..idx[0]] + Consumed(cs[1..], idx[1..])
  }

  /** The cursors have passed as many elements as their sum, and no more than there are. */
  lemma {:induction false} ConsumedLength<T>(cs: seq<seq<T>>, idx: seq<nat>)
    requires CursorsInRange(cs, idx)
    ensures |Consumed(cs, idx)| == SumOf(idx) <= |Flatten(cs)|
  {
    if |cs| > 0 {
      ConsumedLength(cs[1..], idx[1..]);
    }
  }

  /** Advancing one cursor raises the sum by one. */
  lemma {:induction false} SumOfAdvance(idx: seq<nat>, c: nat)
    requires c < |idx|
    ensures SumOf(idx[c := idx[c] + 1]) == SumOf(idx) + 1
  {
    if c > 0 {
      assert idx[c := idx[c] + 1][1..] == idx[1..][c - 1 := idx[c] + 1];
      SumOfAdvance(idx[1..], c - 1);
    } else {
      assert idx[c := idx[c] + 1][1..] == idx[1..];
    }
  }

  /** Advancing one cursor passes exactly the element it pointed at. */
  lemma {:induction false} ConsumedAdvance<T>(cs: seq<seq<T>>, idx: seq<nat>, c: nat)
    requires CursorsInRange(cs, idx) && c < |cs| && idx[c] < |cs[c]|
    ensures CursorsInRange(cs, idx[c := idx[c] + 1])
    ensures multiset(Consumed(cs, idx[c := idx[c] + 1])) == multiset(Consumed(cs, idx)) + multiset{cs[c][idx[c]]}
  {
    var idx' := idx[c := idx[c] + 1];
    var front := cs[0][..idx[0]];
    var rest := Consumed(cs[1..], idx[1..]);
    if c == 0 {
      ConsumedAdvanceFirst(cs, idx);
    } else {
      assert idx'[1..] == idx[1..][c - 1 := idx[c] + 1];
      ConsumedAdvance(cs[1..], idx[1..], c - 1);
      AddToTail(front, rest, Consumed(cs[1..], idx'[1..]), cs[c][idx[c]]);
    }
  }

  /** `ConsumedAdvance` for the first chunk's cursor. */
  lemma ConsumedAdvanceFirst<T>(cs: seq<seq<T>>, idx: seq<nat>)
    requires CursorsInRange(cs, idx) && 0 < |cs| && idx[0] < |cs[0]|
    ensures CursorsInRange(cs, idx[0 := idx[0] + 1])
    ensures multiset(Consumed(cs, idx[0 := idx[0] + 1])) == multiset(Consumed(cs, idx)) + multiset{cs[0][idx[0]]}
  {
    var idx' := idx[0 := idx[0] + 1];
    var front := cs[0][..idx[0]];
    var rest := Consumed(cs[1..], idx[1..]);
    assert idx'[1..] == idx[1..];
    assert cs[0][..idx[0] + 1] == front + [cs[0][idx[0]]];
    InsertInMiddle(front, cs[0][idx[0]], rest);
  }

  /** Putting `x` between two parts adds one `x`. */
  lemma InsertInMiddle<T>(front: seq<T>, x: T, rest: seq<T>)
    ensures multiset(front + [x] + rest) == multiset(front + rest) + multiset{x}
  {
  }

  /** Adding one `x` to the tail adds one `x` to the whole. */
  lemma AddToTail<T>(front: seq<T>, rest: seq<T>, rest': seq<T>, x: T)
    requires multiset(rest') == multiset(rest) + multiset{x}
    ensures multiset(front + rest') == multiset(front + rest) + multiset{x}
  {
  }

  /** While fewer elements than there are have been passed, some cursor is short of its chunk's end. */
  lemma {:induction false} SomeChunkRemains<T>(cs: seq<seq<T>>, idx: seq<nat>)
    requires CursorsInRange(cs, idx) && SumOf(idx) < |Flatten(cs)|
    ensures exists c :: 0 <= c < |cs| && idx[c] < |cs[c]|
  {
    assert |cs| > 0;
    if idx[0] == |cs[0]| {
      SomeChunkRemains(cs[1..], idx[1..]);
      var c :| 0 <= c < |cs| - 1 && idx[1..][c] < |cs[1..][c]|;
      assert idx[c + 1] < |cs[c + 1]|;
    }
  }

  /** Once as many elements as there are have been passed, the cursors have passed everything, in chunk order. */
  lemma {:induction false} AllConsumed<T>(cs: seq<seq<T>>, idx: seq<nat>)
    requires CursorsInRange(cs, idx) && SumOf(idx) == |Flatten(cs)|
    ensures Consumed(cs, idx) == Flatten(cs)
  {
    if |cs| > 0 {
      ConsumedLength(cs[1..], idx[1..]);
      AllConsumed(cs[1..], idx[1..]);
      assert cs[0][..idx[0]] == cs[0];
    }
  }

  /** Cursors all at the start have passed nothing. */
  lemma {:induction false} NoneConsumed<T>(cs: seq<seq<T>>, idx: seq<nat>)
    requires |idx| == |cs| && forall c :: 0 <= c < |cs| ==> idx[c] == 0
    ensures CursorsInRange(cs, idx) && SumOf(idx) == 0 && Consumed(cs, idx) == []
  {
    if |cs| > 0 {
      NoneConsumed(cs[1..], idx[1..]);
    }
  }
}
