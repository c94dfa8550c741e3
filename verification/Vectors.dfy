/** The in-place loops of vector.move. Aborts are returned as error codes. */
module Vectors {
  import opened Base

  const EINDEX_OUT_OF_BOUNDS: u64 := 0x20000

  /** An abort with one of the module's codes, or the VM's own error for a swap out of range. */
  datatype VectorAbort = MoveAbort(code: u64) | SwapOutOfRange

  function Reversed<T>(s: seq<T>): (r: seq<T>)
    ensures |r| == |s|
  {
    if s == [] then [] else Reversed(s[1..]) + [s[0]]
  }

  lemma {:induction false} ReversedAt<T>(s: seq<T>, i: nat)
    requires i < |s|
    ensures Reversed(s)[i] == s[|s| - 1 - i]
  {
    if i < |s| - 1 { ReversedAt(s[1..], i); }
  }

  /** Reversing twice gives the sequence back. */
  lemma ReversedInvolution<T>(s: seq<T>)
    ensures Reversed(Reversed(s)) == s
  {
    forall i | 0 <= i < |s| ensures Reversed(Reversed(s))[i] == s[i] {
      ReversedAt(Reversed(s), i);
      ReversedAt(s, |s| - 1 - i);
    }
  }

  lemma ReversedLast<T>(s: seq<T>)
    requires s != []
    ensures Reversed(s)[..|s| - 1] == Reversed(s[1..]) && Reversed(s)[|s| - 1] == s[0]
  {
  }

  class Vector<T(==)> {
    var elems: seq<T>

    constructor (elems: seq<T>)
      ensures this.elems == elems
    {
      this.elems := elems;
    }

    predicate IsEmpty()
      reads this
    {
      elems == []
    }

    method PushBack(e: T)
      modifies this
      ensures elems == old(elems) + [e]
    {
      elems := elems + [e];
    }

    method PopBack() returns (e: T)
      requires !IsEmpty()
      modifies this
      ensures e == old(elems)[|old(elems)| - 1] && elems == old(elems)[..|old(elems)| - 1]
    {
      e := elems[|elems| - 1];
      elems := elems[..|elems| - 1];
    }

    method Swap(i: nat, j: nat)
      requires i < |elems| && j < |elems|
      modifies this
      ensures elems == old(elems)[i := old(elems)[j]][j := old(elems)[i]]
    {
      elems := elems[i := elems[j]][j := elems[i]];
    }

    /** Swaps from both ends until the indices meet. */
    method Reverse()
      modifies this
      ensures elems == Reversed(old(elems))
    {
      var len := |elems|;
      if len == 0 { return; }
      ghost var was := elems;
      var front, back := 0, len - 1;
      while front < back
        invariant 0 <= front <= back + 1 && front + back == len - 1 && |elems| == len
        invariant forall k :: 0 <= k < front ==> elems[k] == was[len - 1 - k] && elems[len - 1 - k] == was[k]
        invariant forall k :: front <= k <= back ==> elems[k] == was[k]
      {
        Swap(front, back);
        front := front + 1;
        back := back - 1;
      }
      forall k | 0 <= k < len ensures elems[k] == Reversed(was)[k] {
        ReversedAt(was, k);
        if k > back { assert elems[len - 1 - (len - 1 - k)] == was[len - 1 - k]; }
      }
    }

    /** Reverses `other`, then pops it empty onto the end. */
    method Append(other: seq<T>)
      modifies this
      ensures elems == old(elems) + other
    {
      var rest := new Vector(other);
      rest.Reverse();
      ghost var todo := other;
      while !rest.IsEmpty()
        invariant rest.elems == Reversed(todo)
        invariant elems + todo == old(elems) + other
        decreases |todo|
      {
        ReversedLast(todo);
        var e := rest.PopBack();
        PushBack(e);
        todo := todo[1..];
      }
    }

    method Contains(e: T) returns (found: bool)
      ensures found <==> e in elems
    {
      var i := 0;
      while i < |elems|
        invariant i <= |elems| && e !in elems[..i]
      {
        if elems[i] == e { return true; }
        i := i + 1;
      }
      return false;
    }

    method IndexOf(e: T) returns (found: bool, i: nat)
      ensures found <==> e in elems
      ensures found ==> i < |elems| && elems[i] == e && e !in elems[..i]
      ensures !found ==> i == 0
    {
      i := 0;
      while i < |elems|
        invariant i <= |elems| && e !in elems[..i]
      {
        if elems[i] == e { return true, i; }
        i := i + 1;
      }
      return false, 0;
    }

    /** Bubbles element `i` to the end by neighbour swaps, so the others keep their order. */
    method Remove(i: nat) returns (r: Result<T, VectorAbort>)
      modifies this
      ensures i >= |old(elems)| ==> r == Err(MoveAbort(EINDEX_OUT_OF_BOUNDS)) && elems == old(elems)
      ensures i < |old(elems)| ==>
        r == Ok(old(elems)[i]) && elems == old(elems)[..i] + old(elems)[i + 1..]
    {
      if i >= |elems| { return Err(MoveAbort(EINDEX_OUT_OF_BOUNDS)); }
      ghost var was := elems;
      var len := |elems| - 1;
      var k := i;
      while k < len
        invariant i <= k <= len && |elems| == len + 1
        invariant elems == was[..i] + was[i + 1..k + 1] + [was[i]] + was[k + 1..]
      {
        Swap(k, k + 1);
        k := k + 1;
      }
      var e := PopBack();
      return Ok(e);
    }

    method SwapRemove(i: nat) returns (r: Result<T, VectorAbort>)
      modifies this
      ensures old(elems) == [] ==> r == Err(MoveAbort(EINDEX_OUT_OF_BOUNDS)) && elems == old(elems)
      ensures old(elems) != [] && i >= |old(elems)| ==> r == Err(SwapOutOfRange) && elems == old(elems)
      ensures i < |old(elems)| ==>
        var last := |old(elems)| - 1;
        && r == Ok(old(elems)[i])
        && elems == old(elems)[i := old(elems)[last]][..last]
    {
      if IsEmpty() { return Err(MoveAbort(EINDEX_OUT_OF_BOUNDS)); }
      var last := |elems| - 1;
      if i > last { return Err(SwapOutOfRange); }
      Swap(i, last);
      var e := PopBack();
      return Ok(e);
    }
  }
}
