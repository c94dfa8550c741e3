/** bit_vector.move: a fixed number of bits shifted in place. */
module BitVectors {
  import opened Base

  const EINDEX: u64 := 0x20000
  const ELENGTH: u64 := 0x20001
  const MAX_SIZE: nat := 1024

  /** What a left shift leaves: bit `i + amount` at place `i`, zeros behind. */
  function Shifted(bits: seq<bool>, amount: nat): (r: seq<bool>)
    ensures |r| == |bits|
  {
    seq(|bits|, i requires 0 <= i < |bits| => i + amount < |bits| && bits[i + amount])
  }

  /** The number of set bits from `start` on without a gap. */
  function SetRun(bits: seq<bool>, start: nat): (n: nat)
    requires start <= |bits|
    ensures start + n <= |bits|
    ensures forall i :: start <= i < start + n ==> bits[i]
    ensures start + n < |bits| ==> !bits[start + n]
    decreases |bits| - start
  {
    if start < |bits| && bits[start] then 1 + SetRun(bits, start + 1) else 0
  }

  lemma ShiftedIs(bits: seq<bool>, amount: nat)
    requires amount <= |bits|
    ensures Shifted(bits, amount) == bits[amount..] + seq(amount, i => false)
  {
  }

  /** Shifting by `x` and then by `y` is shifting by `x + y`. */
  lemma ShiftAdds(bits: seq<bool>, x: nat, y: nat)
    ensures Shifted(Shifted(bits, x), y) == Shifted(bits, x + y)
  {
  }

  /** The run from `k` is the run from the start once `k` bits are shifted out. */
  lemma RunAfterShift(bits: seq<bool>, k: nat)
    requires k < |bits|
    ensures SetRun(Shifted(bits, k), 0) == SetRun(bits, k)
  {
    RunMoves(bits, k, 0);
  }

  lemma {:induction false} RunMoves(bits: seq<bool>, k: nat, i: nat)
    requires k + i <= |bits|
    ensures SetRun(Shifted(bits, k), i) == SetRun(bits, k + i)
    decreases |bits| - i
  {
    if k + i < |bits| { RunMoves(bits, k, i + 1); }
  }

  class BitVector {
    const length: nat
    var bitField: seq<bool>

    ghost predicate Valid()
      reads this
    {
      0 < length < MAX_SIZE && |bitField| == length
    }

    constructor (length: nat)
      requires 0 < length < MAX_SIZE
      ensures Valid() && this.length == length
      ensures bitField == seq(length, i => false)
    {
      this.length := length;
      this.bitField := [];
      new;
      var counter := 0;
      while counter < length
        invariant counter <= length && bitField == seq(counter, i => false)
      {
        bitField := bitField + [false];
        counter := counter + 1;
      }
    }

    /** The public constructor with its two length checks. */
    static method New(length: nat) returns (r: Result<BitVector, u64>)
      ensures r.Err? <==> length == 0 || length >= MAX_SIZE
      ensures r.Err? ==> r.error == ELENGTH
      ensures r.Ok? ==> fresh(r.value) && r.value.Valid() && r.value.bitField == seq(length, i => false)
    {
      if !(length > 0) { return Err(ELENGTH); }
      if !(length < MAX_SIZE) { return Err(ELENGTH); }
      var v := new BitVector(length);
      return Ok(v);
    }

    method Set(index: nat) returns (r: Result<(), u64>)
      requires Valid()
      modifies this`bitField
      ensures Valid() && r == if index < length then Ok(()) else Err(EINDEX)
      ensures bitField == if r.Ok? then old(bitField)[index := true] else old(bitField)
    {
      if !(index < |bitField|) { return Err(EINDEX); }
      bitField := bitField[index := true];
      return Ok(());
    }

    method Unset(index: nat) returns (r: Result<(), u64>)
      requires Valid()
      modifies this`bitField
      ensures Valid() && r == if index < length then Ok(()) else Err(EINDEX)
      ensures bitField == if r.Ok? then old(bitField)[index := false] else old(bitField)
    {
      if !(index < |bitField|) { return Err(EINDEX); }
      bitField := bitField[index := false];
      return Ok(());
    }

    method IsIndexSet(index: nat) returns (r: Result<bool, u64>)
      requires Valid()
      ensures r == if index < length then Ok(bitField[index]) else Err(EINDEX)
    {
      if !(index < |bitField|) { return Err(EINDEX); }
      return Ok(bitField[index]);
    }

    /** Copies bits down while reading ahead, then clears the tail; never aborts. */
    method ShiftLeft(amount: nat)
      requires Valid()
      modifies this`bitField
      ensures Valid() && bitField == Shifted(old(bitField), amount)
    {
      ghost var was := bitField;
      if amount >= length {
        ClearFrom(0);
        assert bitField == Shifted(was, amount);
      } else {
        CopyDown(amount);
        ClearFrom(length - amount);
        ShiftedIs(was, amount);
      }
    }

    method CopyDown(amount: nat)
      requires Valid() && amount < length
      modifies this`bitField
      ensures Valid()
      ensures bitField[..length - amount] == old(bitField)[amount..]
    {
      ghost var was := bitField;
      var i := amount;
      while i < length
        invariant amount <= i <= length && Valid()
        invariant forall k :: 0 <= k < i - amount ==> bitField[k] == was[k + amount]
        invariant bitField[i - amount..] == was[i - amount..]
      {
        assert bitField[i] == was[i - amount..][amount];
        var bit := IsIndexSet(i);
        var done;
        if bit.value { done := Set(i - amount); } else { done := Unset(i - amount); }
        i := i + 1;
        assert bitField[i - amount..] == was[i - amount - 1..][1..];
      }
    }

    method ClearFrom(start: nat)
      requires Valid() && start <= length
      modifies this`bitField
      ensures Valid()
      ensures bitField == old(bitField)[..start] + seq(length - start, i => false)
    {
      ghost var was := bitField;
      var i := start;
      while i < length
        invariant start <= i <= length && Valid()
        invariant forall k :: 0 <= k < i ==> bitField[k] == (k < start && was[k])
      {
        var done := Unset(i);
        i := i + 1;
      }
    }

    method LongestSetSequenceStartingAt(start: nat) returns (r: Result<nat, u64>)
      requires Valid()
      ensures r == if start < length then Ok(SetRun(bitField, start)) else Err(EINDEX)
    {
      if !(start < length) { return Err(EINDEX); }
      var index := start;
      while index < length
        invariant start <= index <= length
        invariant SetRun(bitField, start) == index - start + SetRun(bitField, index)
      {
        var bit := IsIndexSet(index);
        if !bit.value { break; }
        index := index + 1;
      }
      return Ok(index - start);
    }
  }
}
