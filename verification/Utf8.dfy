/**
 UTF-8 as RFC 3629 defines it: section 3 says how a scalar value is encoded, section 4 gives
 the grammar of well-formed octet sequences. The two are proved to describe the same strings.
 */
module Utf8 {
  import opened Base

  // ---- Section 4: the grammar ----

  predicate IsTail(x: byte) {
    0x80 <= x <= 0xBF
  }

  predicate Tails(b: Bytes, lo: nat, hi: nat)
    requires hi <= |b|
  {
    forall i :: lo <= i < hi ==> IsTail(b[i])
  }

  predicate IsUtf82(b: Bytes) {
    |b| >= 2 && 0xC2 <= b[0] <= 0xDF && IsTail(b[1])
  }

  predicate IsUtf83(b: Bytes) {
    && |b| >= 3
    && (|| (b[0] == 0xE0 && 0xA0 <= b[1] <= 0xBF)
        || (0xE1 <= b[0] <= 0xEC && IsTail(b[1]))
        || (b[0] == 0xED && 0x80 <= b[1] <= 0x9F)
        || (0xEE <= b[0] <= 0xEF && IsTail(b[1])))
    && IsTail(b[2])
  }

  predicate IsUtf84(b: Bytes) {
    && |b| >= 4
    && (|| (b[0] == 0xF0 && 0x90 <= b[1] <= 0xBF)
        || (0xF1 <= b[0] <= 0xF3 && IsTail(b[1]))
        || (b[0] == 0xF4 && 0x80 <= b[1] <= 0x8F))
    && IsTail(b[2]) && IsTail(b[3])
  }

  /** The length of the character that opens `b`, or 0 when none does. */
  function CharLength(b: Bytes): (n: nat)
    ensures n <= |b| && n <= 4
    ensures n > 0 ==> !IsTail(b[0]) && Tails(b, 1, n)
  {
    if b != [] && b[0] <= 0x7F then 1
    else if IsUtf82(b) then 2
    else if IsUtf83(b) then 3
    else if IsUtf84(b) then 4
    else 0
  }

  predicate WellFormed(b: Bytes)
    decreases |b|
  {
    b == [] || (CharLength(b) > 0 && WellFormed(b[CharLength(b)..]))
  }

  /** `i` is where a character starts, or the end: a sum of lengths of leading characters. */
  predicate Boundary(b: Bytes, i: int)
    decreases |b|
  {
    i == 0 || (CharLength(b) > 0 && i >= CharLength(b) && Boundary(b[CharLength(b)..], i - CharLength(b)))
  }

  // ---- Characters do not look past their own bytes ----

  lemma CharLengthLocal(a: Bytes, b: Bytes)
    requires CharLength(a) > 0
    ensures CharLength(a + b) == CharLength(a)
  {
    assert forall i :: 0 <= i < |a| ==> (a + b)[i] == a[i];
  }

  lemma {:induction false} Concat(a: Bytes, b: Bytes)
    requires WellFormed(a)
    ensures WellFormed(a + b) <==> WellFormed(b)
    decreases |a|
  {
    hide CharLength;
    if a == [] {
      assert a + b == b;
    } else {
      var n := CharLength(a);
      CharLengthLocal(a, b);
      assert (a + b)[n..] == a[n..] + b;
      Concat(a[n..], b);
    }
  }

  lemma {:induction false} BoundarySplits(b: Bytes, i: nat)
    requires WellFormed(b) && Boundary(b, i)
    ensures i <= |b| && WellFormed(b[..i]) && WellFormed(b[i..])
    decreases |b|
  {
    if i > 0 {
      var n := CharLength(b);
      BoundarySplits(b[n..], i - n);
      assert b[n..][i - n..] == b[i..];
      assert b[n..][..i - n] == b[..i][n..];
      CharPrefix(b, i);
    }
  }

  /** Cutting a string behind its first character leaves that character in place. */
  lemma CharPrefix(b: Bytes, i: nat)
    requires 0 < CharLength(b) <= i <= |b|
    ensures CharLength(b[..i]) == CharLength(b)
  {
    assert forall k :: 0 <= k < i ==> b[..i][k] == b[k];
  }

  lemma {:induction false} PrefixIsBoundary(a: Bytes, b: Bytes)
    requires WellFormed(a)
    ensures Boundary(a + b, |a|)
    decreases |a|
  {
    hide CharLength;
    if a != [] {
      var n := CharLength(a);
      CharLengthLocal(a, b);
      assert (a + b)[n..] == a[n..] + b;
      PrefixIsBoundary(a[n..], b);
    }
  }

  /** A cut of a well-formed string is a boundary exactly when the front stays well-formed. */
  lemma BoundaryIffPrefixWellFormed(b: Bytes, i: nat)
    requires WellFormed(b) && i <= |b|
    ensures Boundary(b, i) <==> WellFormed(b[..i])
  {
    if Boundary(b, i) { BoundarySplits(b, i); }
    if WellFormed(b[..i]) {
      PrefixIsBoundary(b[..i], b[i..]);
      assert b[..i] + b[i..] == b;
    }
  }

  // ---- Section 3: scalar values ----

  type Scalar = v: int | 0 <= v <= 0x10FFFF && !(0xD800 <= v <= 0xDFFF)

  function EncodeScalar(v: Scalar): Bytes {
    if v <= 0x7F then [v]
    else if v <= 0x7FF then [0xC0 + v / 0x40, 0x80 + v % 0x40]
    else if v <= 0xFFFF then [0xE0 + v / 0x1000, 0x80 + v / 0x40 % 0x40, 0x80 + v % 0x40]
    else [0xF0 + v / 0x4_0000, 0x80 + v / 0x1000 % 0x40, 0x80 + v / 0x40 % 0x40, 0x80 + v % 0x40]
  }

  function Encode(vs: seq<Scalar>): Bytes {
    if vs == [] then [] else EncodeScalar(vs[0]) + Encode(vs[1..])
  }

  function DecodeChar(b: Bytes): (v: Scalar)
    requires CharLength(b) > 0
  {
    var n := CharLength(b);
    var b0: int := b[0];
    if n == 1 then b0 else
    var b1: int := b[1];
    if n == 2 then (b0 - 0xC0) * 0x40 + (b1 - 0x80) else
    var b2: int := b[2];
    if n == 3 then (b0 - 0xE0) * 0x1000 + (b1 - 0x80) * 0x40 + (b2 - 0x80) else
    var b3: int := b[3];
    (b0 - 0xF0) * 0x4_0000 + (b1 - 0x80) * 0x1000 + (b2 - 0x80) * 0x40 + (b3 - 0x80)
  }

  function Decode(b: Bytes): seq<Scalar>
    requires WellFormed(b)
    decreases |b|
  {
    if b == [] then [] else [DecodeChar(b)] + Decode(b[CharLength(b)..])
  }

  lemma SixBits(high: nat, low: nat)
    requires low < 0x40
    ensures (high * 0x40 + low) / 0x40 == high && (high * 0x40 + low) % 0x40 == low
  {
  }

  lemma EncodeDecodeChar(b: Bytes)
    requires CharLength(b) > 0
    ensures EncodeScalar(DecodeChar(b)) == b[..CharLength(b)]
  {
    var n := CharLength(b);
    if n == 2 {
      SixBits(b[0] - 0xC0, b[1] - 0x80);
    } else if n == 3 {
      EncodeDecodeChar3(b);
    } else if n == 4 {
      EncodeDecodeChar4(b);
    }
  }

  lemma EncodeDecodeChar3(b: Bytes)
    requires CharLength(b) == 3
    ensures EncodeScalar(DecodeChar(b)) == b[..3]
  {
    EncodeDecode3(b[0] - 0xE0, b[1] - 0x80, b[2] - 0x80);
  }

  lemma EncodeDecodeChar4(b: Bytes)
    requires CharLength(b) == 4
    ensures EncodeScalar(DecodeChar(b)) == b[..4]
  {
    EncodeDecode4(b[0] - 0xF0, b[1] - 0x80, b[2] - 0x80, b[3] - 0x80);
  }

  lemma EncodeDecode3(x: nat, y: nat, z: nat)
    requires y < 0x40 && z < 0x40
    ensures var v := x * 0x1000 + y * 0x40 + z;
      v / 0x1000 == x && v / 0x40 % 0x40 == y && v % 0x40 == z
  {
    SixBits(x * 0x40 + y, z);
    SixBits(x, y);
    assert (x * 0x1000 + y * 0x40 + z) / 0x1000 == (x * 0x1000 + y * 0x40 + z) / 0x40 / 0x40;
  }

  lemma EncodeDecode4(w: nat, x: nat, y: nat, z: nat)
    requires x < 0x40 && y < 0x40 && z < 0x40
    ensures var v := w * 0x4_0000 + x * 0x1000 + y * 0x40 + z;
      v / 0x4_0000 == w && v / 0x1000 % 0x40 == x && v / 0x40 % 0x40 == y && v % 0x40 == z
  {
    var v := w * 0x4_0000 + x * 0x1000 + y * 0x40 + z;
    EncodeDecode3(w * 0x40 + x, y, z);
    SixBits(w, x);
    assert v / 0x4_0000 == v / 0x1000 / 0x40;
  }

  lemma DecodeEncodeScalar(v: Scalar)
    ensures CharLength(EncodeScalar(v)) == |EncodeScalar(v)| > 0
    ensures DecodeChar(EncodeScalar(v)) == v
  {
    assert v / 0x1000 == v / 0x40 / 0x40 && v / 0x4_0000 == v / 0x1000 / 0x40;
  }

  /** Every well-formed string is the encoding of its scalar values. */
  lemma {:induction false} EncodeInvertsDecode(b: Bytes)
    requires WellFormed(b)
    ensures Encode(Decode(b)) == b
    decreases |b|
  {
    hide CharLength, DecodeChar, EncodeScalar;
    if b != [] {
      EncodeInvertsDecode(b[CharLength(b)..]);
      EncodeDecodeChar(b);
    }
  }

  lemma DecodeCharLocal(a: Bytes, b: Bytes)
    requires CharLength(a) > 0
    ensures CharLength(a + b) == CharLength(a)
    ensures DecodeChar(a + b) == DecodeChar(a)
  {
    CharLengthLocal(a, b);
  }

  /** Every encoding of scalar values is well-formed, and decodes to those values. */
  lemma {:induction false} DecodeInvertsEncode(vs: seq<Scalar>)
    ensures WellFormed(Encode(vs)) && Decode(Encode(vs)) == vs
  {
    hide CharLength, DecodeChar, EncodeScalar;
    if vs != [] {
      var first, later := EncodeScalar(vs[0]), Encode(vs[1..]);
      DecodeInvertsEncode(vs[1..]);
      DecodeEncodeScalar(vs[0]);
      DecodeCharLocal(first, later);
      SplitAt(first, later);
      assert vs == [vs[0]] + vs[1..];
    }
  }

  lemma {:induction false} DecodeConcat(a: Bytes, b: Bytes)
    requires WellFormed(a) && WellFormed(b)
    ensures WellFormed(a + b) && Decode(a + b) == Decode(a) + Decode(b)
    decreases |a|
  {
    hide CharLength, DecodeChar;
    Concat(a, b);
    if a == [] {
      assert a + b == b;
    } else {
      var n := CharLength(a);
      DecodeCharLocal(a, b);
      assert (a + b)[n..] == a[n..] + b;
      DecodeConcat(a[n..], b);
    }
  }

  /** Section 3 and section 4 describe the same strings. */
  lemma GrammarIsEncoding(b: Bytes)
    ensures WellFormed(b) <==> exists vs :: b == Encode(vs)
  {
    if WellFormed(b) { EncodeInvertsDecode(b); }
    if vs :| b == Encode(vs) { DecodeInvertsEncode(vs); }
  }
}
