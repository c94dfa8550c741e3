/** Bytes, machine integers and the small datatypes every other module uses. */
module Base {

  datatype Option<+T> = None | Some(value: T)

  datatype Result<+T, +E> = Ok(value: T) | Err(error: E)

  type byte = x: int | 0 <= x < 0x100
  type u16 = x: int | 0 <= x < 0x1_0000
  type u64 = x: int | 0 <= x < 0x1_0000_0000_0000_0000

  type Bytes = seq<byte>

  /** A 32-byte account address. */
  type Address = a: Bytes | |a| == 32 witness seq(32, i => 0)

  /** A 32-byte BLAKE3 digest. */
  type HashValue = h: Bytes | |h| == 32 witness seq(32, i => 0)

  /** An event as it leaves a transaction. */
  datatype ContractEvent = ContractEvent(typeTag: Bytes, guid: Bytes, sequenceNumber: u64, data: Bytes)

  /** A value read from the front of a byte string, and what is left of the string. */
  datatype Parsed<+T> = Fail | Read(value: T, rest: Bytes)

  const U32_LIMIT: nat := 0x1_0000_0000
  const U64_MAX: nat := 0xFFFF_FFFF_FFFF_FFFF

  /** `saturating_add` and `saturating_mul` on u64. */
  function SatAdd(x: u64, y: u64): u64 {
    Sat(x + y)
  }

  function SatMul(x: u64, y: u64): u64 {
    Sat(Product(x, y))
  }

  function Product(x: nat, y: nat): nat {
    x * y
  }

  function Sat(x: nat): u64 {
    if x > U64_MAX then U64_MAX else x
  }

  /** Saturating once or at every step comes to the same. */
  lemma SatSum(a: nat, b: nat)
    ensures SatAdd(Sat(a), Sat(b)) == Sat(a + b)
  {
  }

  lemma SatOfU64(x: u64)
    ensures Sat(x) == x
  {
  }

  lemma SatProduct(a: nat, k: u64)
    ensures SatMul(Sat(a), k) == Sat(Product(a, k))
  {
    if k > 0 && a > U64_MAX {
      assert Product(a, k) >= a && Product(U64_MAX, k) >= U64_MAX by { AtLeast(a, k); AtLeast(U64_MAX, k); }
    } else if k == 0 {
      assert Product(a, 0) == 0 && Product(Sat(a), 0) == 0;
    }
  }

  lemma AtLeast(a: nat, k: nat)
    requires k >= 1
    ensures Product(a, k) >= a
  {
  }

  lemma ProductIs(x: nat, y: nat)
    ensures Product(x, y) == x * y
  {
  }

  function Min64(x: u64, y: u64): u64 {
    if x < y then x else y
  }

  function Max64(x: u64, y: u64): u64 {
    if x < y then y else x
  }

  /** `as u16` followed by `to_le_bytes`. */
  function U16Le(n: nat): (b: Bytes)
    ensures |b| == 2
  {
    [n % 0x100, n / 0x100 % 0x100]
  }

  function FromU16Le(b: Bytes): (n: nat)
    requires |b| >= 2
    ensures n < 0x1_0000
  {
    var lo: int, hi: int := b[0], b[1];
    lo + 0x100 * hi
  }

  /** `as u32` followed by `to_le_bytes`; the cast drops everything above 32 bits. */
  function U32Le(n: nat): (b: Bytes)
    ensures |b| == 4
  {
    [n % 0x100, n / 0x100 % 0x100, n / 0x1_0000 % 0x100, n / 0x100_0000 % 0x100]
  }

  function FromU32Le(b: Bytes): (n: nat)
    requires |b| >= 4
    ensures n < U32_LIMIT
  {
    var b0: int, b1: int, b2: int, b3: int := b[0], b[1], b[2], b[3];
    b0 + 0x100 * b1 + 0x1_0000 * b2 + 0x100_0000 * b3
  }

  lemma U16LeRoundTrip(n: u16, rest: Bytes)
    ensures FromU16Le(U16Le(n) + rest) == n
  {
  }

  lemma U32LeRoundTrip(n: nat, rest: Bytes)
    requires n < U32_LIMIT
    ensures FromU32Le(U32Le(n) + rest) == n
  {
    var b := U32Le(n) + rest;
    assert n / 0x1_0000 == n / 0x100 / 0x100;
    assert n / 0x100_0000 == n / 0x1_0000 / 0x100;
    assert n / 0x100_0000 < 0x100;
    assert b[0] == n % 0x100 && b[1] == n / 0x100 % 0x100;
  }

  /** The number that bytes denote, least significant first. */
  function LeValue(b: Bytes): nat {
    if b == [] then 0 else
    var low: int := b[0];
    low + 0x100 * LeValue(b[1..])
  }

  /** `to_le_bytes` of a number that fits: as many bytes as the type has, and the number as their value. */
  lemma LittleEndian(n: nat)
    ensures n < 0x1_0000 ==> LeValue(U16Le(n)) == n
    ensures n < U32_LIMIT ==> LeValue(U32Le(n)) == n
  {
    if n < 0x1_0000 {
      LeSteps(U16Le(n));
      assert U16Le(n)[1..][1..] == [];
    }
    if n < U32_LIMIT {
      var b := U32Le(n);
      U32LeRoundTrip(n, []);
      assert b + [] == b;
      LeSteps(b);
      LeSteps(b[2..]);
      assert b[2..][1..][1..] == [];
    }
  }

  lemma LeSteps(b: Bytes)
    requires |b| >= 2
    ensures var low: int, high: int := b[0], b[1];
      LeValue(b) == low + 0x100 * (high + 0x100 * LeValue(b[2..]))
  {
    assert b[1..][0] == b[1] && b[1..][1..] == b[2..];
  }

  /** The bytes of a string literal. */
  function Ascii(s: string): Bytes
    requires forall i :: 0 <= i < |s| ==> s[i] as int < 0x80
  {
    seq(|s|, i requires 0 <= i < |s| => s[i] as int)
  }

  lemma Associative(a: Bytes, b: Bytes, c: Bytes)
    ensures (a + b) + c == a + (b + c)
  {
  }

  lemma SplitAt(a: Bytes, b: Bytes)
    ensures (a + b)[..|a|] == a && (a + b)[|a|..] == b
  {
  }

  /** A byte string behind its u32 length. */
  function BlobBytes(blob: Bytes): Bytes {
    U32Le(|blob|) + blob
  }

  function DecodeBlob(b: Bytes): (p: Parsed<Bytes>)
    ensures p.Read? ==> |p.rest| + 4 <= |b|
  {
    if |b| < 4 || |b[4..]| < FromU32Le(b) then Fail
    else Read(b[4..][..FromU32Le(b)], b[4..][FromU32Le(b)..])
  }

  lemma BlobRoundTrip(blob: Bytes, suffix: Bytes)
    requires |blob| < U32_LIMIT
    ensures DecodeBlob(BlobBytes(blob) + suffix) == Read(blob, suffix)
  {
    Associative(U32Le(|blob|), blob, suffix);
    U32LeRoundTrip(|blob|, blob + suffix);
    SplitAt(U32Le(|blob|), blob + suffix);
    SplitAt(blob, suffix);
  }

  /** Lexicographic order on byte strings: the order of Rust's `str`. */
  predicate LexLe(a: Bytes, b: Bytes) {
    a == [] || (b != [] && (a[0] < b[0] || (a[0] == b[0] && LexLe(a[1..], b[1..]))))
  }

  /** A prefix comes first; otherwise the first byte that differs decides. */
  lemma {:induction false} LexLeIs(a: Bytes, b: Bytes)
    ensures LexLe(a, b) <==> a <= b || exists i :: 0 <= i < |a| && i < |b| && a[..i] == b[..i] && a[i] < b[i]
  {
    if a != [] && b != [] && a[0] == b[0] {
      var x, y := a[1..], b[1..];
      LexLeIs(x, y);
      assert a == [a[0]] + x && b == [a[0]] + y;
      if i :| 0 <= i < |x| && i < |y| && x[..i] == y[..i] && x[i] < y[i] {
        assert a[..i + 1] == [a[0]] + x[..i] && b[..i + 1] == [a[0]] + y[..i];
        assert a[i + 1] < b[i + 1];
      }
      if i :| 0 <= i < |a| && i < |b| && a[..i] == b[..i] && a[i] < b[i] {
        assert x[..i - 1] == a[..i][1..] && y[..i - 1] == b[..i][1..];
        assert x[i - 1] < y[i - 1];
      }
    } else if a != [] && b != [] && a[0] < b[0] {
      assert a[..0] == b[..0];
    } else if a != [] && b != [] {
      forall i | 0 < i < |a| && i < |b| ensures a[..i] != b[..i] {
        assert a[..i][0] == a[0] && b[..i][0] == b[0];
      }
    }
  }

  lemma {:induction false} LexTotal(a: Bytes, b: Bytes)
    ensures LexLe(a, b) || LexLe(b, a)
  {
    if a != [] && b != [] && a[0] == b[0] {
      LexTotal(a[1..], b[1..]);
    }
  }

  lemma {:induction false} LexAntisymmetric(a: Bytes, b: Bytes)
    requires LexLe(a, b) && LexLe(b, a)
    ensures a == b
  {
    if a != [] && b != [] {
      LexAntisymmetric(a[1..], b[1..]);
      assert a == [a[0]] + a[1..] && b == [b[0]] + b[1..];
    }
  }

  lemma {:induction false} LexTransitive(a: Bytes, b: Bytes, c: Bytes)
    requires LexLe(a, b) && LexLe(b, c)
    ensures LexLe(a, c)
  {
    if a != [] && a[0] == b[0] == c[0] {
      LexTransitive(a[1..], b[1..], c[1..]);
    }
  }
}
