/**
 fixed_point32.move: 64-bit numbers with 32 fractional bits. Every machine operation is
 modelled with its width: additions and casts that may abort, shifts that drop high bits.
 */
module FixedPoint {
  import opened Base

  const ONE: nat := 0x1_0000_0000
  const HALF: nat := 0x8000_0000
  const U128_LIMIT: nat := 0x1_0000_0000_0000_0000_0000_0000_0000_0000

  type u128 = x: int | 0 <= x < 0x1_0000_0000_0000_0000_0000_0000_0000_0000

  datatype FixedPoint32 = FixedPoint32(value: u64)

  /** An abort with a code of the module, or the VM's arithmetic error. */
  datatype Abort = MoveAbort(code: u64) | ArithmeticError

  const EDENOMINATOR: u64 := 0x10001
  const EDIVISION: u64 := 0x20002
  const EMULTIPLICATION: u64 := 0x20003
  const EDIVISION_BY_ZERO: u64 := 0x10004
  const ERATIO_OUT_OF_RANGE: u64 := 0x20005

  // ---- Machine operations ----

  function Add64(x: u64, y: u64): Result<u64, Abort> {
    if x + y <= U64_MAX then Ok(x + y) else Err(ArithmeticError)
  }

  function Add128(x: u128, y: u128): Result<u128, Abort> {
    if x + y < U128_LIMIT then Ok(x + y) else Err(ArithmeticError)
  }

  function Mul128(x: u128, y: u128): Result<u128, Abort> {
    if x * y < U128_LIMIT then Ok(x * y) else Err(ArithmeticError)
  }

  function CastU64(x: u128): Result<u64, Abort> {
    if x <= U64_MAX then Ok(x) else Err(ArithmeticError)
  }

  function Div128(x: u128, y: u128): u128
    requires y != 0
  {
    x / y
  }

  /** `x << 32` on u64. */
  function Shl32(x: u64): u64 {
    (x * ONE) % (U64_MAX + 1)
  }

  /** `x << 32` on u128. */
  function Shl32Wide(x: u128): u128 {
    (x * ONE) % U128_LIMIT
  }

  /** `x << 64` on u128. */
  function Shl64Wide(x: u128): u128 {
    (x * (U64_MAX + 1)) % U128_LIMIT
  }

  // ---- The module ----

  function MultiplyU64(val: u64, multiplier: FixedPoint32): Result<u64, Abort> {
    match Mul128(val, multiplier.value)
    case Err(e) => Err(e)
    case Ok(unscaled) =>
      var product: u128 := unscaled / ONE;
      if product > U64_MAX then Err(MoveAbort(EMULTIPLICATION)) else CastU64(product)
  }

  function DivideU64(val: u64, divisor: FixedPoint32): Result<u64, Abort> {
    if divisor.value == 0 then Err(MoveAbort(EDIVISION_BY_ZERO)) else
    var quotient := Div128(Shl32Wide(val), divisor.value);
    if quotient > U64_MAX then Err(MoveAbort(EDIVISION)) else Ok(quotient)
  }

  function CreateFromRational(numerator: u64, denominator: u64): Result<FixedPoint32, Abort> {
    var scaledNumerator := Shl64Wide(numerator);
    var scaledDenominator := Shl32Wide(denominator);
    if scaledDenominator == 0 then Err(MoveAbort(EDENOMINATOR)) else
    var quotient := Div128(scaledNumerator, scaledDenominator);
    if !(quotient != 0 || numerator == 0) then Err(MoveAbort(ERATIO_OUT_OF_RANGE))
    else if quotient > U64_MAX then Err(MoveAbort(ERATIO_OUT_OF_RANGE))
    else Ok(FixedPoint32(quotient))
  }

  function CreateFromU64(val: u64): Result<FixedPoint32, Abort> {
    var value := Shl32Wide(val);
    if value > U64_MAX then Err(MoveAbort(ERATIO_OUT_OF_RANGE)) else Ok(FixedPoint32(value))
  }

  function Floor(num: FixedPoint32): u64 {
    num.value / ONE
  }

  function Ceil(num: FixedPoint32): Result<u64, Abort> {
    var floored := Shl32(Floor(num));
    if num.value == floored then Ok(floored / ONE) else
    match Add128(floored, ONE)
    case Err(e) => Err(e)
    case Ok(val) => CastU64(val / ONE)
  }

  function Round(num: FixedPoint32): Result<u64, Abort> {
    var floored := Shl32(Floor(num));
    match Add64(floored, HALF)
    case Err(e) => Err(e)
    case Ok(boundary) => if num.value < boundary then Ok(floored / ONE) else Ceil(num)
  }

  // ---- Rounding ----

  /** `ceil` never aborts and is the least integer not below the number. */
  lemma CeilIsCeiling(num: FixedPoint32)
    ensures Ceil(num).Ok?
    ensures var c := Ceil(num).value; (c - 1) * ONE < num.value <= c * ONE
  {
    var f := Floor(num);
    assert f < ONE && Shl32(f) == f * ONE;
  }

  /** `round` never aborts and is the nearest integer, the larger one on a tie. */
  lemma RoundIsNearest(num: FixedPoint32)
    ensures Round(num).Ok?
    ensures var r := Round(num).value; r * ONE - HALF <= num.value < r * ONE + HALF
  {
    var f := Floor(num);
    assert f < ONE && Shl32(f) == f * ONE;
    CeilIsCeiling(num);
  }

  lemma RoundingOrder(num: FixedPoint32)
    ensures Round(num).Ok? && Ceil(num).Ok?
    ensures Floor(num) <= Round(num).value <= Ceil(num).value <= Floor(num) + 1
    ensures Floor(num) * ONE <= num.value < Floor(num) * ONE + ONE
  {
    RoundIsNearest(num);
    CeilIsCeiling(num);
  }

  // ---- Products and quotients ----

  lemma MulMonotone(x: nat, y: nat, k: nat)
    requires x <= y
    ensures x * k <= y * k
  {
  }

  /** The quotient is the only number whose multiple lies within one divisor below the dividend. */
  lemma Quotient(a: nat, b: nat, q: nat)
    requires b > 0 && q * b <= a < q * b + b
    ensures a / b == q
  {
    var d := a / b;
    assert d * b <= a < d * b + b by { DivisionBounds(a, b); }
    if d < q { MulMonotone(d + 1, q, b); }
    if q < d { MulMonotone(q + 1, d, b); }
  }

  lemma DivisionBounds(a: nat, b: nat)
    requires b > 0
    ensures a / b * b <= a < a / b * b + b
  {
    assert a == a / b * b + a % b;
  }

  /** Cancelling the common factor of the two scaled operands. */
  lemma CancelScale(n: nat, d: nat)
    requires d > 0
    ensures (n * ONE * ONE) / (d * ONE) == (n * ONE) / d
  {
    var q := (n * ONE) / d;
    DivisionBounds(n * ONE, d);
    assert q * (d * ONE) == q * d * ONE;
    Quotient(n * ONE * ONE, d * ONE, q);
  }

  lemma ProductFits(x: u64, y: u64)
    ensures x * y < U128_LIMIT
  {
    MulMonotone(x, U64_MAX, y);
    assert U64_MAX * y <= U64_MAX * U64_MAX;
  }

  /** A product is truncated, and aborts exactly when it is too large; the u128 step never overflows. */
  lemma MultiplyExact(val: u64, m: FixedPoint32)
    ensures MultiplyU64(val, m) ==
      if val * m.value / ONE <= U64_MAX then Ok(val * m.value / ONE) else Err(MoveAbort(EMULTIPLICATION))
  {
    ProductFits(val, m.value);
  }

  lemma DivideExact(val: u64, d: FixedPoint32)
    ensures DivideU64(val, d) ==
      if d.value == 0 then Err(MoveAbort(EDIVISION_BY_ZERO))
      else if val * ONE / d.value <= U64_MAX then Ok(val * ONE / d.value)
      else Err(MoveAbort(EDIVISION))
  {
    assert Shl32Wide(val) == val * ONE;
  }

  /** The ratio is exactly floor(n * 2^32 / d), with exactly the documented aborts. */
  lemma RationalExact(n: u64, d: u64)
    ensures CreateFromRational(n, d) ==
      if d == 0 then Err(MoveAbort(EDENOMINATOR))
      else if n * ONE / d == 0 && n != 0 then Err(MoveAbort(ERATIO_OUT_OF_RANGE))
      else if n * ONE / d > U64_MAX then Err(MoveAbort(ERATIO_OUT_OF_RANGE))
      else Ok(FixedPoint32(n * ONE / d))
  {
    assert Shl64Wide(n) == n * ONE * ONE;
    assert Shl32Wide(d) == d * ONE;
    if d != 0 { CancelScale(n, d); }
  }

  /** An integer aborts the conversion exactly from 2^32 on. */
  lemma FromU64Exact(val: u64)
    ensures CreateFromU64(val) ==
      if val < ONE then Ok(FixedPoint32(val * ONE)) else Err(MoveAbort(ERATIO_OUT_OF_RANGE))
    ensures val < ONE ==> Floor(FixedPoint32(val * ONE)) == val
  {
    assert Shl32Wide(val) == val * ONE;
  }

  /** Dividing a product by its multiplier succeeds and loses at most ceil((2^32 - 1) / m). */
  lemma DivideUndoesMultiply(v: u64, m: FixedPoint32)
    requires m.value != 0 && MultiplyU64(v, m).Ok?
    ensures var back := DivideU64(MultiplyU64(v, m).value, m);
      back.Ok? && v - (ONE - 1 + m.value - 1) / m.value <= back.value <= v
  {
    MultiplyExact(v, m);
    var p := v * m.value / ONE;
    DivideExact(p, m);
    var k: nat := m.value;
    var q := p * ONE / k;
    var loss := (ONE - 1 + k - 1) / k;
    DivisionBounds(v * k, ONE);
    DivisionBounds(p * ONE, k);
    DivisionBounds(ONE - 1 + k - 1, k);
    LossBound(v, k, p, q, loss);
  }

  lemma LossBound(v: nat, k: nat, p: nat, q: nat, loss: nat)
    requires k > 0
    requires p * ONE <= v * k < p * ONE + ONE
    requires q * k <= p * ONE < q * k + k
    requires ONE - 1 + k - 1 < loss * k + k
    ensures v - loss <= q <= v
  {
    assert (q + loss + 1) * k == q * k + loss * k + k;
    if q > v { MulMonotone(v + 1, q, k); }
    if q + loss < v { MulMonotone(q + loss + 1, v, k); }
  }

  /**
   Multiplying the denominator by the ratio gives the numerator or one less; it is the
   numerator exactly when the ratio was representable.
   */
  lemma RatioTimesDenominator(n: u64, d: u64)
    requires d <= ONE && CreateFromRational(n, d).Ok?
    ensures var r := MultiplyU64(d, CreateFromRational(n, d).value);
      && r.Ok? && n - 1 <= r.value <= n
      && (r.value == n <==> n * ONE % d == 0)
  {
    RationalExact(n, d);
    var a := n * ONE;
    var f := a / d;
    DivisionBounds(a, d);
    assert a == f * d + a % d;
    assert d * f == f * d;
    MultiplyExact(d, FixedPoint32(f));
    if a % d == 0 {
      assert d * f / ONE == n;
    } else {
      Quotient(d * f, ONE, n - 1);
    }
  }
}
