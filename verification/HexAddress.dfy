/** Hexadecimal account addresses: the parser and printer of nexus-move-types. */
module HexAddress {
  import opened Base

  datatype AddressParseError = Empty | InvalidHex(index: nat, b: byte) | TooLong(bytes: nat)

  // ---- Numbers ----

  predicate IsHexDigit(b: byte) {
    0x30 <= b <= 0x39 || 0x61 <= b <= 0x66 || 0x41 <= b <= 0x46
  }

  function DigitValue(b: byte): (v: nat)
    requires IsHexDigit(b)
    ensures v < 16
  {
    if b <= 0x39 then b - 0x30 else if b <= 0x46 then b - 0x41 + 10 else b - 0x61 + 10
  }

  predicate AllHex(s: Bytes) {
    forall i :: 0 <= i < |s| ==> IsHexDigit(s[i])
  }

  /** The number that a string of hex digits denotes. */
  function HexValue(s: Bytes): nat
    requires AllHex(s)
  {
    if s == [] then 0 else HexValue(s[..|s| - 1]) * 16 + DigitValue(s[|s| - 1])
  }

  /** The number that bytes denote, most significant first. */
  function BytesValue(b: Bytes): nat {
    if b == [] then 0 else BytesValue(b[..|b| - 1]) * 0x100 + b[|b| - 1]
  }

  // ---- The parser ----

  function DecodeNibble(b: byte, index: nat): (r: Result<nat, AddressParseError>)
    ensures r == if IsHexDigit(b) then Ok(DigitValue(b)) else Err(InvalidHex(index, b))
  {
    if 0x30 <= b <= 0x39 then Ok(b - 0x30)
    else if 0x61 <= b <= 0x66 then Ok(b - 0x61 + 10)
    else if 0x41 <= b <= 0x46 then Ok(b - 0x41 + 10)
    else Err(InvalidHex(index, b))
  }

  /** What the decoding loop holds after the first `n` characters. */
  function DecodedPrefix(input: Bytes, n: nat): Result<Bytes, AddressParseError>
    requires n <= |input| && n % 2 == 0
  {
    if n == 0 then Ok([]) else
    match DecodedPrefix(input, n - 2)
    case Err(e) => Err(e)
    case Ok(front) =>
      match (DecodeNibble(input[n - 2], n - 2), DecodeNibble(input[n - 1], n - 1))
      case (Err(e), _) => Err(e)
      case (_, Err(e)) => Err(e)
      case (Ok(hi), Ok(lo)) => Ok(front + [hi * 16 + lo])
  }

  method DecodeHex(input: Bytes) returns (r: Result<Bytes, AddressParseError>)
    requires |input| % 2 == 0
    ensures r == DecodedPrefix(input, |input|)
  {
    var decoded: Bytes := [];
    var index := 0;
    while index < |input|
      invariant index <= |input| && index % 2 == 0
      invariant DecodedPrefix(input, index) == Ok(decoded)
    {
      var hi := DecodeNibble(input[index], index);
      var lo := DecodeNibble(input[index + 1], index + 1);
      if hi.Err? || lo.Err? {
        var e := if hi.Err? then hi.error else lo.error;
        assert DecodedPrefix(input, index + 2) == Err(e);
        ErrorStays(input, index + 2, |input|);
        return Err(e);
      }
      decoded := decoded + [hi.value * 16 + lo.value];
      index := index + 2;
    }
    return Ok(decoded);
  }

  lemma {:induction false} ErrorStays(input: Bytes, m: nat, n: nat)
    requires m <= n <= |input| && m % 2 == 0 && n % 2 == 0
    requires DecodedPrefix(input, m).Err?
    ensures DecodedPrefix(input, n) == DecodedPrefix(input, m)
  {
    if m < n { ErrorStays(input, m, n - 2); }
  }

  /** An odd number of digits gets a zero in front. */
  function Normalized(input: Bytes): (s: Bytes)
    ensures |s| % 2 == 0
  {
    if |input| % 2 == 0 then input else [0x30] + input
  }

  function FromHex(input: Bytes): Result<Address, AddressParseError> {
    if input == [] then Err(Empty) else
    match DecodedPrefix(Normalized(input), |Normalized(input)|)
    case Err(e) => Err(e)
    case Ok(decoded) =>
      if |decoded| > 32 then Err(TooLong(|decoded|))
      else Ok(seq(32 - |decoded|, i => 0) + decoded)
  }

  function Stripped(input: Bytes): Bytes {
    if |input| >= 2 && input[0] == 0x30 && input[1] == 0x78 then input[2..]
    else if |input| >= 2 && input[0] == 0x30 && input[1] == 0x58 then input[2..]
    else input
  }

  function FromHexLiteral(input: Bytes): Result<Address, AddressParseError> {
    FromHex(Stripped(input))
  }

  method ParseHexLiteral(input: Bytes) returns (r: Result<Address, AddressParseError>)
    ensures r == FromHexLiteral(input)
  {
    var stripped := Stripped(input);
    if stripped == [] { return Err(Empty); }
    var decoded := DecodeHex(Normalized(stripped));
    match decoded {
      case Err(e) => return Err(e);
      case Ok(bytes) =>
        if |bytes| > 32 { return Err(TooLong(|bytes|)); }
        return Ok(seq(32 - |bytes|, i => 0) + bytes);
    }
  }

  // ---- The printer ----

  function LowerDigit(v: nat): byte
    requires v < 16
  {
    if v < 10 then 0x30 + v else 0x61 + v - 10
  }

  /** `{:02x}` of every byte. */
  function LowerHex(b: Bytes): (s: Bytes) {
    if b == [] then [] else
    var last: int := b[|b| - 1];
    LowerHex(b[..|b| - 1]) + [LowerDigit(last / 16), LowerDigit(last % 16)]
  }

  function Display(a: Address): Bytes {
    [0x30, 0x78] + LowerHex(a)
  }

  method Format(a: Address) returns (out: Bytes)
    ensures out == Display(a)
  {
    out := [0x30, 0x78];
    for i := 0 to |a|
      invariant out == [0x30, 0x78] + LowerHex(a[..i])
    {
      var v: int := a[i];
      out := out + [LowerDigit(v / 16), LowerDigit(v % 16)];
      assert a[..i + 1][..i] == a[..i];
    }
    assert a[..|a|] == a;
  }

  // ---- What is accepted, and what it denotes ----

  lemma AllHexStep(input: Bytes, n: nat)
    requires 2 <= n <= |input|
    ensures AllHex(input[..n]) <==> AllHex(input[..n - 2]) && IsHexDigit(input[n - 2]) && IsHexDigit(input[n - 1])
  {
    assert forall i :: 0 <= i < n - 2 ==> input[..n][i] == input[..n - 2][i];
    assert input[..n][n - 2] == input[n - 2] && input[..n][n - 1] == input[n - 1];
  }

  lemma HexValueStep(input: Bytes, n: nat)
    requires 2 <= n <= |input| && AllHex(input[..n])
    ensures AllHex(input[..n - 2]) && IsHexDigit(input[n - 2]) && IsHexDigit(input[n - 1])
    ensures HexValue(input[..n])
         == HexValue(input[..n - 2]) * 0x100 + DigitValue(input[n - 2]) * 16 + DigitValue(input[n - 1])
  {
    AllHexStep(input, n);
    assert input[..n][..n - 1] == input[..n - 1] && input[..n - 1][..n - 2] == input[..n - 2];
  }

  lemma BytesValueStep(front: Bytes, last: byte)
    ensures BytesValue(front + [last]) == BytesValue(front) * 0x100 + last
  {
    assert (front + [last])[..|front|] == front;
  }

  lemma {:induction false} DecodedPrefixValue(input: Bytes, n: nat)
    requires n <= |input| && n % 2 == 0
    ensures DecodedPrefix(input, n).Ok? <==> AllHex(input[..n])
    ensures AllHex(input[..n]) ==>
      |DecodedPrefix(input, n).value| == n / 2
      && BytesValue(DecodedPrefix(input, n).value) == HexValue(input[..n])
  {
    hide HexValue, BytesValue, AllHex, DigitValue, IsHexDigit;
    if n == 0 {
      EmptyValues();
      assert input[..0] == [];
    } else {
      DecodedPrefixValue(input, n - 2);
      AllHexStep(input, n);
      if AllHex(input[..n]) {
        HexValueStep(input, n);
        var hi, lo := DigitValue(input[n - 2]), DigitValue(input[n - 1]);
        BytesValueStep(DecodedPrefix(input, n - 2).value, hi * 16 + lo);
      }
    }
  }

  lemma EmptyValues()
    ensures AllHex([]) && HexValue([]) == 0 && BytesValue([]) == 0
  {
  }

  lemma {:induction false} LeadingZeros(k: nat, b: Bytes)
    ensures BytesValue(seq(k, i => 0) + b) == BytesValue(b)
    decreases k + |b|
  {
    var padded := seq(k, i => 0) + b;
    if b == [] {
      if k > 0 {
        assert padded[..k - 1] == seq(k - 1, i => 0) + [];
        LeadingZeros(k - 1, []);
      }
    } else {
      assert padded[..|padded| - 1] == seq(k, i => 0) + b[..|b| - 1];
      LeadingZeros(k, b[..|b| - 1]);
    }
  }

  lemma {:induction false} LeadingZeroDigit(s: Bytes)
    requires AllHex(s)
    ensures AllHex([0x30] + s) && HexValue([0x30] + s) == HexValue(s)
  {
    if s == [] {
      assert ([0x30] + s)[..0] == [];
    } else {
      LeadingZeroDigit(s[..|s| - 1]);
      assert ([0x30] + s)[..|s|] == [0x30] + s[..|s| - 1];
    }
  }

  lemma NormalizedValue(s: Bytes)
    ensures AllHex(Normalized(s)) <==> AllHex(s)
    ensures AllHex(s) ==> HexValue(Normalized(s)) == HexValue(s)
    ensures |Normalized(s)| / 2 == (|s| + 1) / 2
  {
    if AllHex(s) { LeadingZeroDigit(s); }
    if AllHex(Normalized(s)) && |s| % 2 == 1 {
      assert forall i :: 0 <= i < |s| ==> s[i] == Normalized(s)[i + 1];
    }
  }

  /** Accepted are exactly 1 to 64 hex digits behind the prefix, and the address is their value. */
  lemma AcceptedIffHex(input: Bytes)
    ensures var s := Stripped(input);
      FromHexLiteral(input).Ok? <==> 1 <= |s| <= 64 && AllHex(s)
    ensures FromHexLiteral(input).Ok? ==>
      AllHex(Stripped(input)) && BytesValue(FromHexLiteral(input).value) == HexValue(Stripped(input))
  {
    hide HexValue, BytesValue, Stripped, Normalized;
    var s := Stripped(input);
    var n := Normalized(s);
    NormalizedValue(s);
    assert n[..|n|] == n;
    DecodedPrefixValue(n, |n|);
    if s != [] && AllHex(s) {
      var d := DecodedPrefix(n, |n|).value;
      assert |d| == (|s| + 1) / 2;
      if |d| <= 32 { LeadingZeros(32 - |d|, d); }
    }
  }

  /** A string of hex digits alone, or behind one of the two prefixes. */
  ghost predicate LiteralOf(input: Bytes, digits: Bytes) {
    && 1 <= |digits| <= 64 && AllHex(digits)
    && (input == digits || input == Ascii("0x") + digits || input == Ascii("0X") + digits)
  }

  lemma PrefixesAre()
    ensures Ascii("0x") == [0x30, 0x78] && Ascii("0X") == [0x30, 0x58]
  {
  }

  lemma DigitsOfLiteral(input: Bytes, digits: Bytes)
    requires LiteralOf(input, digits)
    ensures Stripped(input) == digits
  {
    PrefixesAre();
    hide Ascii;
    if input == digits && |digits| >= 2 { assert IsHexDigit(digits[1]); }
  }

  /**
   Accepted are exactly 1 to 64 hex digits, alone or behind `0x` or `0X`, and the address is the
   number that the digits denote.
   */
  lemma AcceptedLiterals(input: Bytes)
    ensures FromHexLiteral(input).Ok? <==> exists digits :: LiteralOf(input, digits)
    ensures forall digits :: LiteralOf(input, digits) ==>
      FromHexLiteral(input).Ok? && BytesValue(FromHexLiteral(input).value) == HexValue(digits)
  {
    hide FromHexLiteral, HexValue, BytesValue;
    AcceptedIffHex(input);
    PrefixesAre();
    if FromHexLiteral(input).Ok? {
      assert LiteralOf(input, Stripped(input)) by { hide AllHex, Ascii; }
    }
    forall digits | LiteralOf(input, digits)
      ensures FromHexLiteral(input).Ok? && BytesValue(FromHexLiteral(input).value) == HexValue(digits)
    {
      DigitsOfLiteral(input, digits);
    }
  }

  /** What the digits stand for, in both cases of the letters. */
  lemma DigitsMean()
    ensures var lower, upper := Ascii("0123456789abcdef"), Ascii("0123456789ABCDEF");
      forall i :: 0 <= i < 16 ==>
        IsHexDigit(lower[i]) && IsHexDigit(upper[i]) && DigitValue(lower[i]) == DigitValue(upper[i]) == i
  {
  }

  lemma {:induction false} BytesValueInjective(a: Bytes, b: Bytes)
    requires |a| == |b| && BytesValue(a) == BytesValue(b)
    ensures a == b
  {
    if a != [] {
      var n := |a| - 1;
      var x: int, y: int := a[n], b[n];
      assert BytesValue(a) == BytesValue(a[..n]) * 0x100 + x;
      assert BytesValue(b) == BytesValue(b[..n]) * 0x100 + y;
      BytesValueInjective(a[..n], b[..n]);
      assert a == a[..n] + [a[n]] && b == b[..n] + [b[n]];
    }
  }

  /** Two accepted literals name the same address exactly when they denote the same number. */
  lemma SameAddressIffSameNumber(x: Bytes, y: Bytes)
    requires FromHexLiteral(x).Ok? && FromHexLiteral(y).Ok?
    ensures AllHex(Stripped(x)) && AllHex(Stripped(y))
    ensures FromHexLiteral(x) == FromHexLiteral(y) <==> HexValue(Stripped(x)) == HexValue(Stripped(y))
  {
    hide FromHexLiteral, HexValue, BytesValue;
    AcceptedIffHex(x);
    AcceptedIffHex(y);
    if HexValue(Stripped(x)) == HexValue(Stripped(y)) {
      BytesValueInjective(FromHexLiteral(x).value, FromHexLiteral(y).value);
    }
  }

  lemma {:induction false} LowerHexValue(b: Bytes)
    ensures |LowerHex(b)| == 2 * |b| && AllHex(LowerHex(b))
    ensures HexValue(LowerHex(b)) == BytesValue(b)
  {
    if b != [] {
      var n := |b| - 1;
      LowerHexValue(b[..n]);
      var front, s := LowerHex(b[..n]), LowerHex(b);
      var last: int := b[n];
      var hi, lo := LowerDigit(last / 16), LowerDigit(last % 16);
      assert s == front + [hi, lo];
      assert s[..|s| - 1] == front + [hi] && (front + [hi])[..|front|] == front;
      assert DigitValue(hi) == last / 16 && DigitValue(lo) == last % 16;
    }
  }

  lemma {:induction false} LowerHexIsLower(b: Bytes)
    ensures forall i :: 0 <= i < |LowerHex(b)| ==> LowerHex(b)[i] in Ascii("0123456789abcdef")
  {
    hide Ascii;
    if b != [] {
      var last: int := b[|b| - 1];
      LowerHexIsLower(b[..|b| - 1]);
      LowerDigitIs(last / 16);
      LowerDigitIs(last % 16);
    }
  }

  lemma LowerDigitIs(v: nat)
    requires v < 16
    ensures LowerDigit(v) in Ascii("0123456789abcdef")
  {
    assert Ascii("0123456789abcdef")[v] == LowerDigit(v);
  }

  /** The printed form: the prefix and 64 digits in lower case that denote the number of the address. */
  lemma DisplayIs(a: Address)
    ensures var digits := LowerHex(a);
      && Display(a) == Ascii("0x") + digits && |digits| == 64
      && (forall i :: 0 <= i < 64 ==> digits[i] in Ascii("0123456789abcdef"))
      && AllHex(digits) && HexValue(digits) == BytesValue(a)
  {
    PrefixesAre();
    LowerHexIsLower(a);
    LowerHexValue(a);
    hide Ascii, LowerHex, AllHex, HexValue, BytesValue;
  }

  /** Parsing the printed form of an address gives the address back. */
  lemma ParseInvertsDisplay(a: Address)
    ensures FromHexLiteral(Display(a)) == Ok(a)
  {
    hide HexValue, BytesValue, LowerHex, FromHexLiteral;
    LowerHexValue(a);
    assert Stripped(Display(a)) == LowerHex(a);
    AcceptedIffHex(Display(a));
    BytesValueInjective(FromHexLiteral(Display(a)).value, a);
  }

  // ---- Which error is reported ----

  lemma {:induction false} FirstBadDigit(input: Bytes, n: nat)
    requires n <= |input| && n % 2 == 0 && DecodedPrefix(input, n).Err?
    ensures var e := DecodedPrefix(input, n).error;
      && e.InvalidHex? && e.index < n && e.b == input[e.index]
      && !IsHexDigit(input[e.index]) && AllHex(input[..e.index])
  {
    if DecodedPrefix(input, n - 2).Err? {
      FirstBadDigit(input, n - 2);
    } else {
      DecodedPrefixValue(input, n - 2);
      assert forall i :: 0 <= i < n - 2 ==> input[..n - 2][i] == input[i];
    }
  }

  /** Empty input first, then the first bad character of the padded digits, then the length. */
  lemma RejectedLiterals(input: Bytes)
    requires FromHexLiteral(input).Err?
    ensures var s, e := Stripped(input), FromHexLiteral(input).error;
      match e
      case Empty => s == []
      case InvalidHex(i, b) =>
        i < |Normalized(s)| && b == Normalized(s)[i] && !IsHexDigit(b) && AllHex(Normalized(s)[..i])
      case TooLong(bytes) => AllHex(s) && |s| > 64 && bytes == (|s| + 1) / 2
  {
    hide HexValue, BytesValue, Stripped;
    var s := Stripped(input);
    var n := Normalized(s);
    if s != [] {
      NormalizedValue(s);
      assert n[..|n|] == n;
      DecodedPrefixValue(n, |n|);
      if DecodedPrefix(n, |n|).Err? { FirstBadDigit(n, |n|); }
    }
  }
}
