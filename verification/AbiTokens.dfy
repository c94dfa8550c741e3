/**
 The byte code of signature tokens (`encode_token` and `signature_tokens_to_bytes`
 in abi.rs), and the decoder that shows it is a prefix code.
 */
module AbiTokens {
  import opened Base

  datatype SignatureToken =
    | Bool | U8 | U16 | U32 | U64 | U128 | U256 | Address | Signer
    | Vector(inner: SignatureToken)
    | Struct(handle: u16)
    | StructInstantiation(handle: u16, typeArgs: seq<SignatureToken>)
    | Reference(inner: SignatureToken)
    | MutableReference(inner: SignatureToken)
    | TypeParameter(index: u16)
    | Function(params: seq<SignatureToken>, ret: seq<SignatureToken>, abilities: byte)

  /** A growable byte buffer: the `&mut Vec<u8>` that the encoder appends to. */
  class ByteBuffer {
    var data: Bytes

    constructor ()
      ensures data == []
    {
      data := [];
    }

    method Push(b: byte)
      modifies this
      ensures data == old(data) + [b]
    {
      data := data + [b];
    }

    method Extend(bs: Bytes)
      modifies this
      ensures data == old(data) + bs
    {
      data := data + bs;
    }
  }

  // ---- Specification of the encoding ----

  /** The byte that opens the code of a token; it names the token's constructor. */
  function TokenTag(t: SignatureToken): (tag: byte)
    ensures 1 <= tag <= 0x10
  {
    match t
    case Bool => 0x01
    case U8 => 0x02
    case U16 => 0x03
    case U32 => 0x04
    case U64 => 0x05
    case U128 => 0x06
    case U256 => 0x07
    case Address => 0x08
    case Signer => 0x09
    case Vector(_) => 0x0A
    case Struct(_) => 0x0B
    case StructInstantiation(_, _) => 0x0C
    case Reference(_) => 0x0D
    case MutableReference(_) => 0x0E
    case TypeParameter(_) => 0x0F
    case Function(_, _, _) => 0x10
  }

  /** What one token is written as. */
  function TokenBytes(t: SignatureToken): (b: Bytes)
    ensures b != [] && b[0] == TokenTag(t)
    decreases t, 1
  {
    [TokenTag(t)] + PayloadBytes(t)
  }

  /** What follows the tag. List lengths are cast to a single byte. */
  function PayloadBytes(t: SignatureToken): Bytes
    decreases t, 0
  {
    match t
    case Vector(inner) => TokenBytes(inner)
    case Struct(handle) => U16Le(handle)
    case StructInstantiation(handle, typeArgs) =>
      U16Le(handle) + [|typeArgs| % 0x100] + TokensBytes(typeArgs)
    case Reference(inner) => TokenBytes(inner)
    case MutableReference(inner) => TokenBytes(inner)
    case TypeParameter(index) => U16Le(index)
    case Function(params, ret, abilities) =>
      [|params| % 0x100] + TokensBytes(params) + [|ret| % 0x100] + TokensBytes(ret) + [abilities]
    case _ => []
  }

  /** A token list is the concatenation of its tokens, with no count in front. */
  function TokensBytes(ts: seq<SignatureToken>): Bytes
    decreases ts, 0
  {
    if ts == [] then [] else TokenBytes(ts[0]) + TokensBytes(ts[1..])
  }

  lemma {:induction false} TokensBytesAppend(ts: seq<SignatureToken>, us: seq<SignatureToken>)
    ensures TokensBytes(ts + us) == TokensBytes(ts) + TokensBytes(us)
  {
    if ts == [] {
      assert ts + us == us;
    } else {
      TokensBytesAppend(ts[1..], us);
      assert (ts + us)[0] == ts[0] && (ts + us)[1..] == ts[1..] + us;
      Associative(TokenBytes(ts[0]), TokensBytes(ts[1..]), TokensBytes(us));
    }
  }

  lemma TokensBytesStep(ts: seq<SignatureToken>, i: nat)
    requires i < |ts|
    ensures TokensBytes(ts[..i + 1]) == TokensBytes(ts[..i]) + TokenBytes(ts[i])
  {
    assert ts[..i + 1] == ts[..i] + [ts[i]];
    TokensBytesAppend(ts[..i], [ts[i]]);
    assert [ts[i]][1..] == [];
  }

  // ---- The encoder ----

  method EncodeToken(t: SignatureToken, out: ByteBuffer)
    modifies out
    ensures out.data == old(out.data) + TokenBytes(t)
    decreases t, 2
  {
    out.Push(TokenTag(t));
    EncodePayload(t, out);
  }

  method EncodePayload(t: SignatureToken, out: ByteBuffer)
    modifies out
    ensures out.data == old(out.data) + PayloadBytes(t)
    decreases t, 1
  {
    hide U16Le;
    match t {
      case Vector(inner) => EncodeToken(inner, out);
      case Struct(handle) => out.Extend(U16Le(handle));
      case StructInstantiation(handle, typeArgs) =>
        out.Extend(U16Le(handle));
        out.Push(|typeArgs| % 0x100);
        EncodeTokens(typeArgs, out);
      case Reference(inner) => EncodeToken(inner, out);
      case MutableReference(inner) => EncodeToken(inner, out);
      case TypeParameter(index) => out.Extend(U16Le(index));
      case Function(_, _, _) => EncodeFunction(t, out);
      case _ =>
    }
  }

  method EncodeFunction(t: SignatureToken, out: ByteBuffer)
    requires t.Function?
    modifies out
    ensures out.data == old(out.data) + PayloadBytes(t)
    decreases t, 0
  {
    hide TokensBytes;
    out.Push(|t.params| % 0x100);
    EncodeTokens(t.params, out);
    out.Push(|t.ret| % 0x100);
    EncodeTokens(t.ret, out);
    out.Push(t.abilities);
  }

  /** The `for` loops over type arguments, parameters and results. */
  method EncodeTokens(ts: seq<SignatureToken>, out: ByteBuffer)
    modifies out
    ensures out.data == old(out.data) + TokensBytes(ts)
    decreases ts, 0
  {
    for i := 0 to |ts|
      invariant out.data == old(out.data) + TokensBytes(ts[..i])
    {
      EncodeToken(ts[i], out);
      TokensBytesStep(ts, i);
    }
    assert ts[..|ts|] == ts;
  }

  method SignatureTokensToBytes(tokens: seq<SignatureToken>) returns (bytes: Bytes)
    ensures bytes == TokensBytes(tokens)
  {
    var out := new ByteBuffer();
    EncodeTokens(tokens, out);
    bytes := out.data;
  }

  method SignatureTokenToBytes(token: SignatureToken) returns (bytes: Bytes)
    ensures bytes == TokenBytes(token)
  {
    var out := new ByteBuffer();
    EncodeToken(token, out);
    bytes := out.data;
  }

  // ---- The decoder ----

  /** The bytecode deserializer bounds every token list by 255 entries. */
  ghost predicate ShortLists(t: SignatureToken)
    decreases t, 0
  {
    match t
    case Vector(inner) => ShortLists(inner)
    case Reference(inner) => ShortLists(inner)
    case MutableReference(inner) => ShortLists(inner)
    case StructInstantiation(_, typeArgs) => |typeArgs| < 0x100 && AllShort(typeArgs)
    case Function(params, ret, _) =>
      |params| < 0x100 && |ret| < 0x100 && AllShort(params) && AllShort(ret)
    case _ => true
  }

  ghost predicate AllShort(ts: seq<SignatureToken>)
    decreases ts, 0
  {
    ts == [] || (ShortLists(ts[0]) && AllShort(ts[1..]))
  }

  /** The nine tokens that are a tag and nothing else. */
  function LeafOf(tag: byte): Option<SignatureToken> {
    if tag == 0x01 then Some(Bool)
    else if tag == 0x02 then Some(U8)
    else if tag == 0x03 then Some(U16)
    else if tag == 0x04 then Some(U32)
    else if tag == 0x05 then Some(U64)
    else if tag == 0x06 then Some(U128)
    else if tag == 0x07 then Some(U256)
    else if tag == 0x08 then Some(Address)
    else if tag == 0x09 then Some(Signer)
    else None
  }

  function DecodeToken(b: Bytes): (p: Parsed<SignatureToken>)
    ensures p.Read? ==> |p.rest| < |b|
    decreases |b|, 0
  {
    if b == [] then Fail else DecodePayload(b[0], b[1..])
  }

  function DecodePayload(tag: byte, b: Bytes): (p: Parsed<SignatureToken>)
    ensures p.Read? ==> |p.rest| <= |b|
    decreases |b|, 3
  {
    if LeafOf(tag).Some? then Read(LeafOf(tag).value, b)
    else if tag == 0x0C then DecodeInstantiation(b)
    else if tag == 0x10 then DecodeFunction(b)
    else if tag == 0x0B || tag == 0x0F then DecodeIndex(tag, b)
    else if tag == 0x0A || tag == 0x0D || tag == 0x0E then DecodeInner(tag, b)
    else Fail
  }

  function DecodeIndex(tag: byte, b: Bytes): (p: Parsed<SignatureToken>)
    ensures p.Read? ==> |p.rest| < |b|
  {
    if |b| < 2 then Fail
    else Read(if tag == 0x0B then Struct(FromU16Le(b)) else TypeParameter(FromU16Le(b)), b[2..])
  }

  function DecodeInner(tag: byte, b: Bytes): (p: Parsed<SignatureToken>)
    ensures p.Read? ==> |p.rest| < |b|
    decreases |b|, 1
  {
    match DecodeToken(b)
    case Fail => Fail
    case Read(t, rest) =>
      Read(if tag == 0x0A then Vector(t) else if tag == 0x0D then Reference(t) else MutableReference(t), rest)
  }

  function DecodeInstantiation(b: Bytes): (p: Parsed<SignatureToken>)
    ensures p.Read? ==> |p.rest| < |b|
    decreases |b|, 2
  {
    if |b| < 3 then Fail else
    match DecodeTokens(b[2], b[3..])
    case Fail => Fail
    case Read(ts, rest) => Read(StructInstantiation(FromU16Le(b), ts), rest)
  }

  function DecodeFunction(b: Bytes): (p: Parsed<SignatureToken>)
    ensures p.Read? ==> |p.rest| < |b|
    decreases |b|, 2
  {
    if b == [] then Fail else
    match DecodeTokens(b[0], b[1..])
    case Fail => Fail
    case Read(params, rest) => DecodeResults(params, rest)
  }

  function DecodeResults(params: seq<SignatureToken>, b: Bytes): (p: Parsed<SignatureToken>)
    ensures p.Read? ==> |p.rest| < |b|
    decreases |b|, 2
  {
    if b == [] then Fail else
    match DecodeTokens(b[0], b[1..])
    case Fail => Fail
    case Read(ret, rest) =>
      if rest == [] then Fail else Read(Function(params, ret, rest[0]), rest[1..])
  }

  /** Reads exactly `n` tokens. */
  function DecodeTokens(n: nat, b: Bytes): (p: Parsed<seq<SignatureToken>>)
    ensures p.Read? ==> |p.rest| <= |b|
    decreases |b|, 1, n
  {
    if n == 0 then Read([], b) else
    match DecodeToken(b)
    case Fail => Fail
    case Read(t, rest) =>
      match DecodeTokens(n - 1, rest)
      case Fail => Fail
      case Read(ts, rest') => Read([t] + ts, rest')
  }

  /** The token code is a prefix code: the decoder gives back the token and the suffix. */
  lemma {:induction false} TokenRoundTrip(t: SignatureToken, suffix: Bytes)
    requires ShortLists(t)
    ensures DecodeToken(TokenBytes(t) + suffix) == Read(t, suffix)
    decreases t, 3
  {
    PayloadRoundTrip(t, suffix);
    Associative([TokenTag(t)], PayloadBytes(t), suffix);
    assert ([TokenTag(t)] + (PayloadBytes(t) + suffix))[1..] == PayloadBytes(t) + suffix;
  }

  lemma {:induction false} PayloadRoundTrip(t: SignatureToken, suffix: Bytes)
    requires ShortLists(t)
    ensures DecodePayload(TokenTag(t), PayloadBytes(t) + suffix) == Read(t, suffix)
    decreases t, 2
  {
    match t {
      case StructInstantiation(_, _) => InstantiationRoundTrip(t, suffix);
      case Function(_, _, _) => FunctionRoundTrip(t, suffix);
      case Vector(inner) => TokenRoundTrip(inner, suffix);
      case Reference(inner) => TokenRoundTrip(inner, suffix);
      case MutableReference(inner) => TokenRoundTrip(inner, suffix);
      case Struct(handle) => U16LeRoundTrip(handle, suffix);
      case TypeParameter(index) => U16LeRoundTrip(index, suffix);
      case _ => assert PayloadBytes(t) + suffix == suffix;
    }
  }

  lemma {:induction false} InstantiationRoundTrip(t: SignatureToken, suffix: Bytes)
    requires t.StructInstantiation? && ShortLists(t)
    ensures DecodeInstantiation(PayloadBytes(t) + suffix) == Read(t, suffix)
    decreases t, 0
  {
    TokensRoundTrip(t.typeArgs, suffix);
    var b := PayloadBytes(t) + suffix;
    var tail := [|t.typeArgs|] + TokensBytes(t.typeArgs) + suffix;
    assert b == U16Le(t.handle) + tail;
    assert b[2] == |t.typeArgs| && b[3..] == TokensBytes(t.typeArgs) + suffix;
    U16LeRoundTrip(t.handle, tail);
  }

  lemma FunctionLayout(n: byte, params: Bytes, m: byte, ret: Bytes, abilities: byte, suffix: Bytes)
    ensures [n] + params + [m] + ret + [abilities] + suffix
         == [n] + (params + ([m] + (ret + ([abilities] + suffix))))
  {
  }

  lemma {:induction false} FunctionRoundTrip(t: SignatureToken, suffix: Bytes)
    requires t.Function? && ShortLists(t)
    ensures DecodeFunction(PayloadBytes(t) + suffix) == Read(t, suffix)
    decreases t, 1
  {
    var afterParams := [|t.ret|] + (TokensBytes(t.ret) + ([t.abilities] + suffix));
    TokensRoundTrip(t.params, afterParams);
    ResultsRoundTrip(t, suffix);
    FunctionLayout(|t.params|, TokensBytes(t.params), |t.ret|, TokensBytes(t.ret), t.abilities, suffix);
    assert ([|t.params|] + (TokensBytes(t.params) + afterParams))[1..] == TokensBytes(t.params) + afterParams;
  }

  lemma {:induction false} ResultsRoundTrip(t: SignatureToken, suffix: Bytes)
    requires t.Function? && ShortLists(t)
    ensures DecodeResults(t.params, [|t.ret|] + (TokensBytes(t.ret) + ([t.abilities] + suffix))) == Read(t, suffix)
    decreases t, 0
  {
    var afterRet := [t.abilities] + suffix;
    TokensRoundTrip(t.ret, afterRet);
    assert ([|t.ret|] + (TokensBytes(t.ret) + afterRet))[1..] == TokensBytes(t.ret) + afterRet;
    assert afterRet[1..] == suffix;
  }

  lemma {:induction false} TokensRoundTrip(ts: seq<SignatureToken>, suffix: Bytes)
    requires AllShort(ts)
    ensures DecodeTokens(|ts|, TokensBytes(ts) + suffix) == Read(ts, suffix)
    decreases ts, 0
  {
    if ts == [] {
      assert TokensBytes(ts) + suffix == suffix;
    } else {
      var later := TokensBytes(ts[1..]) + suffix;
      Associative(TokenBytes(ts[0]), TokensBytes(ts[1..]), suffix);
      TokenRoundTrip(ts[0], later);
      TokensRoundTrip(ts[1..], suffix);
      assert ts == [ts[0]] + ts[1..];
    }
  }

  // ---- Lists without a count ----

  /** `signature_tokens_to_bytes` is injective although it writes no count. */
  lemma {:induction false} TokensInjective(ts: seq<SignatureToken>, us: seq<SignatureToken>)
    requires AllShort(ts) && AllShort(us)
    requires TokensBytes(ts) == TokensBytes(us)
    ensures ts == us
  {
    if ts != [] && us != [] {
      TokenRoundTrip(ts[0], TokensBytes(ts[1..]));
      TokenRoundTrip(us[0], TokensBytes(us[1..]));
      TokensInjective(ts[1..], us[1..]);
      assert ts == [ts[0]] + ts[1..] && us == [us[0]] + us[1..];
    }
  }

  /**
   The round trip needs its 255-entry bound, which the deserializer guarantees. Beyond it the cast
   `as u8` would lose the count: an instantiation with 256 type arguments is written exactly like
   one with none, followed by those arguments.
   */
  lemma LongListCollides(handle: u16, args: seq<SignatureToken>)
    requires |args| == 0x100
    ensures TokensBytes([StructInstantiation(handle, args)])
         == TokensBytes([StructInstantiation(handle, [])] + args)
    ensures [StructInstantiation(handle, args)] != [StructInstantiation(handle, [])] + args
  {
    TokensBytesAppend([StructInstantiation(handle, [])], args);
    assert TokenBytes(StructInstantiation(handle, args))
        == TokenBytes(StructInstantiation(handle, [])) + TokensBytes(args);
  }
}
