/**
 string.move over the string natives of nexus-move-stdlib. A string is a byte vector that is
 meant to stay well-formed UTF-8; offsets are byte offsets.
 */
module Strings {
  import opened Base
  import opened Utf8
  import opened Vectors

  const EINVALID_UTF8: u64 := 1
  const EINVALID_INDEX: u64 := 2

  // ---- Natives ----

  /** `std::str::from_utf8(..).is_ok()`. */
  predicate CheckUtf8(v: Bytes) {
    WellFormed(v)
  }

  /** `str::is_char_boundary`: it looks at a single byte; false on bytes that are not UTF-8. */
  predicate IsCharBoundary(v: Bytes, i: nat) {
    WellFormed(v) && (i == 0 || i == |v| || (i < |v| && !IsTail(v[i])))
  }

  /** The first window of `s` at or after `from` that equals `r`; the length of `s` when none does. */
  function FirstWindow(s: Bytes, r: Bytes, from: nat): (p: nat)
    requires from <= |s|
    decreases |s| - from
  {
    if from + |r| > |s| then |s|
    else if s[from..from + |r|] == r then from
    else if from == |s| then |s|
    else FirstWindow(s, r, from + 1)
  }

  function InternalIndexOf(s: Bytes, r: Bytes): nat {
    if r == [] then 0 else FirstWindow(s, r, 0)
  }

  function InternalSubString(v: Bytes, i: nat, j: nat): Result<Bytes, u64> {
    if j < i then Err(1) else if j > |v| then Err(1) else Ok(v[i..j])
  }

  // ---- Boundaries ----

  /** On UTF-8 the one-byte test finds exactly the places where characters start. */
  lemma {:induction false} BoundaryTest(v: Bytes, i: nat)
    requires WellFormed(v)
    ensures IsCharBoundary(v, i) <==> Boundary(v, i)
    decreases |v|
  {
    if v != [] && i > 0 {
      var n := CharLength(v);
      if i >= n {
        BoundaryTest(v[n..], i - n);
        if v[n..] != [] { FirstByte(v[n..]); }
      }
    }
  }

  lemma FirstByte(v: Bytes)
    requires WellFormed(v) && v != []
    ensures !IsTail(v[0])
  {
  }

  // ---- Searching ----

  ghost predicate OccursAt(s: Bytes, r: Bytes, p: nat) {
    p + |r| <= |s| && s[p..p + |r|] == r
  }

  lemma {:induction false} FirstWindowIsFirst(s: Bytes, r: Bytes, from: nat)
    requires from <= |s| && r != []
    ensures var p := FirstWindow(s, r, from);
      && (OccursAt(s, r, p) || p == |s|)
      && from <= p <= |s|
      && (forall q :: from <= q < p ==> !OccursAt(s, r, q))
    decreases |s| - from
  {
    if from + |r| <= |s| && s[from..from + |r|] != r && from < |s| {
      FirstWindowIsFirst(s, r, from + 1);
    }
  }

  /** UTF-8 synchronises itself: a byte match of one string in another starts and ends at boundaries. */
  lemma MatchAtBoundaries(s: Bytes, r: Bytes, p: nat)
    requires WellFormed(s) && WellFormed(r) && r != []
    requires OccursAt(s, r, p)
    ensures Boundary(s, p) && Boundary(s, p + |r|)
  {
    hide CharLength;
    FirstByte(r);
    assert s[p] == r[0];
    BoundaryTest(s, p);
    BoundarySplits(s, p);
    var rest := s[p + |r|..];
    assert s[p..] == r + rest;
    Concat(r, rest);
    if rest != [] {
      FirstByte(rest);
      assert s[p + |r|] == rest[0];
    }
    BoundaryTest(s, p + |r|);
  }

  /** A hit of the search is the first one, sits on boundaries, and cutting it out gives `r` back. */
  lemma IndexOfFinds(s: Bytes, r: Bytes)
    requires WellFormed(s) && WellFormed(r)
    ensures r == [] ==> InternalIndexOf(s, r) == 0
    ensures r != [] ==> var p := InternalIndexOf(s, r);
      && (forall q :: 0 <= q < p ==> !OccursAt(s, r, q))
      && (p == |s| <==> forall q: nat :: !OccursAt(s, r, q))
      && (p < |s| ==> IsCharBoundary(s, p) && IsCharBoundary(s, p + |r|) && SubString(s, p, p + |r|) == Ok(r))
  {
    hide WellFormed, Boundary, SubString;
    if r == [] { return; }
    var p := InternalIndexOf(s, r);
    FirstWindowIsFirst(s, r, 0);
    if p < |s| {
      MatchCutsOut(s, r, p);
    } else {
      assert forall q: nat :: q >= |s| ==> !OccursAt(s, r, q);
    }
  }

  lemma MatchCutsOut(s: Bytes, r: Bytes, p: nat)
    requires WellFormed(s) && WellFormed(r) && r != [] && OccursAt(s, r, p)
    ensures IsCharBoundary(s, p) && IsCharBoundary(s, p + |r|) && SubString(s, p, p + |r|) == Ok(r)
  {
    hide WellFormed, Boundary;
    MatchAtBoundaries(s, r, p);
    BoundaryTest(s, p);
    BoundaryTest(s, p + |r|);
  }

  /**
   The byte search is `str::find`: a byte occurrence at `p` is an occurrence of the scalar
   values of `r` among those of `s`, behind scalars whose encoding is `p` bytes long.
   */
  lemma ByteMatchIsScalarMatch(s: Bytes, r: Bytes, p: nat)
    requires WellFormed(s) && WellFormed(r) && r != []
    ensures OccursAt(s, r, p) <==>
      exists before: seq<Scalar>, after: seq<Scalar> ::
        Decode(s) == before + Decode(r) + after && |Encode(before)| == p
  {
    hide CharLength, DecodeChar, EncodeScalar;
    if OccursAt(s, r, p) {
      MatchSplits(s, r, p);
    }
    if before: seq<Scalar>, after: seq<Scalar> :|
        Decode(s) == before + Decode(r) + after && |Encode(before)| == p {
      ScalarsSplit(s, r, before, after);
    }
  }

  lemma MatchSplits(s: Bytes, r: Bytes, p: nat)
    requires WellFormed(s) && WellFormed(r) && r != [] && OccursAt(s, r, p)
    ensures exists before: seq<Scalar>, after: seq<Scalar> ::
        Decode(s) == before + Decode(r) + after && |Encode(before)| == p
  {
    hide CharLength, DecodeChar, EncodeScalar, Decode, Encode, WellFormed, Boundary;
    MatchAtBoundaries(s, r, p);
    BoundarySplits(s, p);
    var front, rest := s[..p], s[p + |r|..];
    assert s[p..] == r + rest && s == front + (r + rest);
    Concat(r, rest);
    DecodeConcat(r, rest);
    DecodeConcat(front, r + rest);
    EncodeInvertsDecode(front);
    assert Decode(s) == Decode(front) + Decode(r) + Decode(rest);
  }

  lemma ScalarsSplit(s: Bytes, r: Bytes, before: seq<Scalar>, after: seq<Scalar>)
    requires WellFormed(s) && WellFormed(r)
    requires Decode(s) == before + Decode(r) + after
    ensures OccursAt(s, r, |Encode(before)|)
  {
    hide CharLength, DecodeChar, EncodeScalar, Decode, Encode, WellFormed, Boundary;
    var front, rest := Encode(before), Encode(after);
    DecodeInvertsEncode(before);
    DecodeInvertsEncode(after);
    DecodeConcat(r, rest);
    DecodeConcat(front, r + rest);
    assert Decode(front + (r + rest)) == Decode(s);
    EncodeInvertsDecode(front + (r + rest));
    EncodeInvertsDecode(s);
    assert s == front + (r + rest);
  }

  // ---- string.move on byte values ----

  function Utf8String(bytes: Bytes): Result<Bytes, u64> {
    if CheckUtf8(bytes) then Ok(bytes) else Err(EINVALID_UTF8)
  }

  function SubString(s: Bytes, i: nat, j: nat): Result<Bytes, u64> {
    if j <= |s| && i <= j && IsCharBoundary(s, i) && IsCharBoundary(s, j)
    then InternalSubString(s, i, j)
    else Err(EINVALID_INDEX)
  }

  /** Cutting between boundaries gives the bytes in between, well-formed again; off them it aborts with 2. */
  lemma SubStringWellFormed(s: Bytes, i: nat, j: nat)
    requires WellFormed(s)
    ensures SubString(s, i, j) ==
      if i <= j <= |s| && Boundary(s, i) && Boundary(s, j) then Ok(s[i..j]) else Err(2)
    ensures SubString(s, i, j).Ok? <==> i <= j && Boundary(s, i) && Boundary(s, j)
    ensures SubString(s, i, j).Ok? ==> WellFormed(SubString(s, i, j).value)
  {
    hide CharLength;
    BoundaryTest(s, i);
    BoundaryTest(s, j);
    if Boundary(s, j) { BoundarySplits(s, j); }
    if i <= j && Boundary(s, i) && Boundary(s, j) {
      BoundarySplits(s, i);
      assert s[..i] + s[i..j] == s[..j];
      Concat(s[..i], s[i..j]);
    }
  }

  /** A string object: the `&mut String` that append and insert update. */
  class MoveString {
    var bytes: Bytes

    ghost predicate Valid()
      reads this
    {
      WellFormed(bytes)
    }

    constructor (bytes: Bytes)
      ensures this.bytes == bytes
    {
      this.bytes := bytes;
    }

    static method FromUtf8(bytes: Bytes) returns (r: Result<MoveString, u64>)
      ensures r.Ok? <==> WellFormed(bytes)
      ensures r.Ok? ==> fresh(r.value) && r.value.Valid() && r.value.bytes == bytes
      ensures r.Err? ==> r.error == EINVALID_UTF8
    {
      if !CheckUtf8(bytes) { return Err(EINVALID_UTF8); }
      var s := new MoveString(bytes);
      return Ok(s);
    }

    /** `vector::append` on the bytes. */
    method Append(r: Bytes)
      requires Valid() && WellFormed(r)
      modifies this
      ensures Valid() && bytes == old(bytes) + r
    {
      Concat(bytes, r);
      var v := new Vector(bytes);
      v.Append(r);
      bytes := v.elems;
    }

    method AppendUtf8(more: Bytes) returns (r: Result<(), u64>)
      requires Valid()
      modifies this
      ensures Valid() && (r.Ok? <==> WellFormed(more))
      ensures r.Ok? ==> bytes == old(bytes) + more
      ensures r.Err? ==> bytes == old(bytes) && r.error == EINVALID_UTF8
    {
      if !CheckUtf8(more) { return Err(EINVALID_UTF8); }
      Append(more);
      return Ok(());
    }

    /** Rebuilds the string from its front, the insertion and its end; the inner cuts never abort. */
    method Insert(at: nat, o: Bytes) returns (r: Result<(), u64>)
      requires Valid() && WellFormed(o)
      modifies this
      ensures Valid()
      ensures r.Ok? <==> at <= |old(bytes)| && Boundary(old(bytes), at)
      ensures r.Ok? ==> bytes == old(bytes)[..at] + o + old(bytes)[at..]
      ensures r.Err? ==> bytes == old(bytes) && r.error == EINVALID_INDEX
    {
      hide CharLength, WellFormed, Boundary;
      BoundaryTest(bytes, at);
      if !(at <= |bytes| && IsCharBoundary(bytes, at)) { return Err(EINVALID_INDEX); }
      var l := |bytes|;
      SubStringWellFormed(bytes, 0, at);
      SubStringWellFormed(bytes, at, l);
      var front := new MoveString(SubString(bytes, 0, at).value);
      var end := SubString(bytes, at, l).value;
      front.Append(o);
      front.Append(end);
      bytes := front.bytes;
      return Ok(());
    }
  }

  // ---- Every string a program can build ----

  /** A program text over the string API; values are what the calls return. */
  datatype StringProgram =
    | FromUtf8(bytes: Bytes)
    | Append(s: StringProgram, r: StringProgram)
    | AppendUtf8(s: StringProgram, bytes: Bytes)
    | Insert(s: StringProgram, at: nat, o: StringProgram)
    | Slice(s: StringProgram, i: nat, j: nat)

  /** The value of a program, or the code of its first abort. Insert is built as the source builds it. */
  function Eval(e: StringProgram): Result<Bytes, u64> {
    match e
    case FromUtf8(bytes) => Utf8String(bytes)
    case Append(s, r) =>
      (match (Eval(s), Eval(r))
       case (Ok(a), Ok(b)) => Ok(a + b)
       case (Err(c), _) => Err(c)
       case (_, Err(c)) => Err(c))
    case AppendUtf8(s, bytes) =>
      (match (Eval(s), Utf8String(bytes))
       case (Ok(a), Ok(b)) => Ok(a + b)
       case (Err(c), _) => Err(c)
       case (_, Err(c)) => Err(c))
    case Slice(s, i, j) =>
      (match Eval(s)
       case Ok(a) => SubString(a, i, j)
       case Err(c) => Err(c))
    case Insert(s, at, o) =>
      (match (Eval(s), Eval(o))
       case (Ok(a), Ok(b)) => InsertValue(a, at, b)
       case (Err(c), _) => Err(c)
       case (_, Err(c)) => Err(c))
  }

  function InsertValue(s: Bytes, at: nat, o: Bytes): Result<Bytes, u64> {
    if !(at <= |s| && IsCharBoundary(s, at)) then Err(EINVALID_INDEX)
    else match (SubString(s, 0, at), SubString(s, at, |s|))
      case (Ok(front), Ok(end)) => Ok(front + o + end)
      case (Err(c), _) => Err(c)
      case (_, Err(c)) => Err(c)
  }

  /** Insertion aborts exactly off the boundaries, and otherwise splices `o` in. */
  lemma InsertSplices(s: Bytes, at: nat, o: Bytes)
    requires WellFormed(s) && WellFormed(o)
    ensures InsertValue(s, at, o) ==
      if at <= |s| && Boundary(s, at) then Ok(s[..at] + o + s[at..]) else Err(EINVALID_INDEX)
    ensures InsertValue(s, at, o).Ok? ==> WellFormed(InsertValue(s, at, o).value)
  {
    hide CharLength, WellFormed, Boundary;
    BoundaryTest(s, at);
    if at <= |s| && IsCharBoundary(s, at) {
      SubStringWellFormed(s, 0, at);
      SubStringWellFormed(s, at, |s|);
      assert s[0..at] == s[..at] && s[at..|s|] == s[at..];
      Concat(s[..at], o);
      Concat(s[..at] + o, s[at..]);
    }
  }

  /** Every string that a program can build is well-formed UTF-8. */
  lemma {:induction false} ReachableStringsWellFormed(e: StringProgram)
    ensures Eval(e).Ok? ==> WellFormed(Eval(e).value)
  {
    hide WellFormed, SubString, InsertValue;
    match e {
      case FromUtf8(bytes) =>
      case Append(s, r) =>
        ReachableStringsWellFormed(s);
        ReachableStringsWellFormed(r);
        if Eval(s).Ok? && Eval(r).Ok? { Concat(Eval(s).value, Eval(r).value); }
      case AppendUtf8(s, bytes) =>
        ReachableStringsWellFormed(s);
        if Eval(s).Ok? && WellFormed(bytes) { Concat(Eval(s).value, bytes); }
      case Slice(s, i, j) =>
        ReachableStringsWellFormed(s);
        if Eval(s).Ok? { SubStringWellFormed(Eval(s).value, i, j); }
      case Insert(s, at, o) =>
        ReachableStringsWellFormed(s);
        ReachableStringsWellFormed(o);
        if Eval(s).Ok? && Eval(o).Ok? { InsertSplices(Eval(s).value, at, Eval(o).value); }
    }
  }
}
