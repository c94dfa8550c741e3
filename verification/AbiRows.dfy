/**
 The outer layer of the ABI preimage in abi.rs: sections of entries sorted by name.
 An entry is a name with no length in front of it, a few head bytes, and blobs that
 carry their length. The reader finds the end of a name because identifier bytes are
 all at least 0x24 while the first head byte (visibility or abilities) is smaller.
 */
module AbiRows {
  import opened Base

  /** One entry as the hasher sees it: `name`, then `head`, then every blob with its u32 length. */
  datatype Row = Row(name: Bytes, head: Bytes, blobs: seq<Bytes>)

  const NAME_FLOOR: nat := 0x24

  /** A Move identifier: 1 to 255 bytes, none below `$`. */
  predicate ValidName(name: Bytes) {
    0 < |name| <= 0xFF && forall i :: 0 <= i < |name| ==> name[i] >= NAME_FLOOR
  }

  predicate GoodRow(r: Row, heads: nat, blobs: nat) {
    && ValidName(r.name)
    && |r.head| == heads > 0 && r.head[0] < NAME_FLOOR
    && |r.blobs| == blobs
    && forall i :: 0 <= i < |r.blobs| ==> |r.blobs[i]| < U32_LIMIT
  }

  predicate GoodRows(rs: seq<Row>, heads: nat, blobs: nat) {
    |rs| < U32_LIMIT && forall i :: 0 <= i < |rs| ==> GoodRow(rs[i], heads, blobs)
  }

  // ---- Writing ----

  function BlobsBytes(blobs: seq<Bytes>): Bytes {
    if blobs == [] then [] else BlobBytes(blobs[0]) + BlobsBytes(blobs[1..])
  }

  function RowBytes(r: Row): Bytes {
    r.name + (r.head + BlobsBytes(r.blobs))
  }

  function RowsBytes(rs: seq<Row>): Bytes {
    if rs == [] then [] else RowBytes(rs[0]) + RowsBytes(rs[1..])
  }

  function SectionBytes(tag: Bytes, rs: seq<Row>): Bytes {
    tag + (U32Le(|rs|) + RowsBytes(rs))
  }

  lemma {:induction false} RowsBytesAppend(rs: seq<Row>, r: Row)
    ensures RowsBytes(rs + [r]) == RowsBytes(rs) + RowBytes(r)
  {
    if rs == [] {
      assert rs + [r] == [r] && [r][1..] == [];
    } else {
      RowsBytesAppend(rs[1..], r);
      assert (rs + [r])[0] == rs[0] && (rs + [r])[1..] == rs[1..] + [r];
      Associative(RowBytes(rs[0]), RowsBytes(rs[1..]), RowBytes(r));
    }
  }

  // ---- Reading ----

  /** How many leading bytes can belong to an identifier. */
  function NameLength(b: Bytes): (n: nat)
    ensures n <= |b|
  {
    if b == [] || b[0] < NAME_FLOOR then 0 else 1 + NameLength(b[1..])
  }

  function DecodeBlobs(count: nat, b: Bytes): Parsed<seq<Bytes>> {
    if count == 0 then Read([], b) else
    match DecodeBlob(b)
    case Fail => Fail
    case Read(blob, rest) =>
      match DecodeBlobs(count - 1, rest)
      case Fail => Fail
      case Read(blobs, rest') => Read([blob] + blobs, rest')
  }

  function DecodeRow(heads: nat, blobs: nat, b: Bytes): Parsed<Row> {
    DecodeBody(b[..NameLength(b)], heads, blobs, b[NameLength(b)..])
  }

  function DecodeBody(name: Bytes, heads: nat, blobs: nat, b: Bytes): Parsed<Row> {
    if |b| < heads then Fail else
    match DecodeBlobs(blobs, b[heads..])
    case Fail => Fail
    case Read(bs, rest) => Read(Row(name, b[..heads], bs), rest)
  }

  function DecodeRows(count: nat, heads: nat, blobs: nat, b: Bytes): Parsed<seq<Row>> {
    if count == 0 then Read([], b) else
    match DecodeRow(heads, blobs, b)
    case Fail => Fail
    case Read(r, rest) =>
      match DecodeRows(count - 1, heads, blobs, rest)
      case Fail => Fail
      case Read(rs, rest') => Read([r] + rs, rest')
  }

  function DecodeSection(tag: Bytes, heads: nat, blobs: nat, b: Bytes): Parsed<seq<Row>> {
    if |b| < |tag| + 4 || b[..|tag|] != tag then Fail
    else DecodeRows(FromU32Le(b[|tag|..]), heads, blobs, b[|tag| + 4..])
  }

  lemma {:induction false} NameLengthStops(name: Bytes, rest: Bytes)
    requires forall i :: 0 <= i < |name| ==> name[i] >= NAME_FLOOR
    requires rest != [] && rest[0] < NAME_FLOOR
    ensures NameLength(name + rest) == |name|
  {
    if name == [] {
      assert name + rest == rest;
    } else {
      assert (name + rest)[1..] == name[1..] + rest;
      NameLengthStops(name[1..], rest);
    }
  }

  lemma {:induction false} BlobsRoundTrip(blobs: seq<Bytes>, suffix: Bytes)
    requires forall i :: 0 <= i < |blobs| ==> |blobs[i]| < U32_LIMIT
    ensures DecodeBlobs(|blobs|, BlobsBytes(blobs) + suffix) == Read(blobs, suffix)
  {
    hide DecodeBlob, BlobBytes;
    if blobs == [] {
      assert BlobsBytes(blobs) + suffix == suffix;
    } else {
      var rest := BlobsBytes(blobs[1..]) + suffix;
      assert DecodeBlob(BlobsBytes(blobs) + suffix) == Read(blobs[0], rest) by {
        Associative(BlobBytes(blobs[0]), BlobsBytes(blobs[1..]), suffix);
        BlobRoundTrip(blobs[0], rest);
      }
      BlobsRoundTrip(blobs[1..], suffix);
      assert blobs == [blobs[0]] + blobs[1..];
    }
  }

  lemma RowRoundTrip(r: Row, heads: nat, blobs: nat, suffix: Bytes)
    requires GoodRow(r, heads, blobs)
    ensures DecodeRow(heads, blobs, RowBytes(r) + suffix) == Read(r, suffix)
  {
    var fields := BlobsBytes(r.blobs) + suffix;
    Associative(r.name, r.head + BlobsBytes(r.blobs), suffix);
    Associative(r.head, BlobsBytes(r.blobs), suffix);
    assert (r.head + fields)[0] == r.head[0];
    NameLengthStops(r.name, r.head + fields);
    SplitAt(r.name, r.head + fields);
    SplitAt(r.head, fields);
    BlobsRoundTrip(r.blobs, suffix);
  }

  lemma {:induction false} RowsRoundTrip(rs: seq<Row>, heads: nat, blobs: nat, suffix: Bytes)
    requires forall i :: 0 <= i < |rs| ==> GoodRow(rs[i], heads, blobs)
    ensures DecodeRows(|rs|, heads, blobs, RowsBytes(rs) + suffix) == Read(rs, suffix)
  {
    hide DecodeRow, RowBytes;
    if rs == [] {
      assert RowsBytes(rs) + suffix == suffix;
    } else {
      var rest := RowsBytes(rs[1..]) + suffix;
      assert DecodeRow(heads, blobs, RowsBytes(rs) + suffix) == Read(rs[0], rest) by {
        Associative(RowBytes(rs[0]), RowsBytes(rs[1..]), suffix);
        RowRoundTrip(rs[0], heads, blobs, rest);
      }
      RowsRoundTrip(rs[1..], heads, blobs, suffix);
      assert rs == [rs[0]] + rs[1..];
    }
  }

  /** A section can be read back whatever follows it. */
  lemma SectionRoundTrip(tag: Bytes, rs: seq<Row>, heads: nat, blobs: nat, suffix: Bytes)
    requires GoodRows(rs, heads, blobs)
    ensures DecodeSection(tag, heads, blobs, SectionBytes(tag, rs) + suffix) == Read(rs, suffix)
  {
    var b := SectionBytes(tag, rs) + suffix;
    var later := RowsBytes(rs) + suffix;
    assert b == tag + (U32Le(|rs|) + later);
    assert b[..|tag|] == tag && b[|tag|..] == U32Le(|rs|) + later && b[|tag| + 4..] == later;
    U32LeRoundTrip(|rs|, later);
    RowsRoundTrip(rs, heads, blobs, suffix);
  }

  // ---- Sorting by name ----

  /** `sort_by` on the name: a stable sort. */
  function SortRows(rs: seq<Row>): seq<Row> {
    if rs == [] then [] else InsertRow(rs[0], SortRows(rs[1..]))
  }

  function InsertRow(r: Row, rs: seq<Row>): seq<Row> {
    if rs == [] || LexLe(r.name, rs[0].name) then [r] + rs
    else [rs[0]] + InsertRow(r, rs[1..])
  }

  ghost predicate DistinctNames(rs: seq<Row>) {
    forall i, j :: 0 <= i < j < |rs| ==> rs[i].name != rs[j].name
  }

  ghost predicate StrictlySorted(rs: seq<Row>) {
    forall i, j :: 0 <= i < j < |rs| ==> LexLe(rs[i].name, rs[j].name) && rs[i].name != rs[j].name
  }

  ghost function RowSet(rs: seq<Row>): set<Row> {
    set r | r in rs
  }

  lemma {:induction false} InsertKeepsRows(r: Row, rs: seq<Row>)
    ensures |InsertRow(r, rs)| == |rs| + 1
    ensures RowSet(InsertRow(r, rs)) == RowSet(rs) + {r}
  {
    if rs != [] && !LexLe(r.name, rs[0].name) {
      InsertKeepsRows(r, rs[1..]);
      assert rs == [rs[0]] + rs[1..];
      assert RowSet(rs) == {rs[0]} + RowSet(rs[1..]);
      assert RowSet(InsertRow(r, rs)) == {rs[0]} + RowSet(InsertRow(r, rs[1..]));
    } else {
      assert RowSet([r] + rs) == RowSet(rs) + {r};
    }
  }

  lemma {:induction false} InsertSorted(r: Row, rs: seq<Row>)
    requires StrictlySorted(rs)
    requires forall x :: x in rs ==> x.name != r.name
    ensures StrictlySorted(InsertRow(r, rs))
  {
    if rs == [] {
    } else if LexLe(r.name, rs[0].name) {
      forall k | 0 <= k < |rs| ensures LexLe(r.name, rs[k].name) && rs[k].name != r.name {
        if k > 0 { LexTransitive(r.name, rs[0].name, rs[k].name); }
        assert rs[k] in rs;
      }
    } else {
      var out := InsertRow(r, rs[1..]);
      InsertSorted(r, rs[1..]);
      InsertKeepsRows(r, rs[1..]);
      LexTotal(r.name, rs[0].name);
      forall k | 0 <= k < |out| ensures LexLe(rs[0].name, out[k].name) && rs[0].name != out[k].name {
        assert out[k] in RowSet(out);
        if out[k] != r {
          assert out[k] in rs[1..];
        } else {
          assert rs[0] in rs;
        }
      }
    }
  }

  /** Sorting keeps the rows, and orders them strictly when their names are distinct. */
  lemma {:induction false} SortSorts(rs: seq<Row>)
    ensures |SortRows(rs)| == |rs| && RowSet(SortRows(rs)) == RowSet(rs)
    ensures DistinctNames(rs) ==> StrictlySorted(SortRows(rs))
  {
    if rs != [] {
      SortSorts(rs[1..]);
      InsertKeepsRows(rs[0], SortRows(rs[1..]));
      assert rs == [rs[0]] + rs[1..];
      assert RowSet(rs) == {rs[0]} + RowSet(rs[1..]);
      if DistinctNames(rs) {
        forall x | x in SortRows(rs[1..]) ensures x.name != rs[0].name {
          assert x in RowSet(SortRows(rs[1..]));
          assert x in rs[1..];
        }
        InsertSorted(rs[0], SortRows(rs[1..]));
      }
    }
  }

  lemma NoRows(rs: seq<Row>)
    ensures rs == [] <==> RowSet(rs) == {}
  {
    if rs != [] { assert rs[0] in RowSet(rs); }
  }

  /** Two strictly sorted lists with the same rows are the same list. */
  lemma {:induction false} SortedUnique(a: seq<Row>, b: seq<Row>)
    requires StrictlySorted(a) && StrictlySorted(b)
    requires RowSet(a) == RowSet(b)
    ensures a == b
  {
    hide LexLe;
    NoRows(a);
    NoRows(b);
    if a != [] {
      assert a[0] in RowSet(b) && a[0] in b;
      assert b[0] in b && b[0] in RowSet(a) && b[0] in a;
      var i :| 0 <= i < |a| && a[i] == b[0];
      var j :| 0 <= j < |b| && b[j] == a[0];
      if i > 0 && j > 0 { LexAntisymmetric(a[0].name, b[0].name); }
      assert a[0] == b[0];
      forall r ensures r in RowSet(a[1..]) <==> r in RowSet(b[1..]) {
        TailRows(a, r);
        TailRows(b, r);
      }
      SortedUnique(a[1..], b[1..]);
      assert a == [a[0]] + a[1..] && b == [b[0]] + b[1..];
    }
  }

  lemma TailRows(rs: seq<Row>, r: Row)
    requires rs != [] && StrictlySorted(rs)
    ensures r in RowSet(rs[1..]) <==> r in RowSet(rs) && r != rs[0]
  {
    assert rs == [rs[0]] + rs[1..];
  }
}
