/**
 The field layouts inside the ABI preimage (the struct loop of abi.rs): native, declared
 and variant structs. Variants write no field count, so a reader must tell a further field
 from the next variant; it looks at the byte five places on, which is a type tag (at most
 0x10) in a field and an identifier byte (at least 0x24) or the end of input otherwise.
 */
module AbiLayout {
  import opened Base
  import opened AbiTokens
  import opened AbiRows

  datatype Field = Field(name: Bytes, ty: SignatureToken)

  datatype Variant = Variant(name: Bytes, fields: seq<Field>)

  datatype Layout =
    | Native
    | Declared(fields: seq<Field>)
    | DeclaredVariants(variants: seq<Variant>)

  const NATIVE_MARKER: byte := 0xFF
  const VARIANT_MARKER: byte := 0xFE

  // ---- Writing ----

  function FieldBytes(f: Field): Bytes {
    BlobBytes(f.name) + BlobBytes(TokenBytes(f.ty))
  }

  function FieldsBytes(fs: seq<Field>): Bytes {
    if fs == [] then [] else FieldsBytes(fs[..|fs| - 1]) + FieldBytes(fs[|fs| - 1])
  }

  function VariantsBytes(vs: seq<Variant>): Bytes {
    if vs == [] then [] else
    var last := vs[|vs| - 1];
    VariantsBytes(vs[..|vs| - 1]) + BlobBytes(last.name) + FieldsBytes(last.fields)
  }

  function LayoutBytes(l: Layout): Bytes {
    match l
    case Native => [NATIVE_MARKER]
    case Declared(fields) => FieldsBytes(fields)
    case DeclaredVariants(variants) => [VARIANT_MARKER] + VariantsBytes(variants)
  }

  // ---- The loops of the source ----

  method EncodeField(f: Field, out: ByteBuffer)
    modifies out
    ensures out.data == old(out.data) + FieldBytes(f)
  {
    hide *;
    out.Extend(U32Le(|f.name|));
    out.Extend(f.name);
    var sig := SignatureTokenToBytes(f.ty);
    out.Extend(U32Le(|sig|));
    out.Extend(sig);
    FieldLayout(f, old(out.data));
  }

  lemma FieldLayout(f: Field, before: Bytes)
    ensures before + U32Le(|f.name|) + f.name + U32Le(|TokenBytes(f.ty)|) + TokenBytes(f.ty)
         == before + FieldBytes(f)
  {
    hide U32Le, TokenBytes;
  }

  method EncodeFields(fs: seq<Field>, out: ByteBuffer)
    modifies out
    ensures out.data == old(out.data) + FieldsBytes(fs)
  {
    hide FieldBytes;
    for i := 0 to |fs|
      invariant out.data == old(out.data) + FieldsBytes(fs[..i])
    {
      EncodeField(fs[i], out);
      assert fs[..i + 1][..i] == fs[..i];
    }
    assert fs[..|fs|] == fs;
  }

  method EncodeVariants(vs: seq<Variant>, out: ByteBuffer)
    modifies out
    ensures out.data == old(out.data) + VariantsBytes(vs)
  {
    hide FieldsBytes, U32Le;
    for i := 0 to |vs|
      invariant out.data == old(out.data) + VariantsBytes(vs[..i])
    {
      out.Extend(U32Le(|vs[i].name|));
      out.Extend(vs[i].name);
      EncodeFields(vs[i].fields, out);
      assert vs[..i + 1][..i] == vs[..i];
    }
    assert vs[..|vs|] == vs;
  }

  method EncodeLayout(l: Layout) returns (bytes: Bytes)
    ensures bytes == LayoutBytes(l)
  {
    hide FieldsBytes, VariantsBytes;
    var out := new ByteBuffer();
    match l {
      case Native =>
        out.Push(NATIVE_MARKER);
      case Declared(fields) =>
        EncodeFields(fields, out);
      case DeclaredVariants(variants) =>
        out.Push(VARIANT_MARKER);
        EncodeVariants(variants, out);
    }
    bytes := out.data;
  }

  // ---- Variants as a flat list of items ----

  /** A variant heading or a field: what the reader meets, one after the other. */
  datatype Item = Heading(name: Bytes) | Member(field: Field)

  function ItemBytes(item: Item): Bytes {
    match item
    case Heading(name) => BlobBytes(name)
    case Member(f) => FieldBytes(f)
  }

  function ItemsBytes(items: seq<Item>): Bytes {
    if items == [] then [] else ItemBytes(items[0]) + ItemsBytes(items[1..])
  }

  function Members(fs: seq<Field>): (items: seq<Item>)
    ensures |items| == |fs|
  {
    seq(|fs|, i requires 0 <= i < |fs| => Member(fs[i]))
  }

  function Flatten(vs: seq<Variant>): seq<Item> {
    if vs == [] then [] else [Heading(vs[0].name)] + Members(vs[0].fields) + Flatten(vs[1..])
  }

  /** The fields in front of the first heading, and the variants after it. */
  function Group(items: seq<Item>): (seq<Field>, seq<Variant>) {
    if items == [] then ([], []) else
    var (fields, variants) := Group(items[1..]);
    match items[0]
    case Heading(name) => ([], [Variant(name, fields)] + variants)
    case Member(f) => ([f] + fields, variants)
  }

  lemma {:induction false} GroupMembers(fs: seq<Field>, items: seq<Item>)
    ensures Group(Members(fs) + items) == (fs + Group(items).0, Group(items).1)
  {
    if fs == [] {
      assert Members(fs) + items == items && fs + Group(items).0 == Group(items).0;
    } else {
      GroupMembers(fs[1..], items);
      assert (Members(fs) + items)[0] == Member(fs[0]);
      assert (Members(fs) + items)[1..] == Members(fs[1..]) + items;
      assert [fs[0]] + (fs[1..] + Group(items).0) == fs + Group(items).0;
    }
  }

  lemma GroupHeading(name: Bytes, items: seq<Item>)
    ensures Group([Heading(name)] + items) == ([], [Variant(name, Group(items).0)] + Group(items).1)
  {
    assert ([Heading(name)] + items)[1..] == items;
  }

  lemma {:induction false} GroupInvertsFlatten(vs: seq<Variant>)
    ensures Group(Flatten(vs)) == ([], vs)
  {
    if vs != [] {
      hide Group, Members;
      var first, later := Members(vs[0].fields), Flatten(vs[1..]);
      GroupInvertsFlatten(vs[1..]);
      GroupMembers(vs[0].fields, later);
      GroupHeading(vs[0].name, first + later);
      assert Flatten(vs) == [Heading(vs[0].name)] + (first + later);
      assert vs[0].fields + [] == vs[0].fields;
      assert vs == [vs[0]] + vs[1..];
    }
  }

  lemma {:induction false} ItemsBytesAppend(a: seq<Item>, b: seq<Item>)
    ensures ItemsBytes(a + b) == ItemsBytes(a) + ItemsBytes(b)
  {
    hide ItemBytes;
    if a == [] {
      assert a + b == b;
    } else {
      ItemsBytesAppend(a[1..], b);
      assert (a + b)[0] == a[0] && (a + b)[1..] == a[1..] + b;
      Associative(ItemBytes(a[0]), ItemsBytes(a[1..]), ItemsBytes(b));
    }
  }

  lemma {:induction false} FieldsAreItems(fs: seq<Field>)
    ensures FieldsBytes(fs) == ItemsBytes(Members(fs))
  {
    hide FieldBytes;
    if fs != [] {
      var front, last := fs[..|fs| - 1], fs[|fs| - 1];
      FieldsAreItems(front);
      ItemsBytesAppend(Members(front), [Member(last)]);
      assert Members(fs) == Members(front) + [Member(last)];
      assert [Member(last)][1..] == [];
    }
  }

  lemma {:induction false} FlattenAppend(vs: seq<Variant>, v: Variant)
    ensures Flatten(vs + [v]) == Flatten(vs) + ([Heading(v.name)] + Members(v.fields))
  {
    if vs == [] {
      assert vs + [v] == [v] && [v][1..] == [];
    } else {
      FlattenAppend(vs[1..], v);
      assert (vs + [v])[1..] == vs[1..] + [v];
    }
  }

  lemma {:induction false} VariantsAreItems(vs: seq<Variant>)
    ensures VariantsBytes(vs) == ItemsBytes(Flatten(vs))
  {
    hide BlobBytes, FieldsBytes;
    if vs != [] {
      var front, last := vs[..|vs| - 1], vs[|vs| - 1];
      VariantsAreItems(front);
      FlattenAppend(front, last);
      assert vs == front + [last];
      ItemsBytesAppend(Flatten(front), [Heading(last.name)] + Members(last.fields));
      ItemsBytesAppend([Heading(last.name)], Members(last.fields));
      FieldsAreItems(last.fields);
      assert [Heading(last.name)][1..] == [];
    }
  }

  // ---- Reading ----

  /** Splits the next item off: a field exactly when a length and then a type tag follow the name. */
  function DecodeItem(b: Bytes): (p: Parsed<Item>)
    ensures p.Read? ==> |p.rest| < |b|
  {
    match DecodeBlob(b)
    case Fail => Fail
    case Read(name, rest) =>
      if |rest| < 5 || rest[4] >= NAME_FLOOR then Read(Heading(name), rest)
      else DecodeMember(name, rest)
  }

  function DecodeMember(name: Bytes, b: Bytes): (p: Parsed<Item>)
    ensures p.Read? ==> |p.rest| < |b|
  {
    match DecodeBlob(b)
    case Fail => Fail
    case Read(sig, rest) =>
      match DecodeToken(sig)
      case Fail => Fail
      case Read(ty, left) => if left == [] then Read(Member(Field(name, ty)), rest) else Fail
  }

  function DecodeItems(b: Bytes): Option<seq<Item>> {
    if b == [] then Some([]) else
    match DecodeItem(b)
    case Fail => None
    case Read(item, rest) =>
      match DecodeItems(rest)
      case None => None
      case Some(items) => Some([item] + items)
  }

  /**
   Tells the three layouts apart. A declared struct may open with the bytes FF or FE too,
   when its first field name is 255 or 254 bytes long; the fifth byte then is a name byte.
   */
  function DecodeLayout(b: Bytes): Option<Layout> {
    if b == [NATIVE_MARKER] then Some(Native)
    else if b != [] && b[0] == VARIANT_MARKER && (|b| < 5 || b[4] < NAME_FLOOR) then
      match DecodeItems(b[1..])
      case None => None
      case Some(items) => Some(DeclaredVariants(Group(items).1))
    else
      match DecodeItems(b)
      case None => None
      case Some(items) => Some(Declared(Group(items).0))
  }

  ghost predicate GoodField(f: Field) {
    ValidName(f.name) && ShortLists(f.ty) && |TokenBytes(f.ty)| < U32_LIMIT
  }

  ghost predicate GoodFields(fs: seq<Field>) {
    forall f :: f in fs ==> GoodField(f)
  }

  ghost predicate GoodLayout(l: Layout) {
    match l
    case Native => true
    case Declared(fields) => GoodFields(fields)
    case DeclaredVariants(variants) =>
      forall v :: v in variants ==> ValidName(v.name) && GoodFields(v.fields)
  }

  ghost predicate GoodItem(item: Item) {
    match item
    case Heading(name) => ValidName(name)
    case Member(f) => GoodField(f)
  }

  ghost predicate GoodItems(items: seq<Item>) {
    forall item :: item in items ==> GoodItem(item)
  }

  /** A length-prefixed name puts a name byte in fifth place. */
  lemma NameByte(name: Bytes, rest: Bytes)
    requires ValidName(name)
    ensures |BlobBytes(name) + rest| >= 5
    ensures (BlobBytes(name) + rest)[4] >= NAME_FLOOR
    ensures (BlobBytes(name) + rest)[1] == 0
  {
    assert |name| / 0x100 == 0;
    assert (BlobBytes(name) + rest)[4] == name[0];
    assert (BlobBytes(name) + rest)[1] == U32Le(|name|)[1];
  }

  /** Every item, and so every item list, puts a name byte in fifth place or is empty. */
  lemma ItemsNameByte(items: seq<Item>)
    requires GoodItems(items)
    ensures var b := ItemsBytes(items);
      items != [] ==> |b| >= 5 && b[4] >= NAME_FLOOR && b[1] == 0
    ensures items == [] ==> ItemsBytes(items) == []
  {
    hide BlobBytes, TokenBytes;
    if items != [] {
      var tail := ItemsBytes(items[1..]);
      assert GoodItem(items[0]);
      match items[0] {
        case Heading(name) => NameByte(name, tail);
        case Member(f) =>
          NameByte(f.name, BlobBytes(TokenBytes(f.ty)) + tail);
          Associative(BlobBytes(f.name), BlobBytes(TokenBytes(f.ty)), tail);
      }
    }
  }

  /** A length-prefixed type puts a type tag in fifth place. */
  lemma TagByte(ty: SignatureToken, rest: Bytes)
    ensures |BlobBytes(TokenBytes(ty)) + rest| >= 5
    ensures (BlobBytes(TokenBytes(ty)) + rest)[4] < NAME_FLOOR
  {
    assert (BlobBytes(TokenBytes(ty)) + rest)[4] == TokenBytes(ty)[0];
  }

  lemma HeadingRoundTrip(name: Bytes, suffix: Bytes)
    requires ValidName(name)
    requires |suffix| < 5 || suffix[4] >= NAME_FLOOR
    ensures DecodeItem(BlobBytes(name) + suffix) == Read(Heading(name), suffix)
  {
    BlobRoundTrip(name, suffix);
  }

  lemma MemberRoundTrip(f: Field, suffix: Bytes)
    requires GoodField(f)
    ensures DecodeItem(FieldBytes(f) + suffix) == Read(Member(f), suffix)
  {
    hide BlobBytes, DecodeBlob, TokenBytes, DecodeToken;
    var sig := BlobBytes(TokenBytes(f.ty));
    Associative(BlobBytes(f.name), sig, suffix);
    BlobRoundTrip(f.name, sig + suffix);
    BlobRoundTrip(TokenBytes(f.ty), suffix);
    TokenRoundTrip(f.ty, []);
    assert TokenBytes(f.ty) + [] == TokenBytes(f.ty);
    TagByte(f.ty, suffix);
  }

  lemma {:induction false} ItemsRoundTrip(items: seq<Item>)
    requires GoodItems(items)
    ensures DecodeItems(ItemsBytes(items)) == Some(items)
  {
    hide DecodeItem, FieldBytes, BlobBytes;
    if items != [] {
      var tail := ItemsBytes(items[1..]);
      assert GoodItem(items[0]) && GoodItems(items[1..]);
      ItemsNameByte(items[1..]);
      ItemsNameByte(items);
      match items[0] {
        case Heading(name) => HeadingRoundTrip(name, tail);
        case Member(f) => MemberRoundTrip(f, tail);
      }
      ItemsRoundTrip(items[1..]);
      assert items == [items[0]] + items[1..];
    }
  }

  lemma {:induction false} FlattenGood(vs: seq<Variant>)
    requires forall v :: v in vs ==> ValidName(v.name) && GoodFields(v.fields)
    ensures GoodItems(Flatten(vs))
  {
    if vs != [] {
      FlattenGood(vs[1..]);
      assert vs[0] in vs;
      assert forall item :: item in Members(vs[0].fields) ==> GoodItem(item);
    }
  }

  /** The layout bytes determine the layout, uncounted variant fields included. */
  lemma LayoutRoundTrip(l: Layout)
    requires GoodLayout(l)
    ensures DecodeLayout(LayoutBytes(l)) == Some(l)
  {
    hide DecodeItems, ItemsBytes, FieldsBytes, VariantsBytes, Group, Members, Flatten;
    match l {
      case Native =>
      case Declared(fields) =>
        DeclaredRoundTrip(fields);
      case DeclaredVariants(variants) =>
        var items := Flatten(variants);
        var b := LayoutBytes(l);
        VariantsAreItems(variants);
        FlattenGood(variants);
        ItemsNameByte(items);
        ItemsRoundTrip(items);
        GroupInvertsFlatten(variants);
        assert b[1..] == ItemsBytes(items);
        if items != [] { VariantFifthByte(items); }
    }
  }

  lemma DeclaredRoundTrip(fields: seq<Field>)
    requires GoodFields(fields)
    ensures DecodeLayout(FieldsBytes(fields)) == Some(Declared(fields))
  {
    hide DecodeItems, ItemsBytes, FieldsBytes, Group;
    var items := Members(fields);
    FieldsAreItems(fields);
    assert GoodItems(items);
    ItemsNameByte(items);
    ItemsRoundTrip(items);
    GroupMembers(fields, []);
    assert items + [] == items && fields + [] == fields;
    EmptyGroup();
  }

  lemma EmptyGroup()
    ensures Group([]) == ([], [])
  {
  }

  lemma TopByte(n: nat)
    requires n < 0x100
    ensures U32Le(n)[3] == 0
  {
  }

  /** Behind the marker the fifth byte is the top byte of a length below 256. */
  lemma VariantFifthByte(items: seq<Item>)
    requires GoodItems(items) && items != []
    ensures |ItemsBytes(items)| >= 4 && ItemsBytes(items)[3] == 0
  {
    hide TokenBytes, DecodeItems, U32Le;
    var name := match items[0] case Heading(n) => n case Member(f) => f.name;
    assert GoodItem(items[0]);
    assert ItemsBytes(items)[3] == U32Le(|name|)[3];
    TopByte(|name|);
  }
}
