/**
 The ABI hash of a compiled module (`compute_module_abi_hash` in abi.rs). The hash function
 is a parameter; what is proved is about the byte stream that is fed to it, the preimage.
 */
module AbiModule {
  import opened Base
  import opened AbiTokens
  import opened AbiRows
  import opened AbiLayout

  // ---- The compiled module: pools and tables indexed by number ----

  datatype Visibility = Private | Public | Friend

  datatype FunctionHandle = FunctionHandle(
    name: nat, parameters: nat, results: nat, typeParameters: seq<byte>)

  datatype FunctionDef = FunctionDef(handle: nat, visibility: Visibility, isEntry: bool)

  /** The module that declares the struct, and the number of its name. */
  datatype StructHandle = StructHandle(owner: (Address, Bytes), name: nat, abilities: byte)

  datatype FieldDef = FieldDef(name: nat, signature: SignatureToken)

  datatype VariantDef = VariantDef(name: nat, fields: seq<FieldDef>)

  datatype FieldInformation =
    | NativeFields
    | DeclaredFields(fields: seq<FieldDef>)
    | VariantFields(variants: seq<VariantDef>)

  datatype StructDef = StructDef(handle: nat, info: FieldInformation)

  datatype CompiledModule = CompiledModule(
    address: Address,
    name: Bytes,
    dependencies: seq<(Address, Bytes)>,
    identifiers: seq<Bytes>,
    signatures: seq<seq<SignatureToken>>,
    functionHandles: seq<FunctionHandle>,
    functionDefs: seq<FunctionDef>,
    structHandles: seq<StructHandle>,
    structDefs: seq<StructDef>)

  /** What the deserializer's bounds check guarantees: no index points outside its table. */
  ghost predicate InBounds(m: CompiledModule) {
    && (forall h :: h in m.functionHandles ==>
          h.name < |m.identifiers| && h.parameters < |m.signatures| && h.results < |m.signatures|)
    && (forall d :: d in m.functionDefs ==> d.handle < |m.functionHandles|)
    && (forall h :: h in m.structHandles ==> h.name < |m.identifiers|)
    && (forall d :: d in m.structDefs ==> d.handle < |m.structHandles| && InfoInBounds(m, d.info))
  }

  ghost predicate InfoInBounds(m: CompiledModule, info: FieldInformation) {
    match info
    case NativeFields => true
    case DeclaredFields(fields) => FieldsInBounds(m, fields)
    case VariantFields(variants) =>
      forall v :: v in variants ==> v.name < |m.identifiers| && FieldsInBounds(m, v.fields)
  }

  ghost predicate FieldsInBounds(m: CompiledModule, fields: seq<FieldDef>) {
    forall f :: f in fields ==> f.name < |m.identifiers|
  }

  // ---- The public surface ----

  datatype PublicFunction = PublicFunction(
    name: Bytes,
    visibility: Visibility,
    isEntry: bool,
    params: seq<SignatureToken>,
    results: seq<SignatureToken>)

  datatype StructShape = StructShape(name: Bytes, abilities: byte, layout: Layout)

  datatype Surface = Surface(functions: set<PublicFunction>, structs: set<StructShape>)

  function ResolveFunction(m: CompiledModule, d: FunctionDef): PublicFunction
    requires InBounds(m) && d in m.functionDefs
  {
    var h := m.functionHandles[d.handle];
    PublicFunction(m.identifiers[h.name], d.visibility, d.isEntry,
                   m.signatures[h.parameters], m.signatures[h.results])
  }

  function ResolveFields(m: CompiledModule, fields: seq<FieldDef>): seq<Field>
    requires FieldsInBounds(m, fields)
  {
    seq(|fields|, i requires 0 <= i < |fields| => Field(m.identifiers[fields[i].name], fields[i].signature))
  }

  function ResolveVariants(m: CompiledModule, variants: seq<VariantDef>): seq<Variant>
    requires InfoInBounds(m, VariantFields(variants))
  {
    seq(|variants|, i requires 0 <= i < |variants| =>
      Variant(m.identifiers[variants[i].name], ResolveFields(m, variants[i].fields)))
  }

  function ResolveLayout(m: CompiledModule, info: FieldInformation): Layout
    requires InfoInBounds(m, info)
  {
    match info
    case NativeFields => Native
    case DeclaredFields(fields) => Declared(ResolveFields(m, fields))
    case VariantFields(variants) => DeclaredVariants(ResolveVariants(m, variants))
  }

  function ResolveStruct(m: CompiledModule, d: StructDef): StructShape
    requires InBounds(m) && d in m.structDefs
  {
    var h := m.structHandles[d.handle];
    StructShape(m.identifiers[h.name], h.abilities, ResolveLayout(m, d.info))
  }

  /** The public and friend functions among the first `n` definitions, in definition order. */
  function PublicFunctions(m: CompiledModule, n: nat): seq<PublicFunction>
    requires InBounds(m) && n <= |m.functionDefs|
  {
    if n == 0 then [] else
    var d := m.functionDefs[n - 1];
    PublicFunctions(m, n - 1) + if d.visibility == Private then [] else [ResolveFunction(m, d)]
  }

  /** The surface as the documentation means it: unordered, private functions left out. */
  ghost function PublicSurface(m: CompiledModule): Surface
    requires InBounds(m)
  {
    Surface(
      set d | d in m.functionDefs && d.visibility != Private :: ResolveFunction(m, d),
      set d | d in m.structDefs :: ResolveStruct(m, d))
  }

  // ---- The preimage ----

  /** `Visibility as u8`. */
  function VisibilityByte(v: Visibility): byte {
    match v case Private => 0 case Public => 1 case Friend => 3
  }

  function FunctionRow(f: PublicFunction): Row {
    Row(f.name, [VisibilityByte(f.visibility), if f.isEntry then 1 else 0],
        [TokensBytes(f.params), TokensBytes(f.results)])
  }

  function StructRow(s: StructShape): Row {
    Row(s.name, [s.abilities], [LayoutBytes(s.layout)])
  }

  function FunctionRows(m: CompiledModule, n: nat): (rows: seq<Row>)
    requires InBounds(m) && n <= |m.functionDefs|
  {
    var fs := PublicFunctions(m, n);
    seq(|fs|, i requires 0 <= i < |fs| => FunctionRow(fs[i]))
  }

  function StructRows(m: CompiledModule): (rows: seq<Row>)
    requires InBounds(m)
  {
    seq(|m.structDefs|, i requires 0 <= i < |m.structDefs| => StructRow(ResolveStruct(m, m.structDefs[i])))
  }

  /** `functions:` */
  const FUNCTIONS_TAG: Bytes := [102, 117, 110, 99, 116, 105, 111, 110, 115, 58]

  /** `structs:` */
  const STRUCTS_TAG: Bytes := [115, 116, 114, 117, 99, 116, 115, 58]

  function StreamBytes(functions: seq<Row>, structs: seq<Row>): Bytes {
    SectionBytes(FUNCTIONS_TAG, functions) + SectionBytes(STRUCTS_TAG, structs)
  }

  function Preimage(m: CompiledModule): Bytes
    requires InBounds(m)
  {
    StreamBytes(SortRows(FunctionRows(m, |m.functionDefs|)), SortRows(StructRows(m)))
  }

  // ---- The computation of the source ----

  /** `hasher.update` on every part of a row. */
  method UpdateRow(r: Row, hasher: ByteBuffer)
    modifies hasher
    ensures hasher.data == old(hasher.data) + RowBytes(r)
  {
    hide U32Le;
    hasher.Extend(r.name);
    hasher.Extend(r.head);
    for i := |r.blobs| downto 0
      invariant hasher.data + BlobsBytes(r.blobs[|r.blobs| - i..]) == old(hasher.data) + RowBytes(r)
    {
      var k := |r.blobs| - 1 - i;
      hasher.Extend(U32Le(|r.blobs[k]|));
      hasher.Extend(r.blobs[k]);
      assert r.blobs[k..][1..] == r.blobs[k + 1..];
    }
  }

  method UpdateSection(tag: Bytes, rows: seq<Row>, hasher: ByteBuffer)
    modifies hasher
    ensures hasher.data == old(hasher.data) + SectionBytes(tag, rows)
  {
    hide U32Le, RowBytes;
    hasher.Extend(tag);
    hasher.Extend(U32Le(|rows|));
    for i := 0 to |rows|
      invariant hasher.data == old(hasher.data) + (tag + (U32Le(|rows|) + RowsBytes(rows[..i])))
    {
      UpdateRow(rows[i], hasher);
      assert rows[..i + 1] == rows[..i] + [rows[i]];
      RowsBytesAppend(rows[..i], rows[i]);
    }
    assert rows[..|rows|] == rows;
  }

  method CollectFunctions(m: CompiledModule) returns (entries: seq<Row>)
    requires InBounds(m)
    ensures entries == FunctionRows(m, |m.functionDefs|)
  {
    entries := [];
    for i := 0 to |m.functionDefs|
      invariant entries == FunctionRows(m, i)
    {
      var d := m.functionDefs[i];
      if d.visibility == Private {
        continue;
      }
      var h := m.functionHandles[d.handle];
      var params := SignatureTokensToBytes(m.signatures[h.parameters]);
      var results := SignatureTokensToBytes(m.signatures[h.results]);
      entries := entries + [Row(m.identifiers[h.name],
                                [VisibilityByte(d.visibility), if d.isEntry then 1 else 0],
                                [params, results])];
    }
  }

  method CollectStructs(m: CompiledModule) returns (entries: seq<Row>)
    requires InBounds(m)
    ensures entries == StructRows(m)
  {
    entries := [];
    for i := 0 to |m.structDefs|
      invariant entries == StructRows(m)[..i]
    {
      var d := m.structDefs[i];
      var h := m.structHandles[d.handle];
      assert d in m.structDefs;
      var fieldBytes := EncodeLayout(ResolveLayout(m, d.info));
      entries := entries + [Row(m.identifiers[h.name], [h.abilities], [fieldBytes])];
    }
  }

  method ComputeModuleAbiHash(m: CompiledModule, blake3: Bytes -> HashValue) returns (hash: HashValue)
    requires InBounds(m)
    ensures hash == blake3(Preimage(m))
  {
    hide SectionBytes, FunctionRows, StructRows, SortRows, InBounds;
    var hasher := new ByteBuffer();
    var fnEntries := CollectFunctions(m);
    UpdateSection(FUNCTIONS_TAG, SortRows(fnEntries), hasher);
    var structEntries := CollectStructs(m);
    UpdateSection(STRUCTS_TAG, SortRows(structEntries), hasher);
    assert hasher.data == Preimage(m);
    hash := blake3(hasher.data);
  }

  // ---- Preimages are equal exactly when the surfaces are ----

  ghost predicate GoodFunction(f: PublicFunction) {
    && ValidName(f.name)
    && AllShort(f.params) && |TokensBytes(f.params)| < U32_LIMIT
    && AllShort(f.results) && |TokensBytes(f.results)| < U32_LIMIT
  }

  ghost predicate GoodStruct(s: StructShape) {
    ValidName(s.name) && s.abilities <= 0x0F && GoodLayout(s.layout) && |LayoutBytes(s.layout)| < U32_LIMIT
  }

  /** The bounds of the Move binary format, as far as the preimage depends on them. */
  ghost predicate WellFormed(m: CompiledModule) {
    && InBounds(m)
    && |m.functionDefs| < U32_LIMIT && |m.structDefs| < U32_LIMIT
    && (forall f :: f in PublicSurface(m).functions ==> GoodFunction(f))
    && (forall s :: s in PublicSurface(m).structs ==> GoodStruct(s))
    && DistinctNames(FunctionRows(m, |m.functionDefs|))
    && DistinctNames(StructRows(m))
  }

  lemma {:induction false} PublicFunctionsAre(m: CompiledModule, n: nat)
    requires InBounds(m) && n <= |m.functionDefs|
    ensures |PublicFunctions(m, n)| <= n
    ensures (set f | f in PublicFunctions(m, n)) ==
      (set d | d in m.functionDefs[..n] && d.visibility != Private :: ResolveFunction(m, d))
  {
    if n > 0 {
      PublicFunctionsAre(m, n - 1);
      var d := m.functionDefs[n - 1];
      assert m.functionDefs[..n] == m.functionDefs[..n - 1] + [d];
      var before := PublicFunctions(m, n - 1);
      var added := if d.visibility == Private then [] else [ResolveFunction(m, d)];
      assert (set f | f in before + added) == (set f | f in before) + (set f | f in added);
    }
  }

  ghost function RowsOfFunctions(fs: set<PublicFunction>): set<Row> {
    set f | f in fs :: FunctionRow(f)
  }

  ghost function RowsOfStructs(ss: set<StructShape>): set<Row> {
    set s | s in ss :: StructRow(s)
  }

  lemma FunctionRowSet(m: CompiledModule)
    requires InBounds(m)
    ensures |FunctionRows(m, |m.functionDefs|)| <= |m.functionDefs|
    ensures RowSet(FunctionRows(m, |m.functionDefs|)) == RowsOfFunctions(PublicSurface(m).functions)
  {
    hide FunctionRow, ResolveFunction, PublicFunctions, InBounds;
    var n := |m.functionDefs|;
    PublicFunctionsAre(m, n);
    assert m.functionDefs[..n] == m.functionDefs;
    var fs, rows := PublicFunctions(m, n), FunctionRows(m, n);
    assert PublicSurface(m).functions == set f | f in fs;
    forall r ensures r in rows <==> exists f :: f in fs && r == FunctionRow(f) {
      if r in rows {
        var i :| 0 <= i < |rows| && rows[i] == r;
        assert fs[i] in fs;
      }
      if f :| f in fs && r == FunctionRow(f) {
        var i :| 0 <= i < |fs| && fs[i] == f;
        assert rows[i] == r;
      }
    }
  }

  lemma StructRowSet(m: CompiledModule)
    requires InBounds(m)
    ensures RowSet(StructRows(m)) == RowsOfStructs(PublicSurface(m).structs)
  {
    hide StructRow, ResolveStruct, InBounds;
    var rows := StructRows(m);
    forall r ensures r in rows <==> exists s :: s in PublicSurface(m).structs && r == StructRow(s) {
      if r in rows {
        var i :| 0 <= i < |rows| && rows[i] == r;
        assert m.structDefs[i] in m.structDefs;
      }
      if s :| s in PublicSurface(m).structs && r == StructRow(s) {
        var d :| d in m.structDefs && s == ResolveStruct(m, d);
        var i :| 0 <= i < |m.structDefs| && m.structDefs[i] == d;
        assert rows[i] == r;
      }
    }
  }

  /** The hashed stream can be read back into its two sorted tables. */
  lemma StreamRoundTrip(functions: seq<Row>, structs: seq<Row>)
    requires GoodRows(functions, 2, 2) && GoodRows(structs, 1, 1)
    ensures var rest := SectionBytes(STRUCTS_TAG, structs);
      && DecodeSection(FUNCTIONS_TAG, 2, 2, StreamBytes(functions, structs)) == Read(functions, rest)
      && DecodeSection(STRUCTS_TAG, 1, 1, rest) == Read(structs, [])
  {
    hide *;
    var rest := SectionBytes(STRUCTS_TAG, structs);
    assert StreamBytes(functions, structs) == SectionBytes(FUNCTIONS_TAG, functions) + rest by {
      StreamIsSections(functions, structs);
    }
    SectionRoundTrip(FUNCTIONS_TAG, functions, 2, 2, rest);
    SectionRoundTrip(STRUCTS_TAG, structs, 1, 1, []);
    assert rest + [] == rest;
  }

  lemma StreamIsSections(functions: seq<Row>, structs: seq<Row>)
    ensures StreamBytes(functions, structs)
         == SectionBytes(FUNCTIONS_TAG, functions) + SectionBytes(STRUCTS_TAG, structs)
  {
  }

  lemma FunctionRowInjective(f: PublicFunction, g: PublicFunction)
    requires GoodFunction(f) && GoodFunction(g)
    requires FunctionRow(f) == FunctionRow(g)
    ensures f == g
  {
    hide TokensBytes;
    TokensInjective(f.params, g.params);
    TokensInjective(f.results, g.results);
    assert FunctionRow(f).head[0] == VisibilityByte(f.visibility);
    assert FunctionRow(f).head[1] == if f.isEntry then 1 else 0;
    assert FunctionRow(f).blobs[0] == TokensBytes(f.params) && FunctionRow(f).blobs[1] == TokensBytes(f.results);
  }

  lemma StructRowInjective(s: StructShape, t: StructShape)
    requires GoodStruct(s) && GoodStruct(t)
    requires StructRow(s) == StructRow(t)
    ensures s == t
  {
    hide LayoutBytes, DecodeLayout;
    assert StructRow(s).head[0] == s.abilities && StructRow(s).blobs[0] == LayoutBytes(s.layout);
    LayoutRoundTrip(s.layout);
    LayoutRoundTrip(t.layout);
  }

  lemma SortedTablesGood(m: CompiledModule)
    requires WellFormed(m)
    ensures GoodRows(SortRows(FunctionRows(m, |m.functionDefs|)), 2, 2)
    ensures GoodRows(SortRows(StructRows(m)), 1, 1)
  {
    hide SortRows, FunctionRows, StructRows, TokensBytes, LayoutBytes, InBounds;
    var fs, ss := FunctionRows(m, |m.functionDefs|), StructRows(m);
    FunctionRowSet(m);
    StructRowSet(m);
    SortSorts(fs);
    SortSorts(ss);
    forall i | 0 <= i < |SortRows(fs)| ensures GoodRow(SortRows(fs)[i], 2, 2) {
      assert SortRows(fs)[i] in RowSet(SortRows(fs));
      var f :| f in PublicSurface(m).functions && SortRows(fs)[i] == FunctionRow(f);
    }
    forall i | 0 <= i < |SortRows(ss)| ensures GoodRow(SortRows(ss)[i], 1, 1) {
      assert SortRows(ss)[i] in RowSet(SortRows(ss));
      var s :| s in PublicSurface(m).structs && SortRows(ss)[i] == StructRow(s);
    }
    StructRowCount(m);
  }

  lemma StructRowCount(m: CompiledModule)
    requires InBounds(m)
    ensures |StructRows(m)| == |m.structDefs|
  {
  }

  /** Reading the stream back: equal preimages have equal surfaces. */
  lemma EqualPreimagesEqualSurfaces(m: CompiledModule, n: CompiledModule)
    requires WellFormed(m) && WellFormed(n)
    ensures Preimage(m) == Preimage(n) ==> PublicSurface(m) == PublicSurface(n)
  {
    hide SortRows, FunctionRows, StructRows, FunctionRow, StructRow, GoodFunction, GoodStruct,
         StreamBytes, SectionBytes, DecodeSection, GoodRows, InBounds, DistinctNames, PublicSurface;
    var fm, fn := FunctionRows(m, |m.functionDefs|), FunctionRows(n, |n.functionDefs|);
    var sm, sn := StructRows(m), StructRows(n);
    SortedTablesGood(m);
    SortedTablesGood(n);
    StreamRoundTrip(SortRows(fm), SortRows(sm));
    StreamRoundTrip(SortRows(fn), SortRows(sn));
    SortSorts(fm);
    SortSorts(fn);
    SortSorts(sm);
    SortSorts(sn);
    FunctionRowSet(m);
    FunctionRowSet(n);
    StructRowSet(m);
    StructRowSet(n);
    if Preimage(m) == Preimage(n) {
      SameFunctions(m, n);
      SameFunctions(n, m);
      SameStructs(m, n);
      SameStructs(n, m);
    }
  }

  lemma SameFunctions(m: CompiledModule, n: CompiledModule)
    requires WellFormed(m) && WellFormed(n)
    requires RowsOfFunctions(PublicSurface(m).functions)
          == RowsOfFunctions(PublicSurface(n).functions)
    ensures PublicSurface(m).functions <= PublicSurface(n).functions
  {
    hide FunctionRow, GoodFunction, PublicSurface, InBounds;
    forall f | f in PublicSurface(m).functions ensures f in PublicSurface(n).functions {
      assert FunctionRow(f) in RowsOfFunctions(PublicSurface(m).functions);
      assert FunctionRow(f) in RowsOfFunctions(PublicSurface(n).functions);
      var g :| g in PublicSurface(n).functions && FunctionRow(f) == FunctionRow(g);
      FunctionRowInjective(f, g);
    }
  }

  lemma SameStructs(m: CompiledModule, n: CompiledModule)
    requires WellFormed(m) && WellFormed(n)
    requires RowsOfStructs(PublicSurface(m).structs)
          == RowsOfStructs(PublicSurface(n).structs)
    ensures PublicSurface(m).structs <= PublicSurface(n).structs
  {
    hide StructRow, GoodStruct, PublicSurface, InBounds;
    forall s | s in PublicSurface(m).structs ensures s in PublicSurface(n).structs {
      assert StructRow(s) in RowsOfStructs(PublicSurface(m).structs);
      assert StructRow(s) in RowsOfStructs(PublicSurface(n).structs);
      var t :| t in PublicSurface(n).structs && StructRow(s) == StructRow(t);
      StructRowInjective(s, t);
    }
  }

  /** Sorting removes the definition order: equal surfaces have equal preimages. */
  lemma EqualSurfacesEqualPreimages(m: CompiledModule, n: CompiledModule)
    requires WellFormed(m) && WellFormed(n)
    requires PublicSurface(m) == PublicSurface(n)
    ensures Preimage(m) == Preimage(n)
  {
    hide SortRows, FunctionRows, StructRows, FunctionRow, StructRow, GoodFunction, GoodStruct,
         StreamBytes, InBounds, DistinctNames, PublicSurface, StrictlySorted;
    var fm, fn := FunctionRows(m, |m.functionDefs|), FunctionRows(n, |n.functionDefs|);
    var sm, sn := StructRows(m), StructRows(n);
    FunctionRowSet(m);
    FunctionRowSet(n);
    StructRowSet(m);
    StructRowSet(n);
    SortSorts(fm);
    SortSorts(fn);
    SortSorts(sm);
    SortSorts(sn);
    SortedUnique(SortRows(fm), SortRows(fn));
    SortedUnique(SortRows(sm), SortRows(sn));
  }

  /**
   Main result: two modules have the same preimage exactly when they have the same public
   surface, with struct types compared by handle number.
   */
  lemma PreimageIffSurface(m: CompiledModule, n: CompiledModule)
    requires WellFormed(m) && WellFormed(n)
    ensures Preimage(m) == Preimage(n) <==> PublicSurface(m) == PublicSurface(n)
  {
    EqualPreimagesEqualSurfaces(m, n);
    if PublicSurface(m) == PublicSurface(n) {
      EqualSurfacesEqualPreimages(m, n);
    }
  }

  /** Two different byte strings with one hash. */
  predicate Collide(blake3: Bytes -> HashValue, x: Bytes, y: Bytes) {
    x != y && blake3(x) == blake3(y)
  }

  /**
   Reordering definitions and adding private functions leaves the hash alone as long as the tables
   that the definitions point into only grow at their ends. `InternalChangeKeepsPreimageIff` of
   `AbiResolved` says what happens when the compiler numbers them afresh.
   */
  lemma HashIgnoresOrderAndPrivates(m: CompiledModule, n: CompiledModule, blake3: Bytes -> HashValue)
    requires WellFormed(m) && WellFormed(n)
    requires m.identifiers <= n.identifiers && m.signatures <= n.signatures
    requires m.functionHandles <= n.functionHandles && m.structHandles <= n.structHandles
    requires forall d: FunctionDef :: d.visibility != Private ==> (d in m.functionDefs <==> d in n.functionDefs)
    requires forall d :: d in m.structDefs <==> d in n.structDefs
    ensures blake3(Preimage(m)) == blake3(Preimage(n))
  {
    hide ResolveFunction, ResolveStruct, GoodFunction, GoodStruct, FunctionRows, StructRows, Preimage, InBounds;
    forall f ensures f in PublicSurface(m).functions <==> f in PublicSurface(n).functions {
      if f in PublicSurface(m).functions {
        var d :| d in m.functionDefs && d.visibility != Private && f == ResolveFunction(m, d);
        SameFunction(m, n, d);
      }
      if f in PublicSurface(n).functions {
        var d :| d in n.functionDefs && d.visibility != Private && f == ResolveFunction(n, d);
        SameFunction(m, n, d);
      }
    }
    forall s ensures s in PublicSurface(m).structs <==> s in PublicSurface(n).structs {
      if s in PublicSurface(m).structs {
        var d :| d in m.structDefs && s == ResolveStruct(m, d);
        SameShape(m, n, d);
      }
      if s in PublicSurface(n).structs {
        var d :| d in n.structDefs && s == ResolveStruct(n, d);
        SameShape(m, n, d);
      }
    }
    EqualSurfacesEqualPreimages(m, n);
  }

  /**
   The comment on the hash promises to cover type parameters; the code never writes them.
   Modules that differ only in the type parameters of their functions hash alike.
   */
  lemma TypeParametersAreNotHashed(m: CompiledModule, handles: seq<FunctionHandle>)
    requires InBounds(m) && |handles| == |m.functionHandles|
    requires forall i :: 0 <= i < |handles| ==>
      handles[i].(typeParameters := []) == m.functionHandles[i].(typeParameters := [])
    ensures InBounds(m.(functionHandles := handles))
    ensures Preimage(m.(functionHandles := handles)) == Preimage(m)
  {
    hide SortRows, StreamBytes, FunctionRow, StructRow;
    var n := m.(functionHandles := handles);
    forall h | h in handles
      ensures h.name < |m.identifiers| && h.parameters < |m.signatures| && h.results < |m.signatures|
    {
      var i :| 0 <= i < |handles| && handles[i] == h;
      assert m.functionHandles[i] in m.functionHandles;
    }
    assert InBounds(n);
    SameFunctionRows(m, n, |m.functionDefs|);
    forall d | d in m.structDefs ensures ResolveStruct(n, d) == ResolveStruct(m, d) {
      SameShape(m, n, d);
    }
    assert StructRows(n) == StructRows(m);
  }

  /** The name of a module is not hashed. */
  lemma NameIsNotHashed(m: CompiledModule, name: Bytes)
    requires InBounds(m)
    ensures InBounds(m.(name := name)) && Preimage(m.(name := name)) == Preimage(m)
    ensures PublicSurface(m.(name := name)) == PublicSurface(m)
    ensures WellFormed(m) ==> WellFormed(m.(name := name))
  {
    hide SortRows, StreamBytes, FunctionRow, StructRow, GoodFunction, GoodStruct;
    var n := m.(name := name);
    assert InBounds(n);
    forall d | d in m.functionDefs ensures ResolveFunction(n, d) == ResolveFunction(m, d) {
      SameFunction(m, n, d);
    }
    SameFunctionRows(m, n, |m.functionDefs|);
    forall d | d in m.structDefs ensures ResolveStruct(n, d) == ResolveStruct(m, d) {
      SameShape(m, n, d);
    }
    assert StructRows(n) == StructRows(m);
  }

  lemma {:induction false} SameFunctionRows(m: CompiledModule, n: CompiledModule, k: nat)
    requires InBounds(m) && InBounds(n) && m.functionDefs == n.functionDefs && k <= |m.functionDefs|
    requires forall d :: d in m.functionDefs ==> ResolveFunction(m, d) == ResolveFunction(n, d)
    ensures PublicFunctions(m, k) == PublicFunctions(n, k)
  {
    hide ResolveFunction, InBounds;
    if k > 0 {
      SameFunctionRows(m, n, k - 1);
      assert m.functionDefs[k - 1] in m.functionDefs;
    }
  }

  lemma SameFunction(m: CompiledModule, n: CompiledModule, d: FunctionDef)
    requires InBounds(m) && InBounds(n) && d in m.functionDefs && d in n.functionDefs
    requires m.identifiers <= n.identifiers && m.signatures <= n.signatures && m.functionHandles <= n.functionHandles
    ensures ResolveFunction(m, d) == ResolveFunction(n, d)
  {
    var h := m.functionHandles[d.handle];
    assert h in m.functionHandles && n.functionHandles[d.handle] == h;
  }

  lemma SameShape(m: CompiledModule, n: CompiledModule, d: StructDef)
    requires InBounds(m) && InBounds(n) && d in m.structDefs && d in n.structDefs
    requires m.identifiers <= n.identifiers && m.structHandles <= n.structHandles
    ensures ResolveStruct(m, d) == ResolveStruct(n, d)
  {
    match d.info {
      case NativeFields =>
      case DeclaredFields(fields) => assert ResolveFields(m, fields) == ResolveFields(n, fields);
      case VariantFields(variants) =>
        assert forall i :: 0 <= i < |variants| ==> variants[i] in variants;
        assert forall i :: 0 <= i < |variants| ==>
          ResolveFields(m, variants[i].fields) == ResolveFields(n, variants[i].fields);
        assert ResolveVariants(m, variants) == ResolveVariants(n, variants);
    }
  }
}
