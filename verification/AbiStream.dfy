/**
 The hashed streams of abi.rs written out byte by byte, straight from the tables of a module:
 which parts an entry has, in which order, and in which order the entries follow each other.
 */
module AbiStream {
  import opened Base
  import opened AbiTokens
  import opened AbiRows
  import opened AbiLayout
  import opened AbiModule
  import opened AbiPackage

  // ---- Type tokens ----

  /** The codes of all sixteen tokens, with a struct handle `h` and a type parameter `i`. */
  lemma TokenWireFormat(h: u16, i: u16)
    ensures TokenBytes(Bool) == [1] && TokenBytes(U8) == [2] && TokenBytes(U16) == [3] && TokenBytes(U32) == [4]
    ensures TokenBytes(U64) == [5] && TokenBytes(U128) == [6] && TokenBytes(U256) == [7]
    ensures TokenBytes(Address) == [8] && TokenBytes(Signer) == [9]
    ensures TokenBytes(Vector(Reference(MutableReference(U8)))) == [0x0A, 0x0D, 0x0E, 2]
    ensures TokenBytes(Struct(h)) == [0x0B, h % 0x100, h / 0x100]
    ensures TokenBytes(StructInstantiation(h, [Bool, U64])) == [0x0C, h % 0x100, h / 0x100, 2, 1, 5]
    ensures TokenBytes(TypeParameter(i)) == [0x0F, i % 0x100, i / 0x100]
    ensures TokenBytes(Function([U8, U16], [Bool, U64], 4)) == [0x10, 2, 2, 3, 2, 1, 5, 4]
  {
    hide TokensBytes;
    TwoTokens(Bool, U64);
    TwoTokens(U8, U16);
    assert TokenBytes(Reference(MutableReference(U8))) == [0x0D] + TokenBytes(MutableReference(U8));
  }

  lemma TwoTokens(t: SignatureToken, u: SignatureToken)
    ensures TokensBytes([t, u]) == TokenBytes(t) + TokenBytes(u)
  {
    hide TokenBytes;
    assert [t, u][1..] == [u] && [u][1..] == [];
    assert TokensBytes([u]) == TokenBytes(u) + TokensBytes([]);
  }

  // ---- Entries, from the tables ----

  function FunctionName(m: CompiledModule, d: FunctionDef): Bytes
    requires InBounds(m) && d in m.functionDefs
  {
    m.identifiers[m.functionHandles[d.handle].name]
  }

  /** One public or friend function: name, visibility, entry flag, parameter types, result types. */
  function FunctionEntry(m: CompiledModule, d: FunctionDef): Bytes
    requires InBounds(m) && d in m.functionDefs
  {
    var h := m.functionHandles[d.handle];
    var params, results := TokensBytes(m.signatures[h.parameters]), TokensBytes(m.signatures[h.results]);
    m.identifiers[h.name] + [if d.visibility == Public then 1 else 3] + [if d.isEntry then 1 else 0]
      + U32Le(|params|) + params + U32Le(|results|) + results
  }

  function FunctionEntries(m: CompiledModule, ds: seq<FunctionDef>): Bytes
    requires InBounds(m) && forall d :: d in ds ==> d in m.functionDefs
  {
    if ds == [] then [] else FunctionEntry(m, ds[0]) + FunctionEntries(m, ds[1..])
  }

  /** Each field is its name and its type, both with their length. */
  function FieldEntries(m: CompiledModule, fields: seq<FieldDef>): Bytes
    requires FieldsInBounds(m, fields)
  {
    if fields == [] then [] else
    var name, ty := m.identifiers[fields[0].name], TokenBytes(fields[0].signature);
    U32Le(|name|) + name + U32Le(|ty|) + ty + FieldEntries(m, fields[1..])
  }

  /** Each variant is its name with its length, and then its fields without a count. */
  function VariantEntries(m: CompiledModule, variants: seq<VariantDef>): Bytes
    requires InfoInBounds(m, VariantFields(variants))
  {
    if variants == [] then [] else
    var name := m.identifiers[variants[0].name];
    U32Le(|name|) + name + FieldEntries(m, variants[0].fields) + VariantEntries(m, variants[1..])
  }

  function InfoEntry(m: CompiledModule, info: FieldInformation): Bytes
    requires InfoInBounds(m, info)
  {
    match info
    case NativeFields => [0xFF]
    case DeclaredFields(fields) => FieldEntries(m, fields)
    case VariantFields(variants) => [0xFE] + VariantEntries(m, variants)
  }

  function StructName(m: CompiledModule, d: StructDef): Bytes
    requires InBounds(m) && d in m.structDefs
  {
    m.identifiers[m.structHandles[d.handle].name]
  }

  /** One struct: name, abilities, and the layout with its length. */
  function StructEntry(m: CompiledModule, d: StructDef): Bytes
    requires InBounds(m) && d in m.structDefs
  {
    var layout := InfoEntry(m, d.info);
    StructName(m, d) + [m.structHandles[d.handle].abilities] + U32Le(|layout|) + layout
  }

  function StructEntries(m: CompiledModule, ds: seq<StructDef>): Bytes
    requires InBounds(m) && forall d :: d in ds ==> d in m.structDefs
  {
    if ds == [] then [] else StructEntry(m, ds[0]) + StructEntries(m, ds[1..])
  }

  ghost predicate Increasing(names: seq<Bytes>) {
    forall i, j :: 0 <= i < j < |names| ==> LexLe(names[i], names[j]) && names[i] != names[j]
  }

  /** All public and friend functions, by increasing name. */
  ghost predicate ListsFunctions(m: CompiledModule, ds: seq<FunctionDef>)
    requires InBounds(m)
  {
    && (forall d :: d in ds <==> d in m.functionDefs && d.visibility != Private)
    && Increasing(seq(|ds|, i requires 0 <= i < |ds| => FunctionName(m, ds[i])))
  }

  /** All structs, by increasing name. */
  ghost predicate ListsStructs(m: CompiledModule, ds: seq<StructDef>)
    requires InBounds(m)
  {
    && (forall d :: d in ds <==> d in m.structDefs)
    && Increasing(seq(|ds|, i requires 0 <= i < |ds| => StructName(m, ds[i])))
  }

  // ---- An entry is what the hasher gets for its row ----

  lemma TwoBlobs(a: Bytes, b: Bytes)
    ensures BlobsBytes([a, b]) == U32Le(|a|) + a + U32Le(|b|) + b
  {
    hide U32Le;
    assert [a, b][1..] == [b] && [b][1..] == [];
    assert BlobsBytes([b]) == BlobBytes(b) + BlobsBytes([]);
  }

  lemma OneBlob(a: Bytes)
    ensures BlobsBytes([a]) == U32Le(|a|) + a
  {
    hide U32Le;
    assert [a][1..] == [];
  }

  lemma FunctionEntryIs(m: CompiledModule, d: FunctionDef)
    requires InBounds(m) && d in m.functionDefs && d.visibility != Private
    ensures RowBytes(FunctionRow(ResolveFunction(m, d))) == FunctionEntry(m, d)
    ensures FunctionRow(ResolveFunction(m, d)).name == FunctionName(m, d)
  {
    hide U32Le, TokensBytes, BlobsBytes;
    var f := ResolveFunction(m, d);
    TwoBlobs(TokensBytes(f.params), TokensBytes(f.results));
  }

  lemma {:induction false} FieldEntriesAre(m: CompiledModule, fields: seq<FieldDef>)
    requires FieldsInBounds(m, fields)
    ensures FieldsBytes(ResolveFields(m, fields)) == FieldEntries(m, fields)
  {
    hide FieldsBytes, FieldBytes, U32Le;
    FieldsAreItems(ResolveFields(m, fields));
    FieldItems(m, fields);
  }

  lemma {:induction false} FieldItems(m: CompiledModule, fields: seq<FieldDef>)
    requires FieldsInBounds(m, fields)
    ensures ItemsBytes(Members(ResolveFields(m, fields))) == FieldEntries(m, fields)
  {
    hide U32Le, TokenBytes;
    if fields != [] {
      FieldItems(m, fields[1..]);
      assert Members(ResolveFields(m, fields))[1..] == Members(ResolveFields(m, fields[1..]));
    }
  }

  lemma {:induction false} VariantEntriesAre(m: CompiledModule, variants: seq<VariantDef>)
    requires InfoInBounds(m, VariantFields(variants))
    ensures ItemsBytes(Flatten(ResolveVariants(m, variants))) == VariantEntries(m, variants)
  {
    if variants != [] {
      hide U32Le, FieldEntries, ItemsBytes, Members;
      var vs := ResolveVariants(m, variants);
      assert variants[0] in variants;
      VariantEntriesAre(m, variants[1..]);
      FieldItems(m, variants[0].fields);
      assert vs[1..] == ResolveVariants(m, variants[1..]);
      ItemsBytesAppend([Heading(vs[0].name)] + Members(vs[0].fields), Flatten(vs[1..]));
      HeadedItems(vs[0].name, Members(vs[0].fields));
    }
  }

  lemma HeadedItems(name: Bytes, items: seq<Item>)
    ensures ItemsBytes([Heading(name)] + items) == U32Le(|name|) + name + ItemsBytes(items)
  {
    hide U32Le;
    assert ([Heading(name)] + items)[1..] == items;
  }

  lemma InfoEntryIs(m: CompiledModule, info: FieldInformation)
    requires InfoInBounds(m, info)
    ensures LayoutBytes(ResolveLayout(m, info)) == InfoEntry(m, info)
  {
    hide FieldsBytes, VariantsBytes, FieldEntries, VariantEntries, ResolveFields, ResolveVariants;
    match info {
      case NativeFields =>
      case DeclaredFields(fields) => FieldEntriesAre(m, fields);
      case VariantFields(variants) =>
        VariantsAreItems(ResolveVariants(m, variants));
        VariantEntriesAre(m, variants);
    }
  }

  lemma StructEntryIs(m: CompiledModule, d: StructDef)
    requires InBounds(m) && d in m.structDefs
    ensures RowBytes(StructRow(ResolveStruct(m, d))) == StructEntry(m, d)
    ensures StructRow(ResolveStruct(m, d)).name == StructName(m, d)
  {
    hide U32Le, BlobsBytes, LayoutBytes, InfoEntry, ResolveLayout;
    InfoEntryIs(m, d.info);
    OneBlob(InfoEntry(m, d.info));
  }

  // ---- The order of the entries ----

  ghost predicate FunctionOf(m: CompiledModule, r: Row, d: FunctionDef)
    requires InBounds(m)
  {
    d in m.functionDefs && d.visibility != Private && r == FunctionRow(ResolveFunction(m, d))
  }

  ghost function SomeFunctionOf(m: CompiledModule, r: Row): (d: FunctionDef)
    requires InBounds(m) && exists d :: FunctionOf(m, r, d)
    ensures FunctionOf(m, r, d)
  {
    var d :| FunctionOf(m, r, d);
    d
  }

  lemma RowOfFunction(m: CompiledModule, n: nat, d: FunctionDef)
    requires InBounds(m) && n <= |m.functionDefs| && d in m.functionDefs[..n] && d.visibility != Private
    ensures FunctionRow(ResolveFunction(m, d)) in FunctionRows(m, n)
  {
    hide FunctionRow, ResolveFunction, InBounds;
    ListedFunction(m, n, d);
    var fs := PublicFunctions(m, n);
    var i :| 0 <= i < |fs| && fs[i] == ResolveFunction(m, d);
    assert FunctionRows(m, n)[i] == FunctionRow(ResolveFunction(m, d));
  }

  lemma {:induction false} ListedFunction(m: CompiledModule, n: nat, d: FunctionDef)
    requires InBounds(m) && n <= |m.functionDefs| && d in m.functionDefs[..n] && d.visibility != Private
    ensures ResolveFunction(m, d) in PublicFunctions(m, n)
  {
    hide ResolveFunction, InBounds;
    assert m.functionDefs[..n] == m.functionDefs[..n - 1] + [m.functionDefs[n - 1]];
    if d != m.functionDefs[n - 1] { ListedFunction(m, n - 1, d); }
  }

  lemma DistinctFront(rows: seq<Row>, last: Row)
    requires DistinctNames(rows + [last])
    ensures DistinctNames(rows) && forall r :: r in rows ==> r.name != last.name
  {
    var all := rows + [last];
    assert forall i :: 0 <= i < |rows| ==> all[i] == rows[i];
    assert all[|rows|] == last;
  }

  /** Where the names are distinct, a name determines the definition. */
  lemma {:induction false} OneFunctionPerName(m: CompiledModule, n: nat, c: FunctionDef, d: FunctionDef)
    requires InBounds(m) && n <= |m.functionDefs| && DistinctNames(FunctionRows(m, n))
    requires c in m.functionDefs[..n] && c.visibility != Private
    requires d in m.functionDefs[..n] && d.visibility != Private
    requires FunctionName(m, c) == FunctionName(m, d)
    ensures c == d
  {
    hide FunctionRow, ResolveFunction, InBounds, DistinctNames, FunctionName;
    var last := m.functionDefs[n - 1];
    assert m.functionDefs[..n] == m.functionDefs[..n - 1] + [last];
    if c != d {
      if last.visibility == Private {
        assert FunctionRows(m, n) == FunctionRows(m, n - 1);
        OneFunctionPerName(m, n - 1, c, d);
      } else {
        FunctionEntryIs(m, c);
        FunctionEntryIs(m, d);
        assert FunctionRows(m, n) == FunctionRows(m, n - 1) + [FunctionRow(ResolveFunction(m, last))];
        DistinctFront(FunctionRows(m, n - 1), FunctionRow(ResolveFunction(m, last)));
        if c != last { RowOfFunction(m, n - 1, c); }
        if d != last { RowOfFunction(m, n - 1, d); }
        if c != last && d != last { OneFunctionPerName(m, n - 1, c, d); }
      }
    }
  }

  lemma SortedFunctionRows(m: CompiledModule)
    requires WellFormed(m)
    ensures var rows := SortRows(FunctionRows(m, |m.functionDefs|));
      && StrictlySorted(rows)
      && (forall r :: r in rows ==> exists d :: FunctionOf(m, r, d))
      && (forall d :: d in m.functionDefs && d.visibility != Private ==> FunctionRow(ResolveFunction(m, d)) in rows)
  {
    hide SortRows, FunctionRows, FunctionRow, ResolveFunction, GoodFunction, GoodStruct, InBounds, StrictlySorted,
         DistinctNames;
    var all := FunctionRows(m, |m.functionDefs|);
    var rows := SortRows(all);
    SortSorts(all);
    FunctionRowSet(m);
    forall r | r in rows ensures exists d :: FunctionOf(m, r, d) {
      assert r in RowSet(rows);
      var f :| f in PublicSurface(m).functions && r == FunctionRow(f);
      var d :| d in m.functionDefs && d.visibility != Private && f == ResolveFunction(m, d);
      assert FunctionOf(m, r, d);
    }
    forall d | d in m.functionDefs && d.visibility != Private
      ensures FunctionRow(ResolveFunction(m, d)) in rows
    {
      assert m.functionDefs[..|m.functionDefs|] == m.functionDefs;
      RowOfFunction(m, |m.functionDefs|, d);
      assert FunctionRow(ResolveFunction(m, d)) in RowSet(all);
    }
  }

  lemma {:induction false} FunctionEntriesAre(m: CompiledModule, rows: seq<Row>, ds: seq<FunctionDef>)
    requires InBounds(m) && |rows| == |ds|
    requires forall i :: 0 <= i < |ds| ==> FunctionOf(m, rows[i], ds[i])
    ensures (forall d :: d in ds ==> d in m.functionDefs) && RowsBytes(rows) == FunctionEntries(m, ds)
  {
    hide FunctionRow, ResolveFunction, InBounds, RowBytes, FunctionEntry;
    if ds != [] {
      assert FunctionOf(m, rows[0], ds[0]);
      FunctionEntryIs(m, ds[0]);
      FunctionEntriesAre(m, rows[1..], ds[1..]);
    }
  }

  ghost predicate FunctionTable(m: CompiledModule, rows: seq<Row>, ds: seq<FunctionDef>)
    requires InBounds(m)
  {
    |rows| == |ds| && ListsFunctions(m, ds) && RowsBytes(rows) == FunctionEntries(m, ds)
  }

  lemma FunctionsListed(m: CompiledModule)
    requires WellFormed(m)
    ensures exists ds :: FunctionTable(m, SortRows(FunctionRows(m, |m.functionDefs|)), ds)
  {
    hide SortRows, FunctionRows, FunctionRow, ResolveFunction, GoodFunction, GoodStruct, InBounds, LexLe,
         DistinctNames, FunctionName, RowsBytes, FunctionEntries, PublicSurface;
    var rows := SortRows(FunctionRows(m, |m.functionDefs|));
    SortedFunctionRows(m);
    assert forall i :: 0 <= i < |rows| ==> rows[i] in rows;
    var ds := seq(|rows|, i requires 0 <= i < |rows| => SomeFunctionOf(m, rows[i]));
    FunctionEntriesAre(m, rows, ds);
    forall i | 0 <= i < |ds| ensures rows[i].name == FunctionName(m, ds[i]) {
      FunctionEntryIs(m, ds[i]);
    }
    forall d | d in m.functionDefs && d.visibility != Private ensures d in ds {
      var i :| 0 <= i < |rows| && rows[i] == FunctionRow(ResolveFunction(m, d));
      FunctionEntryIs(m, d);
      assert m.functionDefs[..|m.functionDefs|] == m.functionDefs;
      OneFunctionPerName(m, |m.functionDefs|, ds[i], d);
    }
    assert FunctionTable(m, rows, ds);
  }

  ghost predicate StructOf(m: CompiledModule, r: Row, d: StructDef)
    requires InBounds(m)
  {
    d in m.structDefs && r == StructRow(ResolveStruct(m, d))
  }

  ghost function SomeStructOf(m: CompiledModule, r: Row): (d: StructDef)
    requires InBounds(m) && exists d :: StructOf(m, r, d)
    ensures StructOf(m, r, d)
  {
    var d :| StructOf(m, r, d);
    d
  }

  lemma RowOfStruct(m: CompiledModule, i: nat)
    requires InBounds(m) && i < |m.structDefs|
    ensures StructRows(m)[i] == StructRow(ResolveStruct(m, m.structDefs[i]))
    ensures StructRows(m)[i].name == StructName(m, m.structDefs[i])
  {
    hide StructRow, ResolveStruct, InBounds, StructName;
    StructEntryIs(m, m.structDefs[i]);
  }

  lemma OneStructPerName(m: CompiledModule, c: StructDef, d: StructDef)
    requires InBounds(m) && DistinctNames(StructRows(m)) && c in m.structDefs && d in m.structDefs
    requires StructName(m, c) == StructName(m, d)
    ensures c == d
  {
    hide StructName, InBounds, StructRows;
    StructRowCount(m);
    var i :| 0 <= i < |m.structDefs| && m.structDefs[i] == c;
    var j :| 0 <= j < |m.structDefs| && m.structDefs[j] == d;
    RowOfStruct(m, i);
    RowOfStruct(m, j);
  }

  lemma SortedStructRows(m: CompiledModule)
    requires WellFormed(m)
    ensures var rows := SortRows(StructRows(m));
      && StrictlySorted(rows)
      && (forall r :: r in rows ==> exists d :: StructOf(m, r, d))
      && (forall d :: d in m.structDefs ==> StructRow(ResolveStruct(m, d)) in rows)
  {
    hide SortRows, StructRows, StructRow, ResolveStruct, GoodFunction, GoodStruct, InBounds, StrictlySorted,
         DistinctNames;
    var all := StructRows(m);
    var rows := SortRows(all);
    SortSorts(all);
    StructRowSet(m);
    StructRowCount(m);
    forall r | r in rows ensures exists d :: StructOf(m, r, d) {
      assert r in RowSet(rows);
      var s :| s in PublicSurface(m).structs && r == StructRow(s);
      var d :| d in m.structDefs && s == ResolveStruct(m, d);
      assert StructOf(m, r, d);
    }
    forall d | d in m.structDefs ensures StructRow(ResolveStruct(m, d)) in rows {
      var i :| 0 <= i < |m.structDefs| && m.structDefs[i] == d;
      RowOfStruct(m, i);
      assert StructRow(ResolveStruct(m, d)) in RowSet(all);
    }
  }

  lemma {:induction false} StructEntriesAre(m: CompiledModule, rows: seq<Row>, ds: seq<StructDef>)
    requires InBounds(m) && |rows| == |ds|
    requires forall i :: 0 <= i < |ds| ==> StructOf(m, rows[i], ds[i])
    ensures (forall d :: d in ds ==> d in m.structDefs) && RowsBytes(rows) == StructEntries(m, ds)
  {
    hide StructRow, ResolveStruct, InBounds, RowBytes, StructEntry;
    if ds != [] {
      assert StructOf(m, rows[0], ds[0]);
      StructEntryIs(m, ds[0]);
      StructEntriesAre(m, rows[1..], ds[1..]);
    }
  }

  ghost predicate StructTable(m: CompiledModule, rows: seq<Row>, ds: seq<StructDef>)
    requires InBounds(m)
  {
    |rows| == |ds| && ListsStructs(m, ds) && RowsBytes(rows) == StructEntries(m, ds)
  }

  lemma StructsListed(m: CompiledModule)
    requires WellFormed(m)
    ensures exists ds :: StructTable(m, SortRows(StructRows(m)), ds)
  {
    hide SortRows, StructRows, StructRow, ResolveStruct, GoodFunction, GoodStruct, InBounds, LexLe,
         DistinctNames, StructName, RowsBytes, StructEntries, PublicSurface;
    var rows := SortRows(StructRows(m));
    SortedStructRows(m);
    assert forall i :: 0 <= i < |rows| ==> rows[i] in rows;
    var ds := seq(|rows|, i requires 0 <= i < |rows| => SomeStructOf(m, rows[i]));
    StructEntriesAre(m, rows, ds);
    forall i | 0 <= i < |ds| ensures rows[i].name == StructName(m, ds[i]) {
      StructEntryIs(m, ds[i]);
    }
    forall d | d in m.structDefs ensures d in ds {
      var i :| 0 <= i < |rows| && rows[i] == StructRow(ResolveStruct(m, d));
      StructEntryIs(m, d);
      OneStructPerName(m, ds[i], d);
    }
    assert StructTable(m, rows, ds);
  }

  // ---- The whole stream ----

  lemma SectionTags()
    ensures FUNCTIONS_TAG == Ascii("functions:") && STRUCTS_TAG == Ascii("structs:")
    ensures PACKAGE_TAG == Ascii("package_abi:")
  {
  }

  /** The preimage is the listed functions and the listed structs, each behind a tag and a count. */
  ghost predicate WrittenAs(m: CompiledModule, fs: seq<FunctionDef>, ss: seq<StructDef>)
    requires InBounds(m)
  {
    && ListsFunctions(m, fs) && ListsStructs(m, ss)
    && Preimage(m) == Ascii("functions:") + U32Le(|fs|) + FunctionEntries(m, fs)
                    + Ascii("structs:") + U32Le(|ss|) + StructEntries(m, ss)
  }

  /** What is hashed for a module, byte by byte: all public functions and all structs, by name. */
  lemma PreimageWrittenOut(m: CompiledModule)
    requires WellFormed(m)
    ensures exists fs, ss :: WrittenAs(m, fs, ss)
  {
    hide SortRows, FunctionRows, StructRows, GoodFunction, GoodStruct, InBounds, ListsFunctions, ListsStructs,
         DistinctNames, RowsBytes, FunctionEntries, StructEntries, U32Le, Ascii, FUNCTIONS_TAG, STRUCTS_TAG;
    FunctionsListed(m);
    StructsListed(m);
    var rf, rs := SortRows(FunctionRows(m, |m.functionDefs|)), SortRows(StructRows(m));
    var fs :| FunctionTable(m, rf, fs);
    var ss :| StructTable(m, rs, ss);
    SectionTags();
    assert WrittenAs(m, fs, ss);
  }

  // ---- One entry in the stream ----

  /** One byte string is a part of another. */
  ghost predicate Within(part: Bytes, whole: Bytes) {
    exists pre, post :: whole == pre + part + post
  }

  lemma {:induction false} FunctionEntryIn(m: CompiledModule, ds: seq<FunctionDef>, d: FunctionDef)
    requires InBounds(m) && (forall c :: c in ds ==> c in m.functionDefs) && d in ds
    ensures Within(FunctionEntry(m, d), FunctionEntries(m, ds))
  {
    hide InBounds, FunctionEntry;
    if d == ds[0] {
      assert FunctionEntries(m, ds) == [] + FunctionEntry(m, d) + FunctionEntries(m, ds[1..]);
    } else {
      FunctionEntryIn(m, ds[1..], d);
      var pre, post :| FunctionEntries(m, ds[1..]) == pre + FunctionEntry(m, d) + post;
      assert FunctionEntries(m, ds) == (FunctionEntry(m, ds[0]) + pre) + FunctionEntry(m, d) + post;
    }
  }

  lemma {:induction false} StructEntryIn(m: CompiledModule, ds: seq<StructDef>, d: StructDef)
    requires InBounds(m) && (forall c :: c in ds ==> c in m.structDefs) && d in ds
    ensures Within(StructEntry(m, d), StructEntries(m, ds))
  {
    hide InBounds, StructEntry;
    if d == ds[0] {
      assert StructEntries(m, ds) == [] + StructEntry(m, d) + StructEntries(m, ds[1..]);
    } else {
      StructEntryIn(m, ds[1..], d);
      var pre, post :| StructEntries(m, ds[1..]) == pre + StructEntry(m, d) + post;
      assert StructEntries(m, ds) == (StructEntry(m, ds[0]) + pre) + StructEntry(m, d) + post;
    }
  }

  /** A public or friend function is in the stream: name, visibility, entry flag, parameters, results. */
  lemma FunctionInPreimage(m: CompiledModule, d: FunctionDef)
    requires WellFormed(m) && d in m.functionDefs && d.visibility != Private
    ensures var h := m.functionHandles[d.handle];
      var p, r := TokensBytes(m.signatures[h.parameters]), TokensBytes(m.signatures[h.results]);
      Within(
        m.identifiers[h.name] + [if d.visibility == Public then 1 else 3] + [if d.isEntry then 1 else 0]
          + U32Le(|p|) + p + U32Le(|r|) + r,
        Preimage(m))
  {
    hide Preimage, GoodFunction, GoodStruct, DistinctNames, FunctionEntries, StructEntries, U32Le, Ascii,
         TokensBytes, Increasing;
    PreimageWrittenOut(m);
    var fs, ss :| WrittenAs(m, fs, ss);
    FunctionEntryIn(m, fs, d);
    var pre, post :| FunctionEntries(m, fs) == pre + FunctionEntry(m, d) + post;
    var front := Ascii("functions:") + U32Le(|fs|) + pre;
    var back := post + Ascii("structs:") + U32Le(|ss|) + StructEntries(m, ss);
    assert Preimage(m) == front + FunctionEntry(m, d) + back;
  }

  /** A struct is in the stream: name, abilities, and its layout behind its length. */
  lemma StructInPreimage(m: CompiledModule, d: StructDef)
    requires WellFormed(m) && d in m.structDefs
    ensures var h, l := m.structHandles[d.handle], InfoEntry(m, d.info);
      Within(m.identifiers[h.name] + [h.abilities] + U32Le(|l|) + l, Preimage(m))
  {
    hide Preimage, GoodFunction, GoodStruct, DistinctNames, FunctionEntries, StructEntries, U32Le, Ascii,
         InfoEntry, Increasing;
    PreimageWrittenOut(m);
    var fs, ss :| WrittenAs(m, fs, ss);
    StructEntryIn(m, ss, d);
    var pre, post :| StructEntries(m, ss) == pre + StructEntry(m, d) + post;
    var front := Ascii("functions:") + U32Le(|fs|) + FunctionEntries(m, fs) + Ascii("structs:") + U32Le(|ss|) + pre;
    assert Preimage(m) == front + StructEntry(m, d) + post;
  }

  // ---- The stream of a package ----

  function ModuleEntries(ms: seq<ModuleHash>): Bytes {
    if ms == [] then [] else ms[0].0 + ms[0].1 + ModuleEntries(ms[1..])
  }

  ghost predicate PackageWrittenAs(ms: seq<ModuleHash>, ns: seq<ModuleHash>) {
    && (forall h :: h in ns <==> h in ms) && |ns| == |ms|
    && Increasing(seq(|ns|, i requires 0 <= i < |ns| => ns[i].0))
    && PackagePreimage(ms) == Ascii("package_abi:") + U32Le(|ns|) + ModuleEntries(ns)
  }

  lemma {:induction false} ModuleEntriesAre(rows: seq<Row>, ns: seq<ModuleHash>)
    requires |rows| == |ns| && forall i :: 0 <= i < |ns| ==> rows[i] == Row(ns[i].0, ns[i].1, [])
    ensures RowsBytes(rows) == ModuleEntries(ns)
  {
    if ns != [] {
      ModuleEntriesAre(rows[1..], ns[1..]);
      assert RowBytes(rows[0]) == ns[0].0 + ns[0].1;
    }
  }

  /** What is hashed for a package, byte by byte: name and hash of every module, by name. */
  lemma PackageWrittenOut(ms: seq<ModuleHash>)
    requires DistinctModules(ms)
    ensures exists ns :: PackageWrittenAs(ms, ns)
  {
    hide SortRows, RowsBytes, U32Le, Ascii, LexLe, ModuleEntries, HashRows, PACKAGE_TAG;
    var rows := SortRows(HashRows(ms));
    SortedHashRows(ms);
    forall i | 0 <= i < |rows| ensures |rows[i].head| == 32 {}
    var ns: seq<ModuleHash> := seq(|rows|, i requires 0 <= i < |rows| => (rows[i].name, rows[i].head));
    ModuleEntriesAre(rows, ns);
    forall h: ModuleHash ensures h in ns <==> h in ms {
      HashRowSet(ms, h);
      if h in ns {
        var i :| 0 <= i < |ns| && ns[i] == h;
        assert rows[i] == Row(h.0, h.1, []) && rows[i] in RowSet(rows);
      }
      if Row(h.0, h.1, []) in RowSet(rows) {
        var i :| 0 <= i < |rows| && rows[i] == Row(h.0, h.1, []);
        assert ns[i] == h;
      }
    }
    SectionTags();
    assert PackageWrittenAs(ms, ns);
  }
}
