/** Small modules that show what the ABI hashes do not tell apart. */
module AbiExamples {
  import opened Base
  import opened AbiTokens
  import opened AbiRows
  import opened AbiLayout
  import opened AbiModule
  import opened AbiResolved

  function Owner(): Address {
    seq(32, i => 7)
  }

  /** A module without functions or structs. */
  function EmptyModule(name: Bytes): CompiledModule {
    CompiledModule(Owner(), name, [], [], [], [], [], [], [])
  }

  /** A module with one native struct `S`. */
  function StructModule(name: Bytes): CompiledModule {
    CompiledModule(
      Owner(), name, [], [[83]], [], [], [], [StructHandle((Owner(), name), 0, 0)], [StructDef(0, NativeFields)])
  }

  lemma EmptyWellFormed(name: Bytes)
    ensures WellFormed(EmptyModule(name))
    ensures PublicSurface(EmptyModule(name)) == Surface({}, {})
    ensures |Preimage(EmptyModule(name))| == 26
  {
  }

  lemma StructWellFormed(name: Bytes)
    ensures WellFormed(StructModule(name))
    ensures StructShape([83], 0, Native) in PublicSurface(StructModule(name)).structs
    ensures |Preimage(StructModule(name))| == 33
  {
    var m := StructModule(name);
    assert PublicSurface(m).functions == {};
    assert ResolveStruct(m, m.structDefs[0]) == StructShape([83], 0, Native);
    var r := Row([83], [0], [LayoutBytes(Native)]);
    assert FunctionRows(m, 0) == [] && StructRows(m) == [r];
    OneRow(r);
    assert [LayoutBytes(Native)][1..] == [];
    assert |RowBytes(r)| == 7;
  }

  lemma OneRow(r: Row)
    ensures SortRows([r]) == [r] && RowsBytes([r]) == RowBytes(r)
  {
    assert [r][1..] == [];
  }

  // ---- Two modules with one hash ----

  /** A module with one entry function `f`, whose parameter is a struct of the given module. */
  function TakesStruct(owner: (Address, Bytes)): CompiledModule {
    CompiledModule(
      Owner(), [65], [owner], [[102], [83]], [[Struct(0)], []],
      [FunctionHandle(0, 0, 1, [])], [FunctionDef(0, Public, true)], [StructHandle(owner, 1, 0)], [])
  }

  /** Its public function, by the handle number of the struct. */
  function TakesHandle(handle: u16): PublicFunction {
    PublicFunction([102], Public, true, [Struct(handle)], [])
  }

  lemma TakesStructSurface(owner: (Address, Bytes))
    ensures InBounds(TakesStruct(owner))
    ensures PublicSurface(TakesStruct(owner)) == Surface({TakesHandle(0)}, {})
  {
    var m := TakesStruct(owner);
    assert ResolveFunction(m, m.functionDefs[0]) == TakesHandle(0);
    assert m.functionDefs[0] in m.functionDefs;
  }

  lemma TakesStructWellFormed(owner: (Address, Bytes))
    ensures WellFormed(TakesStruct(owner))
  {
    hide PublicSurface;
    var m := TakesStruct(owner);
    TakesStructSurface(owner);
    var f := TakesHandle(0);
    assert [Struct(0)][1..] == [];
    assert PublicFunctions(m, 0) == [] && ResolveFunction(m, m.functionDefs[0]) == f;
    assert PublicFunctions(m, 1) == [] + [f] == [f];
    assert FunctionRows(m, 1) == [FunctionRow(f)];
  }

  lemma ZeroMentioned()
    ensures 0 in Mentioned(Surface({TakesHandle(0)}, {}))
  {
    var f := TakesHandle(0);
    assert HandlesOfFunction(f) == [0];
    assert f in Surface({f}, {}).functions && 0 in HandlesOfFunction(f);
  }

  /** Modules whose entry functions take structs of different modules have one preimage. */
  lemma ForeignStructsAreNotHashed(owner: (Address, Bytes), other: (Address, Bytes))
    requires owner != other
    ensures var m, n := TakesStruct(owner), TakesStruct(other);
      && WellFormed(m) && WellFormed(n) && Preimage(m) == Preimage(n)
      && ResolvedSurface(m) != ResolvedSurface(n)
  {
    var m, n := TakesStruct(owner), TakesStruct(other);
    var f := TakesHandle(0);
    TakesStructSurface(owner);
    TakesStructSurface(other);
    TakesStructWellFormed(owner);
    TakesStructWellFormed(other);
    assert NamesOf(m)(0) != NamesOf(n)(0);
    hide WellFormed, Preimage, PublicSurface, ResolvedSurface, TakesStruct, NamesOf, Mentioned;
    PreimageIffSurface(m, n);
    ResolvedSurfaceIff(m, n);
    ZeroMentioned();
  }

  // ---- An internal change that moves handle numbers ----

  /**
   `TakesStruct` with a private function `g` whose parameter is another struct of the same module.
   That struct is used first, so its handle comes first, and the handle of `f` moves.
   */
  function WithPrivate(owner: (Address, Bytes)): CompiledModule {
    CompiledModule(
      Owner(), [65], [owner], [[102], [83], [103], [84]], [[Struct(1)], [], [Struct(0)]],
      [FunctionHandle(0, 0, 1, []), FunctionHandle(2, 2, 1, [])],
      [FunctionDef(1, Private, false), FunctionDef(0, Public, true)],
      [StructHandle(owner, 3, 0), StructHandle(owner, 1, 0)], [])
  }

  lemma WithPrivateSurface(owner: (Address, Bytes))
    ensures InBounds(WithPrivate(owner))
    ensures PublicSurface(WithPrivate(owner)) == Surface({TakesHandle(1)}, {})
  {
    var m := WithPrivate(owner);
    assert ResolveFunction(m, m.functionDefs[1]) == TakesHandle(1);
    assert m.functionDefs[1] in m.functionDefs;
  }

  lemma WithPrivateWellFormed(owner: (Address, Bytes))
    ensures WellFormed(WithPrivate(owner))
  {
    hide PublicSurface;
    var m := WithPrivate(owner);
    WithPrivateSurface(owner);
    var f := TakesHandle(1);
    assert [Struct(1)][1..] == [];
    assert PublicFunctions(m, 0) == [] && PublicFunctions(m, 1) == [];
    assert ResolveFunction(m, m.functionDefs[1]) == f;
    assert PublicFunctions(m, 2) == [] + [f] == [f];
    assert FunctionRows(m, 2) == [FunctionRow(f)];
  }

  /** A private function is added, the surface by struct names stays, and the preimage changes. */
  lemma PrivateFunctionChangesPreimage(owner: (Address, Bytes))
    ensures var m, n := TakesStruct(owner), WithPrivate(owner);
      && WellFormed(m) && WellFormed(n)
      && ResolvedSurface(m) == ResolvedSurface(n) && Preimage(m) != Preimage(n)
  {
    var m, n := TakesStruct(owner), WithPrivate(owner);
    var f, g := TakesHandle(0), TakesHandle(1);
    TakesStructSurface(owner);
    WithPrivateSurface(owner);
    TakesStructWellFormed(owner);
    WithPrivateWellFormed(owner);
    SameResolved(owner);
    hide WellFormed, Preimage, PublicSurface, TakesStruct, WithPrivate, NamesOf, ResolvedFunction, ResolvedSurface;
    PreimageIffSurface(m, n);
    OneFunctionSurface(m, f);
    OneFunctionSurface(n, g);
    OtherSurface();
  }

  lemma OneFunctionSurface(m: CompiledModule, f: PublicFunction)
    requires InBounds(m) && PublicSurface(m) == Surface({f}, {})
    ensures ResolvedSurface(m) == NamedSurface({ResolvedFunction(NamesOf(m), f)}, {})
  {
    hide PublicSurface, NamesOf, ResolvedFunction, ResolvedShape;
  }

  lemma OtherSurface()
    ensures Surface({TakesHandle(0)}, {}) != Surface({TakesHandle(1)}, {})
  {
    assert TakesHandle(0).params[0] != TakesHandle(1).params[0];
    assert TakesHandle(0) in Surface({TakesHandle(0)}, {}).functions;
  }

  lemma SameResolved(owner: (Address, Bytes))
    ensures InBounds(TakesStruct(owner)) && InBounds(WithPrivate(owner))
    ensures ResolvedFunction(NamesOf(TakesStruct(owner)), TakesHandle(0))
         == ResolvedFunction(NamesOf(WithPrivate(owner)), TakesHandle(1))
  {
    var x, y := NamesOf(TakesStruct(owner)), NamesOf(WithPrivate(owner));
    assert x(0) == y(1) == QualifiedName(owner, [83]);
    assert [Struct(0)][1..] == [] && [Struct(1)][1..] == [];
    assert ResolvedAll(x, [Struct(0)]) == [NamedStruct(x(0))] == ResolvedAll(y, [Struct(1)]);
  }
}
