/**
 What the handle numbers in an ABI preimage stand for. A struct type is hashed as the number of
 its handle in the module's own table, and struct handles are hashed nowhere. Here types are
 resolved to the qualified names of their structs.
 */
module AbiResolved {
  import opened Base
  import opened AbiTokens
  import opened AbiRows
  import opened AbiLayout
  import opened AbiModule

  /** The module that declares a struct, and the struct's name. */
  datatype QualifiedName = QualifiedName(owner: (Address, Bytes), name: Bytes) | Unbound

  type Naming = nat -> QualifiedName

  function StructName(m: CompiledModule, handle: nat): QualifiedName
    requires InBounds(m)
  {
    if handle >= |m.structHandles| then Unbound else
    var h := m.structHandles[handle];
    QualifiedName(h.owner, m.identifiers[h.name])
  }

  function NamesOf(m: CompiledModule): Naming
    requires InBounds(m)
  {
    (handle: nat) => StructName(m, handle)
  }

  // ---- Resolved types ----

  datatype NamedType =
    | Plain(token: SignatureToken)
    | NamedVector(inner: NamedType)
    | NamedReference(inner: NamedType, mutable: bool)
    | NamedStruct(name: QualifiedName)
    | NamedInstance(name: QualifiedName, typeArgs: seq<NamedType>)
    | NamedFunctionType(params: seq<NamedType>, ret: seq<NamedType>, abilities: byte)

  function Resolved(names: Naming, t: SignatureToken): NamedType
    decreases t
  {
    match t
    case Vector(inner) => NamedVector(Resolved(names, inner))
    case Reference(inner) => NamedReference(Resolved(names, inner), false)
    case MutableReference(inner) => NamedReference(Resolved(names, inner), true)
    case Struct(handle) => NamedStruct(names(handle))
    case StructInstantiation(handle, typeArgs) => NamedInstance(names(handle), ResolvedAll(names, typeArgs))
    case Function(params, ret, abilities) =>
      NamedFunctionType(ResolvedAll(names, params), ResolvedAll(names, ret), abilities)
    case _ => Plain(t)
  }

  function ResolvedAll(names: Naming, ts: seq<SignatureToken>): seq<NamedType>
    decreases ts
  {
    if ts == [] then [] else [Resolved(names, ts[0])] + ResolvedAll(names, ts[1..])
  }

  /** The handle numbers that a type mentions, in the order in which they are written. */
  function Handles(t: SignatureToken): seq<nat>
    decreases t
  {
    match t
    case Vector(inner) => Handles(inner)
    case Reference(inner) => Handles(inner)
    case MutableReference(inner) => Handles(inner)
    case Struct(handle) => [handle]
    case StructInstantiation(handle, typeArgs) => [handle] + HandlesAll(typeArgs)
    case Function(params, ret, _) => HandlesAll(params) + HandlesAll(ret)
    case _ => []
  }

  function HandlesAll(ts: seq<SignatureToken>): seq<nat>
    decreases ts
  {
    if ts == [] then [] else Handles(ts[0]) + HandlesAll(ts[1..])
  }

  ghost predicate AgreeOn(f: Naming, g: Naming, handles: seq<nat>) {
    forall h :: h in handles ==> f(h) == g(h)
  }

  lemma AgreeOnBoth(f: Naming, g: Naming, hs: seq<nat>, ks: seq<nat>)
    ensures AgreeOn(f, g, hs + ks) <==> AgreeOn(f, g, hs) && AgreeOn(f, g, ks)
  {
    if AgreeOn(f, g, hs + ks) {
      assert forall h :: h in hs || h in ks ==> h in hs + ks;
    }
  }

  /** A type resolves alike exactly when the handles it mentions do. */
  lemma {:induction false} ResolvedIffAgree(f: Naming, g: Naming, t: SignatureToken)
    ensures Resolved(f, t) == Resolved(g, t) <==> AgreeOn(f, g, Handles(t))
    decreases t
  {
    match t {
      case Vector(inner) => ResolvedIffAgree(f, g, inner);
      case Reference(inner) => ResolvedIffAgree(f, g, inner);
      case MutableReference(inner) => ResolvedIffAgree(f, g, inner);
      case StructInstantiation(handle, typeArgs) =>
        ResolvedAllIffAgree(f, g, typeArgs);
        AgreeOnBoth(f, g, [handle], HandlesAll(typeArgs));
      case Function(params, ret, _) =>
        ResolvedAllIffAgree(f, g, params);
        ResolvedAllIffAgree(f, g, ret);
        AgreeOnBoth(f, g, HandlesAll(params), HandlesAll(ret));
      case _ =>
    }
  }

  lemma {:induction false} ResolvedAllIffAgree(f: Naming, g: Naming, ts: seq<SignatureToken>)
    ensures ResolvedAll(f, ts) == ResolvedAll(g, ts) <==> AgreeOn(f, g, HandlesAll(ts))
    decreases ts
  {
    if ts != [] {
      ResolvedIffAgree(f, g, ts[0]);
      ResolvedAllIffAgree(f, g, ts[1..]);
      AgreeOnBoth(f, g, Handles(ts[0]), HandlesAll(ts[1..]));
      assert ResolvedAll(f, ts)[0] == Resolved(f, ts[0]) && ResolvedAll(f, ts)[1..] == ResolvedAll(f, ts[1..]);
      assert ResolvedAll(g, ts)[0] == Resolved(g, ts[0]) && ResolvedAll(g, ts)[1..] == ResolvedAll(g, ts[1..]);
    }
  }

  // ---- Resolved types and numbers determine the type ----

  lemma SplitEqual(a: seq<nat>, b: seq<nat>, x: seq<nat>, y: seq<nat>)
    requires |a| == |b|
    ensures a + x == b + y <==> a == b && x == y
  {
    if a + x == b + y {
      assert a == (a + x)[..|a|] && b == (b + y)[..|b|];
      assert x == (a + x)[|a|..] && y == (b + y)[|b|..];
    }
  }

  /** Types that resolve alike are equal exactly when they mention the same numbers in the same order. */
  lemma {:induction false} NumbersFixType(f: Naming, g: Naming, t: SignatureToken, u: SignatureToken)
    requires Resolved(f, t) == Resolved(g, u)
    ensures |Handles(t)| == |Handles(u)| && (Handles(t) == Handles(u) <==> t == u)
    decreases t
  {
    match t {
      case Vector(inner) => NumbersFixType(f, g, inner, u.inner);
      case Reference(inner) => NumbersFixType(f, g, inner, u.inner);
      case MutableReference(inner) => NumbersFixType(f, g, inner, u.inner);
      case StructInstantiation(handle, typeArgs) =>
        NumbersFixTypes(f, g, typeArgs, u.typeArgs);
        SplitEqual([handle], [u.handle], HandlesAll(typeArgs), HandlesAll(u.typeArgs));
      case Function(params, ret, _) =>
        NumbersFixTypes(f, g, params, u.params);
        NumbersFixTypes(f, g, ret, u.ret);
        SplitEqual(HandlesAll(params), HandlesAll(u.params), HandlesAll(ret), HandlesAll(u.ret));
      case _ =>
    }
  }

  lemma {:induction false} NumbersFixTypes(f: Naming, g: Naming, ts: seq<SignatureToken>, us: seq<SignatureToken>)
    requires ResolvedAll(f, ts) == ResolvedAll(g, us)
    ensures |HandlesAll(ts)| == |HandlesAll(us)| && (HandlesAll(ts) == HandlesAll(us) <==> ts == us)
    decreases ts
  {
    if ts != [] {
      assert us != [];
      assert ResolvedAll(f, ts)[0] == Resolved(f, ts[0]) && ResolvedAll(f, ts)[1..] == ResolvedAll(f, ts[1..]);
      assert ResolvedAll(g, us)[0] == Resolved(g, us[0]) && ResolvedAll(g, us)[1..] == ResolvedAll(g, us[1..]);
      NumbersFixType(f, g, ts[0], us[0]);
      NumbersFixTypes(f, g, ts[1..], us[1..]);
      SplitEqual(Handles(ts[0]), Handles(us[0]), HandlesAll(ts[1..]), HandlesAll(us[1..]));
      assert ts == [ts[0]] + ts[1..] && us == [us[0]] + us[1..];
    }
  }

  // ---- Resolved layouts ----

  type NamedField = (Bytes, NamedType)

  type NamedVariant = (Bytes, seq<NamedField>)

  datatype NamedLayout =
    | NamedNative
    | NamedFields(fields: seq<NamedField>)
    | NamedVariants(variants: seq<NamedVariant>)

  function ResolvedFields(names: Naming, fields: seq<Field>): seq<NamedField> {
    if fields == [] then []
    else [(fields[0].name, Resolved(names, fields[0].ty))] + ResolvedFields(names, fields[1..])
  }

  function ResolvedVariants(names: Naming, variants: seq<Variant>): seq<NamedVariant> {
    if variants == [] then []
    else [(variants[0].name, ResolvedFields(names, variants[0].fields))] + ResolvedVariants(names, variants[1..])
  }

  function ResolvedLayout(names: Naming, l: Layout): NamedLayout {
    match l
    case Native => NamedNative
    case Declared(fields) => NamedFields(ResolvedFields(names, fields))
    case DeclaredVariants(variants) => NamedVariants(ResolvedVariants(names, variants))
  }

  function HandlesOfFields(fields: seq<Field>): seq<nat> {
    if fields == [] then [] else Handles(fields[0].ty) + HandlesOfFields(fields[1..])
  }

  function HandlesOfVariants(variants: seq<Variant>): seq<nat> {
    if variants == [] then [] else HandlesOfFields(variants[0].fields) + HandlesOfVariants(variants[1..])
  }

  function HandlesOfLayout(l: Layout): seq<nat> {
    match l
    case Native => []
    case Declared(fields) => HandlesOfFields(fields)
    case DeclaredVariants(variants) => HandlesOfVariants(variants)
  }

  lemma {:induction false} FieldsIffAgree(f: Naming, g: Naming, fields: seq<Field>)
    ensures ResolvedFields(f, fields) == ResolvedFields(g, fields) <==> AgreeOn(f, g, HandlesOfFields(fields))
  {
    hide Resolved, Handles;
    if fields != [] {
      ResolvedIffAgree(f, g, fields[0].ty);
      FieldsIffAgree(f, g, fields[1..]);
      AgreeOnBoth(f, g, Handles(fields[0].ty), HandlesOfFields(fields[1..]));
      var x, y := ResolvedFields(f, fields), ResolvedFields(g, fields);
      assert x[1..] == ResolvedFields(f, fields[1..]) && y[1..] == ResolvedFields(g, fields[1..]);
    }
  }

  lemma {:induction false} VariantsIffAgree(f: Naming, g: Naming, variants: seq<Variant>)
    ensures ResolvedVariants(f, variants) == ResolvedVariants(g, variants)
      <==> AgreeOn(f, g, HandlesOfVariants(variants))
  {
    hide ResolvedFields, HandlesOfFields;
    if variants != [] {
      FieldsIffAgree(f, g, variants[0].fields);
      VariantsIffAgree(f, g, variants[1..]);
      AgreeOnBoth(f, g, HandlesOfFields(variants[0].fields), HandlesOfVariants(variants[1..]));
      var x, y := ResolvedVariants(f, variants), ResolvedVariants(g, variants);
      assert x[1..] == ResolvedVariants(f, variants[1..]) && y[1..] == ResolvedVariants(g, variants[1..]);
    }
  }

  lemma LayoutIffAgree(f: Naming, g: Naming, l: Layout)
    ensures ResolvedLayout(f, l) == ResolvedLayout(g, l) <==> AgreeOn(f, g, HandlesOfLayout(l))
  {
    match l {
      case Native =>
      case Declared(fields) => FieldsIffAgree(f, g, fields);
      case DeclaredVariants(variants) => VariantsIffAgree(f, g, variants);
    }
  }

  lemma {:induction false} NumbersFixFields(f: Naming, g: Naming, a: seq<Field>, b: seq<Field>)
    requires ResolvedFields(f, a) == ResolvedFields(g, b)
    ensures |HandlesOfFields(a)| == |HandlesOfFields(b)| && (HandlesOfFields(a) == HandlesOfFields(b) <==> a == b)
  {
    hide Resolved, Handles;
    if a != [] {
      assert b != [];
      var x, y := ResolvedFields(f, a), ResolvedFields(g, b);
      assert x[0] == (a[0].name, Resolved(f, a[0].ty)) && y[0] == (b[0].name, Resolved(g, b[0].ty));
      assert x[1..] == ResolvedFields(f, a[1..]) && y[1..] == ResolvedFields(g, b[1..]);
      NumbersFixType(f, g, a[0].ty, b[0].ty);
      NumbersFixFields(f, g, a[1..], b[1..]);
      SplitEqual(Handles(a[0].ty), Handles(b[0].ty), HandlesOfFields(a[1..]), HandlesOfFields(b[1..]));
      assert a == [a[0]] + a[1..] && b == [b[0]] + b[1..];
    }
  }

  lemma {:induction false} NumbersFixVariants(f: Naming, g: Naming, a: seq<Variant>, b: seq<Variant>)
    requires ResolvedVariants(f, a) == ResolvedVariants(g, b)
    ensures |HandlesOfVariants(a)| == |HandlesOfVariants(b)|
    ensures HandlesOfVariants(a) == HandlesOfVariants(b) <==> a == b
  {
    hide ResolvedFields, HandlesOfFields;
    if a != [] {
      assert b != [];
      var x, y := ResolvedVariants(f, a), ResolvedVariants(g, b);
      assert x[0] == (a[0].name, ResolvedFields(f, a[0].fields)) && y[0] == (b[0].name, ResolvedFields(g, b[0].fields));
      assert x[1..] == ResolvedVariants(f, a[1..]) && y[1..] == ResolvedVariants(g, b[1..]);
      NumbersFixFields(f, g, a[0].fields, b[0].fields);
      NumbersFixVariants(f, g, a[1..], b[1..]);
      SplitEqual(HandlesOfFields(a[0].fields), HandlesOfFields(b[0].fields),
                 HandlesOfVariants(a[1..]), HandlesOfVariants(b[1..]));
      assert a == [a[0]] + a[1..] && b == [b[0]] + b[1..];
    }
  }

  lemma NumbersFixLayout(f: Naming, g: Naming, a: Layout, b: Layout)
    requires ResolvedLayout(f, a) == ResolvedLayout(g, b)
    ensures HandlesOfLayout(a) == HandlesOfLayout(b) <==> a == b
  {
    match a {
      case Native =>
      case Declared(fields) => NumbersFixFields(f, g, fields, b.fields);
      case DeclaredVariants(variants) => NumbersFixVariants(f, g, variants, b.variants);
    }
  }

  // ---- The resolved surface ----

  datatype NamedFunction = NamedFunction(
    name: Bytes, visibility: Visibility, isEntry: bool, params: seq<NamedType>, results: seq<NamedType>)

  datatype NamedShape = NamedShape(name: Bytes, abilities: byte, layout: NamedLayout)

  datatype NamedSurface = NamedSurface(functions: set<NamedFunction>, structs: set<NamedShape>)

  function ResolvedFunction(names: Naming, f: PublicFunction): NamedFunction {
    NamedFunction(f.name, f.visibility, f.isEntry, ResolvedAll(names, f.params), ResolvedAll(names, f.results))
  }

  function ResolvedShape(names: Naming, s: StructShape): NamedShape {
    NamedShape(s.name, s.abilities, ResolvedLayout(names, s.layout))
  }

  function HandlesOfFunction(f: PublicFunction): seq<nat> {
    HandlesAll(f.params) + HandlesAll(f.results)
  }

  function HandlesOfShape(s: StructShape): seq<nat> {
    HandlesOfLayout(s.layout)
  }

  ghost function ResolvedFunctions(names: Naming, fs: set<PublicFunction>): set<NamedFunction> {
    set f | f in fs :: ResolvedFunction(names, f)
  }

  ghost function ResolvedShapes(names: Naming, ss: set<StructShape>): set<NamedShape> {
    set s | s in ss :: ResolvedShape(names, s)
  }

  /** The public surface as a caller sees it: struct types by their qualified names. */
  ghost function ResolvedSurface(m: CompiledModule): NamedSurface
    requires InBounds(m)
  {
    NamedSurface(ResolvedFunctions(NamesOf(m), PublicSurface(m).functions),
                 ResolvedShapes(NamesOf(m), PublicSurface(m).structs))
  }

  /** The handle numbers that a surface mentions. */
  ghost function Mentioned(surface: Surface): set<nat> {
    (set f, h | f in surface.functions && h in HandlesOfFunction(f) :: h)
    + (set s, h | s in surface.structs && h in HandlesOfShape(s) :: h)
  }

  /** Entries of one name mention the same numbers in the same order. */
  ghost predicate SameNumbers(a: Surface, b: Surface) {
    && (forall f, g :: f in a.functions && g in b.functions && f.name == g.name ==>
          HandlesOfFunction(f) == HandlesOfFunction(g))
    && (forall s, t :: s in a.structs && t in b.structs && s.name == t.name ==>
          HandlesOfShape(s) == HandlesOfShape(t))
  }

  ghost predicate OneFunctionPerName(fs: set<PublicFunction>) {
    forall x, y :: x in fs && y in fs && x.name == y.name ==> x == y
  }

  ghost predicate OneShapePerName(ss: set<StructShape>) {
    forall x, y :: x in ss && y in ss && x.name == y.name ==> x == y
  }

  lemma FunctionIffAgree(f: Naming, g: Naming, x: PublicFunction)
    ensures ResolvedFunction(f, x) == ResolvedFunction(g, x) <==> AgreeOn(f, g, HandlesOfFunction(x))
  {
    ResolvedAllIffAgree(f, g, x.params);
    ResolvedAllIffAgree(f, g, x.results);
    AgreeOnBoth(f, g, HandlesAll(x.params), HandlesAll(x.results));
  }

  lemma FunctionsIffAgree(f: Naming, g: Naming, fs: set<PublicFunction>)
    requires OneFunctionPerName(fs)
    ensures ResolvedFunctions(f, fs) == ResolvedFunctions(g, fs)
      <==> forall x :: x in fs ==> AgreeOn(f, g, HandlesOfFunction(x))
  {
    hide ResolvedAll, HandlesOfFunction, AgreeOn;
    forall x | x in fs
      ensures ResolvedFunction(f, x) == ResolvedFunction(g, x) <==> AgreeOn(f, g, HandlesOfFunction(x))
    {
      FunctionIffAgree(f, g, x);
    }
    if ResolvedFunctions(f, fs) == ResolvedFunctions(g, fs) {
      forall x | x in fs ensures ResolvedFunction(f, x) == ResolvedFunction(g, x) {
        assert ResolvedFunction(f, x) in ResolvedFunctions(g, fs);
        var y :| y in fs && ResolvedFunction(f, x) == ResolvedFunction(g, y);
      }
    }
  }

  lemma ShapesIffAgree(f: Naming, g: Naming, ss: set<StructShape>)
    requires OneShapePerName(ss)
    ensures ResolvedShapes(f, ss) == ResolvedShapes(g, ss)
      <==> forall x :: x in ss ==> AgreeOn(f, g, HandlesOfShape(x))
  {
    hide ResolvedLayout, HandlesOfLayout, AgreeOn;
    forall x | x in ss
      ensures ResolvedShape(f, x) == ResolvedShape(g, x) <==> AgreeOn(f, g, HandlesOfShape(x))
    {
      LayoutIffAgree(f, g, x.layout);
    }
    if ResolvedShapes(f, ss) == ResolvedShapes(g, ss) {
      forall x | x in ss ensures ResolvedShape(f, x) == ResolvedShape(g, x) {
        assert ResolvedShape(f, x) in ResolvedShapes(g, ss);
        var y :| y in ss && ResolvedShape(f, x) == ResolvedShape(g, y);
      }
    }
  }

  lemma OnePerName(m: CompiledModule)
    requires WellFormed(m)
    ensures OneFunctionPerName(PublicSurface(m).functions) && OneShapePerName(PublicSurface(m).structs)
  {
    hide FunctionRows, StructRows, PublicSurface, InBounds, GoodFunction, GoodStruct;
    var fs, ss := PublicSurface(m).functions, PublicSurface(m).structs;
    FunctionRowSet(m);
    StructRowSet(m);
    forall x, y | x in fs && y in fs && x.name == y.name ensures x == y {
      assert FunctionRow(x) in RowsOfFunctions(fs) && FunctionRow(y) in RowsOfFunctions(fs);
      RowOfName(FunctionRows(m, |m.functionDefs|), FunctionRow(x), FunctionRow(y));
      FunctionRowInjective(x, y);
    }
    forall x, y | x in ss && y in ss && x.name == y.name ensures x == y {
      assert StructRow(x) in RowsOfStructs(ss) && StructRow(y) in RowsOfStructs(ss);
      RowOfName(StructRows(m), StructRow(x), StructRow(y));
      StructRowInjective(x, y);
    }
  }

  lemma RowOfName(rs: seq<Row>, x: Row, y: Row)
    requires DistinctNames(rs) && x in RowSet(rs) && y in RowSet(rs) && x.name == y.name
    ensures x == y
  {
  }

  lemma MentionedAgree(f: Naming, g: Naming, surface: Surface)
    ensures (forall h :: h in Mentioned(surface) ==> f(h) == g(h)) <==>
      && (forall x :: x in surface.functions ==> AgreeOn(f, g, HandlesOfFunction(x)))
      && (forall x :: x in surface.structs ==> AgreeOn(f, g, HandlesOfShape(x)))
  {
    hide HandlesOfFunction, HandlesOfShape;
    if forall h :: h in Mentioned(surface) ==> f(h) == g(h) {
      forall x, h | x in surface.functions && h in HandlesOfFunction(x) ensures f(h) == g(h) {
        assert h in Mentioned(surface);
      }
      forall x, h | x in surface.structs && h in HandlesOfShape(x) ensures f(h) == g(h) {
        assert h in Mentioned(surface);
      }
    }
  }

  /**
   Two modules with one preimage have the same surface in the eyes of a caller exactly when every
   handle number that the surface mentions stands for the same struct in both.
   */
  lemma ResolvedSurfaceIff(m: CompiledModule, n: CompiledModule)
    requires WellFormed(m) && WellFormed(n)
    ensures Preimage(m) == Preimage(n) ==>
      (ResolvedSurface(m) == ResolvedSurface(n) <==>
        forall h :: h in Mentioned(PublicSurface(m)) ==> NamesOf(m)(h) == NamesOf(n)(h))
  {
    hide PublicSurface, Mentioned, AgreeOn, NamesOf, InBounds, Preimage;
    PreimageIffSurface(m, n);
    OnePerName(m);
    FunctionsIffAgree(NamesOf(m), NamesOf(n), PublicSurface(m).functions);
    ShapesIffAgree(NamesOf(m), NamesOf(n), PublicSurface(m).structs);
    MentionedAgree(NamesOf(m), NamesOf(n), PublicSurface(m));
  }

  // ---- When a change that callers do not see keeps the preimage ----

  lemma FunctionsOf(f: Naming, g: Naming, fs: set<PublicFunction>, gs: set<PublicFunction>)
    requires ResolvedFunctions(f, fs) == ResolvedFunctions(g, gs)
    requires forall x, y :: x in fs && y in gs && x.name == y.name ==> HandlesOfFunction(x) == HandlesOfFunction(y)
    ensures fs <= gs
  {
    hide ResolvedAll, HandlesAll;
    forall x | x in fs ensures x in gs {
      assert ResolvedFunction(f, x) in ResolvedFunctions(g, gs);
      var y :| y in gs && ResolvedFunction(f, x) == ResolvedFunction(g, y);
      NumbersFixTypes(f, g, x.params, y.params);
      NumbersFixTypes(f, g, x.results, y.results);
      SplitEqual(HandlesAll(x.params), HandlesAll(y.params), HandlesAll(x.results), HandlesAll(y.results));
    }
  }

  lemma ShapesOf(f: Naming, g: Naming, ss: set<StructShape>, ts: set<StructShape>)
    requires ResolvedShapes(f, ss) == ResolvedShapes(g, ts)
    requires forall x, y :: x in ss && y in ts && x.name == y.name ==> HandlesOfShape(x) == HandlesOfShape(y)
    ensures ss <= ts
  {
    hide ResolvedLayout, HandlesOfLayout;
    forall x | x in ss ensures x in ts {
      assert ResolvedShape(f, x) in ResolvedShapes(g, ts);
      var y :| y in ts && ResolvedShape(f, x) == ResolvedShape(g, y);
      NumbersFixLayout(f, g, x.layout, y.layout);
    }
  }

  /**
   The hash is meant to stay when only internals change. For two modules that look the same to a
   caller, the preimage stays exactly when their public entries use the same handle numbers.
   */
  lemma InternalChangeKeepsPreimageIff(m: CompiledModule, n: CompiledModule)
    requires WellFormed(m) && WellFormed(n)
    ensures ResolvedSurface(m) == ResolvedSurface(n) ==>
      (Preimage(m) == Preimage(n) <==> SameNumbers(PublicSurface(m), PublicSurface(n)))
  {
    hide PublicSurface, NamesOf, InBounds, Preimage, ResolvedFunctions, ResolvedShapes, HandlesOfFunction,
         HandlesOfShape;
    PreimageIffSurface(m, n);
    OnePerName(m);
    var a, b := PublicSurface(m), PublicSurface(n);
    if ResolvedSurface(m) == ResolvedSurface(n) && SameNumbers(a, b) {
      FunctionsOf(NamesOf(m), NamesOf(n), a.functions, b.functions);
      FunctionsOf(NamesOf(n), NamesOf(m), b.functions, a.functions);
      ShapesOf(NamesOf(m), NamesOf(n), a.structs, b.structs);
      ShapesOf(NamesOf(n), NamesOf(m), b.structs, a.structs);
    }
  }
}
