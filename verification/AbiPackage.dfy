/**
 The package ABI hash (`compute_package_abi_hash` in abi.rs): module names and module hashes,
 sorted by name. Here names are not delimited, so what the stream determines is limited.
 */
module AbiPackage {
  import opened Base
  import opened AbiTokens
  import opened AbiRows
  import opened AbiModule

  /** `package_abi:` */
  const PACKAGE_TAG: Bytes := [112, 97, 99, 107, 97, 103, 101, 95, 97, 98, 105, 58]

  type ModuleHash = (Bytes, HashValue)

  function HashRows(ms: seq<ModuleHash>): seq<Row> {
    seq(|ms|, i requires 0 <= i < |ms| => Row(ms[i].0, ms[i].1, []))
  }

  function PackagePreimage(ms: seq<ModuleHash>): Bytes {
    SectionBytes(PACKAGE_TAG, SortRows(HashRows(ms)))
  }

  function ModuleHashes(modules: seq<CompiledModule>, blake3: Bytes -> HashValue): seq<ModuleHash>
    requires forall m :: m in modules ==> InBounds(m)
  {
    seq(|modules|, i requires 0 <= i < |modules| => (modules[i].name, blake3(Preimage(modules[i]))))
  }

  /** The hash of a package; no modules have the zero hash. */
  function PackageHash(modules: seq<CompiledModule>, blake3: Bytes -> HashValue): HashValue
    requires forall m :: m in modules ==> InBounds(m)
  {
    if modules == [] then seq(32, i => 0) else blake3(PackagePreimage(ModuleHashes(modules, blake3)))
  }

  method ComputePackageAbiHash(modules: seq<CompiledModule>, blake3: Bytes -> HashValue) returns (hash: HashValue)
    requires forall m :: m in modules ==> InBounds(m)
    ensures hash == PackageHash(modules, blake3)
  {
    hide InBounds, Preimage, SectionBytes, SortRows;
    if modules == [] { return seq(32, i => 0); }
    var rows: seq<Row> := [];
    for i := 0 to |modules|
      invariant rows == HashRows(ModuleHashes(modules, blake3))[..i]
    {
      assert modules[i] in modules;
      var moduleHash := ComputeModuleAbiHash(modules[i], blake3);
      rows := rows + [Row(modules[i].name, moduleHash, [])];
    }
    assert rows == HashRows(ModuleHashes(modules, blake3));
    var hasher := new ByteBuffer();
    UpdateSection(PACKAGE_TAG, SortRows(rows), hasher);
    assert [] + SectionBytes(PACKAGE_TAG, SortRows(rows)) == SectionBytes(PACKAGE_TAG, SortRows(rows));
    assert hasher.data == PackagePreimage(ModuleHashes(modules, blake3));
    hash := blake3(hasher.data);
  }

  // ---- What the stream determines ----

  ghost predicate DistinctModules(ms: seq<ModuleHash>) {
    forall i, j :: 0 <= i < j < |ms| ==> ms[i].0 != ms[j].0
  }

  lemma HashRowSet(ms: seq<ModuleHash>, h: ModuleHash)
    ensures h in ms <==> Row(h.0, h.1, []) in RowSet(HashRows(ms))
  {
    if h in ms {
      var i :| 0 <= i < |ms| && ms[i] == h;
      assert HashRows(ms)[i] == Row(h.0, h.1, []);
    }
  }

  lemma SameSetSameRows(ms: seq<ModuleHash>, ns: seq<ModuleHash>)
    requires DistinctModules(ms) && DistinctModules(ns)
    requires forall h :: h in ms <==> h in ns
    ensures SortRows(HashRows(ms)) == SortRows(HashRows(ns))
  {
    hide SortRows, SectionBytes, StrictlySorted;
    forall r ensures r in RowSet(HashRows(ms)) <==> r in RowSet(HashRows(ns)) {
      if r in RowSet(HashRows(ms)) || r in RowSet(HashRows(ns)) {
        assert |r.head| == 32 && r.blobs == [];
        HashRowSet(ms, (r.name, r.head));
        HashRowSet(ns, (r.name, r.head));
      }
    }
    SortSorts(HashRows(ms));
    SortSorts(HashRows(ns));
    SortedUnique(SortRows(HashRows(ms)), SortRows(HashRows(ns)));
  }

  /** The order in which modules are listed does not matter. */
  lemma PackageHashIgnoresOrder(ms: seq<ModuleHash>, ns: seq<ModuleHash>)
    requires DistinctModules(ms) && DistinctModules(ns)
    requires forall h :: h in ms <==> h in ns
    ensures PackagePreimage(ms) == PackagePreimage(ns)
  {
    hide SortRows, SectionBytes;
    SameSetSameRows(ms, ns);
  }

  /** Once the lengths of the names are known, the stream determines names and hashes. */
  lemma {:induction false} KnownLengthsKnownRows(a: seq<Row>, b: seq<Row>)
    requires |a| == |b|
    requires forall i :: 0 <= i < |a| ==> |a[i].name| == |b[i].name|
    requires forall i :: 0 <= i < |a| ==> |a[i].head| == |b[i].head| == 32 && a[i].blobs == b[i].blobs == []
    requires RowsBytes(a) == RowsBytes(b)
    ensures a == b
  {
    if a != [] {
      var x, y := RowsBytes(a[1..]), RowsBytes(b[1..]);
      assert RowBytes(a[0]) == a[0].name + a[0].head && RowBytes(b[0]) == b[0].name + b[0].head;
      SplitAt(a[0].name + a[0].head, x);
      SplitAt(b[0].name + b[0].head, y);
      SplitAt(a[0].name, a[0].head);
      SplitAt(b[0].name, b[0].head);
      KnownLengthsKnownRows(a[1..], b[1..]);
      assert a == [a[0]] + a[1..] && b == [b[0]] + b[1..];
    }
  }

  /** The names of the sorted modules have the same lengths, position by position. */
  predicate SameNameLengths(ms: seq<ModuleHash>, ns: seq<ModuleHash>) {
    var a, b := SortRows(HashRows(ms)), SortRows(HashRows(ns));
    |a| == |b| && forall i :: 0 <= i < |a| ==> |a[i].name| == |b[i].name|
  }

  lemma SortedHashRows(ms: seq<ModuleHash>)
    ensures var a := SortRows(HashRows(ms));
      && |a| == |ms| && RowSet(a) == RowSet(HashRows(ms))
      && (DistinctModules(ms) ==> StrictlySorted(a))
      && forall i :: 0 <= i < |a| ==> |a[i].head| == 32 && a[i].blobs == []
  {
    hide SortRows, StrictlySorted;
    var a := SortRows(HashRows(ms));
    SortSorts(HashRows(ms));
    forall i | 0 <= i < |a| ensures |a[i].head| == 32 && a[i].blobs == [] {
      assert a[i] in RowSet(a);
    }
  }

  lemma PreimageFixesRows(ms: seq<ModuleHash>, ns: seq<ModuleHash>)
    requires |ms| < U32_LIMIT && |ns| < U32_LIMIT && PackagePreimage(ms) == PackagePreimage(ns)
    ensures |ms| == |ns|
    ensures RowsBytes(SortRows(HashRows(ms))) == RowsBytes(SortRows(HashRows(ns)))
  {
    hide SortRows, RowsBytes, U32Le, FromU32Le;
    var a, b := SortRows(HashRows(ms)), SortRows(HashRows(ns));
    SortedHashRows(ms);
    SortedHashRows(ns);
    SplitAt(PACKAGE_TAG, U32Le(|a|) + RowsBytes(a));
    SplitAt(PACKAGE_TAG, U32Le(|b|) + RowsBytes(b));
    SplitAt(U32Le(|a|), RowsBytes(a));
    SplitAt(U32Le(|b|), RowsBytes(b));
    U32LeRoundTrip(|a|, []);
    U32LeRoundTrip(|b|, []);
  }

  /**
   What the preimage of a package determines: two packages list the same modules with the same
   hashes exactly when they have one preimage and their sorted names have the same lengths.
   */
  lemma SameModulesIff(ms: seq<ModuleHash>, ns: seq<ModuleHash>)
    requires DistinctModules(ms) && DistinctModules(ns)
    requires |ms| < U32_LIMIT && |ns| < U32_LIMIT
    ensures (forall h :: h in ms <==> h in ns) <==>
      PackagePreimage(ms) == PackagePreimage(ns) && SameNameLengths(ms, ns)
  {
    hide SortRows, RowsBytes, SectionBytes, StrictlySorted;
    var a, b := SortRows(HashRows(ms)), SortRows(HashRows(ns));
    SortedHashRows(ms);
    SortedHashRows(ns);
    if forall h :: h in ms <==> h in ns {
      PackageHashIgnoresOrder(ms, ns);
      SameSetSameRows(ms, ns);
    }
    if PackagePreimage(ms) == PackagePreimage(ns) && SameNameLengths(ms, ns) {
      PreimageFixesRows(ms, ns);
      KnownLengthsKnownRows(a, b);
      forall h ensures h in ms <==> h in ns {
        HashRowSet(ms, h);
        HashRowSet(ns, h);
      }
    }
  }

  /**
   Without the lengths it does not: where hashes consist of identifier bytes, the hash `h` can move
   to the end of one name and `g` to the front of the next. Both lists have distinct valid names
   and list different modules, but they have one preimage, for every third hash `k`.
   */
  lemma StreamIsAmbiguous(a: Bytes, c: Bytes, h: HashValue, g: HashValue, k: HashValue)
    requires ValidName(a) && ValidName(c) && ValidName(a + h) && ValidName(g + c)
    requires LexLe(a, g + c) && a != g + c && LexLe(a + h, c) && a + h != c
    ensures var ms: seq<ModuleHash>, ns: seq<ModuleHash> := [(a, h), (g + c, k)], [(a + h, g), (c, k)];
      && DistinctModules(ms) && DistinctModules(ns)
      && (forall m :: m in ms + ns ==> ValidName(m.0)) && (forall n :: n in ns ==> n.0 != a)
      && PackagePreimage(ms) == PackagePreimage(ns)
  {
    var ms: seq<ModuleHash>, ns: seq<ModuleHash> := [(a, h), (g + c, k)], [(a + h, g), (c, k)];
    TwoModules(ms);
    TwoModules(ns);
    NotBelowPrefix(a, h, c);
    ChangeSides(a, c, h, g, k);
    hide PackagePreimage, U32Le, LexLe;
  }

  /** For instance with the names `a` and `z` and hashes that consist of `b` and of `c`. */
  lemma AmbiguousExample(k: HashValue)
    ensures var h: HashValue, g: HashValue := seq(32, i => 98), seq(32, i => 99);
      PackagePreimage([([97], h), (g + [122], k)]) == PackagePreimage([([97] + h, g), ([122], k)])
  {
    var h: HashValue, g: HashValue := seq(32, i => 98), seq(32, i => 99);
    assert ([97] + h)[0] == 97 && (g + [122])[0] == 99;
    hide PackagePreimage;
    StreamIsAmbiguous([97], [122], h, g, k);
  }

  lemma NotBelowPrefix(a: Bytes, h: Bytes, c: Bytes)
    requires h != [] && LexLe(a + h, c)
    ensures a != c
  {
    if a == c {
      PrefixBelow(a, h);
      LexAntisymmetric(a + h, a);
    }
  }

  lemma {:induction false} PrefixBelow(a: Bytes, h: Bytes)
    ensures LexLe(a, a + h)
  {
    if a != [] {
      assert (a + h)[1..] == a[1..] + h;
      PrefixBelow(a[1..], h);
    }
  }

  lemma ChangeSides(a: Bytes, c: Bytes, h: Bytes, g: Bytes, k: Bytes)
    ensures a + h + (g + c) + k == (a + h) + g + c + k
  {
  }

  lemma TwoModules(ms: seq<ModuleHash>)
    requires |ms| == 2 && LexLe(ms[0].0, ms[1].0)
    ensures PackagePreimage(ms) == PACKAGE_TAG + (U32Le(2) + (ms[0].0 + ms[0].1 + ms[1].0 + ms[1].1))
  {
    hide SortRows, U32Le, RowsBytes;
    SortedAlready(HashRows(ms));
    TwoRows(HashRows(ms));
  }

  lemma SortedAlready(rs: seq<Row>)
    requires |rs| == 2 && LexLe(rs[0].name, rs[1].name)
    ensures SortRows(rs) == rs
  {
    var last := rs[1..];
    assert last == [rs[1]] && last[1..] == [];
    assert SortRows(last) == last;
    assert rs == [rs[0]] + last;
  }

  lemma TwoRows(rs: seq<Row>)
    requires |rs| == 2 && rs[0].blobs == rs[1].blobs == []
    ensures RowsBytes(rs) == rs[0].name + rs[0].head + rs[1].name + rs[1].head
  {
    assert RowBytes(rs[0]) == rs[0].name + rs[0].head && RowBytes(rs[1]) == rs[1].name + rs[1].head;
    assert rs[1..][1..] == [] && rs[1..][0] == rs[1];
    assert RowsBytes(rs[1..]) == RowBytes(rs[1]);
  }

  // ---- Packages with the same module names ----

  ghost function NameSet(ms: seq<ModuleHash>): set<Bytes> {
    set h | h in ms :: h.0
  }

  /** The rows with nothing but their names. */
  function Bare(rs: seq<Row>): seq<Row> {
    seq(|rs|, i requires 0 <= i < |rs| => Row(rs[i].name, [], []))
  }

  ghost function BareRows(names: set<Bytes>): set<Row> {
    set name | name in names :: Row(name, [], [])
  }

  lemma BareSorted(ms: seq<ModuleHash>)
    requires DistinctModules(ms)
    ensures StrictlySorted(Bare(SortRows(HashRows(ms))))
    ensures RowSet(Bare(SortRows(HashRows(ms)))) == BareRows(NameSet(ms))
  {
    hide SortRows, HashRows, LexLe;
    var a := SortRows(HashRows(ms));
    SortedHashRows(ms);
    forall r ensures r in Bare(a) <==> r in BareRows(NameSet(ms)) {
      if r in Bare(a) {
        var i :| 0 <= i < |a| && Bare(a)[i] == r;
        assert a[i] in RowSet(HashRows(ms));
        HashRowSet(ms, (a[i].name, a[i].head));
      }
      if r in BareRows(NameSet(ms)) {
        var h :| h in ms && h.0 == r.name;
        HashRowSet(ms, h);
        assert Row(h.0, h.1, []) in RowSet(a);
        var i :| 0 <= i < |a| && a[i] == Row(h.0, h.1, []);
        assert Bare(a)[i] == r;
      }
    }
  }

  lemma SameNamesSameLengths(ms: seq<ModuleHash>, ns: seq<ModuleHash>)
    requires DistinctModules(ms) && DistinctModules(ns) && NameSet(ms) == NameSet(ns)
    ensures SameNameLengths(ms, ns)
  {
    hide SortRows, HashRows, StrictlySorted, DistinctModules;
    var a, b := SortRows(HashRows(ms)), SortRows(HashRows(ns));
    BareSorted(ms);
    BareSorted(ns);
    assert RowSet(Bare(a)) == RowSet(Bare(b));
    SortedUnique(Bare(a), Bare(b));
    forall i | 0 <= i < |a| ensures |a[i].name| == |b[i].name| {
      assert Bare(a)[i] == Bare(b)[i];
    }
  }

  ghost predicate Package(modules: seq<CompiledModule>) {
    && modules != [] && |modules| < U32_LIMIT
    && (forall m :: m in modules ==> WellFormed(m))
    && forall i, j :: 0 <= i < j < |modules| ==> modules[i].name != modules[j].name
  }

  ghost function ModuleNames(modules: seq<CompiledModule>): set<Bytes> {
    set m | m in modules :: m.name
  }

  /** Modules of the same name have the same public surface. */
  ghost predicate SameSurfaces(ms: seq<CompiledModule>, ns: seq<CompiledModule>)
    requires Package(ms) && Package(ns)
  {
    forall m, n :: m in ms && n in ns && m.name == n.name ==> PublicSurface(m) == PublicSurface(n)
  }

  ghost predicate SomeCollision(ms: seq<CompiledModule>, ns: seq<CompiledModule>, blake3: Bytes -> HashValue)
    requires Package(ms) && Package(ns)
  {
    || Collide(blake3, PackagePreimage(ModuleHashes(ms, blake3)), PackagePreimage(ModuleHashes(ns, blake3)))
    || exists m, n :: m in ms && n in ns && Collide(blake3, Preimage(m), Preimage(n))
  }

  lemma HashesOf(modules: seq<CompiledModule>, blake3: Bytes -> HashValue)
    requires Package(modules)
    ensures var hs := ModuleHashes(modules, blake3);
      && |hs| == |modules| && DistinctModules(hs) && NameSet(hs) == ModuleNames(modules)
      && (forall m :: m in modules ==> (m.name, blake3(Preimage(m))) in hs)
      && (forall h :: h in hs ==> exists m :: m in modules && h == (m.name, blake3(Preimage(m))))
  {
    var hs := ModuleHashes(modules, blake3);
    hide Preimage, WellFormed;
    forall i | 0 <= i < |modules| ensures hs[i] == (modules[i].name, blake3(Preimage(modules[i]))) {
      assert modules[i] in modules;
    }
  }

  /** Equal surfaces give every module of one package an equal entry in the other. */
  lemma SurfacesGiveHashes(ms: seq<CompiledModule>, ns: seq<CompiledModule>, blake3: Bytes -> HashValue)
    requires Package(ms) && Package(ns) && ModuleNames(ms) == ModuleNames(ns) && SameSurfaces(ms, ns)
    ensures forall h :: h in ModuleHashes(ms, blake3) ==> h in ModuleHashes(ns, blake3)
  {
    var hs, gs := ModuleHashes(ms, blake3), ModuleHashes(ns, blake3);
    hide Preimage, WellFormed, PublicSurface, ModuleHashes, DistinctModules, NameSet;
    HashesOf(ms, blake3);
    HashesOf(ns, blake3);
    forall h | h in hs ensures h in gs {
      var m :| m in ms && h == (m.name, blake3(Preimage(m)));
      assert m.name in ModuleNames(ns);
      var n :| n in ns && n.name == m.name;
      PreimageIffSurface(m, n);
    }
  }

  /** Equal entries give modules of one name equal surfaces, or a collision on their preimages. */
  lemma HashesGiveSurfaces(ms: seq<CompiledModule>, ns: seq<CompiledModule>, blake3: Bytes -> HashValue)
    requires Package(ms) && Package(ns)
    requires forall h :: h in ModuleHashes(ms, blake3) ==> h in ModuleHashes(ns, blake3)
    ensures SameSurfaces(ms, ns) || SomeCollision(ms, ns, blake3)
  {
    var hs, gs := ModuleHashes(ms, blake3), ModuleHashes(ns, blake3);
    hide Preimage, WellFormed, PublicSurface, ModuleHashes, NameSet, PackagePreimage;
    HashesOf(ms, blake3);
    HashesOf(ns, blake3);
    forall m, n | m in ms && n in ns && m.name == n.name
      ensures PublicSurface(m) == PublicSurface(n) || Collide(blake3, Preimage(m), Preimage(n))
    {
      PreimageIffSurface(m, n);
      assert (m.name, blake3(Preimage(m))) in gs && (n.name, blake3(Preimage(n))) in gs;
    }
  }

  /**
   For two packages with the same module names, equal package hashes mean that every module has
   kept its public surface, unless BLAKE3 collides on the package or on a pair of its modules.
   */
  lemma PackageHashIffSurfaces(ms: seq<CompiledModule>, ns: seq<CompiledModule>, blake3: Bytes -> HashValue)
    requires Package(ms) && Package(ns) && ModuleNames(ms) == ModuleNames(ns)
    ensures SameSurfaces(ms, ns) ==> PackageHash(ms, blake3) == PackageHash(ns, blake3)
    ensures PackageHash(ms, blake3) == PackageHash(ns, blake3) ==>
      SameSurfaces(ms, ns) || SomeCollision(ms, ns, blake3)
  {
    var hs, gs := ModuleHashes(ms, blake3), ModuleHashes(ns, blake3);
    hide Preimage, WellFormed, PublicSurface, PackagePreimage, SameNameLengths, ModuleHashes, DistinctModules,
         NameSet;
    HashesOf(ms, blake3);
    HashesOf(ns, blake3);
    SameModulesIff(hs, gs);
    SameNamesSameLengths(hs, gs);
    if SameSurfaces(ms, ns) {
      SurfacesGiveHashes(ms, ns, blake3);
      SurfacesGiveHashes(ns, ms, blake3);
    }
    if PackagePreimage(hs) == PackagePreimage(gs) { HashesGiveSurfaces(ms, ns, blake3); }
  }

  /**
   So the hash does not identify a package, whatever the hash function is. Let the digests `h` of
   `p` and `g` of `r` consist of identifier bytes, and let `q` and `t` have one preimage. If `r` is
   named like `p` followed by `h`, and `q` is named `g` followed by the name of `t`, then the
   packages `p, q` and `r, t` hash alike, and not because of a collision.
   */
  lemma PackagesConfused(
    blake3: Bytes -> HashValue, p: CompiledModule, q: CompiledModule, r: CompiledModule, t: CompiledModule)
    requires WellFormed(p) && WellFormed(q) && WellFormed(r) && WellFormed(t)
    requires Preimage(q) == Preimage(t)
    requires r.name == p.name + blake3(Preimage(p)) && q.name == blake3(Preimage(r)) + t.name
    requires forall m :: m in {p, q, r, t} ==> ValidName(m.name)
    requires LexLe(p.name, q.name) && p.name != q.name && LexLe(r.name, t.name) && r.name != t.name
    ensures Package([p, q]) && Package([r, t]) && ModuleNames([p, q]) != ModuleNames([r, t])
    ensures PackagePreimage(ModuleHashes([p, q], blake3)) == PackagePreimage(ModuleHashes([r, t], blake3))
    ensures PackageHash([p, q], blake3) == PackageHash([r, t], blake3)
  {
    var h, g, k := blake3(Preimage(p)), blake3(Preimage(r)), blake3(Preimage(t));
    hide *;
    PairPackage(p, q);
    PairPackage(r, t);
    StreamIsAmbiguous(p.name, t.name, h, g, k);
    PairPreimage(p, q, blake3);
    PairPreimage(r, t, blake3);
    assert p.name in {p.name, q.name};
  }

  lemma PairPreimage(p: CompiledModule, q: CompiledModule, blake3: Bytes -> HashValue)
    requires WellFormed(p) && WellFormed(q) && Package([p, q])
    ensures PackagePreimage(ModuleHashes([p, q], blake3))
         == PackagePreimage([(p.name, blake3(Preimage(p))), (q.name, blake3(Preimage(q)))])
    ensures PackageHash([p, q], blake3) == blake3(PackagePreimage(ModuleHashes([p, q], blake3)))
  {
    PairHashes([p, q], blake3, blake3(Preimage(p)), blake3(Preimage(q)));
  }

  lemma PairPackage(p: CompiledModule, q: CompiledModule)
    requires WellFormed(p) && WellFormed(q) && p.name != q.name
    ensures Package([p, q]) && ModuleNames([p, q]) == {p.name, q.name}
  {
    hide WellFormed;
    assert p in [p, q] && q in [p, q];
  }

  lemma PairHashes(modules: seq<CompiledModule>, blake3: Bytes -> HashValue, h: HashValue, k: HashValue)
    requires |modules| == 2 && InBounds(modules[0]) && InBounds(modules[1])
    requires blake3(Preimage(modules[0])) == h && blake3(Preimage(modules[1])) == k
    ensures ModuleHashes(modules, blake3) == [(modules[0].name, h), (modules[1].name, k)]
  {
  }
}
