/**
 Concrete runs of `publish_modules` that show where a bundle of several modules escapes the
 `Compatible` policy, cannot be published again, and costs more than its limit, and where a
 dependency on a module that does not exist is accepted.
 */
module PublishExamples {
  import opened Base
  import opened AbiTokens
  import opened AbiRows
  import opened AbiLayout
  import opened AbiModule
  import opened AbiResolved
  import opened AbiExamples
  import opened StateChanges
  import opened Gas
  import opened Publishing
  import opened PublishRuns
  import opened PublishNames

  /** The names `A`, `B` and `C`. */
  const A: Bytes := [65]
  const B: Bytes := [66]
  const C: Bytes := [67]

  function Other(): Address {
    seq(32, i => 8)
  }

  /** A module of another address that depends on a module `C` of the first. */
  function DependentModule(): CompiledModule {
    EmptyModule(A).(address := Other(), dependencies := [(Owner(), C)])
  }

  function Deserialize(b: Bytes): Option<CompiledModule> {
    if b == [0] then Some(EmptyModule(A))
    else if b == [1] then Some(StructModule(B))
    else if b == [2] then Some(StructModule(A))
    else if b == [3] then Some(DependentModule())
    else None
  }

  /** A stand-in for BLAKE3 that tells the two surfaces apart: the length in every byte. */
  function Digest(b: Bytes): HashValue {
    seq(32, i => |b| % 0x100)
  }

  function Metadata(owner: Address, name: Bytes, code: Bytes, abiHash: HashValue): PackageMetadata {
    PackageMetadata(name, Digest(code), [(name, owner)], [(name, Digest(code))], abiHash, Compatible, owner, 1)
  }

  function Decode(b: Bytes): Option<PackageMetadata> {
    match Deserialize(b)
    case Some(m) => Some(Metadata(m.address, m.name, b, if b in {[0], [3]} then AbiEmpty() else AbiStruct()))
    case None => None
  }

  function Encode(meta: PackageMetadata): Option<Bytes> {
    if Decode([0]) == Some(meta) then Some([0])
    else if Decode([1]) == Some(meta) then Some([1])
    else if Decode([2]) == Some(meta) then Some([2])
    else if Decode([3]) == Some(meta) then Some([3])
    else None
  }

  function AbiEmpty(): HashValue {
    seq(32, i => 26)
  }

  function AbiStruct(): HashValue {
    seq(32, i => 33)
  }

  function ExampleHost(): Host {
    Host(Deserialize, m => true, Digest, Encode, Decode, name => false, GasSchedule(1, 1, 1, 1, 1))
  }

  /** `A` is empty and `B` has a struct; then `A` gets what `B` had. */
  const BUNDLE := ModulePublish(Owner(), [[0], [1]], 0, Some(Compatible))
  const UPGRADE := ModulePublish(Owner(), [[2]], 0, Some(Compatible))

  /** The bundle of the dependent module. */
  const DEPENDENT := ModulePublish(Other(), [[3]], 0, Some(Compatible))

  lemma DependentWellFormed()
    ensures WellFormed(DependentModule()) && |Preimage(DependentModule())| == 26
  {
  }

  lemma DecodeUndoesEncode(meta: PackageMetadata)
    ensures Encode(meta).Some? ==> Decode(Encode(meta).value) == Some(meta)
  {
    hide Decode;
  }

  lemma ModulesWellFormed(b: Bytes)
    ensures Deserialize(b).Some? ==> WellFormed(Deserialize(b).value)
  {
    hide WellFormed, EmptyModule, StructModule, DependentModule, Preimage, PublicSurface;
    DependentWellFormed();
    EmptyWellFormed(A);
    StructWellFormed(A);
    StructWellFormed(B);
  }

  lemma ExampleHostValid()
    ensures ValidHost(ExampleHost())
  {
    hide WellFormed, Deserialize, Encode, Decode;
    forall b ensures Deserialize(b).Some? ==> WellFormed(Deserialize(b).value) {
      ModulesWellFormed(b);
    }
    forall meta ensures Encode(meta).Some? ==> Decode(Encode(meta).value) == Some(meta) {
      DecodeUndoesEncode(meta);
    }
  }

  /** The first bundle is accepted on an empty state. */
  lemma BundleSucceeds()
    ensures ValidHost(ExampleHost())
    ensures Succeeds(ExampleHost(), map[], BUNDLE)
  {
    hide WellFormed, Preimage;
    ExampleHostValid();
    EmptyWellFormed(A);
    StructWellFormed(B);
    var host := ExampleHost();
    assert Judge(host, map[], BUNDLE, [0]).Accepted?;
    assert Judge(host, map[], BUNDLE, [1]).Accepted?;
    GoingIffAllAccepted(host, map[], BUNDLE, 2);
    SucceedsIffGoing(host, map[], BUNDLE);
  }

  /** The stored metadata is that of the last module, the one with the struct. */
  lemma AfterBundle(s: State)
    requires ValidHost(ExampleHost()) && Succeeds(ExampleHost(), map[], BUNDLE)
    requires s == StepState(ExampleHost(), map[], PublishStep(BUNDLE))
    ensures HasModule(s, Owner())
    ensures StoredMetadata(ExampleHost(), s, Owner()) == Some(Metadata(Owner(), B, [1], AbiStruct()))
  {
    hide WellFormed, Preimage, PublicSurface, StepState, Succeeds, ValidHost, NamesStored, OnlyPackageOf,
         ZeroHash, Digest, SomeMissing, UpgradeAbort, AbiStruct, AbiEmpty, Owner, Encode;
    var host := ExampleHost();
    SucceededBundle(host, map[], BUNDLE);
    assert BUNDLE.modules[1] == [1];
    AcceptedModule(host, map[], BUNDLE, [1]);
    EncodedStruct(MetadataFor(host, BUNDLE, StructModule(B), [1]));
  }

  lemma EncodedStruct(meta: PackageMetadata)
    requires Encode(meta).Some? && meta.name == B
    ensures Encode(meta) == Some([1]) && Decode([1]) == Some(Metadata(Owner(), B, [1], AbiStruct()))
  {
  }

  lemma BundleTracks(s: State)
    requires HasModule(s, Owner())
    requires StoredMetadata(ExampleHost(), s, Owner()) == Some(Metadata(Owner(), B, [1], AbiStruct()))
    ensures TracksAbi(ExampleHost(), s, Owner(), AbiStruct())
    ensures PolicyAt(ExampleHost(), s, Owner()) == Compatible
  {
    hide StoredMetadata;
    assert AbiStruct()[0] != ZeroHash()[0];
  }

  lemma Hashes()
    ensures InBounds(EmptyModule(A)) && InBounds(StructModule(A)) && InBounds(StructModule(B))
    ensures AbiHash(ExampleHost(), EmptyModule(A)) == AbiEmpty()
    ensures AbiHash(ExampleHost(), StructModule(A)) == AbiStruct() == AbiHash(ExampleHost(), StructModule(B))
    ensures AbiEmpty() != AbiStruct()
  {
    hide EmptyModule, StructModule, Preimage, PublicSurface;
    EmptyWellFormed(A);
    StructWellFormed(A);
    StructWellFormed(B);
    assert AbiEmpty()[0] != AbiStruct()[0];
  }

  /** The upgrade puts a module with the tracked hash under the name `A`, so it succeeds. */
  lemma UpgradeSucceeds(s: State)
    requires ValidHost(ExampleHost())
    requires TracksAbi(ExampleHost(), s, Owner(), AbiStruct()) && PolicyAt(ExampleHost(), s, Owner()) == Compatible
    ensures Succeeds(ExampleHost(), s, UPGRADE)
  {
    hide WellFormed, ValidHost, AbiHash, PublicSurface, AbiEmpty, AbiStruct, StoredMetadata, HasModule;
    var host := ExampleHost();
    Hashes();
    assert UpgradeAbort(host, s, StructModule(A)).None?;
    assert Judge(host, s, UPGRADE, [2]).Accepted?;
    GoingIffAllAccepted(host, s, UPGRADE, 1);
    SucceedsIffGoing(host, s, UPGRADE);
  }

  function FirstState(): State
    requires ValidHost(ExampleHost())
  {
    StepState(ExampleHost(), map[], PublishStep(BUNDLE))
  }

  lemma FirstStateTracks()
    ensures ValidHost(ExampleHost()) && Succeeds(ExampleHost(), map[], BUNDLE)
    ensures TracksAbi(ExampleHost(), FirstState(), Owner(), AbiStruct())
    ensures PolicyAt(ExampleHost(), FirstState(), Owner()) == Compatible
    ensures GetModuleByName(FirstState(), Owner(), A) == Some([0])
  {
    hide ValidHost, Succeeds, StepState, TracksAbi, PolicyAt, OnlyPackageOf, LastModuleStored;
    BundleSucceeds();
    AfterBundle(FirstState());
    BundleTracks(FirstState());
    SucceededBundle(ExampleHost(), map[], BUNDLE);
    assert LastNamed(ExampleHost(), BUNDLE.modules, 2, A) == Some([0]);
  }

  /**
   A `Compatible` upgrade that succeeds and changes the public surface of the module found under
   the name `A`, with different ABI hashes and so without a collision.
   */
  lemma NamedSurfaceCanChange()
    ensures var host := ExampleHost();
      && ValidHost(host) && Succeeds(host, map[], BUNDLE)
      && var st := FirstState();
      && TracksAbi(host, st, Owner(), AbiStruct()) && Succeeds(host, st, UPGRADE)
      && var s := StepState(host, st, PublishStep(UPGRADE));
      && Linkable(host, st, Owner(), A) && Linkable(host, s, Owner(), A)
      && var m, n := Linked(host, st, Owner(), A), Linked(host, s, Owner(), A);
      PublicSurface(m) != PublicSurface(n) && AbiHash(host, m) != AbiHash(host, n)
  {
    hide WellFormed, ValidHost, Succeeds, StepState, TracksAbi, PolicyAt, AbiHash, PublicSurface, FirstState,
         AbiEmpty, AbiStruct, Owner, LastModuleStored, OnlyPackageOf, EmptyModule, StructModule, ModuleCodeKey;
    var host := ExampleHost();
    FirstStateTracks();
    var st := FirstState();
    UpgradeSucceeds(st);
    var s := StepState(host, st, PublishStep(UPGRADE));
    SucceededBundle(host, st, UPGRADE);
    NamedA();
    assert LastNamed(host, UPGRADE.modules, 1, A) == Some([2]);
    assert GetModuleByName(s, Owner(), A) == Some([2]);
    Hashes();
    EmptyWellFormed(A);
    StructWellFormed(A);
  }

  lemma NamedA()
    ensures StructModule(A).name == A
  {
  }

  /**
   The same bundle, published a second time, aborts with the incompatibility code. It is charged
   the base fee, which is more than its gas limit.
   */
  lemma BundleOnlyOnce()
    ensures var host := ExampleHost();
      && ValidHost(host) && Succeeds(host, map[], BUNDLE)
      && var out := Publish(host, FirstState(), BUNDLE);
      && out == Ok(Turned(host, ABI_INCOMPATIBLE)) && out.value.gasUsed > BUNDLE.gasLimit
  {
    hide ValidHost, Succeeds, FirstState, AbiHash, AbiEmpty, AbiStruct, ZeroHash, Publish, StoredMetadata,
         PolicyAt, Owner, WellFormed, Preimage, PublicSurface;
    var host := ExampleHost();
    FirstStateTracks();
    Hashes();
    PolicyDecidesAbort(host, FirstState(), BUNDLE);
  }

  lemma NoModuleC()
    ensures ValidHost(ExampleHost()) && Succeeds(ExampleHost(), map[], BUNDLE)
    ensures HasModule(FirstState(), Owner()) && !HasModule(FirstState(), Other())
    ensures Get(FirstState(), Owner(), ModuleCodeKey(C)).None?
  {
    hide ValidHost, Succeeds, StepState, PolicyAt, LastModuleStored, ModuleCodeKey, Reserved, StoredMetadata;
    FirstStateTracks();
    SucceededBundle(ExampleHost(), map[], BUNDLE);
    assert Owner()[0] != Other()[0];
    assert Get(FirstState(), Other(), CODE) == Get(map[], Other(), CODE);
    assert LastNamed(ExampleHost(), BUNDLE.modules, 2, C) == None;
  }

  lemma FirstRun()
    requires ValidHost(ExampleHost())
    ensures Run(ExampleHost(), map[], [PublishStep(BUNDLE)]) == FirstState()
  {
    hide StepState, ValidHost;
    assert [PublishStep(BUNDLE)][1..] == [];
  }

  /** A module is published whose dependency does not exist: the lookup of `C` finds another module. */
  lemma MissingDependencyAccepted()
    ensures var host := ExampleHost();
      && ValidHost(host) && Succeeds(host, map[], BUNDLE)
      && Succeeds(host, FirstState(), DEPENDENT)
      && DependentModule().dependencies == [(Owner(), C)] && !Published(host, FirstState(), Owner(), C)
  {
    hide ValidHost, Succeeds, StepState, WellFormed, Preimage, Published, ModuleCodeKey, FirstState;
    var host := ExampleHost();
    NoModuleC();
    DependentWellFormed();
    assert Judge(host, FirstState(), DEPENDENT, [3]).Accepted?;
    GoingIffAllAccepted(host, FirstState(), DEPENDENT, 1);
    SucceedsIffGoing(host, FirstState(), DEPENDENT);
    var steps := [PublishStep(BUNDLE)];
    FirstRun();
    LookupFindsNameIff(host, steps, Owner(), C);
  }

  /** With a `Compatible` package that holds `TakesStruct`, adding a private function aborts. */
  lemma PrivateFunctionBlocksUpgrade(host: Host, st: State, req: ModulePublish, owner: (Address, Bytes))
    requires ValidHost(host) && req.modules != [] && req.sender == Owner()
    requires host.deserialize(req.modules[0]) == Some(WithPrivate(owner))
    requires InBounds(TakesStruct(owner)) && TracksAbi(host, st, Owner(), AbiHash(host, TakesStruct(owner)))
    requires PolicyAt(host, st, Owner()) == Compatible
    ensures WellFormed(WithPrivate(owner)) && ResolvedSurface(WithPrivate(owner)) == ResolvedSurface(TakesStruct(owner))
    ensures Publish(host, st, req) == Ok(Turned(host, ABI_INCOMPATIBLE))
      || Collide(host.blake3, Preimage(TakesStruct(owner)), Preimage(WithPrivate(owner)))
  {
    PrivateFunctionChangesPreimage(owner);
    WithPrivateAddress(owner);
    hide *;
    InternalUpgradePassesIff(host, st, req, TakesStruct(owner), WithPrivate(owner));
    InternalChangeKeepsPreimageIff(TakesStruct(owner), WithPrivate(owner));
  }

  lemma WithPrivateAddress(owner: (Address, Bytes))
    ensures WithPrivate(owner).address == Owner()
  {
  }
}
