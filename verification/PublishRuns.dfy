/**
 What publishing guarantees over whole runs from an empty state, in which any publish
 requests and any resource writes may follow each other.
 */
module PublishRuns {
  import opened Base
  import opened AbiModule
  import opened StateChanges
  import opened Gas
  import opened Publishing

  // ---- Runs ----

  datatype Step = PublishStep(req: ModulePublish) | ResourceStep(changes: seq<StateChange>)

  /** A function call or script writes resources, never code or package metadata. */
  predicate LegalStep(step: Step) {
    step.ResourceStep? ==> forall i :: 0 <= i < |step.changes| ==> !Reserved(step.changes[i].key)
  }

  /** The node replays what the backend puts out; an error changes nothing. */
  function StepState(host: Host, st: State, step: Step): State
    requires ValidHost(host)
  {
    match step
    case PublishStep(req) =>
      (match Publish(host, st, req)
       case Ok(out) => Replay(st, out.stateChanges)
       case Err(_) => st)
    case ResourceStep(changes) => Replay(st, changes)
  }

  function Run(host: Host, st: State, steps: seq<Step>): State
    requires ValidHost(host)
    decreases |steps|
  {
    if steps == [] then st else Run(host, StepState(host, st, steps[0]), steps[1..])
  }

  // ---- What one module's changes do ----

  /** The state after the four changes of one accepted module. */
  function AfterModule(host: Host, st: State, m: CompiledModule, bytes: Bytes, metadata: Bytes): State {
    st[(m.address, ModuleCodeKey(m.name)) := bytes][(m.address, CODE) := bytes]
      [(m.address, CODE_HASH) := host.blake3(bytes)][(m.address, METADATA) := metadata]
  }

  lemma ReplayModule(host: Host, st: State, changes: seq<StateChange>, m: CompiledModule, bytes: Bytes, metadata: Bytes)
    ensures Replay(st, changes + ModuleChanges(host, m, bytes, metadata))
         == AfterModule(host, Replay(st, changes), m, bytes, metadata)
  {
    hide ModuleCodeKey;
    var cs := ModuleChanges(host, m, bytes, metadata);
    ReplayConcat(st, changes, cs);
    var s := Replay(st, changes);
    assert cs[..3][..2][..1] == [cs[0]] && cs[..3][..2] == [cs[0], cs[1]] && cs[..3] == [cs[0], cs[1], cs[2]];
    ReplayFour(s, cs[0], cs[1], cs[2], cs[3]);
  }

  /** Where each key stands after one module. */
  lemma ModuleEffect(host: Host, st: State, m: CompiledModule, bytes: Bytes, metadata: Bytes)
    ensures var s := AfterModule(host, st, m, bytes, metadata);
      && Get(s, m.address, CODE) == Some(bytes)
      && Get(s, m.address, CODE_HASH) == Some(host.blake3(bytes))
      && Get(s, m.address, METADATA) == Some(metadata)
      && (forall name :: Get(s, m.address, ModuleCodeKey(name)) ==
            if name == m.name then Some(bytes) else Get(st, m.address, ModuleCodeKey(name)))
      && (forall a: Address, key :: a != m.address || !Reserved(key) ==> Get(s, a, key) == Get(st, a, key))
  {
    hide ModuleCodeKey, Reserved;
    KeysApart(m.name, m.name);
    forall name ensures Get(AfterModule(host, st, m, bytes, metadata), m.address, ModuleCodeKey(name)) ==
        if name == m.name then Some(bytes) else Get(st, m.address, ModuleCodeKey(name)) {
      KeysApart(name, m.name);
    }
    FixedKeysReserved();
  }

  lemma FixedKeysReserved()
    ensures Reserved(CODE) && Reserved(CODE_HASH) && Reserved(METADATA)
  {
  }

  // ---- What a bundle does ----

  /** The bytes of the last of the first `n` modules that carries a name. */
  function LastNamed(host: Host, modules: seq<Bytes>, n: nat, name: Bytes): Option<Bytes>
    requires n <= |modules|
  {
    if n == 0 then None else
    match host.deserialize(modules[n - 1])
    case Some(m) => if m.name == name then Some(modules[n - 1]) else LastNamed(host, modules, n - 1, name)
    case None => LastNamed(host, modules, n - 1, name)
  }

  /** The last module so far has left its code, hash and metadata at the sender's address. */
  ghost predicate LastModuleStored(host: Host, st: State, req: ModulePublish, bytes: Bytes, s: State)
    requires ValidHost(host)
  {
    var v := Judge(host, st, req, bytes);
    && v.Accepted?
    && Get(s, req.sender, CODE) == Some(bytes)
    && Get(s, req.sender, CODE_HASH) == Some(host.blake3(bytes))
    && Get(s, req.sender, METADATA) == Some(v.metadata)
  }

  ghost predicate NamesStored(host: Host, st: State, req: ModulePublish, n: nat, s: State)
    requires n <= |req.modules|
  {
    forall name :: Get(s, req.sender, ModuleCodeKey(name)) ==
      var own := LastNamed(host, req.modules, n, name);
      if own.Some? then own else Get(st, req.sender, ModuleCodeKey(name))
  }

  /** Nothing but reserved keys of one address differs between two states. */
  ghost predicate OnlyPackageOf(sender: Address, st: State, s: State) {
    forall a: Address, key :: a != sender || !Reserved(key) ==> Get(s, a, key) == Get(st, a, key)
  }

  ghost predicate BundleStored(host: Host, st: State, req: ModulePublish, n: nat, s: State)
    requires ValidHost(host) && n <= |req.modules|
  {
    && OnlyPackageOf(req.sender, st, s)
    && NamesStored(host, st, req, n, s)
    && (n == 0 ==> s == st)
    && (n > 0 ==> LastModuleStored(host, st, req, req.modules[n - 1], s))
  }

  lemma NamesStep(host: Host, st: State, req: ModulePublish, n: nat, s: State, metadata: Bytes)
    requires ValidHost(host) && 0 < n <= |req.modules|
    requires host.deserialize(req.modules[n - 1]).Some?
    requires host.deserialize(req.modules[n - 1]).value.address == req.sender
    requires NamesStored(host, st, req, n - 1, s)
    ensures var m := host.deserialize(req.modules[n - 1]).value;
      NamesStored(host, st, req, n, AfterModule(host, s, m, req.modules[n - 1], metadata))
  {
    hide ValidHost, AfterModule, ModuleCodeKey, Get, Reserved;
    ModuleEffect(host, s, host.deserialize(req.modules[n - 1]).value, req.modules[n - 1], metadata);
  }

  lemma FrameStep(host: Host, st: State, s: State, m: CompiledModule, bytes: Bytes, metadata: Bytes)
    requires OnlyPackageOf(m.address, st, s)
    ensures OnlyPackageOf(m.address, st, AfterModule(host, s, m, bytes, metadata))
  {
    hide AfterModule, ModuleCodeKey, Get, Reserved;
    ModuleEffect(host, s, m, bytes, metadata);
  }

  lemma LastStep(host: Host, st: State, req: ModulePublish, s: State, bytes: Bytes)
    requires ValidHost(host) && Judge(host, st, req, bytes).Accepted?
    ensures var v := Judge(host, st, req, bytes);
      LastModuleStored(host, st, req, bytes, AfterModule(host, s, v.m, bytes, v.metadata))
  {
    hide ValidHost, AfterModule, ModuleCodeKey, Get, Reserved, Judge;
    var v := Judge(host, st, req, bytes);
    ModuleEffect(host, s, v.m, bytes, v.metadata);
  }

  lemma ProcessStep(host: Host, st: State, req: ModulePublish, n: nat)
    requires ValidHost(host) && 0 < n <= |req.modules|
    ensures var p, q := Process(host, st, req, n - 1), Process(host, st, req, n);
      var v := Judge(host, st, req, req.modules[n - 1]);
      && (q.Going? <==> p.Going? && v.Accepted?)
      && (q.Going? ==> q.changes == p.changes + ModuleChanges(host, v.m, req.modules[n - 1], v.metadata))
  {
    hide ValidHost, ModuleChanges, Judge;
  }

  lemma ProcessNothing(host: Host, st: State, req: ModulePublish)
    requires ValidHost(host)
    ensures Process(host, st, req, 0) == Going([])
  {
  }

  lemma {:induction false} BundleEffect(host: Host, st: State, req: ModulePublish, n: nat)
    requires ValidHost(host) && n <= |req.modules|
    ensures var p := Process(host, st, req, n);
      p.Going? ==> BundleStored(host, st, req, n, Replay(st, p.changes))
  {
    hide ValidHost, ModuleChanges, AfterModule, Judge, ModuleCodeKey, Reserved, Get, Replay, Process;
    if n == 0 {
      ProcessNothing(host, st, req);
      NothingReplayed(st);
    } else if Process(host, st, req, n).Going? {
      ProcessStep(host, st, req, n);
      BundleEffect(host, st, req, n - 1);
      var before := Process(host, st, req, n - 1).changes;
      var bytes := req.modules[n - 1];
      var v := Judge(host, st, req, bytes);
      assert v.Accepted?;
      AcceptedModule(host, st, req, bytes);
      ReplayModule(host, st, before, v.m, bytes, v.metadata);
      NamesStep(host, st, req, n, Replay(st, before), v.metadata);
      FrameStep(host, st, Replay(st, before), v.m, bytes, v.metadata);
      LastStep(host, st, req, Replay(st, before), bytes);
      hide NamesStored, OnlyPackageOf, LastModuleStored;
    }
  }

  lemma NothingReplayed(st: State)
    ensures Replay(st, []) == st
  {
  }

  lemma AcceptedModule(host: Host, st: State, req: ModulePublish, bytes: Bytes)
    requires ValidHost(host) && Judge(host, st, req, bytes).Accepted?
    ensures var v := Judge(host, st, req, bytes);
      && host.deserialize(bytes) == Some(v.m) && v.m.address == req.sender && WellFormed(v.m)
      && UpgradeAbort(host, st, v.m).None?
      && host.encode(MetadataFor(host, req, v.m, bytes)) == Some(v.metadata)
      && !SomeMissing(host, st, req.sender, v.m.dependencies)
  {
    hide WellFormed;
  }

  /** An outcome with changes is a success in which every module passed its checks. */
  lemma PublishChanges(host: Host, st: State, req: ModulePublish)
    requires ValidHost(host)
    ensures var s := StepState(host, st, PublishStep(req));
      s == st || (req.modules != [] && BundleStored(host, st, req, |req.modules|, s))
    ensures Publish(host, st, req).Ok? && Publish(host, st, req).value.status.Success? ==>
      BundleStored(host, st, req, |req.modules|, StepState(host, st, PublishStep(req)))
  {
    hide ValidHost, BundleStored, LastWrites;
    var p := Process(host, st, req, |req.modules|);
    if p.Going? {
      BundleEffect(host, st, req, |req.modules|);
    } else {
      StoppedPublish(host, st, req, |req.modules|);
      NothingReplayed(st);
    }
  }

  lemma {:induction false} StoppedPublish(host: Host, st: State, req: ModulePublish, n: nat)
    requires ValidHost(host) && n <= |req.modules| && Process(host, st, req, n).Stopped?
    ensures var o := Process(host, st, req, n).outcome;
      o.Ok? ==>
        && o.value.status.MoveAbort? && o.value.gasUsed == host.schedule.publishBase
        && o.value.stateChanges == [] && o.value.writeSet == map[]
  {
    hide ValidHost, Judge;
    if Process(host, st, req, n - 1).Stopped? { StoppedPublish(host, st, req, n - 1); }
  }

  /** The two outputs of a publish agree, and a rejected or aborted publish has none. */
  lemma PublishOutputsCoherent(host: Host, st: State, req: ModulePublish)
    requires ValidHost(host) && Publish(host, st, req).Ok?
    ensures var out := Publish(host, st, req).value;
      && Coherent(out.stateChanges, out.writeSet)
      && (!out.status.Success? ==> out.stateChanges == [] && out.writeSet == map[])
  {
    hide ValidHost, Coherent;
    var p := Process(host, st, req, |req.modules|);
    if p.Going? {
      LastWritesCoherent(p.changes);
    } else {
      StoppedPublish(host, st, req, |req.modules|);
      LastWritesCoherent([]);
    }
  }

  /** Publishing touches no address but the sender's, and there only code and metadata keys. */
  lemma PublishTouchesOnlySender(host: Host, st: State, req: ModulePublish)
    requires ValidHost(host)
    ensures OnlyPackageOf(req.sender, st, StepState(host, st, PublishStep(req)))
  {
    hide ValidHost, StepState;
    PublishChanges(host, st, req);
  }

  /**
   After a successful publish, looking a name up gives the last module of that name in the
   bundle; other names keep their own entry, and names never stored fall back to the last module.
   */
  lemma LookupAfterPublish(host: Host, st: State, req: ModulePublish, name: Bytes)
    requires ValidHost(host) && req.modules != []
    requires Publish(host, st, req).Ok? && Publish(host, st, req).value.status.Success?
    ensures var s := Replay(st, Publish(host, st, req).value.stateChanges);
      GetModuleByName(s, req.sender, name) ==
        var own := LastNamed(host, req.modules, |req.modules|, name);
        if own.Some? then own
        else if Get(st, req.sender, ModuleCodeKey(name)).Some? then Get(st, req.sender, ModuleCodeKey(name))
        else Some(req.modules[|req.modules| - 1])
  {
    hide ValidHost, Publish, Judge, ModuleCodeKey;
    PublishChanges(host, st, req);
  }

  // ---- Resource writes ----

  lemma {:induction false} ResourceWritesKeepReserved(st: State, changes: seq<StateChange>)
    requires forall i :: 0 <= i < |changes| ==> !Reserved(changes[i].key)
    ensures forall a: Address, key :: Reserved(key) ==> Get(Replay(st, changes), a, key) == Get(st, a, key)
  {
    hide Reserved;
    if changes != [] { ResourceWritesKeepReserved(st, changes[..|changes| - 1]); }
  }

  // ---- The invariant: metadata describes code ----

  /** An address holds code exactly when it holds readable metadata, and the metadata is about that code. */
  ghost predicate DescribesCode(host: Host, st: State, a: Address)
    requires ValidHost(host)
  {
    match Get(st, a, CODE)
    case None => Get(st, a, METADATA).None?
    case Some(bytes) =>
      && StoredMetadata(host, st, a).Some? && host.deserialize(bytes).Some?
      && var meta, m := StoredMetadata(host, st, a).value, host.deserialize(bytes).value;
      && m.address == a && meta.name == m.name
      && meta.packageHash == host.blake3(bytes) && Get(st, a, CODE_HASH) == Some(meta.packageHash)
      && meta.abiHash == AbiHash(host, m)
      && meta.namedAddresses == [(m.name, a)] && meta.moduleHashes == [(m.name, host.blake3(bytes))]
      && meta.deployer == a && meta.version == 1
  }

  /** The parts of a package that the invariant and the upgrade rules read. */
  ghost predicate SamePackage(st: State, s: State, a: Address) {
    forall key :: Reserved(key) ==> Get(s, a, key) == Get(st, a, key)
  }

  lemma SamePackageKeys(st: State, s: State, a: Address)
    requires SamePackage(st, s, a)
    ensures Get(s, a, CODE) == Get(st, a, CODE) && Get(s, a, METADATA) == Get(st, a, METADATA)
    ensures Get(s, a, CODE_HASH) == Get(st, a, CODE_HASH)
  {
    FixedKeysReserved();
  }

  /** A step either leaves an address's package alone, or is a successful publish by that address. */
  lemma StepOnPackage(host: Host, st: State, step: Step, a: Address)
    requires ValidHost(host) && LegalStep(step)
    ensures var s := StepState(host, st, step);
      || SamePackage(st, s, a)
      || (&& step.PublishStep? && step.req.sender == a && step.req.modules != []
          && BundleStored(host, st, step.req, |step.req.modules|, s))
  {
    hide ValidHost, Reserved, BundleStored, Publish, Get;
    match step {
      case PublishStep(req) =>
        PublishChanges(host, st, req);
        PublishTouchesOnlySender(host, st, req);
      case ResourceStep(changes) =>
        ResourceWritesKeepReserved(st, changes);
    }
  }

  lemma StepKeepsDescription(host: Host, st: State, step: Step, a: Address)
    requires ValidHost(host) && LegalStep(step) && DescribesCode(host, st, a)
    ensures DescribesCode(host, StepState(host, st, step), a)
  {
    hide StepState, Judge, WellFormed, Preimage;
    var s := StepState(host, st, step);
    StepOnPackage(host, st, step, a);
    if SamePackage(st, s, a) {
      SamePackageKeys(st, s, a);
    } else {
      var req := step.req;
      var bytes := req.modules[|req.modules| - 1];
      AcceptedModule(host, st, req, bytes);
    }
  }

  lemma {:induction false} RunKeepsDescription(host: Host, st: State, steps: seq<Step>, a: Address)
    requires ValidHost(host) && (forall i :: 0 <= i < |steps| ==> LegalStep(steps[i])) && DescribesCode(host, st, a)
    ensures DescribesCode(host, Run(host, st, steps), a)
    decreases |steps|
  {
    hide ValidHost, LegalStep, DescribesCode, StepState;
    if steps != [] {
      StepKeepsDescription(host, st, steps[0], a);
      RunKeepsDescription(host, StepState(host, st, steps[0]), steps[1..], a);
    }
  }

  /** In every run from the empty state, every address has code iff it has metadata about that code. */
  lemma CodeHasMetadataInEveryRun(host: Host, steps: seq<Step>, a: Address)
    requires ValidHost(host) && forall i :: 0 <= i < |steps| ==> LegalStep(steps[i])
    ensures DescribesCode(host, Run(host, map[], steps), a)
  {
    assert DescribesCode(host, map[], a);
    hide DescribesCode, Run, ValidHost, LegalStep;
    RunKeepsDescription(host, map[], steps, a);
  }

  // ---- Upgrade policies ----

  /** The policy decides how the owner of a package is turned away at the first module. */
  lemma PolicyDecidesAbort(host: Host, st: State, req: ModulePublish)
    requires ValidHost(host) && req.modules != [] && HasModule(st, req.sender)
    requires host.deserialize(req.modules[0]).Some?
    requires host.deserialize(req.modules[0]).value.address == req.sender
    ensures var policy, h := PolicyAt(host, st, req.sender), AbiHashAt(host, st, req.sender);
      var code := if policy == Immutable then 20 else if policy == GovernanceOnly then 21
        else if h != ZeroHash() && h != HashOf(host, req.modules[0]) then 22 else 0;
      code != 0 ==> Publish(host, st, req) == Ok(Turned(host, code))
  {
    hide WellFormed, Preimage, ZeroHash;
    var v := Judge(host, st, req, req.modules[0]);
    if v.Aborted? { StopIsFinal(host, st, req, 1, |req.modules|); }
  }

  /** A frozen package reports more gas than the limit whenever the limit is below the base fee. */
  lemma FrozenRejectionOverLimit(host: Host, st: State, req: ModulePublish)
    requires ValidHost(host) && req.modules != [] && Frozen(host, st, req.sender)
    requires host.deserialize(req.modules[0]).Some?
    requires host.deserialize(req.modules[0]).value.address == req.sender
    requires req.gasLimit < host.schedule.publishBase
    ensures Publish(host, st, req).Ok? && Publish(host, st, req).value.gasUsed > req.gasLimit
  {
    hide ValidHost, Publish;
    PolicyDecidesAbort(host, st, req);
  }

  ghost predicate Frozen(host: Host, st: State, a: Address) {
    HasModule(st, a) && PolicyAt(host, st, a) != Compatible
  }

  /** A bundle by the owner of a frozen package never gets past its first module. */
  lemma FrozenStep(host: Host, st: State, step: Step, a: Address)
    requires ValidHost(host) && LegalStep(step) && Frozen(host, st, a)
    ensures SamePackage(st, StepState(host, st, step), a) && Frozen(host, StepState(host, st, step), a)
  {
    hide StepState, Judge, WellFormed, Preimage, Process, Reserved, ValidHost;
    var s := StepState(host, st, step);
    StepOnPackage(host, st, step, a);
    if !SamePackage(st, s, a) {
      AcceptedModule(host, st, step.req, step.req.modules[|step.req.modules| - 1]);
      assert false;
    }
    SamePackageKeys(st, s, a);
  }

  /** Once a package is immutable or under governance, no run changes any of its keys. */
  lemma {:induction false} FrozenForever(host: Host, st: State, steps: seq<Step>, a: Address)
    requires ValidHost(host) && forall i :: 0 <= i < |steps| ==> LegalStep(steps[i])
    requires Frozen(host, st, a)
    ensures SamePackage(st, Run(host, st, steps), a)
    decreases |steps|
  {
    hide ValidHost, LegalStep, Frozen, StepState, Reserved, Get;
    if steps != [] {
      FrozenStep(host, st, steps[0], a);
      FrozenForever(host, StepState(host, st, steps[0]), steps[1..], a);
    }
  }

  /** A publish by anyone leaves every key of a frozen package's address as it was. */
  lemma FrozenAddressUntouched(host: Host, st: State, req: ModulePublish, a: Address, key: Bytes)
    requires ValidHost(host) && Frozen(host, st, a)
    ensures Get(StepState(host, st, PublishStep(req)), a, key) == Get(st, a, key)
  {
    hide ValidHost, Reserved, StepState, Get;
    FrozenStep(host, st, PublishStep(req), a);
    PublishTouchesOnlySender(host, st, req);
  }

  /** A package that tracks a real ABI hash. */
  ghost predicate TracksAbi(host: Host, st: State, a: Address, h: HashValue) {
    HasModule(st, a) && StoredMetadata(host, st, a).Some? && AbiHashAt(host, st, a) == h != ZeroHash()
  }

  lemma StepKeepsAbiHash(host: Host, st: State, step: Step, a: Address, h: HashValue)
    requires ValidHost(host) && LegalStep(step) && TracksAbi(host, st, a, h)
    ensures TracksAbi(host, StepState(host, st, step), a, h)
  {
    hide StepState, Judge, WellFormed, Preimage, Process, Reserved;
    var s := StepState(host, st, step);
    StepOnPackage(host, st, step, a);
    if SamePackage(st, s, a) {
      SamePackageKeys(st, s, a);
    } else {
      AcceptedModule(host, st, step.req, step.req.modules[|step.req.modules| - 1]);
    }
  }

  /** A stored non-zero ABI hash never changes again, whatever bundles follow. */
  lemma {:induction false} AbiHashForever(host: Host, st: State, steps: seq<Step>, a: Address, h: HashValue)
    requires ValidHost(host) && forall i :: 0 <= i < |steps| ==> LegalStep(steps[i])
    requires TracksAbi(host, st, a, h)
    ensures TracksAbi(host, Run(host, st, steps), a, h)
    decreases |steps|
  {
    hide ValidHost, LegalStep, TracksAbi, StepState;
    if steps != [] {
      StepKeepsAbiHash(host, st, steps[0], a, h);
      AbiHashForever(host, StepState(host, st, steps[0]), steps[1..], a, h);
    }
  }

  // ---- What the policies mean for callers ----

  ghost function CodeAt(host: Host, st: State, a: Address): CompiledModule
    requires ValidHost(host) && HasModule(st, a) && DescribesCode(host, st, a)
    ensures WellFormed(CodeAt(host, st, a))
  {
    host.deserialize(st[(a, CODE)]).value
  }

  /**
   Over any run, the module under the legacy `code` key of a package that tracks an ABI hash keeps
   its public surface for ever, unless BLAKE3 collides on the two preimages at hand. Modules that
   are found by name can do otherwise: see `PublishNames`.
   */
  lemma PublicSurfaceForever(host: Host, before: seq<Step>, after: seq<Step>, a: Address)
    requires ValidHost(host)
    requires forall i :: 0 <= i < |before| ==> LegalStep(before[i])
    requires forall i :: 0 <= i < |after| ==> LegalStep(after[i])
    requires HasModule(Run(host, map[], before), a)
    requires AbiHashAt(host, Run(host, map[], before), a) != ZeroHash()
    ensures var st := Run(host, map[], before);
      var s := Run(host, st, after);
      && DescribesCode(host, st, a) && HasModule(s, a) && DescribesCode(host, s, a)
      && var m, n := CodeAt(host, st, a), CodeAt(host, s, a);
      || PublicSurface(m) == PublicSurface(n)
      || Collide(host.blake3, Preimage(m), Preimage(n))
  {
    hide Run, LegalStep, WellFormed, Preimage, PublicSurface, ZeroHash, ValidHost;
    var st := Run(host, map[], before);
    var s := Run(host, st, after);
    CodeHasMetadataInEveryRun(host, before, a);
    RunKeepsDescription(host, st, after, a);
    AbiHashForever(host, st, after, a, AbiHashAt(host, st, a));
    PreimageIffSurface(CodeAt(host, st, a), CodeAt(host, s, a));
  }

  // ---- Code is never removed ----

  lemma StepKeepsLookup(host: Host, st: State, step: Step, a: Address, name: Bytes)
    requires ValidHost(host) && LegalStep(step) && GetModuleByName(st, a, name).Some?
    ensures GetModuleByName(StepState(host, st, step), a, name).Some?
  {
    hide StepState, Judge, ValidHost, ModuleCodeKey, LastNamed;
    var s := StepState(host, st, step);
    StepOnPackage(host, st, step, a);
    if SamePackage(st, s, a) {
      SamePackageKeys(st, s, a);
      KeysApart(name, name);
    }
  }

  /**
   Code is never removed: a lookup that finds something goes on finding something. By the fallback
   to the legacy key that need not be a module of the wanted name: see `PublishNames`.
   */
  lemma {:induction false} LookupForever(host: Host, st: State, steps: seq<Step>, a: Address, name: Bytes)
    requires ValidHost(host) && forall i :: 0 <= i < |steps| ==> LegalStep(steps[i])
    requires GetModuleByName(st, a, name).Some?
    ensures GetModuleByName(Run(host, st, steps), a, name).Some?
    decreases |steps|
  {
    hide ValidHost, LegalStep, GetModuleByName, StepState;
    if steps != [] {
      StepKeepsLookup(host, st, steps[0], a, name);
      LookupForever(host, StepState(host, st, steps[0]), steps[1..], a, name);
    }
  }

  // ---- Redeploying a bundle ----

  lemma {:induction false} GoingIffAllAccepted(host: Host, st: State, req: ModulePublish, n: nat)
    requires ValidHost(host) && n <= |req.modules|
    ensures Process(host, st, req, n).Going? <==>
      forall i :: 0 <= i < n ==> Judge(host, st, req, req.modules[i]).Accepted?
  {
    hide ValidHost, Judge, ModuleChanges, Process;
    if n == 0 {
      ProcessNothing(host, st, req);
    } else {
      ProcessStep(host, st, req, n);
      GoingIffAllAccepted(host, st, req, n - 1);
    }
  }

  /** A dependency that was found before a publish is found after it. */
  lemma StillNotMissing(host: Host, st: State, req: ModulePublish, sender: Address, deps: seq<(Address, Bytes)>)
    requires ValidHost(host) && !SomeMissing(host, st, sender, deps)
    ensures !SomeMissing(host, StepState(host, st, PublishStep(req)), sender, deps)
  {
    hide ValidHost, StepState, GetModuleByName;
    var s := StepState(host, st, PublishStep(req));
    forall d | d in deps ensures !DependencyMissing(host, s, sender, d) {
      assert !DependencyMissing(host, st, sender, d);
      if GetModuleByName(st, d.0, d.1).Some? { StepKeepsLookup(host, st, PublishStep(req), d.0, d.1); }
    }
  }

  ghost predicate Succeeds(host: Host, st: State, req: ModulePublish)
    requires ValidHost(host)
  {
    Publish(host, st, req).Ok? && Publish(host, st, req).value.status.Success?
  }

  lemma SucceedsIffGoing(host: Host, st: State, req: ModulePublish)
    requires ValidHost(host)
    ensures Succeeds(host, st, req) <==> Process(host, st, req, |req.modules|).Going?
  {
    hide ValidHost, LastWrites;
    if Process(host, st, req, |req.modules|).Stopped? { StoppedPublish(host, st, req, |req.modules|); }
  }

  /** The upgrade check turns some module of the bundle away: the guard of the abort branches. */
  ghost predicate SomeTurnedAway(host: Host, st: State, req: ModulePublish, n: nat)
    requires ValidHost(host) && n <= |req.modules|
  {
    exists i :: 0 <= i < n && TurnedAway(host, st, req.modules[i])
  }

  ghost predicate TurnedAway(host: Host, st: State, bytes: Bytes)
    requires ValidHost(host)
  {
    host.deserialize(bytes).Some? && !UpgradeAllowed(host, st, host.deserialize(bytes).value)
  }

  /**
   A module may go to an address without code. To one with code it may go when the stored metadata
   say so: a `Compatible` policy, and an ABI hash that is zero or that of the module.
   */
  ghost predicate UpgradeAllowed(host: Host, st: State, m: CompiledModule)
    requires InBounds(m)
  {
    || (m.address, CODE) !in st
    || (&& (m.address, METADATA) in st && host.decode(st[(m.address, METADATA)]).Some?
        && var stored := host.decode(st[(m.address, METADATA)]).value;
        && stored.upgradePolicy == Compatible
        && (stored.abiHash == ZeroHash() || stored.abiHash == host.blake3(Preimage(m))))
  }

  /** Why an upgrade is refused: 20 for an immutable package, 21 under governance, 22 for another ABI. */
  ghost function RefusalCode(host: Host, st: State, a: Address): u64 {
    if (a, METADATA) !in st then 20 else
    match host.decode(st[(a, METADATA)])
    case None => 20
    case Some(stored) =>
      if stored.upgradePolicy == Immutable then 20 else if stored.upgradePolicy == GovernanceOnly then 21 else 22
  }

  lemma DeserializedInBounds(host: Host, bytes: Bytes)
    requires ValidHost(host)
    ensures host.deserialize(bytes).Some? ==> InBounds(host.deserialize(bytes).value)
  {
  }

  lemma UpgradeCheckIs(host: Host, st: State, m: CompiledModule)
    requires InBounds(m)
    ensures UpgradeAbort(host, st, m) ==
      if UpgradeAllowed(host, st, m) then None else Some(RefusalCode(host, st, m.address))
  {
    hide Preimage, ZeroHash;
  }

  /**
   A dependency passes when it is the sender's own or the framework's, or when its address has code
   under the legacy key or under its own name.
   */
  ghost predicate DependencyMet(st: State, sender: Address, dep: (Address, Bytes)) {
    || dep.0 == sender || dep.0 == Framework()
    || (dep.0, CODE) in st || (dep.0, CODE_PREFIX + dep.1) in st
  }

  lemma DependencyCheckIs(host: Host, st: State, sender: Address, deps: seq<(Address, Bytes)>)
    ensures SomeMissing(host, st, sender, deps) <==> exists dep :: dep in deps && !DependencyMet(st, sender, dep)
  {
    hide Framework;
    forall dep ensures DependencyMissing(host, st, sender, dep) <==> !DependencyMet(st, sender, dep) {}
  }

  /** What is recorded about a module, field by field. */
  ghost predicate Describes(host: Host, req: ModulePublish, m: CompiledModule, bytes: Bytes, meta: PackageMetadata)
    requires InBounds(m)
  {
    && meta.name == m.name && meta.packageHash == host.blake3(bytes)
    && meta.namedAddresses == [(m.name, m.address)] && meta.moduleHashes == [(m.name, host.blake3(bytes))]
    && meta.abiHash == host.blake3(Preimage(m))
    && (match req.upgradePolicy case Some(asked) => meta.upgradePolicy == asked case None => meta.upgradePolicy == Immutable)
    && meta.deployer == req.sender && meta.version == 1
  }

  lemma MetadataIs(host: Host, req: ModulePublish, m: CompiledModule, bytes: Bytes, meta: PackageMetadata)
    requires InBounds(m)
    ensures Describes(host, req, m, bytes, meta) <==> meta == MetadataFor(host, req, m, bytes)
  {
    hide Preimage;
  }

  /** What a successful bundle leaves as metadata: those of its last module. */
  lemma MetadataAfterPublish(host: Host, st: State, req: ModulePublish)
    requires ValidHost(host) && req.modules != [] && Succeeds(host, st, req)
    ensures var bytes := req.modules[|req.modules| - 1];
      var stored := StoredMetadata(host, StepState(host, st, PublishStep(req)), req.sender);
      && stored.Some? && host.deserialize(bytes).Some?
      && Describes(host, req, host.deserialize(bytes).value, bytes, stored.value)
  {
    hide StepState, Judge, WellFormed, Preimage, Describes, MetadataFor, NamesStored, OnlyPackageOf;
    PublishChanges(host, st, req);
    var bytes := req.modules[|req.modules| - 1];
    DeserializedInBounds(host, bytes);
    AcceptedModule(host, st, req, bytes);
    var m := host.deserialize(bytes).value;
    MetadataIs(host, req, m, bytes, MetadataFor(host, req, m, bytes));
  }

  lemma VerdictOnUpgrade(host: Host, st: State, req: ModulePublish, bytes: Bytes)
    requires ValidHost(host)
    ensures Judge(host, st, req, bytes).Aborted? ==> TurnedAway(host, st, bytes)
    ensures Judge(host, st, req, bytes).Accepted? ==> !TurnedAway(host, st, bytes)
  {
    hide WellFormed, UpgradeAbort, UpgradeAllowed, SomeMissing, MetadataFor;
    DeserializedInBounds(host, bytes);
    if host.deserialize(bytes).Some? { UpgradeCheckIs(host, st, host.deserialize(bytes).value); }
  }

  lemma {:induction false} StoppedByUpgrade(host: Host, st: State, req: ModulePublish, n: nat)
    requires ValidHost(host) && n <= |req.modules|
    requires Process(host, st, req, n).Stopped? && Process(host, st, req, n).outcome.Ok?
    ensures SomeTurnedAway(host, st, req, n)
  {
    hide ValidHost, Judge, TurnedAway, ModuleChanges;
    if Process(host, st, req, n - 1).Stopped? {
      StoppedByUpgrade(host, st, req, n - 1);
    } else {
      VerdictOnUpgrade(host, st, req, req.modules[n - 1]);
    }
  }

  /** An outcome is a success exactly when the upgrade check turns no module away. */
  lemma SuccessIffNoneTurnedAway(host: Host, st: State, req: ModulePublish)
    requires ValidHost(host) && Publish(host, st, req).Ok?
    ensures Succeeds(host, st, req) <==> !SomeTurnedAway(host, st, req, |req.modules|)
  {
    hide ValidHost, Judge, TurnedAway, ModuleChanges, Process, LastWrites;
    SucceedsIffGoing(host, st, req);
    GoingIffAllAccepted(host, st, req, |req.modules|);
    if Process(host, st, req, |req.modules|).Stopped? {
      StoppedByUpgrade(host, st, req, |req.modules|);
    }
    forall i | 0 <= i < |req.modules| && Judge(host, st, req, req.modules[i]).Accepted?
      ensures !TurnedAway(host, st, req.modules[i])
    {
      VerdictOnUpgrade(host, st, req, req.modules[i]);
    }
  }

  /**
   A publish that the upgrade check turns away is charged the base fee without regard to the
   limit. So the reported gas stays within the limit exactly when the limit covers that fee or
   no module is turned away.
   */
  lemma PublishGasWithinLimit(host: Host, st: State, req: ModulePublish)
    requires ValidHost(host) && Publish(host, st, req).Ok?
    ensures Publish(host, st, req).value.gasUsed <= req.gasLimit <==>
      host.schedule.publishBase <= req.gasLimit || !SomeTurnedAway(host, st, req, |req.modules|)
  {
    hide ValidHost, SomeTurnedAway;
    SuccessIffNoneTurnedAway(host, st, req);
    if Process(host, st, req, |req.modules|).Stopped? { StoppedPublish(host, st, req, |req.modules|); }
  }

  /** A module of the sender that the verifier accepts and whose metadata can be written. */
  ghost predicate Sound(host: Host, req: ModulePublish, bytes: Bytes)
    requires ValidHost(host)
  {
    && host.deserialize(bytes).Some?
    && var m := host.deserialize(bytes).value;
    && m.address == req.sender && host.verify(m)
    && exists meta :: Describes(host, req, m, bytes, meta) && host.encode(meta).Some?
  }

  // ---- The gas of a success ----

  /** The bytes that the first `n` modules write: the four keys, the code twice, its hash, the metadata. */
  ghost function WrittenBytes(host: Host, req: ModulePublish, n: nat): nat
    requires ValidHost(host) && n <= |req.modules|
  {
    if n == 0 then 0 else WrittenBytes(host, req, n - 1) + ModuleFootprint(host, req, req.modules[n - 1])
  }

  ghost function ModuleFootprint(host: Host, req: ModulePublish, bytes: Bytes): nat
    requires ValidHost(host)
  {
    if host.deserialize(bytes).None? then 0 else
    var m := host.deserialize(bytes).value;
    var metadata := host.encode(MetadataFor(host, req, m, bytes));
    |"code::"| + |m.name| + |bytes| + |"code"| + |bytes| + |"code_hash"| + 32
      + |"package_metadata"| + if metadata.Some? then |metadata.value| else 0
  }

  lemma ChangeBytesStep(changes: seq<StateChange>, c: StateChange)
    ensures TotalChangeBytes(changes + [c]) == TotalChangeBytes(changes) + |c.key| + ValueLength(c)
  {
    assert (changes + [c])[..|changes|] == changes;
  }

  lemma ModuleChangeBytes(host: Host, changes: seq<StateChange>, m: CompiledModule, bytes: Bytes, metadata: Bytes)
    ensures TotalChangeBytes(changes + ModuleChanges(host, m, bytes, metadata)) ==
      TotalChangeBytes(changes) + 67 + |m.name| + 2 * |bytes| + |metadata|
  {
    hide TotalChangeBytes;
    var cs := ModuleChanges(host, m, bytes, metadata);
    ChangeBytesStep(changes, cs[0]);
    ChangeBytesStep(changes + [cs[0]], cs[1]);
    ChangeBytesStep(changes + [cs[0]] + [cs[1]], cs[2]);
    ChangeBytesStep(changes + [cs[0]] + [cs[1]] + [cs[2]], cs[3]);
    assert changes + cs == changes + [cs[0]] + [cs[1]] + [cs[2]] + [cs[3]];
  }

  lemma {:induction false} ProcessWrites(host: Host, st: State, req: ModulePublish, n: nat)
    requires ValidHost(host) && n <= |req.modules|
    ensures var p := Process(host, st, req, n);
      p.Going? ==> TotalChangeBytes(p.changes) == WrittenBytes(host, req, n)
  {
    hide ValidHost, Judge, ModuleChanges, Process, MetadataFor, TotalChangeBytes, WellFormed;
    if n == 0 {
      ProcessNothing(host, st, req);
      assert TotalChangeBytes([]) == 0 by { NoChangeBytes(); }
    } else if Process(host, st, req, n).Going? {
      ProcessStep(host, st, req, n);
      ProcessWrites(host, st, req, n - 1);
      var bytes := req.modules[n - 1];
      var v := Judge(host, st, req, bytes);
      AcceptedModule(host, st, req, bytes);
      ModuleChangeBytes(host, Process(host, st, req, n - 1).changes, v.m, bytes, v.metadata);
    }
  }

  lemma NoChangeBytes()
    ensures TotalChangeBytes([]) == 0
  {
  }

  /**
   A successful publish costs the base fee, the bundle's bytes and the written bytes, each at its
   rate and as true numbers, or the limit if that is less.
   */
  lemma PublishGasExact(host: Host, st: State, req: ModulePublish)
    requires ValidHost(host) && Succeeds(host, st, req)
    ensures var cost := host.schedule.publishBase + TotalLength(req.modules) * host.schedule.publishPerByte
        + WrittenBytes(host, req, |req.modules|) * host.schedule.writePerByte;
      Publish(host, st, req).value.gasUsed == if cost <= req.gasLimit then cost else req.gasLimit
  {
    hide *;
    ProcessWrites(host, st, req, |req.modules|);
    PublishEstimateExact(host.schedule, req.modules, GoingChanges(host, st, req));
    ClampedCost(
      host.schedule.publishBase + TotalLength(req.modules) * host.schedule.publishPerByte
        + WrittenBytes(host, req, |req.modules|) * host.schedule.writePerByte,
      req.gasLimit);
  }

  /** The changes of a bundle that goes through. */
  ghost function GoingChanges(host: Host, st: State, req: ModulePublish): (changes: seq<StateChange>)
    requires ValidHost(host) && Succeeds(host, st, req)
    ensures Process(host, st, req, |req.modules|) == Going(changes)
    ensures Publish(host, st, req).value.gasUsed
         == Min64(EstimatePublishGas(host.schedule, req.modules, changes), req.gasLimit)
  {
    hide ValidHost, LastWrites, EstimatePublishGas;
    SucceedsIffGoing(host, st, req);
    Process(host, st, req, |req.modules|).changes
  }

  lemma ClampedCost(cost: nat, limit: u64)
    ensures Min64(Sat(cost), limit) == if cost <= limit then cost else limit
  {
  }

  // ---- What is asked of a bundle ----

  /** All that is asked of a module by itself. */
  ghost predicate Acceptable(host: Host, st: State, req: ModulePublish, bytes: Bytes)
    requires ValidHost(host)
  {
    Sound(host, req, bytes) && UpgradeAllowed(host, st, host.deserialize(bytes).value)
  }

  /** All dependencies of a module pass. */
  ghost predicate DependenciesMet(host: Host, st: State, req: ModulePublish, bytes: Bytes) {
    host.deserialize(bytes).Some? ==>
      forall dep :: dep in host.deserialize(bytes).value.dependencies ==> DependencyMet(st, req.sender, dep)
  }

  /** Every dependency of a module is the sender's own, the framework's, or at an address with code. */
  ghost predicate DependenciesCoded(host: Host, st: State, req: ModulePublish, bytes: Bytes) {
    host.deserialize(bytes).Some? ==>
      forall dep :: dep in host.deserialize(bytes).value.dependencies ==>
        dep.0 == req.sender || dep.0 == Framework() || (dep.0, CODE) in st
  }

  lemma AcceptedIffAcceptable(host: Host, st: State, req: ModulePublish, bytes: Bytes)
    requires ValidHost(host)
    ensures Judge(host, st, req, bytes).Accepted? <==>
      Acceptable(host, st, req, bytes) && DependenciesMet(host, st, req, bytes)
  {
    hide WellFormed, UpgradeAbort, UpgradeAllowed, SomeMissing, DependencyMet, MetadataFor, Describes;
    DeserializedInBounds(host, bytes);
    if host.deserialize(bytes).Some? {
      var m := host.deserialize(bytes).value;
      UpgradeCheckIs(host, st, m);
      DependencyCheckIs(host, st, req.sender, m.dependencies);
      forall meta ensures Describes(host, req, m, bytes, meta) <==> meta == MetadataFor(host, req, m, bytes) {
        MetadataIs(host, req, m, bytes, meta);
      }
    }
  }

  /**
   A bundle succeeds exactly when every module is acceptable to the state before the bundle and its
   dependencies pass there.
   */
  lemma SucceedsIffAllAcceptable(host: Host, st: State, req: ModulePublish)
    requires ValidHost(host)
    ensures Succeeds(host, st, req) <==>
      forall i :: 0 <= i < |req.modules| ==>
        Acceptable(host, st, req, req.modules[i]) && DependenciesMet(host, st, req, req.modules[i])
  {
    hide ValidHost, Judge, Acceptable, DependenciesMet, Process, Succeeds;
    SucceedsIffGoing(host, st, req);
    GoingIffAllAccepted(host, st, req, |req.modules|);
    forall i | 0 <= i < |req.modules|
      ensures Judge(host, st, req, req.modules[i]).Accepted? <==>
        Acceptable(host, st, req, req.modules[i]) && DependenciesMet(host, st, req, req.modules[i])
    {
      AcceptedIffAcceptable(host, st, req, req.modules[i]);
    }
  }

  /** The modules of a first bundle may depend on each other: at an address without code they all pass. */
  lemma FirstBundleSucceeds(host: Host, st: State, req: ModulePublish)
    requires ValidHost(host) && (req.sender, CODE) !in st
    requires forall i :: 0 <= i < |req.modules| ==> Sound(host, req, req.modules[i])
    requires forall i :: 0 <= i < |req.modules| ==> DependenciesCoded(host, st, req, req.modules[i])
    ensures Succeeds(host, st, req)
  {
    hide ValidHost, Describes, Succeeds, Framework, WellFormed;
    SucceedsIffAllAcceptable(host, st, req);
    forall i | 0 <= i < |req.modules| ensures Acceptable(host, st, req, req.modules[i]) {
      DeserializedInBounds(host, req.modules[i]);
    }
  }

  lemma ProcessObjection(host: Host, st: State, req: ModulePublish, k: nat)
    requires ValidHost(host) && k < |req.modules|
    ensures var v := Judge(host, st, req, req.modules[k]);
      Process(host, st, req, k).Going? && !v.Accepted? ==>
        Process(host, st, req, k + 1) == Stopped(if v.Rejected? then Err(v.error) else Ok(Turned(host, v.code)))
  {
    hide ValidHost, Judge, ModuleChanges;
  }

  /** What a bundle comes to when a module is the first one that does not pass: the checks in order. */
  ghost function ObjectionTo(host: Host, st: State, req: ModulePublish, bytes: Bytes): Outcome
    requires ValidHost(host)
  {
    match host.deserialize(bytes)
    case None => Err(DeserializationFailed)
    case Some(m) =>
      if m.address != req.sender then Err(AddressMismatch)
      else if !UpgradeAllowed(host, st, m) then
        Ok(VmOutput(MoveAbort(Ascii("nexus::publish"), RefusalCode(host, st, req.sender)),
                    host.schedule.publishBase, [], map[], [], []))
      else if !host.verify(m) then Err(VerificationFailed)
      else if exists dep :: dep in m.dependencies && !DependencyMet(st, req.sender, dep) then Err(MissingDependency)
      else Err(EncodingFailed)
  }

  lemma ObjectionIs(host: Host, st: State, req: ModulePublish, bytes: Bytes)
    requires ValidHost(host)
    ensures var v := Judge(host, st, req, bytes);
      !v.Accepted? ==>
        ObjectionTo(host, st, req, bytes) == if v.Rejected? then Err(v.error) else Ok(Turned(host, v.code))
  {
    hide WellFormed, UpgradeAbort, UpgradeAllowed, SomeMissing, DependencyMet, MetadataFor, RefusalCode;
    assert PUBLISH == Ascii("nexus::publish");
    DeserializedInBounds(host, bytes);
    if host.deserialize(bytes).Some? {
      var m := host.deserialize(bytes).value;
      UpgradeCheckIs(host, st, m);
      DependencyCheckIs(host, st, req.sender, m.dependencies);
    }
  }

  /** Otherwise the first module that does not pass decides the outcome of the whole bundle. */
  lemma FirstObjectionDecides(host: Host, st: State, req: ModulePublish, k: nat)
    requires ValidHost(host) && k < |req.modules|
    requires !Acceptable(host, st, req, req.modules[k]) || !DependenciesMet(host, st, req, req.modules[k])
    requires forall i :: 0 <= i < k ==>
      Acceptable(host, st, req, req.modules[i]) && DependenciesMet(host, st, req, req.modules[i])
    ensures Publish(host, st, req) == ObjectionTo(host, st, req, req.modules[k])
  {
    hide ValidHost, Judge, Acceptable, DependenciesMet, Process, ObjectionTo, Turned;
    forall i | 0 <= i <= k
      ensures Judge(host, st, req, req.modules[i]).Accepted? <==>
        Acceptable(host, st, req, req.modules[i]) && DependenciesMet(host, st, req, req.modules[i])
    {
      AcceptedIffAcceptable(host, st, req, req.modules[i]);
    }
    GoingIffAllAccepted(host, st, req, k);
    ProcessObjection(host, st, req, k);
    StopIsFinal(host, st, req, k + 1, |req.modules|);
    ObjectionIs(host, st, req, req.modules[k]);
  }

  /** The ABI hash of a module that has been accepted once. */
  ghost function HashOf(host: Host, bytes: Bytes): HashValue
    requires ValidHost(host)
  {
    if host.deserialize(bytes).Some? then AbiHash(host, host.deserialize(bytes).value) else ZeroHash()
  }

  /** On the second round only the ABI check can still object. */
  lemma SecondVerdict(host: Host, st: State, req: ModulePublish, bytes: Bytes)
    requires ValidHost(host) && req.modules != [] && req.upgradePolicy == Some(Compatible)
    ensures var s := StepState(host, st, PublishStep(req));
      var h := HashOf(host, req.modules[|req.modules| - 1]);
      Judge(host, st, req, bytes).Accepted? && Succeeds(host, st, req) ==>
        (Judge(host, s, req, bytes) ==
          if h != ZeroHash() && HashOf(host, bytes) != h then Aborted(ABI_INCOMPATIBLE)
          else Judge(host, st, req, bytes))
  {
    hide StepState, WellFormed, Preimage, SomeMissing, ZeroHash;
    var s := StepState(host, st, PublishStep(req));
    if Judge(host, st, req, bytes).Accepted? && Succeeds(host, st, req) {
      PublishChanges(host, st, req);
      AcceptedModule(host, st, req, req.modules[|req.modules| - 1]);
      AcceptedModule(host, st, req, bytes);
      StillNotMissing(host, st, req, req.sender, host.deserialize(bytes).value.dependencies);
    }
  }

  /** A successful publish leaves the policy it asked for, immutable unless it asked. */
  lemma PolicyAsRequested(host: Host, st: State, req: ModulePublish)
    requires ValidHost(host) && req.modules != []
    ensures Succeeds(host, st, req) ==>
      PolicyAt(host, StepState(host, st, PublishStep(req)), req.sender) ==
        if req.upgradePolicy.Some? then req.upgradePolicy.value else Immutable
  {
    hide StepState, Judge, WellFormed, Preimage, Process;
    if Succeeds(host, st, req) {
      PublishChanges(host, st, req);
      AcceptedModule(host, st, req, req.modules[|req.modules| - 1]);
    }
  }

  /**
   Publishing a `Compatible` bundle a second time succeeds exactly when all its modules have the
   ABI hash of the last one, or that hash is the zero marker: every module is compared with the
   one stored hash. Otherwise the second publish aborts with the incompatibility code.
   */
  lemma RedeployIffOneAbi(host: Host, st: State, req: ModulePublish)
    requires ValidHost(host) && req.modules != []
    requires Succeeds(host, st, req) && req.upgradePolicy == Some(Compatible)
    ensures var s := StepState(host, st, PublishStep(req));
      var h := HashOf(host, req.modules[|req.modules| - 1]);
      && (Succeeds(host, s, req) <==>
            h == ZeroHash() || forall i :: 0 <= i < |req.modules| ==> HashOf(host, req.modules[i]) == h)
      && (!Succeeds(host, s, req) ==>
            Publish(host, s, req) == Ok(Turned(host, ABI_INCOMPATIBLE)))
  {
    hide ValidHost, StepState, Judge, Publish, HashOf, ZeroHash;
    var s := StepState(host, st, PublishStep(req));
    SucceedsIffGoing(host, st, req);
    SucceedsIffGoing(host, s, req);
    GoingIffAllAccepted(host, st, req, |req.modules|);
    GoingIffAllAccepted(host, s, req, |req.modules|);
    forall i | 0 <= i < |req.modules|
      ensures Judge(host, s, req, req.modules[i]) ==
        if HashOf(host, req.modules[|req.modules| - 1]) != ZeroHash()
           && HashOf(host, req.modules[i]) != HashOf(host, req.modules[|req.modules| - 1])
        then Aborted(ABI_INCOMPATIBLE) else Judge(host, st, req, req.modules[i])
    {
      SecondVerdict(host, st, req, req.modules[i]);
    }
    if !Succeeds(host, s, req) { StopsIncompatible(host, s, req, |req.modules|); }
  }

  lemma {:induction false} StopsIncompatible(host: Host, st: State, req: ModulePublish, n: nat)
    requires ValidHost(host) && n <= |req.modules| && Process(host, st, req, n).Stopped?
    requires forall i :: 0 <= i < n ==>
      var v := Judge(host, st, req, req.modules[i]); v.Accepted? || v == Aborted(ABI_INCOMPATIBLE)
    ensures var o := Process(host, st, req, n).outcome;
      o == Ok(Turned(host, ABI_INCOMPATIBLE))
    ensures n == |req.modules| ==> Publish(host, st, req) == Process(host, st, req, n).outcome
  {
    hide ValidHost, Judge;
    if Process(host, st, req, n - 1).Stopped? { StopsIncompatible(host, st, req, n - 1); }
  }
}
