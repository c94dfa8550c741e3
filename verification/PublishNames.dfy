/**
 Modules that are found by name, over whole runs. A package stores one ABI hash, and the
 upgrade check compares every module of a bundle with that one hash. The module that is
 stored under a name is not looked at.
 */
module PublishNames {
  import opened Base
  import opened AbiModule
  import opened AbiResolved
  import opened StateChanges
  import opened Publishing
  import opened PublishRuns

  // ---- One step ----

  /** The last module of a name is one of the modules, and it has that name. */
  lemma {:induction false} LastNamedIs(host: Host, modules: seq<Bytes>, n: nat, name: Bytes)
    requires n <= |modules|
    ensures var own := LastNamed(host, modules, n, name);
      own.Some? ==>
        && own.value in modules[..n]
        && host.deserialize(own.value).Some? && host.deserialize(own.value).value.name == name
  {
    if n > 0 { LastNamedIs(host, modules, n - 1, name); }
  }

  /** An entry that a bundle by its owner has just written, past the upgrade check. */
  ghost predicate NewEntry(host: Host, st: State, a: Address, name: Bytes, bytes: Bytes)
    requires ValidHost(host)
  {
    && host.deserialize(bytes).Some?
    && var m := host.deserialize(bytes).value;
      m.name == name && m.address == a && UpgradeAbort(host, st, m).None?
  }

  /** The last module of a name in a successful bundle. */
  lemma BundleEntry(host: Host, st: State, req: ModulePublish, name: Bytes)
    requires ValidHost(host) && Succeeds(host, st, req)
    ensures var own := LastNamed(host, req.modules, |req.modules|, name);
      own.Some? ==> NewEntry(host, st, req.sender, name, own.value)
  {
    hide ValidHost, Judge, LastNamed, Succeeds, WellFormed, UpgradeAbort;
    LastNamedIs(host, req.modules, |req.modules|, name);
    SucceedsIffGoing(host, st, req);
    GoingIffAllAccepted(host, st, req, |req.modules|);
    var own := LastNamed(host, req.modules, |req.modules|, name);
    if own.Some? {
      var i :| 0 <= i < |req.modules| && req.modules[i] == own.value;
      AcceptedModule(host, st, req, own.value);
    }
  }

  /** A publish that does not succeed changes nothing. */
  lemma OnlySuccessChanges(host: Host, st: State, req: ModulePublish)
    requires ValidHost(host) && !Succeeds(host, st, req)
    ensures StepState(host, st, PublishStep(req)) == st
  {
    hide ValidHost, LastWrites;
    if Process(host, st, req, |req.modules|).Stopped? {
      StoppedPublish(host, st, req, |req.modules|);
      NothingReplayed(st);
    }
  }

  /** A step leaves the entry of a name alone, or puts a module there that has passed the checks. */
  lemma StepOnName(host: Host, st: State, step: Step, a: Address, name: Bytes)
    requires ValidHost(host) && LegalStep(step)
    ensures var entry := Get(StepState(host, st, step), a, ModuleCodeKey(name));
      || entry == Get(st, a, ModuleCodeKey(name))
      || (entry.Some? && NewEntry(host, st, a, name, entry.value))
  {
    hide ValidHost, StepState, Judge, ModuleCodeKey, LastNamed, NewEntry, Get, Succeeds, Reserved;
    KeysApart(name, name);
    match step {
      case PublishStep(req) =>
        PublishTouchesOnlySender(host, st, req);
        if Succeeds(host, st, req) {
          SucceededBundle(host, st, req);
          BundleEntry(host, st, req, name);
        } else {
          OnlySuccessChanges(host, st, req);
        }
      case ResourceStep(changes) =>
        StepOnPackage(host, st, step, a);
    }
  }

  lemma SucceededBundle(host: Host, st: State, req: ModulePublish)
    requires ValidHost(host) && Succeeds(host, st, req)
    ensures BundleStored(host, st, req, |req.modules|, StepState(host, st, PublishStep(req)))
  {
    hide ValidHost, BundleStored, StepState;
    PublishChanges(host, st, req);
  }

  /** Where a package tracks an ABI hash, whatever passes the upgrade check has that hash. */
  lemma NewEntryHasTrackedHash(host: Host, st: State, a: Address, name: Bytes, bytes: Bytes, h: HashValue)
    requires ValidHost(host) && TracksAbi(host, st, a, h)
    ensures NewEntry(host, st, a, name, bytes) ==> HashOf(host, bytes) == h
  {
    hide WellFormed, Preimage, ZeroHash;
  }

  // ---- Whole runs ----

  /** Every entry under a name is a module of that address and name. */
  ghost predicate NameDescribed(host: Host, st: State, a: Address, name: Bytes) {
    var entry := Get(st, a, ModuleCodeKey(name));
    entry.Some? ==>
      && host.deserialize(entry.value).Some?
      && host.deserialize(entry.value).value.address == a && host.deserialize(entry.value).value.name == name
  }

  /** In every run, what is stored under a name is a module of that name and address. */
  lemma {:induction false} RunKeepsNames(host: Host, st: State, steps: seq<Step>, a: Address, name: Bytes)
    requires ValidHost(host) && (forall i :: 0 <= i < |steps| ==> LegalStep(steps[i]))
    requires NameDescribed(host, st, a, name)
    ensures NameDescribed(host, Run(host, st, steps), a, name)
    decreases |steps|
  {
    hide ValidHost, LegalStep, StepState, ModuleCodeKey, Get, WellFormed;
    if steps != [] {
      StepOnName(host, st, steps[0], a, name);
      RunKeepsNames(host, StepState(host, st, steps[0]), steps[1..], a, name);
    }
  }

  /** An entry was there all along, or it has the tracked ABI hash. */
  lemma {:induction false} EntryForever(
    host: Host, st: State, steps: seq<Step>, a: Address, name: Bytes, h: HashValue)
    requires ValidHost(host) && forall i :: 0 <= i < |steps| ==> LegalStep(steps[i])
    requires TracksAbi(host, st, a, h)
    ensures var entry := Get(Run(host, st, steps), a, ModuleCodeKey(name));
      entry == Get(st, a, ModuleCodeKey(name)) || (entry.Some? && HashOf(host, entry.value) == h)
    decreases |steps|
  {
    hide ValidHost, LegalStep, StepState, ModuleCodeKey, Get, TracksAbi, HashOf, NewEntry;
    if steps != [] {
      var s := StepState(host, st, steps[0]);
      StepOnName(host, st, steps[0], a, name);
      StepKeepsAbiHash(host, st, steps[0], a, h);
      EntryForever(host, s, steps[1..], a, name, h);
      var entry := Get(s, a, ModuleCodeKey(name));
      if entry != Get(st, a, ModuleCodeKey(name)) {
        NewEntryHasTrackedHash(host, st, a, name, entry.value, h);
      }
    }
  }

  // ---- What a caller who links by name can rely on ----

  /** What a lookup by name finds at an address with code is a module. */
  ghost predicate Linkable(host: Host, st: State, a: Address, name: Bytes) {
    var found := GetModuleByName(st, a, name);
    found.Some? && host.deserialize(found.value).Some?
  }

  ghost function Linked(host: Host, st: State, a: Address, name: Bytes): (m: CompiledModule)
    requires ValidHost(host) && Linkable(host, st, a, name)
    ensures WellFormed(m)
  {
    host.deserialize(GetModuleByName(st, a, name).value).value
  }

  /** A name is linkable, and a name without an entry of its own leads to the tracked ABI hash. */
  lemma LookupDescribed(host: Host, st: State, a: Address, name: Bytes, h: HashValue)
    requires ValidHost(host) && TracksAbi(host, st, a, h)
    requires DescribesCode(host, st, a) && NameDescribed(host, st, a, name)
    ensures Linkable(host, st, a, name)
    ensures Get(st, a, ModuleCodeKey(name)).None? ==> AbiHash(host, Linked(host, st, a, name)) == h
  {
    hide WellFormed, Preimage, ZeroHash, ModuleCodeKey;
  }

  /** Two modules have one ABI hash exactly when they have one surface, or BLAKE3 collides on them. */
  lemma OneHashIffOneSurface(host: Host, m: CompiledModule, n: CompiledModule)
    requires WellFormed(m) && WellFormed(n)
    ensures AbiHash(host, m) == AbiHash(host, n) <==>
      PublicSurface(m) == PublicSurface(n) || Collide(host.blake3, Preimage(m), Preimage(n))
  {
    hide Preimage, PublicSurface, WellFormed;
    PreimageIffSurface(m, n);
  }

  /**
   Over any run of a package that tracks the ABI hash `h`: the module found under a name is still
   the one found before, or it has the hash `h`. So it keeps its public surface, or BLAKE3
   collides, exactly when the bytes did not change or the old module had the hash `h`.
   */
  lemma NamedSurfaceInEveryRun(
    host: Host, before: seq<Step>, after: seq<Step>, a: Address, name: Bytes, h: HashValue)
    requires ValidHost(host)
    requires forall i :: 0 <= i < |before| ==> LegalStep(before[i])
    requires forall i :: 0 <= i < |after| ==> LegalStep(after[i])
    requires TracksAbi(host, Run(host, map[], before), a, h)
    ensures var st := Run(host, map[], before);
      var s := Run(host, st, after);
      var same := GetModuleByName(s, a, name) == GetModuleByName(st, a, name);
      && Linkable(host, st, a, name) && Linkable(host, s, a, name)
      && var m, n := Linked(host, st, a, name), Linked(host, s, a, name);
      && (same || AbiHash(host, n) == h)
      && (PublicSurface(m) == PublicSurface(n) || Collide(host.blake3, Preimage(m), Preimage(n))
          <==> same || AbiHash(host, m) == h)
  {
    hide ValidHost, LegalStep, TracksAbi, Run, DescribesCode, WellFormed, Preimage, PublicSurface, AbiHash,
         ModuleCodeKey;
    var st := Run(host, map[], before);
    var s := Run(host, st, after);
    CodeHasMetadataInEveryRun(host, before, a);
    RunKeepsDescription(host, st, after, a);
    AbiHashForever(host, st, after, a, h);
    RunKeepsNames(host, map[], before, a, name);
    RunKeepsNames(host, st, after, a, name);
    LookupDescribed(host, st, a, name, h);
    LookupDescribed(host, s, a, name, h);
    EntryForever(host, st, after, a, name, h);
    OneHashIffOneSurface(host, Linked(host, st, a, name), Linked(host, s, a, name));
  }

  /**
   The same for one upgrade: a successful bundle that contains the name puts a module with the
   tracked hash there, so the surface under that name survives exactly when the old module had
   that hash. The stored hash and the old module can be read before the call.
   */
  lemma UpgradeKeepsNamedSurfaceIff(
    host: Host, before: seq<Step>, req: ModulePublish, name: Bytes, h: HashValue)
    requires ValidHost(host) && forall i :: 0 <= i < |before| ==> LegalStep(before[i])
    requires TracksAbi(host, Run(host, map[], before), req.sender, h)
    requires Succeeds(host, Run(host, map[], before), req)
    requires LastNamed(host, req.modules, |req.modules|, name).Some?
    ensures var st := Run(host, map[], before);
      var s := StepState(host, st, PublishStep(req));
      && Linkable(host, st, req.sender, name) && Linkable(host, s, req.sender, name)
      && var m, n := Linked(host, st, req.sender, name), Linked(host, s, req.sender, name);
      && AbiHash(host, n) == h
      && (PublicSurface(m) == PublicSurface(n) || Collide(host.blake3, Preimage(m), Preimage(n))
          <==> AbiHash(host, m) == h)
  {
    hide ValidHost, LegalStep, TracksAbi, Run, DescribesCode, WellFormed, Preimage, PublicSurface, AbiHash,
         ModuleCodeKey, LastNamed, Succeeds, StepState, OnlyPackageOf, LastModuleStored, UpgradeAbort;
    var st := Run(host, map[], before);
    CodeHasMetadataInEveryRun(host, before, req.sender);
    RunKeepsNames(host, map[], before, req.sender, name);
    LookupDescribed(host, st, req.sender, name, h);
    SucceededBundle(host, st, req);
    BundleEntry(host, st, req, name);
    var own := LastNamed(host, req.modules, |req.modules|, name).value;
    NewEntryHasTrackedHash(host, st, req.sender, name, own, h);
    var s := StepState(host, st, PublishStep(req));
    assert GetModuleByName(s, req.sender, name) == Some(own);
    OneHashIffOneSurface(host, Linked(host, st, req.sender, name), Linked(host, s, req.sender, name));
  }

  // ---- What a dependency can rely on ----

  /** The module under the legacy key has an entry of its own, and no entry stands without code. */
  ghost predicate LegacyNamed(host: Host, st: State, a: Address) {
    match Get(st, a, CODE)
    case None => forall name :: Get(st, a, ModuleCodeKey(name)).None?
    case Some(bytes) =>
      && host.deserialize(bytes).Some?
      && Get(st, a, ModuleCodeKey(host.deserialize(bytes).value.name)) == Some(bytes)
  }

  lemma StepKeepsLegacyNamed(host: Host, st: State, step: Step, a: Address)
    requires ValidHost(host) && LegalStep(step) && LegacyNamed(host, st, a)
    ensures LegacyNamed(host, StepState(host, st, step), a)
  {
    hide StepState, Judge, WellFormed, Preimage, ModuleCodeKey, Reserved;
    var s := StepState(host, st, step);
    StepOnPackage(host, st, step, a);
    if SamePackage(st, s, a) {
      SamePackageKeys(st, s, a);
      forall name ensures Get(s, a, ModuleCodeKey(name)) == Get(st, a, ModuleCodeKey(name)) {
        KeysApart(name, name);
      }
    } else {
      AcceptedModule(host, st, step.req, step.req.modules[|step.req.modules| - 1]);
    }
  }

  lemma {:induction false} RunKeepsLegacyNamed(host: Host, st: State, steps: seq<Step>, a: Address)
    requires ValidHost(host) && (forall i :: 0 <= i < |steps| ==> LegalStep(steps[i])) && LegacyNamed(host, st, a)
    ensures LegacyNamed(host, Run(host, st, steps), a)
    decreases |steps|
  {
    hide ValidHost, LegalStep, LegacyNamed, StepState;
    if steps != [] {
      StepKeepsLegacyNamed(host, st, steps[0], a);
      RunKeepsLegacyNamed(host, StepState(host, st, steps[0]), steps[1..], a);
    }
  }

  /** There is a module of this name at this address, and a lookup finds it. */
  ghost predicate Published(host: Host, st: State, a: Address, name: Bytes)
    requires ValidHost(host)
  {
    Linkable(host, st, a, name) && Linked(host, st, a, name).name == name
  }

  /**
   In every run a lookup at an address with code finds a module, and it is a module of the wanted
   name exactly when the name has an entry of its own. At an address without code it finds nothing.
   */
  lemma LookupFindsNameIff(host: Host, before: seq<Step>, a: Address, name: Bytes)
    requires ValidHost(host) && forall i :: 0 <= i < |before| ==> LegalStep(before[i])
    ensures var st := Run(host, map[], before);
      && (Linkable(host, st, a, name) <==> HasModule(st, a))
      && (GetModuleByName(st, a, name).Some? <==> HasModule(st, a))
      && (Published(host, st, a, name) <==> Get(st, a, ModuleCodeKey(name)).Some?)
  {
    hide ValidHost, LegalStep, Run, WellFormed, ModuleCodeKey;
    RunKeepsNames(host, map[], before, a, name);
    RunKeepsLegacyNamed(host, map[], before, a);
  }

  /** An entry, once stored, is never removed. */
  lemma {:induction false} EntryNeverRemoved(host: Host, st: State, steps: seq<Step>, a: Address, name: Bytes)
    requires ValidHost(host) && forall i :: 0 <= i < |steps| ==> LegalStep(steps[i])
    requires Get(st, a, ModuleCodeKey(name)).Some?
    ensures Get(Run(host, st, steps), a, ModuleCodeKey(name)).Some?
    decreases |steps|
  {
    hide ValidHost, LegalStep, StepState, ModuleCodeKey, Get, NewEntry;
    if steps != [] {
      StepOnName(host, st, steps[0], a, name);
      EntryNeverRemoved(host, StepState(host, st, steps[0]), steps[1..], a, name);
    }
  }

  lemma {:induction false} RunConcat(host: Host, st: State, before: seq<Step>, after: seq<Step>)
    requires ValidHost(host)
    ensures Run(host, Run(host, st, before), after) == Run(host, st, before + after)
    decreases |before|
  {
    hide ValidHost, StepState;
    if before == [] {
      assert before + after == after;
    } else {
      RunConcat(host, StepState(host, st, before[0]), before[1..], after);
      assert (before + after)[1..] == before[1..] + after;
    }
  }

  /** A module of a name, once published, can be found under that name for ever. */
  lemma PublishedForever(host: Host, before: seq<Step>, after: seq<Step>, a: Address, name: Bytes)
    requires ValidHost(host)
    requires forall i :: 0 <= i < |before| ==> LegalStep(before[i])
    requires forall i :: 0 <= i < |after| ==> LegalStep(after[i])
    requires Published(host, Run(host, map[], before), a, name)
    ensures Published(host, Run(host, Run(host, map[], before), after), a, name)
  {
    hide ValidHost, LegalStep, Run, Published, ModuleCodeKey, Get;
    LookupFindsNameIff(host, before, a, name);
    EntryNeverRemoved(host, Run(host, map[], before), after, a, name);
    RunConcat(host, map[], before, after);
    LookupFindsNameIff(host, before + after, a, name);
  }

  /**
   The dependency check looks at the address of a dependency and never at its name. So it lets a
   dependency on a module that does not exist pass exactly when the address has code and the name
   has no entry.
   */
  lemma DependencyCheckIgnoresName(host: Host, before: seq<Step>, sender: Address, dep: (Address, Bytes))
    requires ValidHost(host) && forall i :: 0 <= i < |before| ==> LegalStep(before[i])
    requires dep.0 != sender && dep.0 != Framework()
    ensures var st := Run(host, map[], before);
      && (!DependencyMissing(host, st, sender, dep) <==> HasModule(st, dep.0))
      && (!DependencyMissing(host, st, sender, dep) && !Published(host, st, dep.0, dep.1) <==>
            HasModule(st, dep.0) && Get(st, dep.0, ModuleCodeKey(dep.1)).None?)
  {
    hide ValidHost, LegalStep, Run, Published, ModuleCodeKey, GetModuleByName, HasModule, Framework;
    LookupFindsNameIff(host, before, dep.0, dep.1);
  }

  /**
   In every run the dependencies of a module pass exactly when each of them is the sender's own, the
   framework's, or at an address with code.
   */
  lemma DependenciesInEveryRun(host: Host, before: seq<Step>, req: ModulePublish, bytes: Bytes)
    requires ValidHost(host) && forall i :: 0 <= i < |before| ==> LegalStep(before[i])
    ensures var st := Run(host, map[], before);
      DependenciesMet(host, st, req, bytes) <==> DependenciesCoded(host, st, req, bytes)
  {
    hide ValidHost, LegalStep, Run, Framework, LegacyNamed;
    var st := Run(host, map[], before);
    if host.deserialize(bytes).Some? {
      forall dep | dep in host.deserialize(bytes).value.dependencies
        ensures (dep.0, CODE_PREFIX + dep.1) in st ==> (dep.0, CODE) in st
      {
        EmptyLegacyNamed(host, dep.0);
        RunKeepsLegacyNamed(host, map[], before, dep.0);
        EntryNeedsCode(host, st, dep.0, dep.1);
      }
    }
  }

  lemma EmptyLegacyNamed(host: Host, a: Address)
    ensures LegacyNamed(host, map[], a)
  {
  }

  lemma EntryNeedsCode(host: Host, st: State, a: Address, name: Bytes)
    requires LegacyNamed(host, st, a)
    ensures (a, CODE_PREFIX + name) in st ==> (a, CODE) in st
  {
    assert ModuleCodeKey(name) == CODE_PREFIX + name;
  }

  /**
   A bundle on top of any run succeeds exactly when every module is acceptable to the state before
   the bundle and its dependencies are the sender's own, the framework's, or at addresses with code.
   */
  lemma SucceedsInEveryRunIff(host: Host, before: seq<Step>, req: ModulePublish)
    requires ValidHost(host) && forall i :: 0 <= i < |before| ==> LegalStep(before[i])
    ensures var st := Run(host, map[], before);
      Succeeds(host, st, req) <==>
        forall i :: 0 <= i < |req.modules| ==>
          Acceptable(host, st, req, req.modules[i]) && DependenciesCoded(host, st, req, req.modules[i])
  {
    hide ValidHost, LegalStep, Run, Succeeds, Acceptable, DependenciesMet, DependenciesCoded;
    SucceedsIffAllAcceptable(host, Run(host, map[], before), req);
    forall i | 0 <= i < |req.modules|
      ensures var st := Run(host, map[], before);
        DependenciesMet(host, st, req, req.modules[i]) <==> DependenciesCoded(host, st, req, req.modules[i])
    {
      DependenciesInEveryRun(host, before, req, req.modules[i]);
    }
  }

  // ---- Changes that callers do not see ----

  /**
   A new version that looks the same to callers of the tracked module passes the upgrade check of a
   `Compatible` package exactly when its public entries use the old handle numbers, or BLAKE3
   collides. Otherwise the bundle aborts, at its first module, with the incompatibility code.
   */
  lemma InternalUpgradePassesIff(host: Host, st: State, req: ModulePublish, m: CompiledModule, n: CompiledModule)
    requires ValidHost(host) && req.modules != [] && host.deserialize(req.modules[0]) == Some(n)
    requires n.address == req.sender && PolicyAt(host, st, req.sender) == Compatible
    requires WellFormed(m) && TracksAbi(host, st, req.sender, AbiHash(host, m))
    requires ResolvedSurface(m) == ResolvedSurface(n)
    ensures UpgradeAbort(host, st, n).None? <==>
      SameNumbers(PublicSurface(m), PublicSurface(n)) || Collide(host.blake3, Preimage(m), Preimage(n))
    ensures UpgradeAbort(host, st, n).Some? ==> Publish(host, st, req) == Ok(Turned(host, ABI_INCOMPATIBLE))
  {
    hide WellFormed, Preimage, PublicSurface, ResolvedSurface, SameNumbers, ZeroHash, Publish, StoredMetadata;
    InternalChangeKeepsPreimageIff(m, n);
    PolicyDecidesAbort(host, st, req);
  }
}
