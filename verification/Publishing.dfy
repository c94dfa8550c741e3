/**
 Publishing modules: `publish_modules` of vm_backend.rs and the module lookup of state.rs.
 The deserializer, the bytecode verifier, BLAKE3 and the metadata codec are a `Host`.
 */
module Publishing {
  import opened Base
  import opened AbiModule
  import opened StateChanges
  import opened Gas

  // ---- Storage keys ----

  /** `code` */
  const CODE: Bytes := [99, 111, 100, 101]

  /** `code_hash` */
  const CODE_HASH: Bytes := [99, 111, 100, 101, 95, 104, 97, 115, 104]

  /** `package_metadata` */
  const METADATA: Bytes := [112, 97, 99, 107, 97, 103, 101, 95, 109, 101, 116, 97, 100, 97, 116, 97]

  /** `code::` */
  const CODE_PREFIX: Bytes := [99, 111, 100, 101, 58, 58]

  /** `code::{module_name}` */
  function ModuleCodeKey(name: Bytes): Bytes {
    CODE_PREFIX + name
  }

  /** The keys that publishing writes; resources live under other keys. */
  predicate Reserved(key: Bytes) {
    key == CODE || key == CODE_HASH || key == METADATA || CODE_PREFIX <= key
  }

  lemma KeyStrings(name: Bytes)
    ensures CODE == Ascii("code") && CODE_HASH == Ascii("code_hash") && METADATA == Ascii("package_metadata")
    ensures ModuleCodeKey(name) == Ascii("code::") + name
  {
  }

  lemma KeysApart(name: Bytes, other: Bytes)
    ensures Reserved(ModuleCodeKey(name))
    ensures ModuleCodeKey(name) !in {CODE, CODE_HASH, METADATA}
    ensures CODE != CODE_HASH && CODE != METADATA && CODE_HASH != METADATA
    ensures ModuleCodeKey(name) == ModuleCodeKey(other) <==> name == other
  {
    var key := ModuleCodeKey(name);
    assert key[4] == 58 && CODE_HASH[4] == 95 && METADATA[4] == 97;
    SplitAt(CODE_PREFIX, name);
    SplitAt(CODE_PREFIX, other);
  }

  // ---- Lookup ----

  function HasModule(st: State, a: Address): bool {
    (a, CODE) in st
  }

  /** The per-module key first, then the legacy key. */
  function GetModuleByName(st: State, a: Address, name: Bytes): Option<Bytes> {
    var own := Get(st, a, ModuleCodeKey(name));
    if own.Some? then own else Get(st, a, CODE)
  }

  // ---- The host ----

  datatype UpgradePolicy = Immutable | Compatible | GovernanceOnly

  datatype PackageMetadata = PackageMetadata(
    name: Bytes,
    packageHash: HashValue,
    namedAddresses: seq<(Bytes, Address)>,
    moduleHashes: seq<(Bytes, HashValue)>,
    abiHash: HashValue,
    upgradePolicy: UpgradePolicy,
    deployer: Address,
    version: nat)

  datatype Host = Host(
    deserialize: Bytes -> Option<CompiledModule>,
    verify: CompiledModule -> bool,
    blake3: Bytes -> HashValue,
    encode: PackageMetadata -> Option<Bytes>,
    decode: Bytes -> Option<PackageMetadata>,
    isFramework: Bytes -> bool,
    schedule: GasSchedule)

  /** Deserialized modules are within bounds; decoding undoes encoding. */
  ghost predicate ValidHost(host: Host) {
    && (forall b :: host.deserialize(b).Some? ==> WellFormed(host.deserialize(b).value))
    && (forall m :: host.encode(m).Some? ==> host.decode(host.encode(m).value) == Some(m))
  }

  /** The hash that marks a package without ABI tracking. */
  function ZeroHash(): HashValue {
    seq(32, i => 0)
  }

  /** The framework address `0x1`. */
  function Framework(): Address {
    seq(31, i => 0) + [1]
  }

  function AbiHash(host: Host, m: CompiledModule): HashValue
    requires InBounds(m)
  {
    host.blake3(Preimage(m))
  }

  // ---- The request and its outputs ----

  datatype ModulePublish = ModulePublish(
    sender: Address, modules: seq<Bytes>, gasLimit: u64, upgradePolicy: Option<UpgradePolicy>)

  datatype VmError =
    | DeserializationFailed
    | AddressMismatch
    | VerificationFailed
    | MissingDependency
    | EncodingFailed

  type Outcome = Result<VmOutput, VmError>

  /** `nexus::publish` */
  const PUBLISH: Bytes := [110, 101, 120, 117, 115, 58, 58, 112, 117, 98, 108, 105, 115, 104]

  const ALREADY_PUBLISHED: u64 := 20
  const GOVERNANCE_REQUIRED: u64 := 21
  const ABI_INCOMPATIBLE: u64 := 22

  // ---- One module of the bundle ----

  function StoredMetadata(host: Host, st: State, a: Address): Option<PackageMetadata> {
    match Get(st, a, METADATA)
    case Some(bytes) => host.decode(bytes)
    case None => None
  }

  /** Code without readable metadata counts as immutable. */
  function PolicyAt(host: Host, st: State, a: Address): UpgradePolicy {
    match StoredMetadata(host, st, a)
    case Some(m) => m.upgradePolicy
    case None => Immutable
  }

  function AbiHashAt(host: Host, st: State, a: Address): HashValue {
    match StoredMetadata(host, st, a)
    case Some(m) => m.abiHash
    case None => ZeroHash()
  }

  /** The abort code of the upgrade check, if any: policy first, then the ABI. */
  function UpgradeAbort(host: Host, st: State, m: CompiledModule): Option<u64>
    requires InBounds(m)
  {
    if !HasModule(st, m.address) then None else
    match PolicyAt(host, st, m.address)
    case Immutable => Some(ALREADY_PUBLISHED)
    case GovernanceOnly => Some(GOVERNANCE_REQUIRED)
    case Compatible =>
      var stored := AbiHashAt(host, st, m.address);
      if stored != ZeroHash() && stored != AbiHash(host, m) then Some(ABI_INCOMPATIBLE) else None
  }

  function ModuleExists(host: Host, st: State, a: Address, name: Bytes): bool {
    (a == Framework() && host.isFramework(name)) || GetModuleByName(st, a, name).Some?
  }

  function DependencyMissing(host: Host, st: State, sender: Address, dep: (Address, Bytes)): bool {
    !ModuleExists(host, st, dep.0, dep.1) && dep.0 != sender && dep.0 != Framework()
  }

  predicate SomeMissing(host: Host, st: State, sender: Address, deps: seq<(Address, Bytes)>) {
    exists d :: d in deps && DependencyMissing(host, st, sender, d)
  }

  function MetadataFor(host: Host, req: ModulePublish, m: CompiledModule, bytes: Bytes): PackageMetadata
    requires InBounds(m)
  {
    var codeHash := host.blake3(bytes);
    PackageMetadata(
      m.name, codeHash, [(m.name, m.address)], [(m.name, codeHash)], AbiHash(host, m),
      match req.upgradePolicy
        case Some(Compatible) => Compatible
        case Some(GovernanceOnly) => GovernanceOnly
        case _ => Immutable,
      req.sender, 1)
  }

  datatype Verdict = Rejected(error: VmError) | Aborted(code: u64) | Accepted(m: CompiledModule, metadata: Bytes)

  /** The checks of one iteration, in order, all against the state before the bundle. */
  function Judge(host: Host, st: State, req: ModulePublish, bytes: Bytes): (v: Verdict)
    requires ValidHost(host)
    ensures v.Accepted? ==> WellFormed(v.m) && v.m.address == req.sender
  {
    match host.deserialize(bytes)
    case None => Rejected(DeserializationFailed)
    case Some(m) =>
      if m.address != req.sender then Rejected(AddressMismatch)
      else if UpgradeAbort(host, st, m).Some? then Aborted(UpgradeAbort(host, st, m).value)
      else if !host.verify(m) then Rejected(VerificationFailed)
      else if SomeMissing(host, st, req.sender, m.dependencies) then Rejected(MissingDependency)
      else match host.encode(MetadataFor(host, req, m, bytes))
        case None => Rejected(EncodingFailed)
        case Some(metadata) => Accepted(m, metadata)
  }

  function ModuleChanges(host: Host, m: CompiledModule, bytes: Bytes, metadata: Bytes): seq<StateChange> {
    [StateChange(m.address, ModuleCodeKey(m.name), Some(bytes)),
     StateChange(m.address, CODE, Some(bytes)),
     StateChange(m.address, CODE_HASH, Some(host.blake3(bytes))),
     StateChange(m.address, METADATA, Some(metadata))]
  }

  // ---- The bundle ----

  datatype Progress = Going(changes: seq<StateChange>) | Stopped(outcome: Outcome)

  /** What a bundle puts out that the upgrade check turns away. */
  function Turned(host: Host, code: u64): VmOutput {
    VmOutput(MoveAbort(PUBLISH, code), host.schedule.publishBase, [], map[], [], [])
  }

  /** Where the loop stands after the first `n` modules. */
  function Process(host: Host, st: State, req: ModulePublish, n: nat): Progress
    requires ValidHost(host) && n <= |req.modules|
  {
    if n == 0 then Going([]) else
    match Process(host, st, req, n - 1)
    case Stopped(outcome) => Stopped(outcome)
    case Going(changes) =>
      var bytes := req.modules[n - 1];
      match Judge(host, st, req, bytes)
      case Rejected(error) => Stopped(Err(error))
      case Aborted(code) => Stopped(Ok(Turned(host, code)))
      case Accepted(m, metadata) => Going(changes + ModuleChanges(host, m, bytes, metadata))
  }

  function Publish(host: Host, st: State, req: ModulePublish): Outcome
    requires ValidHost(host)
  {
    match Process(host, st, req, |req.modules|)
    case Stopped(outcome) => outcome
    case Going(changes) =>
      var gas := Min64(EstimatePublishGas(host.schedule, req.modules, changes), req.gasLimit);
      Ok(VmOutput(Success, gas, changes, LastWrites(changes), [], []))
  }

  lemma {:induction false} StopIsFinal(host: Host, st: State, req: ModulePublish, k: nat, n: nat)
    requires ValidHost(host) && k <= n <= |req.modules| && Process(host, st, req, k).Stopped?
    ensures Process(host, st, req, n) == Process(host, st, req, k)
  {
    hide Judge, ModuleChanges, ValidHost;
    if k < n { StopIsFinal(host, st, req, k, n - 1); }
  }

  method PushModule(host: Host, m: CompiledModule, bytes: Bytes, metadata: Bytes, log: WriteLog)
    requires log.Valid()
    modifies log
    ensures log.Valid() && log.stateChanges == old(log.stateChanges) + ModuleChanges(host, m, bytes, metadata)
  {
    hide LastWrites;
    log.PushWrite(m.address, ModuleCodeKey(m.name), Some(bytes));
    log.PushWrite(m.address, CODE, Some(bytes));
    log.PushWrite(m.address, CODE_HASH, Some(host.blake3(bytes)));
    log.PushWrite(m.address, METADATA, Some(metadata));
  }

  /** The loop of the source, with its early returns and its two outputs. */
  method PublishModules(host: Host, st: State, req: ModulePublish) returns (r: Outcome)
    requires ValidHost(host)
    ensures r == Publish(host, st, req)
  {
    hide ValidHost, Judge, LastWrites, ModuleChanges, EstimatePublishGas;
    var log := new WriteLog();
    var i := 0;
    while i < |req.modules|
      invariant i <= |req.modules| && log.Valid() && fresh(log)
      invariant Process(host, st, req, i) == Going(log.stateChanges)
    {
      var bytes := req.modules[i];
      var verdict := Judge(host, st, req, bytes);
      i := i + 1;
      if verdict.Rejected? {
        StopIsFinal(host, st, req, i, |req.modules|);
        return Err(verdict.error);
      }
      if verdict.Aborted? {
        StopIsFinal(host, st, req, i, |req.modules|);
        return Ok(VmOutput(MoveAbort(PUBLISH, verdict.code), host.schedule.publishBase, [], map[], [], []));
      }
      PushModule(host, verdict.m, bytes, verdict.metadata, log);
    }
    var gas := Min64(EstimatePublishGas(host.schedule, req.modules, log.stateChanges), req.gasLimit);
    return Ok(VmOutput(Success, gas, log.stateChanges, log.writeSet, [], []));
  }
}
