/**
 The planning publisher of publisher.rs: a bundle is stored whole, under an address derived
 from its sender and the hash of its bytes. The bundle check of another crate is a predicate.
 */
module Planner {
  import opened Base
  import opened StateChanges
  import opened Publishing

  /** `deployer` */
  const DEPLOYER: Bytes := [100, 101, 112, 108, 111, 121, 101, 114]

  /** `module_count` */
  const MODULE_COUNT: Bytes := [109, 111, 100, 117, 108, 101, 95, 99, 111, 117, 110, 116]

  /** `nexus::contract::address::v1` */
  const ADDRESS_DOMAIN: Bytes :=
    [110, 101, 120, 117, 115, 58, 58, 99, 111, 110, 116, 114, 97, 99, 116, 58, 58,
     97, 100, 100, 114, 101, 115, 115, 58, 58, 118, 49]

  datatype Config = Config(
    blake3: Bytes -> HashValue,
    bundleOk: seq<Bytes> -> bool,
    publishBase: u64,
    publishPerByte: u64)

  datatype PlanStatus = Planned | AlreadyPublished | OutOfGas

  datatype PlanOutput = PlanOutput(
    status: PlanStatus, gasUsed: u64, stateChanges: seq<StateChange>, writeSet: WriteSet, contract: Address)

  datatype PlanError = BundleRefused

  function AddressPreimage(deployer: Address, codeHash: HashValue): Bytes {
    ADDRESS_DOMAIN + deployer + codeHash
  }

  function DeriveContractAddress(blake3: Bytes -> HashValue, deployer: Address, codeHash: HashValue): Address {
    blake3(AddressPreimage(deployer, codeHash))
  }

  function Concatenated(modules: seq<Bytes>): Bytes {
    if modules == [] then [] else Concatenated(modules[..|modules| - 1]) + modules[|modules| - 1]
  }

  lemma {:induction false} ConcatenatedAppend(ms: seq<Bytes>, ns: seq<Bytes>)
    ensures Concatenated(ms + ns) == Concatenated(ms) + Concatenated(ns)
    ensures |ns| == 1 ==> Concatenated(ns) == ns[0]
  {
    if ns == [] {
      assert ms + ns == ms;
    } else {
      ConcatenatedAppend(ms, ns[..|ns| - 1]);
      assert (ms + ns)[..|ms + ns| - 1] == ms + ns[..|ns| - 1];
      Associative(Concatenated(ms), Concatenated(ns[..|ns| - 1]), ns[|ns| - 1]);
    }
  }

  function PlannedChanges(contract: Address, sender: Address, code: Bytes, codeHash: HashValue, count: nat)
    : seq<StateChange>
  {
    [StateChange(contract, CODE, Some(code)),
     StateChange(contract, CODE_HASH, Some(codeHash)),
     StateChange(contract, DEPLOYER, Some(sender)),
     StateChange(contract, MODULE_COUNT, Some(U32Le(count)))]
  }

  /** The contract address of a bundle: it depends on the sender and on the bytes alone. */
  function ContractOf(config: Config, sender: Address, modules: seq<Bytes>): Address {
    DeriveContractAddress(config.blake3, sender, config.blake3(Concatenated(modules)))
  }

  function PlanEstimate(config: Config, size: nat): u64 {
    SatAdd(config.publishBase, SatMul(Sat(size), config.publishPerByte))
  }

  lemma EstimateIsCost(config: Config, size: nat)
    ensures var cost := config.publishBase + size * config.publishPerByte;
      PlanEstimate(config, size) == if cost <= U64_MAX then cost else U64_MAX
  {
    hide SatMul, SatAdd, Product;
    SatProduct(size, config.publishPerByte);
    ProductIs(size, config.publishPerByte);
    SatOfU64(config.publishBase);
    SatSum(config.publishBase, Product(size, config.publishPerByte));
  }

  /** The bundle under its contract address: its code, its hash, its sender, and how many modules it has. */
  function PlannedState(base: State, contract: Address, sender: Address, code: Bytes, codeHash: HashValue, count: nat)
    : State
  {
    base[(contract, Ascii("code")) := code][(contract, Ascii("code_hash")) := codeHash]
      [(contract, Ascii("deployer")) := sender][(contract, Ascii("module_count")) := U32Le(count)]
  }

  lemma PlannedEffect(base: State, contract: Address, sender: Address, code: Bytes, codeHash: HashValue, count: nat)
    ensures Replay(base, PlannedChanges(contract, sender, code, codeHash, count))
         == PlannedState(base, contract, sender, code, codeHash, count)
  {
    PlannedKeys();
    hide Ascii, U32Le, Replay, CODE, CODE_HASH, DEPLOYER, MODULE_COUNT;
    var cs := PlannedChanges(contract, sender, code, codeHash, count);
    ReplayFour(base, cs[0], cs[1], cs[2], cs[3]);
  }

  lemma PlannedKeys()
    ensures CODE == Ascii("code") && CODE_HASH == Ascii("code_hash")
    ensures DEPLOYER == Ascii("deployer") && MODULE_COUNT == Ascii("module_count")
    ensures ADDRESS_DOMAIN == Ascii("nexus::contract::address::v1")
  {
  }

  /**
   Publishes unless the bundle is bad, its address is taken, or the estimate reaches a gas
   limit; a limit of zero is no limit. A taken address is charged the base fee whatever the limit.
   */
  method PublishVerifiedModules(config: Config, st: State, sender: Address, modules: seq<Bytes>, gasLimit: u64)
    returns (r: Result<PlanOutput, PlanError>)
    ensures r.Err? <==> !config.bundleOk(modules)
    ensures r.Ok? ==>
      var code := Concatenated(modules);
      var out, contract := r.value, config.blake3(Ascii("nexus::contract::address::v1") + sender + config.blake3(code));
      var cost := config.publishBase + |code| * config.publishPerByte;
      && out.contract == contract == ContractOf(config, sender, modules)
      && Coherent(out.stateChanges, out.writeSet)
      && (out.status == AlreadyPublished <==> (contract, CODE) in st)
      && (!out.status.Planned? ==> out.stateChanges == [] && out.writeSet == map[])
      && (out.status == PlanStatus.OutOfGas <==> (contract, CODE) !in st && 0 < gasLimit <= cost)
      && (out.status == AlreadyPublished ==> out.gasUsed == config.publishBase)
      && (out.status == PlanStatus.OutOfGas ==> out.gasUsed == gasLimit)
      && (out.status == Planned ==>
            && out.gasUsed == (if cost <= U64_MAX then cost else U64_MAX)
            && forall base: State :: Replay(base, out.stateChanges) ==
                 PlannedState(base, contract, sender, code, config.blake3(code), |modules|))
      && (out.gasUsed <= gasLimit <==>
            if (contract, CODE) in st then config.publishBase <= gasLimit else gasLimit != 0 || cost == 0)
  {
    hide LastWrites, Coherent, U32Le, PlanEstimate, Replay, PlannedState;
    if !config.bundleOk(modules) { return Err(BundleRefused); }
    PlannedKeys();
    hide Ascii;
    var code: Bytes := [];
    for i := 0 to |modules|
      invariant code == Concatenated(modules[..i])
    {
      code := code + modules[i];
      assert modules[..i + 1][..i] == modules[..i];
    }
    assert modules[..|modules|] == modules;
    var codeHash := config.blake3(code);
    var contract := DeriveContractAddress(config.blake3, sender, codeHash);
    var log := new WriteLog();
    LastWritesCoherent([]);
    assert log.writeSet == map[] by { EmptyWrites(); }
    EstimateIsCost(config, |code|);
    if HasModule(st, contract) {
      return Ok(PlanOutput(AlreadyPublished, config.publishBase, [], map[], contract));
    }
    var estimated := PlanEstimate(config, |code|);
    if gasLimit != 0 && estimated >= gasLimit {
      return Ok(PlanOutput(PlanStatus.OutOfGas, gasLimit, [], map[], contract));
    }
    log.PushWrite(contract, CODE, Some(code));
    log.PushWrite(contract, CODE_HASH, Some(codeHash));
    log.PushWrite(contract, DEPLOYER, Some(sender));
    log.PushWrite(contract, MODULE_COUNT, Some(U32Le(|modules|)));
    LastWritesCoherent(log.stateChanges);
    assert log.stateChanges == PlannedChanges(contract, sender, code, codeHash, |modules|);
    forall base: State ensures Replay(base, log.stateChanges) ==
      PlannedState(base, contract, sender, code, codeHash, |modules|)
    {
      PlannedEffect(base, contract, sender, code, codeHash, |modules|);
    }
    return Ok(PlanOutput(Planned, estimated, log.stateChanges, log.writeSet, contract));
  }

  lemma EmptyWrites()
    ensures LastWrites([]) == map[]
  {
  }

  /** Two bundles meet at one address only with the same sender and code hash, or on a BLAKE3 collision. */
  lemma AddressesApart(config: Config, s: Address, t: Address, ms: seq<Bytes>, ns: seq<Bytes>)
    requires ContractOf(config, s, ms) == ContractOf(config, t, ns)
    ensures var h, k := config.blake3(Concatenated(ms)), config.blake3(Concatenated(ns));
      var x, y := AddressPreimage(s, h), AddressPreimage(t, k);
      || (s == t && h == k)
      || (x != y && config.blake3(x) == config.blake3(y))
  {
    hide Concatenated;
    var h, k := config.blake3(Concatenated(ms)), config.blake3(Concatenated(ns));
    if AddressPreimage(s, h) == AddressPreimage(t, k) {
      Associative(ADDRESS_DOMAIN, s, h);
      Associative(ADDRESS_DOMAIN, t, k);
      SplitAt(ADDRESS_DOMAIN, s + h);
      SplitAt(ADDRESS_DOMAIN, t + k);
      SplitAt(s, h);
      SplitAt(t, k);
    }
  }
}
