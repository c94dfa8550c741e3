/**
 The execute session: session.rs, the overlay of resources.rs and the simple meter of gas.rs.
 The code counts with saturating 64-bit additions; the reference it is compared with counts
 with unbounded numbers and keeps one plain map.
 */
module Sessions {
  import opened Base
  import opened StateChanges

  datatype SessionKind = Publish | Execute | ReadOnly

  datatype WriteError = ReadOnlySession | OutOfGas

  /** The two rates of the gas schedule that a session uses. */
  datatype Rates = Rates(readPerByte: u64, writePerByte: u64)

  /** `resource::` */
  const RESOURCE_PREFIX: Bytes := [114, 101, 115, 111, 117, 114, 99, 101, 58, 58]

  function ResourceKey(typeTag: Bytes): Bytes {
    RESOURCE_PREFIX + typeTag
  }

  lemma ResourceKeyString(typeTag: Bytes)
    ensures ResourceKey(typeTag) == Ascii("resource::") + typeTag
  {
  }

  lemma ResourceKeyInjective(s: Bytes, t: Bytes)
    requires ResourceKey(s) == ResourceKey(t)
    ensures s == t
  {
    SplitAt(RESOURCE_PREFIX, s);
    SplitAt(RESOURCE_PREFIX, t);
  }

  // ---- The meter and the overlay ----

  class SimpleGasMeter {
    const limit: u64
    var consumed: u64

    constructor (limit: u64)
      ensures this.limit == limit && consumed == 0
    {
      this.limit := limit;
      consumed := 0;
    }

    method Charge(amount: u64) returns (ok: bool)
      modifies this
      ensures ok <==> Sat(old(consumed) + amount) <= limit
      ensures consumed == if ok then Sat(old(consumed) + amount) else old(consumed)
    {
      var next := SatAdd(consumed, amount);
      ok := next <= limit;
      if ok { consumed := next; }
    }
  }

  class ResourceStore {
    const view: State
    var overlay: WriteSet

    constructor (view: State)
      ensures this.view == view && overlay == map[]
    {
      this.view := view;
      overlay := map[];
    }

    /** The plain map that the cached store stands for. */
    ghost function Plain(): State
      reads this
    {
      Overlay(view, overlay)
    }

    method Lookup(account: Address, typeTag: Bytes) returns (value: Option<Bytes>)
      ensures value == Get(Plain(), account, ResourceKey(typeTag))
    {
      var key := ResourceKey(typeTag);
      if (account, key) in overlay { return overlay[(account, key)]; }
      return Get(view, account, key);
    }

    method Set(account: Address, typeTag: Bytes, value: Bytes)
      modifies this
      ensures overlay == old(overlay)[(account, ResourceKey(typeTag)) := Some(value)]
      ensures Plain() == old(Plain())[(account, ResourceKey(typeTag)) := value]
    {
      OverlayPut(view, overlay, (account, ResourceKey(typeTag)), Some(value));
      overlay := overlay[(account, ResourceKey(typeTag)) := Some(value)];
    }

    method Remove(account: Address, typeTag: Bytes)
      modifies this
      ensures overlay == old(overlay)[(account, ResourceKey(typeTag)) := None]
      ensures Plain() == old(Plain()) - {(account, ResourceKey(typeTag))}
    {
      OverlayPut(view, overlay, (account, ResourceKey(typeTag)), None);
      overlay := overlay[(account, ResourceKey(typeTag)) := None];
    }

    /** Lists the overlay in the order of its keys, one change each. */
    method IntoChanges() returns (writeSet: WriteSet, stateChanges: seq<StateChange>)
      ensures writeSet == overlay && |stateChanges| == |overlay|
      ensures Coherent(stateChanges, writeSet)
      ensures Replay(view, stateChanges) == Plain()
      ensures SortedChanges(stateChanges)
    {
      hide Coherent, Overlay, LastWrites, Replay, LocLe;
      stateChanges := [];
      var todo := overlay.Keys;
      NothingListed(overlay);
      while todo != {}
        invariant todo <= overlay.Keys
        invariant LastWrites(stateChanges) == overlay - todo
        invariant |stateChanges| + |todo| == |overlay.Keys|
        invariant SortedChanges(stateChanges)
        invariant forall c, l :: c in stateChanges && l in todo ==> LocLe(c.Loc(), l) && c.Loc() != l
        decreases |todo|
      {
        LeastExists(todo);
        var loc :| loc in todo && Least(todo, loc);
        var change := StateChange(loc.0, loc.1, overlay[loc]);
        LastWritesStep(stateChanges, change);
        ListedOne(overlay, todo, loc);
        stateChanges := stateChanges + [change];
        todo := todo - {loc};
      }
      assert overlay - {} == overlay && |overlay.Keys| == |overlay|;
      LastWritesCoherent(stateChanges);
      ReplayIsOverlay(view, stateChanges);
      return overlay, stateChanges;
    }
  }

  /** The order of a map whose keys are an address and a byte string. */
  predicate LocLe(a: Loc, b: Loc) {
    if a.0 == b.0 then LexLe(a.1, b.1) else LexLe(a.0, b.0)
  }

  ghost predicate SortedChanges(changes: seq<StateChange>) {
    forall i, j :: 0 <= i < j < |changes| ==>
      LocLe(changes[i].Loc(), changes[j].Loc()) && changes[i].Loc() != changes[j].Loc()
  }

  /** Accounts in order, and the keys of each account in order. */
  lemma ChangesByAccountThenKey(changes: seq<StateChange>)
    requires SortedChanges(changes)
    ensures forall i, j :: 0 <= i < j < |changes| ==>
      && LexLe(changes[i].account, changes[j].account)
      && (changes[i].account == changes[j].account ==>
            LexLe(changes[i].key, changes[j].key) && changes[i].key != changes[j].key)
  {
    hide LexLe;
    forall i, j | 0 <= i < j < |changes| ensures LexLe(changes[i].account, changes[j].account) {
      if changes[i].account == changes[j].account { LexTotal(changes[i].account, changes[j].account); }
      assert LocLe(changes[i].Loc(), changes[j].Loc());
    }
    forall i, j | 0 <= i < j < |changes| && changes[i].account == changes[j].account
      ensures LexLe(changes[i].key, changes[j].key) && changes[i].key != changes[j].key
    {
      assert LocLe(changes[i].Loc(), changes[j].Loc());
    }
  }

  lemma LocTotal(a: Loc, b: Loc)
    ensures LocLe(a, b) || LocLe(b, a)
  {
    LexTotal(a.0, b.0);
    LexTotal(a.1, b.1);
  }

  lemma LocTransitive(a: Loc, b: Loc, c: Loc)
    requires LocLe(a, b) && LocLe(b, c)
    ensures LocLe(a, c)
  {
    if a.0 == b.0 == c.0 {
      LexTransitive(a.1, b.1, c.1);
    } else if a.0 != b.0 && b.0 != c.0 {
      LexTransitive(a.0, b.0, c.0);
      if a.0 == c.0 { LexAntisymmetric(a.0, b.0); }
    }
  }

  predicate Least(locs: set<Loc>, loc: Loc) {
    loc in locs && forall l :: l in locs ==> LocLe(loc, l)
  }

  lemma LeastOfTwo(locs: set<Loc>, least: Loc, some: Loc)
    requires Least(locs, least)
    ensures Least(locs + {some}, if LocLe(some, least) then some else least)
  {
    LocTotal(some, some);
    LocTotal(some, least);
    if LocLe(some, least) {
      forall l | l in locs ensures LocLe(some, l) {
        LocTransitive(some, least, l);
      }
    }
  }

  lemma {:induction false} LeastExists(locs: set<Loc>)
    requires locs != {}
    ensures exists loc :: loc in locs && Least(locs, loc)
  {
    var some :| some in locs;
    var others := locs - {some};
    if others == {} {
      LocTotal(some, some);
      assert locs == {some};
      assert Least(locs, some);
    } else {
      hide Least, LocLe;
      LeastExists(others);
      var least :| Least(others, least);
      LeastOfTwo(others, least, some);
      assert others + {some} == locs;
    }
  }

  lemma NothingListed(writes: WriteSet)
    ensures LastWrites([]) == writes - writes.Keys
  {
  }

  lemma ListedOne(writes: WriteSet, todo: set<Loc>, loc: Loc)
    requires loc in todo && todo <= writes.Keys
    ensures (writes - todo)[loc := writes[loc]] == writes - (todo - {loc})
  {
  }

  // ---- The session ----

  datatype GasSummary = GasSummary(executionGas: u64, ioGas: u64, storageFee: u64) {
    function Total(): u64 {
      SatAdd(SatAdd(executionGas, ioGas), storageFee)
    }
  }

  datatype SessionState = SessionState(
    kind: SessionKind, limit: u64, rates: Rates, consumed: u64, gas: GasSummary, overlay: WriteSet)

  datatype Account = OnExecution | OnIo | OnStorage

  /** The methods of a session, and the two writes that its public store offers past them. */
  datatype Call =
    | Charge(account: Account, amount: u64)
    | ReadResource(owner: Address, typeTag: Bytes)
    | WriteResource(owner: Address, typeTag: Bytes, value: Bytes)
    | StoreSet(owner: Address, typeTag: Bytes, value: Bytes)
    | StoreRemove(owner: Address, typeTag: Bytes)

  datatype Reply = Done | Denied(error: WriteError) | Value(value: Option<Bytes>)

  function Booked(g: GasSummary, account: Account, amount: u64): GasSummary {
    match account
    case OnExecution => g.(executionGas := SatAdd(g.executionGas, amount))
    case OnIo => g.(ioGas := SatAdd(g.ioGas, amount))
    case OnStorage => g.(storageFee := SatAdd(g.storageFee, amount))
  }

  /** Books the amount in the summary in any case, and on the meter if it fits. */
  function ChargeStep(s: SessionState, account: Account, amount: u64): (SessionState, bool) {
    var next := SatAdd(s.consumed, amount);
    var booked := s.(gas := Booked(s.gas, account, amount));
    if next > s.limit then (booked, false) else (booked.(consumed := next), true)
  }

  function ReadCost(rates: Rates, value: Option<Bytes>): u64 {
    match value
    case Some(bytes) => SatMul(Sat(|bytes|), rates.readPerByte)
    case None => 0
  }

  function WriteCost(rates: Rates, value: Bytes): u64 {
    SatMul(Sat(|value|), rates.writePerByte)
  }

  function CallStep(base: State, s: SessionState, call: Call): (SessionState, Reply) {
    match call
    case Charge(account, amount) =>
      var (s', ok) := ChargeStep(s, account, amount);
      (s', if ok then Done else Denied(WriteError.OutOfGas))
    case ReadResource(owner, tag) =>
      var loc := (owner, ResourceKey(tag));
      var value := if loc in s.overlay then s.overlay[loc] else Get(base, owner, ResourceKey(tag));
      (ChargeStep(s, OnIo, ReadCost(s.rates, value)).0, Value(value))
    case WriteResource(owner, tag, value) =>
      if s.kind == ReadOnly then (s, Denied(ReadOnlySession)) else
      var (s', ok) := ChargeStep(s, OnStorage, WriteCost(s.rates, value));
      if !ok then (s', Denied(WriteError.OutOfGas))
      else (s'.(overlay := s'.overlay[(owner, ResourceKey(tag)) := Some(value)]), Done)
    case StoreSet(owner, tag, value) =>
      (s.(overlay := s.overlay[(owner, ResourceKey(tag)) := Some(value)]), Done)
    case StoreRemove(owner, tag) =>
      (s.(overlay := s.overlay[(owner, ResourceKey(tag)) := None]), Done)
  }

  class ExecuteSession {
    const kind: SessionKind
    const rates: Rates
    const meter: SimpleGasMeter
    const resources: ResourceStore
    var gas: GasSummary

    ghost function View(): SessionState
      reads this, meter, resources
    {
      SessionState(kind, meter.limit, rates, meter.consumed, gas, resources.overlay)
    }

    constructor (kind: SessionKind, limit: u64, rates: Rates, view: State)
      ensures fresh(meter) && fresh(resources) && resources.view == view
      ensures View() == Opened(kind, limit, rates)
    {
      this.kind, this.rates := kind, rates;
      meter := new SimpleGasMeter(limit);
      resources := new ResourceStore(view);
      gas := GasSummary(0, 0, 0);
    }

    method ChargeOn(account: Account, amount: u64) returns (ok: bool)
      modifies this, meter
      ensures (View(), ok) == ChargeStep(old(View()), account, amount)
    {
      gas := Booked(gas, account, amount);
      ok := meter.Charge(amount);
    }

    method Perform(call: Call) returns (reply: Reply)
      modifies this, meter, resources
      ensures (View(), reply) == CallStep(resources.view, old(View()), call)
    {
      match call {
        case Charge(account, amount) =>
          var ok := ChargeOn(account, amount);
          return if ok then Done else Denied(WriteError.OutOfGas);
        case ReadResource(owner, tag) =>
          var value := resources.Lookup(owner, tag);
          var ok := ChargeOn(OnIo, ReadCost(rates, value));
          return Value(value);
        case WriteResource(owner, tag, value) =>
          if kind == ReadOnly { return Denied(ReadOnlySession); }
          var ok := ChargeOn(OnStorage, WriteCost(rates, value));
          if !ok { return Denied(WriteError.OutOfGas); }
          resources.Set(owner, tag, value);
          return Done;
        case StoreSet(owner, tag, value) =>
          resources.Set(owner, tag, value);
          return Done;
        case StoreRemove(owner, tag) =>
          resources.Remove(owner, tag);
          return Done;
      }
    }

    method Commit(status: VmStatus) returns (out: VmOutput)
      ensures out.status == status && out.events == [] && out.returnValues == []
      ensures out.gasUsed == View().consumed && out.writeSet == View().overlay
      ensures Coherent(out.stateChanges, out.writeSet) && SortedChanges(out.stateChanges)
      ensures Replay(resources.view, out.stateChanges) == Overlay(resources.view, View().overlay)
    {
      var writeSet, stateChanges := resources.IntoChanges();
      return VmOutput(status, meter.consumed, stateChanges, writeSet, [], []);
    }

    method Abort(status: VmStatus) returns (out: VmOutput)
      ensures out.status == status && out.events == [] && out.returnValues == []
      ensures out.gasUsed == View().consumed && out.writeSet == map[]
      ensures forall st: State :: Replay(st, out.stateChanges) == st == Overlay(st, out.writeSet)
    {
      return VmOutput(status, meter.consumed, [], map[], [], []);
    }
  }

  function Opened(kind: SessionKind, limit: u64, rates: Rates): SessionState {
    SessionState(kind, limit, rates, 0, GasSummary(0, 0, 0), map[])
  }

  function RunCalls(base: State, s: SessionState, calls: seq<Call>): (SessionState, seq<Reply>) {
    if calls == [] then (s, []) else
    var (s', replies) := RunCalls(base, s, calls[..|calls| - 1]);
    var (s'', reply) := CallStep(base, s', calls[|calls| - 1]);
    (s'', replies + [reply])
  }

  // ---- The reference: unbounded sums and one plain map ----

  datatype Reference = Reference(
    execution: nat, io: nat, storage: nat, accepted: nat, failed: bool, plain: State)
  {
    function Attempted(): nat {
      execution + io + storage
    }
  }

  function RefCharge(limit: u64, r: Reference, account: Account, amount: nat): (Reference, bool) {
    var booked := match account
      case OnExecution => r.(execution := r.execution + amount)
      case OnIo => r.(io := r.io + amount)
      case OnStorage => r.(storage := r.storage + amount);
    if limit == U64_MAX || r.accepted + amount <= limit
    then (booked.(accepted := r.accepted + amount), true)
    else (booked.(failed := true), false)
  }

  function RefStep(kind: SessionKind, limit: u64, rates: Rates, r: Reference, call: Call): (Reference, Reply) {
    match call
    case Charge(account, amount) =>
      var (r', ok) := RefCharge(limit, r, account, amount);
      (r', if ok then Done else Denied(WriteError.OutOfGas))
    case ReadResource(owner, tag) =>
      var value := Get(r.plain, owner, ResourceKey(tag));
      var cost := if value.Some? then |value.value| * rates.readPerByte else 0;
      (RefCharge(limit, r, OnIo, cost).0, Value(value))
    case WriteResource(owner, tag, value) =>
      if kind == ReadOnly then (r, Denied(ReadOnlySession)) else
      var (r', ok) := RefCharge(limit, r, OnStorage, |value| * rates.writePerByte);
      if !ok then (r', Denied(WriteError.OutOfGas))
      else (r'.(plain := r'.plain[(owner, ResourceKey(tag)) := value]), Done)
    case StoreSet(owner, tag, value) => (r.(plain := r.plain[(owner, ResourceKey(tag)) := value]), Done)
    case StoreRemove(owner, tag) => (r.(plain := r.plain - {(owner, ResourceKey(tag))}), Done)
  }

  function RefRun(base: State, kind: SessionKind, limit: u64, rates: Rates, calls: seq<Call>)
    : (Reference, seq<Reply>)
  {
    if calls == [] then (Reference(0, 0, 0, 0, false, base), []) else
    var (r, replies) := RefRun(base, kind, limit, rates, calls[..|calls| - 1]);
    var (r', reply) := RefStep(kind, limit, rates, r, calls[|calls| - 1]);
    (r', replies + [reply])
  }

  /** How the machine's counters stand for the true sums. */
  ghost predicate GasTracks(s: SessionState, r: Reference) {
    && s.gas == GasSummary(Sat(r.execution), Sat(r.io), Sat(r.storage))
    && s.consumed == Sat(r.accepted) <= s.limit
    && (r.failed ==> s.limit < r.Attempted() && s.limit < U64_MAX)
    && (!r.failed ==> r.Attempted() == r.accepted)
  }

  ghost predicate Tracks(base: State, s: SessionState, r: Reference) {
    GasTracks(s, r) && Overlay(base, s.overlay) == r.plain
  }

  /** Saturation, of the sum or of the amount, never changes whether a charge fits. */
  lemma SameVerdict(accepted: nat, amount: nat, limit: u64)
    requires Sat(accepted) <= limit
    ensures SatAdd(Sat(accepted), Sat(amount)) <= limit <==> limit == U64_MAX || accepted + amount <= limit
  {
  }

  lemma ChargeTracksGas(s: SessionState, r: Reference, account: Account, amount: nat)
    requires GasTracks(s, r)
    ensures var (s', ok) := ChargeStep(s, account, Sat(amount));
      var (r', ok') := RefCharge(s.limit, r, account, amount);
      ok == ok' && GasTracks(s', r')
  {
    hide SatAdd, Sat;
    assert s.consumed == Sat(r.accepted);
    SatSum(r.accepted, amount);
    SatSum(r.execution, amount);
    SatSum(r.io, amount);
    SatSum(r.storage, amount);
    SameVerdict(r.accepted, amount, s.limit);
    AttemptedGrows(s.limit, r, account, amount);
  }

  /** A charge that does not fit takes the attempted sum over the limit, for good. */
  lemma AttemptedGrows(limit: u64, r: Reference, account: Account, amount: nat)
    ensures RefCharge(limit, r, account, amount).0.Attempted() == r.Attempted() + amount
  {
  }

  lemma ChargeLeavesMaps(s: SessionState, r: Reference, account: Account, amount: u64, cost: nat)
    ensures var (s', ok), (r', _) := ChargeStep(s, account, amount), RefCharge(s.limit, r, account, cost);
      && s'.overlay == s.overlay && s'.kind == s.kind && s'.limit == s.limit && s'.rates == s.rates
      && (!ok ==> s'.consumed == s.consumed) && r'.plain == r.plain
  {
  }

  /** The costs of the machine are the true products, cut off once. */
  lemma CostsAreProducts(rates: Rates, value: Bytes)
    ensures ReadCost(rates, Some(value)) == Sat(|value| * rates.readPerByte)
    ensures WriteCost(rates, value) == Sat(|value| * rates.writePerByte)
    ensures ReadCost(rates, None) == Sat(0)
  {
    SatProduct(|value|, rates.readPerByte);
    SatProduct(|value|, rates.writePerByte);
    ProductIs(|value|, rates.readPerByte);
    ProductIs(|value|, rates.writePerByte);
    SatOfU64(0);
    hide SatMul, Sat, Product;
  }

  /** The machine and the reference answer a call alike and stay in step. */
  ghost predicate StepMatches(base: State, s: SessionState, r: Reference, call: Call) {
    var (s', reply), (r', reply') := CallStep(base, s, call), RefStep(s.kind, s.limit, s.rates, r, call);
    && reply == reply' && Tracks(base, s', r')
    && s'.kind == s.kind && s'.limit == s.limit && s'.rates == s.rates
  }

  lemma ReadTracks(base: State, s: SessionState, r: Reference, owner: Address, tag: Bytes)
    requires Tracks(base, s, r)
    ensures StepMatches(base, s, r, ReadResource(owner, tag))
  {
    hide GasTracks, ChargeStep, RefCharge, ReadCost, ResourceKey, Sat;
    var value := Get(r.plain, owner, ResourceKey(tag));
    var cost := if value.Some? then |value.value| * s.rates.readPerByte else 0;
    CostsAreProducts(s.rates, if value.Some? then value.value else []);
    ChargeTracksGas(s, r, OnIo, cost);
    ChargeLeavesMaps(s, r, OnIo, Sat(cost), cost);
  }

  lemma WriteTracks(base: State, s: SessionState, r: Reference, owner: Address, tag: Bytes, value: Bytes)
    requires Tracks(base, s, r)
    ensures StepMatches(base, s, r, WriteResource(owner, tag, value))
  {
    hide Overlay, ChargeStep, RefCharge, WriteCost, ResourceKey, Sat, GasTracks;
    var cost := |value| * s.rates.writePerByte;
    CostsAreProducts(s.rates, value);
    ChargeTracksGas(s, r, OnStorage, cost);
    ChargeLeavesMaps(s, r, OnStorage, Sat(cost), cost);
    var call := WriteResource(owner, tag, value);
    if s.kind != ReadOnly {
      SameGas(ChargeStep(s, OnStorage, Sat(cost)).0, RefCharge(s.limit, r, OnStorage, cost).0,
              CallStep(base, s, call).0, RefStep(s.kind, s.limit, s.rates, r, call).0);
    }
    OverlayPut(base, s.overlay, (owner, ResourceKey(tag)), Some(value));
  }

  /** Writes past the session's methods change the store and nothing else. */
  lemma StoreTracks(base: State, s: SessionState, r: Reference, call: Call)
    requires Tracks(base, s, r) && (call.StoreSet? || call.StoreRemove?)
    ensures StepMatches(base, s, r, call)
  {
    hide Overlay, GasTracks, ResourceKey;
    SameGas(s, r, CallStep(base, s, call).0, RefStep(s.kind, s.limit, s.rates, r, call).0);
    OverlayPut(base, s.overlay, (call.owner, ResourceKey(call.typeTag)),
               if call.StoreSet? then Some(call.value) else None);
  }

  lemma StepTracks(base: State, s: SessionState, r: Reference, call: Call)
    requires Tracks(base, s, r)
    ensures StepMatches(base, s, r, call)
  {
    match call {
      case Charge(account, amount) =>
        SatOfU64(amount);
        hide Overlay, GasTracks, ChargeStep, RefCharge;
        ChargeTracksGas(s, r, account, amount);
        ChargeLeavesMaps(s, r, account, amount, amount);
      case ReadResource(owner, tag) =>
        hide StepMatches, Tracks;
        ReadTracks(base, s, r, owner, tag);
      case WriteResource(owner, tag, value) =>
        hide StepMatches, Tracks;
        WriteTracks(base, s, r, owner, tag, value);
      case _ =>
        hide StepMatches, Tracks;
        StoreTracks(base, s, r, call);
    }
  }

  lemma SameGas(s: SessionState, r: Reference, s': SessionState, r': Reference)
    requires GasTracks(s, r) && s' == s.(overlay := s'.overlay) && r' == r.(plain := r'.plain)
    ensures GasTracks(s', r')
  {
  }

  lemma OpenedTracks(base: State, kind: SessionKind, limit: u64, rates: Rates)
    ensures Tracks(base, Opened(kind, limit, rates), Reference(0, 0, 0, 0, false, base))
  {
    OverlayNothing(base);
  }

  /** A session and its reference, after the same calls. */
  ghost predicate RunMatches(base: State, kind: SessionKind, limit: u64, rates: Rates, calls: seq<Call>) {
    var run, ref := RunCalls(base, Opened(kind, limit, rates), calls), RefRun(base, kind, limit, rates, calls);
    && run.1 == ref.1 && Tracks(base, run.0, ref.0)
    && run.0.kind == kind && run.0.limit == limit && run.0.rates == rates
  }

  lemma {:induction false} RunTracks(base: State, kind: SessionKind, limit: u64, rates: Rates, calls: seq<Call>)
    ensures RunMatches(base, kind, limit, rates, calls)
  {
    hide Tracks, CallStep, RefStep, Overlay;
    if calls == [] {
      OpenedTracks(base, kind, limit, rates);
    } else {
      var front := calls[..|calls| - 1];
      RunTracks(base, kind, limit, rates, front);
      var run, ref := RunCalls(base, Opened(kind, limit, rates), front), RefRun(base, kind, limit, rates, front);
      StepTracks(base, run.0, ref.0, calls[|calls| - 1]);
    }
  }

  /**
   Every session, whatever its calls: it answers as the reference does, its summary holds the
   reference's three sums up to the top u64 value, its meter stays within the limit and is the exact
   sum of the accepted charges unless the limit is the top u64 value; the summary's total exceeds
   the limit exactly when some charge failed, and equals the meter otherwise.
   */
  lemma GasOfEverySession(base: State, kind: SessionKind, limit: u64, rates: Rates, calls: seq<Call>)
    ensures var (s, replies) := RunCalls(base, Opened(kind, limit, rates), calls);
      var (r, replies') := RefRun(base, kind, limit, rates, calls);
      && replies == replies'
      && s.gas.executionGas == (if r.execution <= U64_MAX then r.execution else U64_MAX)
      && s.gas.ioGas == (if r.io <= U64_MAX then r.io else U64_MAX)
      && s.gas.storageFee == (if r.storage <= U64_MAX then r.storage else U64_MAX)
      && s.consumed <= limit && (limit < U64_MAX ==> s.consumed == r.accepted)
      && (r.failed <==> s.gas.Total() > limit)
      && (!r.failed ==> s.gas.Total() == s.consumed)
  {
    hide Overlay, RunCalls, RefRun;
    RunTracks(base, kind, limit, rates, calls);
  }

  /** Committing any session moves the base state exactly to the reference's plain map. */
  lemma CommitOfEverySession(base: State, kind: SessionKind, limit: u64, rates: Rates, calls: seq<Call>)
    ensures var s := RunCalls(base, Opened(kind, limit, rates), calls).0;
      Overlay(base, s.overlay) == RefRun(base, kind, limit, rates, calls).0.plain
  {
    hide Overlay, RunCalls, RefRun;
    RunTracks(base, kind, limit, rates, calls);
  }

  /** A read-only session has something to commit exactly when its store was written past it. */
  lemma {:induction false} ReadOnlyCommitsNothing(base: State, limit: u64, rates: Rates, calls: seq<Call>)
    ensures var s := RunCalls(base, Opened(ReadOnly, limit, rates), calls).0;
      && s.kind == ReadOnly
      && (s.overlay == map[] <==> forall i :: 0 <= i < |calls| ==> !calls[i].StoreSet? && !calls[i].StoreRemove?)
  {
    hide ChargeStep, ResourceKey;
    if calls != [] {
      var front, last := calls[..|calls| - 1], calls[|calls| - 1];
      var s := RunCalls(base, Opened(ReadOnly, limit, rates), front).0;
      ReadOnlyCommitsNothing(base, limit, rates, front);
      forall account, amount: u64 ensures ChargeStep(s, account, amount).0.overlay == s.overlay
        && ChargeStep(s, account, amount).0.kind == s.kind
      {
        ChargeLeavesMaps(s, Reference(0, 0, 0, 0, false, base), account, amount, amount);
      }
      assert calls == front + [last];
    }
  }

  /** A write that runs out of gas changes neither the overlay nor the meter. */
  lemma DeniedWriteChangesNothing(base: State, s: SessionState, owner: Address, tag: Bytes, value: Bytes)
    requires CallStep(base, s, WriteResource(owner, tag, value)).1.Denied?
    ensures var s' := CallStep(base, s, WriteResource(owner, tag, value)).0;
      s'.overlay == s.overlay && s'.consumed == s.consumed
  {
  }

  /** A write is seen under its own type tag and under no other. */
  lemma WritesDoNotInterfere(st: State, owner: Address, tag: Bytes, value: Bytes, reader: Address, other: Bytes)
    ensures Get(st[(owner, ResourceKey(tag)) := value], reader, ResourceKey(other)) ==
      if reader == owner && other == tag then Some(value) else Get(st, reader, ResourceKey(other))
  {
    hide ResourceKey;
    if ResourceKey(other) == ResourceKey(tag) { ResourceKeyInjective(other, tag); }
  }
}
