/**
 GUIDs and event streams: guid.move, event.move, the event store of nexus-move-stdlib, the
 gas meter of the interpreter, and the commit or abort of `execute_function`. The part of
 the interpreter that is not modelled appears as an arbitrary sequence of operations.
 */
module Events {
  import opened Base

  datatype GUID = GUID(creationNum: u64, addr: Address)

  datatype EventHandle = EventHandle(counter: u64, guid: GUID)

  /**
   Where a handle is kept: in a resource of some module, or in an account's `Emitter`, which
   only the emitter module can reach. Handles cannot be copied, so a place is all there is to one.
   */
  datatype Place = Slot(id: nat) | EmitterOf(account: Address)

  /** Global storage; an account in `pings` holds an `Emitter` with that ping count. */
  datatype World = World(generators: map<Address, u64>, handles: map<Place, EventHandle>, pings: map<Address, u64>)

  /**
   A transaction in flight: its copy of the storage, the events pushed to its store, the
   GUIDs it has issued (a history that no code reads), and the gas consumed so far.
   */
  datatype Session = Session(world: World, events: seq<ContractEvent>, issued: seq<GUID>, consumed: u64)

  datatype Abort =
    | MoveAbort(code: u64)
    | ResourceAlreadyExists
    | ArithmeticError
    | OutOfGas
    | MissingResource
    | LoadFailure

  const EGUID_GENERATOR_NOT_PUBLISHED: u64 := 0

  datatype Op =
    | PublishGenerator(account: Address)
    | GenCreateCapability(account: Address)
    | CreateGuid(account: Address)
    | CreateWithCapability(addr: Address)
    | NewEventHandle(account: Address, slot: nat)
    | EmitEvent(slot: nat, typeTag: Bytes, data: Bytes)
    | DestroyHandle(slot: nat)
    | Initialize(account: Address)
    | Ping(account: Address, typeTag: Bytes)
    | ChargeGas(amount: u64)
    | UserAbort(code: u64)

  // ---- GUIDs as bytes ----

  function U64Le(n: u64): (b: Bytes)
    ensures |b| == 8
  {
    U32Le(n % U32_LIMIT) + U32Le(n / U32_LIMIT)
  }

  /** `to_le_bytes` of a u64: eight bytes, and the number as their value. */
  lemma U64LittleEndian(n: u64)
    ensures |U64Le(n)| == 8 && LeValue(U64Le(n)) == n
  {
    hide U32Le;
    var low, high := U32Le(n % U32_LIMIT), U32Le(n / U32_LIMIT);
    LittleEndian(n % U32_LIMIT);
    LittleEndian(n / U32_LIMIT);
    LeConcat(low, high);
  }

  lemma LeConcat(a: Bytes, b: Bytes)
    requires |a| == 4
    ensures LeValue(a + b) == LeValue(a) + U32_LIMIT * LeValue(b)
  {
    LeSteps(a + b);
    assert (a + b)[2..] == a[2..] + b;
    LeSteps(a[2..] + b);
    assert (a[2..] + b)[2..] == b;
    LeSteps(a);
    LeSteps(a[2..]);
    assert a[2..][2..] == [];
  }

  /** The BCS encoding of a GUID: the creation number, then the address. */
  function GuidBytes(g: GUID): Bytes {
    U64Le(g.creationNum) + g.addr
  }

  lemma GuidBytesInjective(g: GUID, h: GUID)
    requires GuidBytes(g) == GuidBytes(h)
    ensures g == h
  {
    hide U32Le, FromU32Le;
    U64LeInjective(g.creationNum, h.creationNum, g.addr, h.addr);
  }

  lemma U64LeInjective(m: u64, n: u64, a: Bytes, b: Bytes)
    requires U64Le(m) + a == U64Le(n) + b
    ensures m == n && a == b
  {
    hide U32Le, FromU32Le;
    SplitAt(U64Le(m), a);
    SplitAt(U64Le(n), b);
    SplitAt(U32Le(m % U32_LIMIT), U32Le(m / U32_LIMIT));
    SplitAt(U32Le(n % U32_LIMIT), U32Le(n / U32_LIMIT));
    U32LeRoundTrip(m % U32_LIMIT, []);
    U32LeRoundTrip(n % U32_LIMIT, []);
    U32LeRoundTrip(m / U32_LIMIT, []);
    U32LeRoundTrip(n / U32_LIMIT, []);
  }

  // ---- One operation ----

  function WithGenerator(w: World, a: Address): World {
    if a in w.generators then w else w.(generators := w.generators[a := 0])
  }

  /** `create_impl`: hands out the counter and advances it, unless that overflows. */
  function CreateImpl(s: Session, a: Address): (Session, Result<GUID, Abort>)
    requires a in s.world.generators
  {
    var num := s.world.generators[a];
    if num == U64_MAX then (s, Err(ArithmeticError)) else
    var g := GUID(num, a);
    (s.(world := s.world.(generators := s.world.generators[a := num + 1]), issued := s.issued + [g]), Ok(g))
  }

  /** `create`: publishes a generator first where there is none. */
  function Create(s: Session, a: Address): (Session, Result<GUID, Abort>) {
    CreateImpl(s.(world := WithGenerator(s.world, a)), a)
  }

  /** `new_event_handle`, and the `move_to` that keeps the handle: it needs a free place. */
  function NewHandle(s: Session, a: Address, p: Place): (Session, Option<Abort>) {
    var (s', r) := Create(s, a);
    if r.Err? then (s', Some(r.error))
    else if p in s'.world.handles then (s', Some(ResourceAlreadyExists))
    else (s'.(world := WithHandle(s'.world, p, EventHandle(0, r.value))), None)
  }

  function WithHandle(w: World, p: Place, h: EventHandle): World {
    w.(handles := w.handles[p := h])
  }

  /** Pushes the event with the current counter, and only then advances the counter. */
  function Emit(s: Session, p: Place, typeTag: Bytes, data: Bytes): (Session, Option<Abort>) {
    if p !in s.world.handles then (s, Some(MissingResource)) else
    var h := s.world.handles[p];
    var pushed := s.(events := s.events + [ContractEvent(typeTag, GuidBytes(h.guid), h.counter, data)]);
    if h.counter == U64_MAX then (pushed, Some(ArithmeticError)) else
    (pushed.(world := WithHandle(s.world, p, h.(counter := h.counter + 1))), None)
  }

  /** The emitter module: a handle and a ping count in one resource. */
  function InitializeEmitter(s: Session, a: Address): (Session, Option<Abort>) {
    var (s', abort) := NewHandle(s.(world := WithGenerator(s.world, a)), a, EmitterOf(a));
    if abort.Some? then (s', abort) else (s'.(world := s'.world.(pings := s'.world.pings[a := 0])), None)
  }

  /** Counts the ping, and emits an event that carries the new count. */
  function PingEmitter(s: Session, a: Address, typeTag: Bytes): (Session, Option<Abort>) {
    if a !in s.world.pings then (s, Some(MissingResource)) else
    var count := s.world.pings[a];
    if count == U64_MAX then (s, Some(ArithmeticError)) else
    Emit(s.(world := s.world.(pings := s.world.pings[a := count + 1])), EmitterOf(a), typeTag, U64Le(count + 1))
  }

  function Charge(limit: u64, s: Session, amount: u64): (Session, Option<Abort>) {
    var next := SatAdd(s.consumed, amount);
    if next > limit then (s, Some(OutOfGas)) else (s.(consumed := next), None)
  }

  function Step(limit: u64, s: Session, op: Op): (Session, Option<Abort>) {
    match op
    case PublishGenerator(a) =>
      if a in s.world.generators then (s, Some(ResourceAlreadyExists))
      else (s.(world := WithGenerator(s.world, a)), None)
    case GenCreateCapability(a) =>
      (s.(world := WithGenerator(s.world, a)), None)
    case CreateGuid(a) =>
      var (s', r) := Create(s, a);
      (s', if r.Ok? then None else Some(r.error))
    case CreateWithCapability(a) =>
      if a !in s.world.generators then (s, Some(MoveAbort(EGUID_GENERATOR_NOT_PUBLISHED))) else
      var (s', r) := CreateImpl(s, a);
      (s', if r.Ok? then None else Some(r.error))
    case NewEventHandle(a, slot) => NewHandle(s, a, Slot(slot))
    case EmitEvent(slot, typeTag, data) => Emit(s, Slot(slot), typeTag, data)
    case DestroyHandle(slot) =>
      if Slot(slot) !in s.world.handles then (s, Some(MissingResource))
      else (s.(world := s.world.(handles := s.world.handles - {Slot(slot)})), None)
    case Initialize(a) => InitializeEmitter(s, a)
    case Ping(a, typeTag) => PingEmitter(s, a, typeTag)
    case ChargeGas(amount) => Charge(limit, s, amount)
    case UserAbort(code) => (s, Some(MoveAbort(code)))
  }

  // ---- Transactions and runs ----

  /** Runs until the first abort; the session is returned as the abort leaves it. */
  function RunOps(limit: u64, s: Session, ops: seq<Op>): (Session, Option<Abort>)
    decreases |ops|
  {
    if ops == [] then (s, None) else
    var (s', abort) := Step(limit, s, ops[0]);
    if abort.Some? then (s', abort) else RunOps(limit, s', ops[1..])
  }

  /** What a node keeps: committed storage, every event ever put out, every GUID ever issued. */
  datatype Chain = Chain(world: World, log: seq<ContractEvent>, issued: seq<GUID>)

  const GENESIS := Chain(World(map[], map[], map[]), [], [])

  /**
   A function call or script. Whether its code loads, what it returns if it gets that far, and
   whatever the gas schedule estimates for a load failure, a success and an abort, are parameters.
   */
  datatype Transaction = Transaction(
    loads: bool, ops: seq<Op>, returnValues: seq<Bytes>,
    gasLimit: u64, loadEstimate: u64, estimate: u64, abortEstimate: u64)

  datatype TransactionStatus = Success | Aborted(reason: Abort)

  datatype TransactionOutput = TransactionOutput(
    status: TransactionStatus, gasUsed: u64, effects: Option<World>, events: seq<ContractEvent>,
    returnValues: seq<Bytes>)

  function StartSession(c: Chain): Session {
    Session(c.world, [], [], 0)
  }

  /** How far the interpreter gets; code that does not load is never interpreted. */
  function Interpreted(c: Chain, tx: Transaction): (Session, Option<Abort>) {
    if tx.loads then RunOps(tx.gasLimit, StartSession(c), tx.ops) else (StartSession(c), Some(LoadFailure))
  }

  function Execute(c: Chain, tx: Transaction): (Chain, TransactionOutput) {
    var (s, abort) := Interpreted(c, tx);
    match abort
    case None =>
      (Chain(s.world, c.log + s.events, c.issued + s.issued),
       TransactionOutput(Success, Min64(Max64(s.consumed, tx.estimate), tx.gasLimit),
                         Some(s.world), s.events, tx.returnValues))
    case Some(reason) =>
      var estimate := if tx.loads then tx.abortEstimate else tx.loadEstimate;
      (c, TransactionOutput(Aborted(reason), Min64(Max64(s.consumed, estimate), tx.gasLimit), None, [], []))
  }

  function Run(c: Chain, txs: seq<Transaction>): Chain
    decreases |txs|
  {
    if txs == [] then c else Run(Execute(c, txs[0]).0, txs[1..])
  }

  // ---- The code: a session object ----

  class MoveSession {
    const limit: u64
    var generators: map<Address, u64>
    var handles: map<Place, EventHandle>
    var pings: map<Address, u64>
    var events: seq<ContractEvent>
    var consumed: u64
    ghost var issued: seq<GUID>

    ghost function View(): Session
      reads this
    {
      Session(World(generators, handles, pings), events, issued, consumed)
    }

    constructor (w: World, limit: u64)
      ensures this.limit == limit && View() == Session(w, [], [], 0)
    {
      this.limit := limit;
      generators, handles, pings := w.generators, w.handles, w.pings;
      events, consumed, issued := [], 0, [];
    }

    method EnsureGenerator(a: Address)
      modifies this
      ensures View() == old(View()).(world := WithGenerator(old(View()).world, a))
    {
      if a !in generators { generators := generators[a := 0]; }
    }

    method CreateImplementation(a: Address) returns (r: Result<GUID, Abort>)
      requires a in generators
      modifies this
      ensures (View(), r) == CreateImpl(old(View()), a)
    {
      var num := generators[a];
      if num == U64_MAX { return Err(ArithmeticError); }
      generators := generators[a := num + 1];
      var g := GUID(num, a);
      issued := issued + [g];
      return Ok(g);
    }

    method NewHandleAt(a: Address, p: Place) returns (abort: Option<Abort>)
      modifies this
      ensures (View(), abort) == NewHandle(old(View()), a, p)
    {
      EnsureGenerator(a);
      var r := CreateImplementation(a);
      if r.Err? { return Some(r.error); }
      if p in handles { return Some(ResourceAlreadyExists); }
      handles := handles[p := EventHandle(0, r.value)];
      return None;
    }

    method EmitEvent(p: Place, typeTag: Bytes, data: Bytes) returns (abort: Option<Abort>)
      modifies this
      ensures (View(), abort) == Emit(old(View()), p, typeTag, data)
    {
      hide GuidBytes;
      if p !in handles { return Some(MissingResource); }
      var h := handles[p];
      events := events + [ContractEvent(typeTag, GuidBytes(h.guid), h.counter, data)];
      if h.counter == U64_MAX { return Some(ArithmeticError); }
      handles := handles[p := h.(counter := h.counter + 1)];
      return None;
    }

    method PingEmitterOf(a: Address, typeTag: Bytes) returns (abort: Option<Abort>)
      modifies this
      ensures (View(), abort) == PingEmitter(old(View()), a, typeTag)
    {
      hide GuidBytes, U64Le;
      if a !in pings { return Some(MissingResource); }
      if pings[a] == U64_MAX { return Some(ArithmeticError); }
      pings := pings[a := pings[a] + 1];
      abort := EmitEvent(EmitterOf(a), typeTag, U64Le(pings[a]));
    }

    method ChargeGas(amount: u64) returns (abort: Option<Abort>)
      modifies this
      ensures (View(), abort) == Charge(limit, old(View()), amount)
    {
      var next := SatAdd(consumed, amount);
      if next > limit { return Some(OutOfGas); }
      consumed := next;
      return None;
    }

    method Apply(op: Op) returns (abort: Option<Abort>)
      modifies this
      ensures (View(), abort) == Step(limit, old(View()), op)
    {
      hide GuidBytes, NewHandle, Emit, PingEmitter, U64Le;
      match op {
        case PublishGenerator(a) =>
          if a in generators { return Some(ResourceAlreadyExists); }
          EnsureGenerator(a);
          return None;
        case GenCreateCapability(a) =>
          EnsureGenerator(a);
          return None;
        case CreateGuid(a) =>
          EnsureGenerator(a);
          var r := CreateImplementation(a);
          return if r.Ok? then None else Some(r.error);
        case CreateWithCapability(a) =>
          if a !in generators { return Some(MoveAbort(EGUID_GENERATOR_NOT_PUBLISHED)); }
          var r := CreateImplementation(a);
          return if r.Ok? then None else Some(r.error);
        case NewEventHandle(a, slot) =>
          abort := NewHandleAt(a, Slot(slot));
        case EmitEvent(slot, typeTag, data) =>
          abort := EmitEvent(Slot(slot), typeTag, data);
        case DestroyHandle(slot) =>
          if Slot(slot) !in handles { return Some(MissingResource); }
          handles := handles - {Slot(slot)};
          return None;
        case Initialize(a) =>
          EnsureGenerator(a);
          abort := NewHandleAt(a, EmitterOf(a));
          if abort.None? { pings := pings[a := 0]; }
        case Ping(a, typeTag) =>
          abort := PingEmitterOf(a, typeTag);
        case ChargeGas(amount) =>
          abort := ChargeGas(amount);
        case UserAbort(code) =>
          return Some(MoveAbort(code));
      }
    }
  }

  /** `get_next_creation_num`: zero where there is no generator. */
  function NextCreationNum(w: World, a: Address): u64 {
    if a in w.generators then w.generators[a] else 0
  }

  /** Interprets the operations in a fresh session, then keeps its effects or drops them all. */
  method ExecuteFunction(c: Chain, tx: Transaction) returns (out: TransactionOutput)
    ensures out == Execute(c, tx).1
  {
    hide Step;
    if !tx.loads {
      return TransactionOutput(Aborted(LoadFailure), Min64(tx.loadEstimate, tx.gasLimit), None, [], []);
    }
    var session := new MoveSession(c.world, tx.gasLimit);
    var abort: Option<Abort> := None;
    var i := 0;
    while i < |tx.ops| && abort.None?
      invariant i <= |tx.ops| && session.limit == tx.gasLimit && fresh(session)
      invariant abort.None? ==>
        RunOps(tx.gasLimit, StartSession(c), tx.ops) == RunOps(tx.gasLimit, session.View(), tx.ops[i..])
      invariant abort.Some? ==>
        RunOps(tx.gasLimit, StartSession(c), tx.ops) == (session.View(), abort)
      decreases |tx.ops| - i
    {
      assert tx.ops[i..][1..] == tx.ops[i + 1..];
      abort := session.Apply(tx.ops[i]);
      i := i + 1;
    }
    if abort.None? {
      out := TransactionOutput(
        Success, Min64(Max64(session.consumed, tx.estimate), tx.gasLimit),
        Some(World(session.generators, session.handles, session.pings)), session.events, tx.returnValues);
    } else {
      out := TransactionOutput(
        Aborted(abort.value), Min64(Max64(session.consumed, tx.abortEstimate), tx.gasLimit), None, [], []);
    }
  }
}
