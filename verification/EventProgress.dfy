/**
 What operations on GUIDs, handles and emitters do and when they abort, stated over the session
 alone; long rows of events and pings that do not abort; and the exact gas of every transaction.
 */
module EventProgress {
  import opened Base
  import opened Events
  import opened EventStreams

  // ---- When an operation aborts, and what it does otherwise ----

  /** The account has no creation number left. */
  predicate Exhausted(w: World, a: Address) {
    NextCreationNum(w, a) == U64_MAX
  }

  /** Why an operation aborts, if it does. */
  function Refusal(limit: u64, s: Session, op: Op): Option<Abort> {
    var w := s.world;
    match op
    case PublishGenerator(a) => if a in w.generators then Some(ResourceAlreadyExists) else None
    case GenCreateCapability(_) => None
    case CreateGuid(a) => if Exhausted(w, a) then Some(ArithmeticError) else None
    case CreateWithCapability(a) =>
      if a !in w.generators then Some(MoveAbort(0)) else if Exhausted(w, a) then Some(ArithmeticError) else None
    case NewEventHandle(a, slot) =>
      if Exhausted(w, a) then Some(ArithmeticError)
      else if Slot(slot) in w.handles then Some(ResourceAlreadyExists) else None
    case EmitEvent(slot, _, _) =>
      if Slot(slot) !in w.handles then Some(MissingResource)
      else if w.handles[Slot(slot)].counter + 1 > U64_MAX then Some(ArithmeticError) else None
    case DestroyHandle(slot) => if Slot(slot) in w.handles then None else Some(MissingResource)
    case Initialize(a) =>
      if Exhausted(w, a) then Some(ArithmeticError)
      else if EmitterOf(a) in w.handles then Some(ResourceAlreadyExists) else None
    case Ping(a, _) =>
      if a !in w.pings then Some(MissingResource)
      else if w.pings[a] + 1 > U64_MAX then Some(ArithmeticError)
      else if EmitterOf(a) !in w.handles then Some(MissingResource)
      else if w.handles[EmitterOf(a)].counter + 1 > U64_MAX then Some(ArithmeticError) else None
    case ChargeGas(amount) => if limit < U64_MAX && s.consumed + amount > limit then Some(OutOfGas) else None
    case UserAbort(code) => Some(MoveAbort(code))
  }

  /** An operation aborts exactly as the session calls for. */
  lemma AbortsAsRefused(limit: u64, s: Session, op: Op)
    ensures Step(limit, s, op).1 == Refusal(limit, s, op)
  {
    hide GuidBytes, U64Le;
  }

  /** An event of a handle: its GUID as creation number and address, its counter, and the payload. */
  function EventOf(h: EventHandle, typeTag: Bytes, data: Bytes): ContractEvent {
    ContractEvent(typeTag, U64Le(h.guid.creationNum) + h.guid.addr, h.counter, data)
  }

  /** GUIDs and generators: what each operation leaves when it does not abort. */
  lemma GuidEffects(limit: u64, s: Session, op: Op)
    requires Refusal(limit, s, op).None?
    requires op.PublishGenerator? || op.GenCreateCapability? || op.CreateGuid? || op.CreateWithCapability?
    ensures var s' := Step(limit, s, op).0;
      var a := if op.CreateWithCapability? then op.addr else op.account;
      var next := if a in s.world.generators then s.world.generators[a] else 0;
      if op.CreateGuid? || op.CreateWithCapability?
      then s' == s.(world := s.world.(generators := s.world.generators[a := next + 1]),
                    issued := s.issued + [GUID(next, a)])
      else s' == s.(world := s.world.(generators := s.world.generators[a := next]))
  {
    hide GuidBytes, U64Le;
    var a := if op.CreateWithCapability? then op.addr else op.account;
    if a in s.world.generators {
      assert s.world.generators[a := s.world.generators[a]] == s.world.generators;
    } else {
      assert s.world.generators[a := 0][a := 1] == s.world.generators[a := 1];
    }
  }

  /** After a capability has been handed out, creating with it succeeds unless the numbers are used up. */
  lemma CapabilityCanCreate(limit: u64, s: Session, a: Address)
    requires !Exhausted(s.world, a)
    ensures RunOps(limit, s, [GenCreateCapability(a), CreateWithCapability(a)]).1.None?
  {
    var ops := [GenCreateCapability(a), CreateWithCapability(a)];
    assert ops[1..] == [CreateWithCapability(a)] && ops[1..][1..] == [];
    var s' := Step(limit, s, ops[0]).0;
    assert RunOps(limit, s, ops) == RunOps(limit, s', ops[1..]);
    assert RunOps(limit, Step(limit, s', ops[1]).0, []).1.None?;
  }

  /** Handles: a new one starts at zero under the next GUID; destroying one leaves all others. */
  lemma HandleEffects(limit: u64, s: Session, op: Op)
    requires Refusal(limit, s, op).None? && (op.NewEventHandle? || op.Initialize? || op.DestroyHandle?)
    ensures var s' := Step(limit, s, op).0;
      if op.DestroyHandle?
      then s' == s.(world := s.world.(handles := s.world.handles - {Slot(op.slot)}))
      else
        var a := op.account;
        var next := if a in s.world.generators then s.world.generators[a] else 0;
        var p := if op.Initialize? then EmitterOf(a) else Slot(op.slot);
        s' == s.(
          world := World(s.world.generators[a := next + 1],
                         s.world.handles[p := EventHandle(0, GUID(next, a))],
                         if op.Initialize? then s.world.pings[a := 0] else s.world.pings),
          issued := s.issued + [GUID(next, a)])
  {
    hide GuidBytes, U64Le;
    if !op.DestroyHandle? && op.account !in s.world.generators {
      var a := op.account;
      assert s.world.generators[a := 0][a := 1] == s.world.generators[a := 1];
    }
  }

  /** Events: the payload goes out under the old counter, and the counter advances by one. */
  lemma EmitEffect(limit: u64, s: Session, op: Op)
    requires Refusal(limit, s, op).None? && (op.EmitEvent? || op.Ping?)
    ensures var s' := Step(limit, s, op).0;
      var p := if op.Ping? then EmitterOf(op.account) else Slot(op.slot);
      var h := s.world.handles[p];
      && s'.events == s.events + [EventOf(h, op.typeTag, if op.Ping? then U64Le(s.world.pings[op.account] + 1) else op.data)]
      && s'.world.handles == s.world.handles[p := EventHandle(h.counter + 1, h.guid)]
      && s'.world.pings == (if op.Ping? then s.world.pings[op.account := s.world.pings[op.account] + 1] else s.world.pings)
      && s'.world.generators == s.world.generators && s'.issued == s.issued && s'.consumed == s.consumed
  {
    hide U64Le;
  }

  // ---- Rows of events ----

  /** One event after the other from one handle. */
  function Emits(slot: nat, messages: seq<(Bytes, Bytes)>): seq<Op> {
    seq(|messages|, i requires 0 <= i < |messages| => EmitEvent(slot, messages[i].0, messages[i].1))
  }

  /** The events that come out: numbered on from the counter, with type tags and payloads in order. */
  function EventsOf(h: EventHandle, messages: seq<(Bytes, Bytes)>): seq<ContractEvent>
    requires h.counter + |messages| <= U64_MAX
  {
    seq(|messages|, i requires 0 <= i < |messages| =>
      EventOf(h.(counter := h.counter + i), messages[i].0, messages[i].1))
  }

  lemma EventsOfStep(h: EventHandle, messages: seq<(Bytes, Bytes)>)
    requires messages != [] && h.counter + |messages| <= U64_MAX
    ensures EventsOf(h, messages)
         == [EventOf(h, messages[0].0, messages[0].1)] + EventsOf(h.(counter := h.counter + 1), messages[1..])
  {
    hide U64Le;
  }

  /**
   A row of events from a live handle goes out exactly when the counter has room for all of them:
   then nothing aborts and the events are numbered from the counter on, else it overflows.
   */
  lemma {:induction false} EmitsSucceedIff(limit: u64, s: Session, slot: nat, messages: seq<(Bytes, Bytes)>)
    requires Slot(slot) in s.world.handles
    ensures var h := s.world.handles[Slot(slot)];
      var (s', abort) := RunOps(limit, s, Emits(slot, messages));
      if h.counter + |messages| <= U64_MAX then
        && abort.None?
        && s' == s.(events := s.events + EventsOf(h, messages),
                    world := WithHandle(s.world, Slot(slot), h.(counter := h.counter + |messages|)))
      else abort == Some(ArithmeticError)
    decreases |messages|
  {
    hide EventOf, GuidBytes;
    var h := s.world.handles[Slot(slot)];
    if messages == [] {
      assert s.events + EventsOf(h, messages) == s.events;
      assert s.world.handles[Slot(slot) := h] == s.world.handles;
    } else {
      var ops := Emits(slot, messages);
      assert ops[1..] == Emits(slot, messages[1..]);
      AbortsAsRefused(limit, s, ops[0]);
      var (s1, abort) := Step(limit, s, ops[0]);
      if abort.None? {
        EmitEffect(limit, s, ops[0]);
        var h1 := s1.world.handles[Slot(slot)];
        EmitsSucceedIff(limit, s1, slot, messages[1..]);
        hide Step;
        if h.counter + |messages| <= U64_MAX {
          EventsOfStep(h, messages);
          assert s1.events + EventsOf(h1, messages[1..]) == s.events + EventsOf(h, messages);
          assert s1.world.handles[Slot(slot) := h1.(counter := h1.counter + |messages[1..]|)]
              == s.world.handles[Slot(slot) := h.(counter := h.counter + |messages|)];
        }
      }
    }
  }

  /** One ping after the other from one account. */
  function Pings(a: Address, typeTags: seq<Bytes>): seq<Op> {
    seq(|typeTags|, i requires 0 <= i < |typeTags| => Ping(a, typeTags[i]))
  }

  /** The messages of pings after `count` earlier ones: each carries its own number. */
  function PingMessages(count: u64, typeTags: seq<Bytes>): seq<(Bytes, Bytes)>
    requires count + |typeTags| <= U64_MAX
  {
    seq(|typeTags|, i requires 0 <= i < |typeTags| => (typeTags[i], U64Le(count + i + 1)))
  }

  /** A row of pings from an emitter in order goes out exactly when the ping count has room for it. */
  lemma {:induction false} PingsSucceedIff(limit: u64, s: Session, a: Address, typeTags: seq<Bytes>)
    requires a in s.world.pings && EmitterOf(a) in s.world.handles
    requires s.world.handles[EmitterOf(a)].counter == s.world.pings[a]
    ensures var h := s.world.handles[EmitterOf(a)];
      var (s', abort) := RunOps(limit, s, Pings(a, typeTags));
      if h.counter + |typeTags| <= U64_MAX then
        && abort.None? && s'.issued == s.issued && s'.consumed == s.consumed
        && s'.events == s.events + EventsOf(h, PingMessages(h.counter, typeTags))
        && s'.world == World(s.world.generators,
             s.world.handles[EmitterOf(a) := h.(counter := h.counter + |typeTags|)],
             s.world.pings[a := h.counter + |typeTags|])
      else abort == Some(ArithmeticError)
    decreases |typeTags|
  {
    hide EventOf, GuidBytes, U64Le;
    var h := s.world.handles[EmitterOf(a)];
    if typeTags == [] {
      assert s.events + EventsOf(h, PingMessages(h.counter, typeTags)) == s.events;
      assert s.world.handles[EmitterOf(a) := h] == s.world.handles;
      assert s.world.pings[a := h.counter] == s.world.pings;
    } else {
      var ops := Pings(a, typeTags);
      assert ops[1..] == Pings(a, typeTags[1..]);
      AbortsAsRefused(limit, s, ops[0]);
      var (s1, abort) := Step(limit, s, ops[0]);
      if abort.None? {
        EmitEffect(limit, s, ops[0]);
        hide Step;
        var h1 := s1.world.handles[EmitterOf(a)];
        PingsSucceedIff(limit, s1, a, typeTags[1..]);
        if h.counter + |typeTags| <= U64_MAX {
          var messages := PingMessages(h.counter, typeTags);
          assert messages[1..] == PingMessages(h1.counter, typeTags[1..]);
          EventsOfStep(h, messages);
          assert s1.events + EventsOf(h1, messages[1..]) == s.events + EventsOf(h, messages);
          assert s1.world.handles[EmitterOf(a) := h1.(counter := h1.counter + |typeTags[1..]|)]
              == s.world.handles[EmitterOf(a) := h.(counter := h.counter + |typeTags|)];
        }
      }
    }
  }

  /**
   After any run, a transaction of pings succeeds exactly when the account has an emitter whose count
   has room for them (no pings at all always succeed); the events are the next ones of its stream.
   */
  lemma PingsInEveryRun(txs: seq<Transaction>, tx: Transaction, a: Address, typeTags: seq<Bytes>)
    requires tx.loads && tx.ops == Pings(a, typeTags)
    ensures var c := Run(GENESIS, txs);
      var (c', out) := Execute(c, tx);
      && (out.status.Success? <==> typeTags == [] || (a in c.world.pings && c.world.pings[a] + |typeTags| <= U64_MAX))
      && (out.status.Success? && typeTags != [] ==>
            && EmitterOf(a) in c.world.handles && c.world.handles[EmitterOf(a)].counter == c.world.pings[a]
            && out.events == EventsOf(c.world.handles[EmitterOf(a)], PingMessages(c.world.pings[a], typeTags))
            && c'.log == c.log + out.events && c'.world.pings == c.world.pings[a := c.world.pings[a] + |typeTags|])
  {
    hide GuidBytes, Run, Inv, U64Le;
    var c := Run(GENESIS, txs);
    GenesisInv();
    RunKeepsInv(GENESIS, txs);
    var s := StartSession(c);
    assert c.log + [] == c.log && c.issued + [] == c.issued;
    if a in c.world.pings {
      EmitterOfPing(c.world, c.log, c.issued, a);
      PingsSucceedIff(tx.gasLimit, s, a, typeTags);
      if c.world.pings[a] + |typeTags| <= U64_MAX {
        var events := EventsOf(c.world.handles[EmitterOf(a)], PingMessages(c.world.pings[a], typeTags));
        assert [] + events == events;
      }
    } else if typeTags != [] {
      AbortsAsRefused(tx.gasLimit, s, tx.ops[0]);
    }
  }

  // ---- The gas of every transaction ----

  /** The true sum of the amounts that operations charge. */
  function ChargedBy(ops: seq<Op>): nat {
    if ops == [] then 0 else
    ChargedBy(ops[1..]) + if ops[0].ChargeGas? then ops[0].amount else 0
  }

  lemma StepConsumes(limit: u64, s: Session, op: Op)
    ensures var (s', abort) := Step(limit, s, op);
      s'.consumed == if op.ChargeGas? && abort.None? then SatAdd(s.consumed, op.amount) else s.consumed
  {
    hide GuidBytes, U64Le, SatAdd;
  }

  /** Operations that all go through consume what they charge. */
  lemma {:induction false} CompletedConsume(limit: u64, s: Session, ops: seq<Op>, before: nat)
    requires s.consumed == Sat(before) && RunOps(limit, s, ops).1.None?
    ensures RunOps(limit, s, ops).0.consumed == Sat(before + ChargedBy(ops))
    decreases |ops|
  {
    hide Step, Sat, SatAdd;
    if ops != [] {
      var amount := if ops[0].ChargeGas? then ops[0].amount else 0;
      StepConsumes(limit, s, ops[0]);
      SatOfU64(amount);
      SatSum(before, amount);
      CompletedConsume(limit, Step(limit, s, ops[0]).0, ops[1..], before + amount);
    }
  }

  /** The first `k` operations go through, and the next one aborts. */
  ghost predicate StopsAt(limit: u64, s: Session, ops: seq<Op>, k: nat, reason: Abort) {
    && k < |ops| && RunOps(limit, s, ops[..k]).1.None?
    && Refusal(limit, RunOps(limit, s, ops[..k]).0, ops[k]) == Some(reason)
  }

  lemma {:induction false} AbortedStopsAt(limit: u64, s: Session, ops: seq<Op>) returns (k: nat)
    requires RunOps(limit, s, ops).1.Some?
    ensures StopsAt(limit, s, ops, k, RunOps(limit, s, ops).1.value)
    ensures RunOps(limit, s, ops).0.consumed == RunOps(limit, s, ops[..k]).0.consumed
    decreases |ops|
  {
    hide Step, Refusal;
    AbortsAsRefused(limit, s, ops[0]);
    StepConsumes(limit, s, ops[0]);
    var (s1, abort) := Step(limit, s, ops[0]);
    if abort.Some? {
      k := 0;
    } else {
      var j := AbortedStopsAt(limit, s1, ops[1..]);
      k := j + 1;
      assert ops[..k][1..] == ops[1..][..j] && ops[..k][0] == ops[0];
      assert RunOps(limit, s, ops[..k]) == RunOps(limit, s1, ops[1..][..j]);
    }
  }

  /** The larger of what was charged and the estimate if that fits the limit, else the limit. */
  function ReportedGas(charged: nat, estimate: u64, limit: u64): nat {
    if charged > limit || estimate > limit then limit
    else if charged >= estimate then charged else estimate
  }

  /**
   The gas and the values that any transaction reports. A success counts every charge, an abort
   those before the operation that aborts, and code that does not load none; each has its estimate.
   */
  lemma GasOfEveryTransaction(c: Chain, tx: Transaction)
    ensures var out := Execute(c, tx).1;
      && (out.status.Success? ==>
            out.gasUsed == ReportedGas(ChargedBy(tx.ops), tx.estimate, tx.gasLimit)
            && out.returnValues == tx.returnValues)
      && (!tx.loads ==> out.status == Aborted(LoadFailure) && out.gasUsed == ReportedGas(0, tx.loadEstimate, tx.gasLimit))
      && (tx.loads && !out.status.Success? ==>
            exists k: nat :: StopsAt(tx.gasLimit, StartSession(c), tx.ops, k, out.status.reason)
              && out.gasUsed == ReportedGas(ChargedBy(tx.ops[..k]), tx.abortEstimate, tx.gasLimit))
  {
    hide RunOps, StopsAt, ChargedBy, Sat, Min64, Max64, ReportedGas;
    var s := StartSession(c);
    SatOfU64(0);
    if !tx.loads {
      Clamped(0, tx.loadEstimate, tx.gasLimit);
    } else if RunOps(tx.gasLimit, s, tx.ops).1.None? {
      CompletedConsume(tx.gasLimit, s, tx.ops, 0);
      Clamped(ChargedBy(tx.ops), tx.estimate, tx.gasLimit);
    } else {
      var k := AbortedStopsAt(tx.gasLimit, s, tx.ops);
      StopsAfter(tx.gasLimit, s, tx.ops, k, RunOps(tx.gasLimit, s, tx.ops).1.value);
      CompletedConsume(tx.gasLimit, s, tx.ops[..k], 0);
      Clamped(ChargedBy(tx.ops[..k]), tx.abortEstimate, tx.gasLimit);
    }
  }

  lemma StopsAfter(limit: u64, s: Session, ops: seq<Op>, k: nat, reason: Abort)
    requires StopsAt(limit, s, ops, k, reason)
    ensures k < |ops| && RunOps(limit, s, ops[..k]).1.None?
  {
  }

  lemma Clamped(charged: nat, estimate: u64, limit: u64)
    ensures Min64(Max64(Sat(charged), estimate), limit) == ReportedGas(charged, estimate, limit)
  {
  }
}
