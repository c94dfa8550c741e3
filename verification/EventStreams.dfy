/**
 What holds in every run of committed and aborted transactions: GUIDs are issued in order
 and never twice, and the events of every stream are numbered 0, 1, 2, ... without a gap.
 */
module EventStreams {
  import opened Base
  import opened Events

  // ---- Counting ----

  /** How many GUIDs an account has issued. */
  function IssuedBy(issued: seq<GUID>, a: Address): nat {
    if issued == [] then 0 else
    IssuedBy(issued[..|issued| - 1], a) + if issued[|issued| - 1].addr == a then 1 else 0
  }

  /** How many events carry a GUID. */
  function EventCount(log: seq<ContractEvent>, guid: Bytes): nat {
    if log == [] then 0 else
    EventCount(log[..|log| - 1], guid) + if log[|log| - 1].guid == guid then 1 else 0
  }

  lemma IssuedByStep(issued: seq<GUID>, g: GUID, a: Address)
    ensures IssuedBy(issued + [g], a) == IssuedBy(issued, a) + if g.addr == a then 1 else 0
  {
    assert (issued + [g])[..|issued|] == issued;
  }

  lemma EventCountStep(log: seq<ContractEvent>, e: ContractEvent, guid: Bytes)
    ensures EventCount(log + [e], guid) == EventCount(log, guid) + if e.guid == guid then 1 else 0
  {
    assert (log + [e])[..|log|] == log;
  }

  lemma {:induction false} IssuedByMonotone(issued: seq<GUID>, k: nat, a: Address)
    requires k <= |issued|
    ensures IssuedBy(issued[..k], a) <= IssuedBy(issued, a)
  {
    if k < |issued| {
      var front := issued[..|issued| - 1];
      IssuedByMonotone(front, k, a);
      assert front[..k] == issued[..k];
    } else {
      assert issued[..k] == issued;
    }
  }

  lemma {:induction false} UnknownGuidHasNoEvents(log: seq<ContractEvent>, guid: Bytes)
    requires forall i :: 0 <= i < |log| ==> log[i].guid != guid
    ensures EventCount(log, guid) == 0
  {
    if log != [] { UnknownGuidHasNoEvents(log[..|log| - 1], guid); }
  }

  // ---- The invariant ----

  /** Generators count exactly the GUIDs their accounts have issued. */
  ghost predicate GeneratorsCount(w: World, issued: seq<GUID>) {
    forall a: Address :: IssuedBy(issued, a) == NextCreationNum(w, a)
  }

  /** A GUID with creation number `i` is the `i+1`th one of its account. */
  ghost predicate InOrder(issued: seq<GUID>) {
    forall i :: 0 <= i < |issued| ==> issued[i].creationNum == IssuedBy(issued[..i], issued[i].addr)
  }

  /** Handles hold issued GUIDs, each its own. */
  ghost predicate HandlesOwnGuids(w: World, issued: seq<GUID>) {
    && (forall p :: p in w.handles ==> w.handles[p].guid in issued)
    && (forall p, q :: p in w.handles && q in w.handles && p != q ==> w.handles[p].guid != w.handles[q].guid)
  }

  /** Every event is numbered by the events of its stream before it. */
  ghost predicate Numbered(log: seq<ContractEvent>) {
    forall i :: 0 <= i < |log| ==> log[i].sequenceNumber == EventCount(log[..i], log[i].guid)
  }

  ghost predicate IsIssued(issued: seq<GUID>, guid: Bytes) {
    exists i :: 0 <= i < |issued| && guid == GuidBytes(issued[i])
  }

  ghost predicate LogKnown(log: seq<ContractEvent>, issued: seq<GUID>) {
    forall i :: 0 <= i < |log| ==> IsIssued(issued, log[i].guid)
  }

  /** The counter of a live handle is the length of its stream. */
  ghost predicate CountersMatch(w: World, log: seq<ContractEvent>) {
    forall p :: p in w.handles ==> EventCount(log, GuidBytes(w.handles[p].guid)) == w.handles[p].counter
  }

  /** An event of an emitter carries the ping that caused it: its sequence number plus one. */
  ghost predicate CarriesPing(e: ContractEvent) {
    e.sequenceNumber < U64_MAX && e.data == U64Le(e.sequenceNumber + 1)
  }

  ghost predicate PingStream(log: seq<ContractEvent>, guid: Bytes) {
    forall i :: 0 <= i < |log| && log[i].guid == guid ==> CarriesPing(log[i])
  }

  /** An account's emitter and its handle exist together; the handle has counted the pings. */
  ghost predicate EmitterOk(w: World, log: seq<ContractEvent>, a: Address) {
    if EmitterOf(a) in w.handles then
      && a in w.pings
      && w.handles[EmitterOf(a)].counter == w.pings[a]
      && PingStream(log, GuidBytes(w.handles[EmitterOf(a)].guid))
    else a !in w.pings
  }

  ghost predicate EmittersCount(w: World, log: seq<ContractEvent>) {
    forall a: Address :: EmitterOk(w, log, a)
  }

  ghost predicate CoreInv(w: World, log: seq<ContractEvent>, issued: seq<GUID>) {
    && GeneratorsCount(w, issued) && InOrder(issued) && HandlesOwnGuids(w, issued)
    && Numbered(log) && LogKnown(log, issued) && CountersMatch(w, log)
  }

  ghost predicate Inv(w: World, log: seq<ContractEvent>, issued: seq<GUID>) {
    CoreInv(w, log, issued) && EmittersCount(w, log)
  }

  // ---- Issuing a GUID ----

  /** The GUID that a generator hands out next has not been issued before. */
  lemma NextGuidIsFresh(w: World, issued: seq<GUID>, g: GUID)
    requires GeneratorsCount(w, issued) && InOrder(issued)
    requires g.creationNum == NextCreationNum(w, g.addr)
    ensures g !in issued
  {
    hide IssuedBy;
    assert IssuedBy(issued, g.addr) == g.creationNum;
    if g in issued {
      var i :| 0 <= i < |issued| && issued[i] == g;
      assert issued[..i + 1] == issued[..i] + [g];
      IssuedByStep(issued[..i], g, g.addr);
      IssuedByMonotone(issued, i + 1, g.addr);
    }
  }

  lemma InOrderStep(issued: seq<GUID>, g: GUID)
    requires InOrder(issued) && g.creationNum == IssuedBy(issued, g.addr)
    ensures InOrder(issued + [g])
  {
    var next := issued + [g];
    forall i | 0 <= i < |next| ensures next[i].creationNum == IssuedBy(next[..i], next[i].addr) {
      assert next[..i] == issued[..i];
      assert issued[..|issued|] == issued;
    }
  }

  lemma LogKnownGrows(log: seq<ContractEvent>, issued: seq<GUID>, g: GUID)
    requires LogKnown(log, issued)
    ensures LogKnown(log, issued + [g])
  {
    hide GuidBytes;
    forall i | 0 <= i < |log| ensures IsIssued(issued + [g], log[i].guid) {
      var k :| 0 <= k < |issued| && log[i].guid == GuidBytes(issued[k]);
      assert (issued + [g])[k] == issued[k];
    }
  }

  lemma GeneratorsCountStep(w: World, issued: seq<GUID>, g: GUID, w': World)
    requires GeneratorsCount(w, issued) && g.creationNum == NextCreationNum(w, g.addr) < U64_MAX
    requires w'.generators == w.generators[g.addr := g.creationNum + 1]
    ensures GeneratorsCount(w', issued + [g])
  {
    forall b: Address ensures IssuedBy(issued + [g], b) == NextCreationNum(w', b) {
      IssuedByStep(issued, g, b);
      assert IssuedBy(issued, b) == NextCreationNum(w, b);
    }
  }

  /** `create_impl` keeps the invariant, fails only by overflow, and issues a fresh GUID. */
  lemma CreateImplKeepsInv(s: Session, a: Address, log: seq<ContractEvent>, issued: seq<GUID>)
    requires Inv(s.world, log, issued) && a in s.world.generators
    ensures var (s', r) := CreateImpl(s, a);
      && s'.events == s.events && s'.world.handles == s.world.handles
      && (r.Err? ==> s' == s)
      && (r.Ok? ==>
            && s'.issued == s.issued + [r.value]
            && r.value !in issued && Inv(s'.world, log, issued + [r.value]))
  {
    hide GuidBytes, IssuedBy, EventCount, PingStream, GeneratorsCount, LogKnown, InOrder, Numbered;
    var (s', r) := CreateImpl(s, a);
    if r.Ok? {
      var g := r.value;
      SameEmitters(s.world, s'.world, log);
      NextGuidIsFresh(s.world, issued, g);
      GeneratorsCountStep(s.world, issued, g, s'.world);
      CountIsNext(s.world, issued, a);
      InOrderStep(issued, g);
      LogKnownGrows(log, issued, g);
    }
  }

  lemma CountIsNext(w: World, issued: seq<GUID>, a: Address)
    requires GeneratorsCount(w, issued)
    ensures IssuedBy(issued, a) == NextCreationNum(w, a)
  {
    hide IssuedBy;
  }

  /** The invariant sees generators only through the next creation number. */
  lemma SameGenerators(w: World, w': World, issued: seq<GUID>)
    requires GeneratorsCount(w, issued)
    requires forall b: Address :: NextCreationNum(w', b) == NextCreationNum(w, b)
    ensures GeneratorsCount(w', issued)
  {
    hide IssuedBy, NextCreationNum;
  }

  lemma WithGeneratorKeepsInv(w: World, a: Address, log: seq<ContractEvent>, issued: seq<GUID>)
    requires Inv(w, log, issued)
    ensures Inv(WithGenerator(w, a), log, issued) && a in WithGenerator(w, a).generators
  {
    hide GuidBytes, IssuedBy, EventCount, PingStream, GeneratorsCount, LogKnown, InOrder, Numbered;
    var w' := WithGenerator(w, a);
    SameGenerators(w, w', issued);
    SameEmitters(w, w', log);
  }

  /** An account whose emitter and handle stay the same stays in order. */
  lemma SameEmitters(w: World, w': World, log: seq<ContractEvent>)
    requires EmittersCount(w, log) && w'.pings == w.pings
    requires forall a :: EmitterOf(a) in w'.handles <==> EmitterOf(a) in w.handles
    requires forall a :: EmitterOf(a) in w.handles ==> w'.handles[EmitterOf(a)] == w.handles[EmitterOf(a)]
    ensures EmittersCount(w', log)
  {
    hide PingStream, GuidBytes;
    forall a: Address ensures EmitterOk(w', log, a) {
      assert EmitterOk(w, log, a);
    }
  }

  // ---- Handles and events ----

  /** A new handle under a GUID that no event carries yet. */
  lemma NewHandleKeepsInv(w: World, p: Place, g: GUID, log: seq<ContractEvent>, issued: seq<GUID>)
    requires CoreInv(w, log, issued + [g]) && g !in issued && p !in w.handles
    requires forall q :: q in w.handles ==> w.handles[q].guid in issued
    requires LogKnown(log, issued)
    ensures CoreInv(WithHandle(w, p, EventHandle(0, g)), log, issued + [g])
    ensures PingStream(log, GuidBytes(g))
  {
    hide GuidBytes, IssuedBy, EventCount, GeneratorsCount, LogKnown, InOrder, Numbered, CarriesPing;
    var w' := WithHandle(w, p, EventHandle(0, g));
    NewStreamIsEmpty(g, log, issued);
    SameGenerators(w, w', issued + [g]);
    assert g in issued + [g];
  }

  lemma NewStreamIsEmpty(g: GUID, log: seq<ContractEvent>, issued: seq<GUID>)
    requires g !in issued && LogKnown(log, issued)
    ensures EventCount(log, GuidBytes(g)) == 0
    ensures forall i :: 0 <= i < |log| ==> log[i].guid != GuidBytes(g)
  {
    hide GuidBytes;
    forall i | 0 <= i < |log| ensures log[i].guid != GuidBytes(g) {
      var k :| 0 <= k < |issued| && log[i].guid == GuidBytes(issued[k]);
      if log[i].guid == GuidBytes(g) { GuidBytesInjective(g, issued[k]); }
    }
    UnknownGuidHasNoEvents(log, GuidBytes(g));
  }

  lemma NumberedStep(log: seq<ContractEvent>, e: ContractEvent)
    requires Numbered(log) && e.sequenceNumber == EventCount(log, e.guid)
    ensures Numbered(log + [e])
  {
    hide EventCount;
    var next := log + [e];
    forall i | 0 <= i < |next| ensures next[i].sequenceNumber == EventCount(next[..i], next[i].guid) {
      assert next[..i] == log[..i];
      assert log[..|log|] == log;
    }
  }

  ghost function Advanced(w: World, p: Place): World
    requires p in w.handles && w.handles[p].counter < U64_MAX
  {
    WithHandle(w, p, w.handles[p].(counter := w.handles[p].counter + 1))
  }

  /** An event and the counter that moves with it. */
  lemma EmitKeepsCore(w: World, p: Place, e: ContractEvent, log: seq<ContractEvent>, issued: seq<GUID>)
    requires CoreInv(w, log, issued) && p in w.handles && w.handles[p].counter < U64_MAX
    requires e.guid == GuidBytes(w.handles[p].guid) && e.sequenceNumber == w.handles[p].counter
    ensures CoreInv(Advanced(w, p), log + [e], issued)
  {
    hide GuidBytes, IssuedBy, EventCount, GeneratorsCount, InOrder, Numbered;
    var h := w.handles[p];
    var w' := Advanced(w, p);
    SameGenerators(w, w', issued);
    NumberedStep(log, e);
    var k :| 0 <= k < |issued| && issued[k] == h.guid;
    assert IsIssued(issued, e.guid);
    forall q | q in w'.handles
      ensures EventCount(log + [e], GuidBytes(w'.handles[q].guid)) == w'.handles[q].counter
    {
      EventCountStep(log, e, GuidBytes(w.handles[q].guid));
      if q != p && GuidBytes(w.handles[q].guid) == e.guid {
        GuidBytesInjective(w.handles[q].guid, h.guid);
      }
    }
  }

  /** Events of other streams leave an emitter's stream alone. */
  lemma EmitKeepsPings(w: World, p: Place, e: ContractEvent, log: seq<ContractEvent>, a: Address)
    requires p in w.handles && EmitterOf(a) in w.handles && e.guid == GuidBytes(w.handles[p].guid)
    requires p != EmitterOf(a) ==> w.handles[p].guid != w.handles[EmitterOf(a)].guid
    requires p == EmitterOf(a) ==> CarriesPing(e)
    requires PingStream(log, GuidBytes(w.handles[EmitterOf(a)].guid))
    ensures PingStream(log + [e], GuidBytes(w.handles[EmitterOf(a)].guid))
  {
    hide GuidBytes, CarriesPing;
    if p != EmitterOf(a) && e.guid == GuidBytes(w.handles[EmitterOf(a)].guid) {
      GuidBytesInjective(w.handles[p].guid, w.handles[EmitterOf(a)].guid);
    }
  }

  /** The world after an event from `p`, where an emitter has counted its ping as well. */
  ghost function Emitted(w: World, p: Place): World
    requires p in w.handles && w.handles[p].counter < U64_MAX
    requires p.EmitterOf? ==> p.account in w.pings && w.pings[p.account] < U64_MAX
  {
    if p.Slot? then Advanced(w, p)
    else Advanced(w.(pings := w.pings[p.account := w.pings[p.account] + 1]), p)
  }

  lemma EmitKeepsEmitters(w: World, p: Place, e: ContractEvent, log: seq<ContractEvent>, issued: seq<GUID>)
    requires HandlesOwnGuids(w, issued) && EmittersCount(w, log)
    requires p in w.handles && w.handles[p].counter < U64_MAX
    requires e.guid == GuidBytes(w.handles[p].guid) && e.sequenceNumber == w.handles[p].counter
    requires p.EmitterOf? ==> p.account in w.pings && w.pings[p.account] < U64_MAX && CarriesPing(e)
    ensures EmittersCount(Emitted(w, p), log + [e])
  {
    hide GuidBytes, PingStream, CarriesPing;
    var w' := Emitted(w, p);
    forall a: Address ensures EmitterOk(w', log + [e], a) {
      assert EmitterOk(w, log, a);
      if EmitterOf(a) in w.handles { EmitKeepsPings(w, p, e, log, a); }
    }
  }

  lemma EmitKeepsInv(w: World, p: Place, e: ContractEvent, log: seq<ContractEvent>, issued: seq<GUID>)
    requires Inv(w, log, issued) && p in w.handles && w.handles[p].counter < U64_MAX
    requires e.guid == GuidBytes(w.handles[p].guid) && e.sequenceNumber == w.handles[p].counter
    requires p.EmitterOf? ==> p.account in w.pings && w.pings[p.account] < U64_MAX && CarriesPing(e)
    ensures Inv(Emitted(w, p), log + [e], issued)
  {
    hide GuidBytes, GeneratorsCount, InOrder, HandlesOwnGuids, Numbered, LogKnown, CountersMatch,
         EmittersCount, CarriesPing;
    EmitKeepsCore(w, p, e, log, issued);
    EmitKeepsEmitters(w, p, e, log, issued);
    PingsAreNotCore(Advanced(w, p), Emitted(w, p), log + [e], issued);
  }

  lemma PingsAreNotCore(w: World, w': World, log: seq<ContractEvent>, issued: seq<GUID>)
    requires CoreInv(w, log, issued) && w'.generators == w.generators && w'.handles == w.handles
    ensures CoreInv(w', log, issued)
  {
    hide GuidBytes, IssuedBy, EventCount, GeneratorsCount, InOrder, Numbered, LogKnown;
    SameGenerators(w, w', issued);
  }

  lemma DestroyKeepsInv(w: World, slot: nat, log: seq<ContractEvent>, issued: seq<GUID>)
    requires Inv(w, log, issued)
    ensures Inv(w.(handles := w.handles - {Slot(slot)}), log, issued)
  {
    hide GuidBytes, IssuedBy, EventCount, GeneratorsCount, InOrder, Numbered, LogKnown, EmittersCount;
    var w' := w.(handles := w.handles - {Slot(slot)});
    SameGenerators(w, w', issued);
    SameEmitters(w, w', log);
  }

  /** A handle kept in a slot, or together with a new emitter that has no ping yet. */
  ghost function Kept(w: World, p: Place, g: GUID): World {
    var w' := WithHandle(w, p, EventHandle(0, g));
    if p.Slot? then w' else w'.(pings := w'.pings[p.account := 0])
  }

  lemma KeptKeepsEmitters(w: World, p: Place, g: GUID, log: seq<ContractEvent>)
    requires EmittersCount(w, log) && p !in w.handles
    requires PingStream(log, GuidBytes(g))
    ensures EmittersCount(Kept(w, p, g), log)
  {
    hide GuidBytes, PingStream;
    forall a: Address ensures EmitterOk(Kept(w, p, g), log, a) {
      assert EmitterOk(w, log, a);
    }
  }

  lemma KeptKeepsInv(w: World, p: Place, g: GUID, log: seq<ContractEvent>, issued: seq<GUID>)
    requires Inv(w, log, issued + [g]) && g !in issued && p !in w.handles
    requires forall q :: q in w.handles ==> w.handles[q].guid in issued
    requires LogKnown(log, issued)
    ensures Inv(Kept(w, p, g), log, issued + [g])
  {
    hide GuidBytes, CoreInv, EmittersCount, LogKnown, PingStream;
    NewHandleKeepsInv(w, p, g, log, issued);
    KeptKeepsEmitters(w, p, g, log);
    PingsAreNotCore(WithHandle(w, p, EventHandle(0, g)), Kept(w, p, g), log, issued + [g]);
  }

  // ---- One operation, one transaction, a run ----

  /** Storage, log and history of a chain with a transaction's own on top. */
  ghost predicate SessionInv(c: Chain, s: Session) {
    Inv(s.world, c.log + s.events, c.issued + s.issued)
  }

  lemma CreateKeepsInv(c: Chain, s: Session, a: Address)
    requires SessionInv(c, s)
    ensures var (s', r) := Create(s, a);
      && SessionInv(c, s')
      && (r.Ok? ==> r.value !in c.issued + s.issued && s'.issued == s.issued + [r.value])
      && s'.events == s.events && s'.world.handles == s.world.handles
  {
    hide Inv, WithGenerator, CreateImpl;
    var s0 := s.(world := WithGenerator(s.world, a));
    WithGeneratorKeepsInv(s.world, a, c.log + s.events, c.issued + s.issued);
    var (s', r) := CreateImpl(s0, a);
    CreateImplKeepsInv(s0, a, c.log + s.events, c.issued + s.issued);
    GeneratorLeavesHandles(s.world, a);
    if r.Ok? { assert c.issued + s'.issued == (c.issued + s.issued) + [r.value]; }
  }

  lemma GeneratorLeavesHandles(w: World, a: Address)
    ensures WithGenerator(w, a).handles == w.handles && WithGenerator(w, a).pings == w.pings
  {
  }

  lemma CreateWithCapabilityKeepsInv(c: Chain, s: Session, a: Address)
    requires SessionInv(c, s) && a in s.world.generators
    ensures SessionInv(c, CreateImpl(s, a).0)
  {
    hide CreateImpl, Inv;
    assert s.(world := WithGenerator(s.world, a)) == s;
    CreateKeepsInv(c, s, a);
  }

  /** Creating and keeping a handle; in an emitter's place the ping count completes the invariant. */
  lemma NewHandleStep(c: Chain, s: Session, a: Address, p: Place)
    requires SessionInv(c, s)
    ensures var (s', abort) := NewHandle(s, a, p);
      abort.None? ==>
        SessionInv(c, if p.Slot? then s' else s'.(world := s'.world.(pings := s'.world.pings[p.account := 0])))
  {
    hide GuidBytes, IssuedBy, EventCount, Create, CoreInv, EmittersCount;
    var (s1, r) := Create(s, a);
    CreateKeepsInv(c, s, a);
    if r.Ok? && p !in s1.world.handles {
      var log, issued := c.log + s.events, c.issued + s.issued;
      assert c.issued + s1.issued == issued + [r.value];
      OldFacts(s.world, log, issued);
      hide LogKnown;
      KeptKeepsInv(s1.world, p, r.value, log, issued);
    }
  }

  lemma OldFacts(w: World, log: seq<ContractEvent>, issued: seq<GUID>)
    requires Inv(w, log, issued)
    ensures LogKnown(log, issued) && forall q :: q in w.handles ==> w.handles[q].guid in issued
  {
    hide EmittersCount, LogKnown, CountersMatch, Numbered, InOrder, GeneratorsCount;
  }

  lemma EmitStep(c: Chain, s: Session, slot: nat, typeTag: Bytes, data: Bytes)
    requires SessionInv(c, s)
    ensures var (s', abort) := Emit(s, Slot(slot), typeTag, data); abort.None? ==> SessionInv(c, s')
  {
    hide GuidBytes, Inv, CarriesPing;
    var (s', abort) := Emit(s, Slot(slot), typeTag, data);
    if abort.None? {
      var h := s.world.handles[Slot(slot)];
      var e := ContractEvent(typeTag, GuidBytes(h.guid), h.counter, data);
      assert c.log + s'.events == (c.log + s.events) + [e];
      EmitKeepsInv(s.world, Slot(slot), e, c.log + s.events, c.issued + s.issued);
    }
  }

  lemma EmitterOfPing(w: World, log: seq<ContractEvent>, issued: seq<GUID>, a: Address)
    requires Inv(w, log, issued) && a in w.pings
    ensures EmitterOf(a) in w.handles && w.handles[EmitterOf(a)].counter == w.pings[a]
  {
    hide CoreInv, PingStream, GuidBytes;
    assert EmitterOk(w, log, a);
  }

  lemma PingStep(c: Chain, s: Session, a: Address, typeTag: Bytes)
    requires SessionInv(c, s)
    ensures var (s', abort) := PingEmitter(s, a, typeTag); abort.None? ==> SessionInv(c, s')
  {
    hide GuidBytes, Inv, U64Le;
    var (s', abort) := PingEmitter(s, a, typeTag);
    if abort.None? {
      EmitterOfPing(s.world, c.log + s.events, c.issued + s.issued, a);
      var h := s.world.handles[EmitterOf(a)];
      var e := ContractEvent(typeTag, GuidBytes(h.guid), h.counter, U64Le(s.world.pings[a] + 1));
      assert c.log + s'.events == (c.log + s.events) + [e];
      EmitKeepsInv(s.world, EmitterOf(a), e, c.log + s.events, c.issued + s.issued);
    }
  }

  /** Every operation that does not abort keeps the invariant. */
  lemma StepKeepsInv(limit: u64, c: Chain, s: Session, op: Op)
    requires SessionInv(c, s)
    ensures var (s', abort) := Step(limit, s, op); abort.None? ==> SessionInv(c, s')
  {
    hide Inv, GuidBytes, WithGenerator, CreateImpl, Create, Emit, NewHandle, PingEmitter;
    var log, issued := c.log + s.events, c.issued + s.issued;
    match op {
      case PublishGenerator(a) => WithGeneratorKeepsInv(s.world, a, log, issued);
      case GenCreateCapability(a) => WithGeneratorKeepsInv(s.world, a, log, issued);
      case CreateGuid(a) => CreateKeepsInv(c, s, a);
      case CreateWithCapability(a) =>
        if a in s.world.generators { CreateWithCapabilityKeepsInv(c, s, a); }
      case NewEventHandle(a, slot) => NewHandleStep(c, s, a, Slot(slot));
      case EmitEvent(slot, typeTag, data) => EmitStep(c, s, slot, typeTag, data);
      case DestroyHandle(slot) => DestroyKeepsInv(s.world, slot, log, issued);
      case Initialize(a) =>
        WithGeneratorKeepsInv(s.world, a, log, issued);
        var s0 := s.(world := WithGenerator(s.world, a));
        NewHandleStep(c, s0, a, EmitterOf(a));
        var (s1, abort) := NewHandle(s0, a, EmitterOf(a));
        if abort.None? {
          assert Step(limit, s, op).0 == s1.(world := s1.world.(pings := s1.world.pings[a := 0]));
        }
      case Ping(a, typeTag) => PingStep(c, s, a, typeTag);
      case ChargeGas(amount) =>
      case UserAbort(code) =>
    }
  }

  lemma {:induction false} RunOpsKeepsInv(limit: u64, c: Chain, s: Session, ops: seq<Op>)
    requires SessionInv(c, s)
    ensures var (s', abort) := RunOps(limit, s, ops); abort.None? ==> SessionInv(c, s')
    decreases |ops|
  {
    hide SessionInv, Step;
    if ops != [] {
      StepKeepsInv(limit, c, s, ops[0]);
      var (s', abort) := Step(limit, s, ops[0]);
      if abort.None? { RunOpsKeepsInv(limit, c, s', ops[1..]); }
    }
  }

  ghost predicate ChainInv(c: Chain) {
    Inv(c.world, c.log, c.issued)
  }

  lemma ExecuteKeepsInv(c: Chain, tx: Transaction)
    requires ChainInv(c)
    ensures ChainInv(Execute(c, tx).0)
  {
    hide Inv, RunOps;
    assert c.log + [] == c.log && c.issued + [] == c.issued;
    RunOpsKeepsInv(tx.gasLimit, c, StartSession(c), tx.ops);
  }

  lemma {:induction false} RunKeepsInv(c: Chain, txs: seq<Transaction>)
    requires ChainInv(c)
    ensures ChainInv(Run(c, txs))
    decreases |txs|
  {
    hide ChainInv, Execute;
    if txs != [] {
      ExecuteKeepsInv(c, txs[0]);
      RunKeepsInv(Execute(c, txs[0]).0, txs[1..]);
    }
  }

  lemma GenesisInv()
    ensures ChainInv(GENESIS)
  {
  }

  // ---- What the invariant says ----

  /** The sequence numbers logged under one GUID, in log order. */
  function SequenceNumbers(log: seq<ContractEvent>, guid: Bytes): seq<nat> {
    if log == [] then [] else
    SequenceNumbers(log[..|log| - 1], guid)
    + if log[|log| - 1].guid == guid then [log[|log| - 1].sequenceNumber] else []
  }

  lemma {:induction false} NumberedStreams(log: seq<ContractEvent>, guid: Bytes)
    requires Numbered(log)
    ensures SequenceNumbers(log, guid) == seq(EventCount(log, guid), i => i)
  {
    if log != [] {
      var front := log[..|log| - 1];
      forall i | 0 <= i < |front| ensures front[i].sequenceNumber == EventCount(front[..i], front[i].guid) {
        assert front[..i] == log[..i];
      }
      NumberedStreams(front, guid);
    }
  }

  /**
   Event streams in every run: the events under any GUID are numbered exactly 0, 1, ..., k-1 in
   order, and k is the counter of the handle if the handle is still alive.
   */
  lemma EventStreamsInEveryRun(txs: seq<Transaction>, guid: Bytes)
    ensures var c := Run(GENESIS, txs);
      var k := EventCount(c.log, guid);
      && SequenceNumbers(c.log, guid) == seq(k, i => i)
      && (forall p :: p in c.world.handles && GuidBytes(c.world.handles[p].guid) == guid ==>
            c.world.handles[p].counter == k)
  {
    hide GuidBytes, EventCount, IssuedBy, SequenceNumbers, Run;
    GenesisInv();
    RunKeepsInv(GENESIS, txs);
    NumberedStreams(Run(GENESIS, txs).log, guid);
  }

  /**
   The emitter in every run: its ping count is the number of its events, and the event with
   sequence number `n` carries the count `n + 1`.
   */
  lemma EmittersInEveryRun(txs: seq<Transaction>, a: Address)
    requires a in Run(GENESIS, txs).world.pings
    ensures var c := Run(GENESIS, txs);
      && EmitterOf(a) in c.world.handles
      && var guid := GuidBytes(c.world.handles[EmitterOf(a)].guid);
      && EventCount(c.log, guid) == c.world.pings[a]
      && (forall i :: 0 <= i < |c.log| && c.log[i].guid == guid ==> CarriesPing(c.log[i]))
  {
    hide GuidBytes, EventCount, IssuedBy, SequenceNumbers, Run, CarriesPing;
    GenesisInv();
    RunKeepsInv(GENESIS, txs);
    assert EmitterOk(Run(GENESIS, txs).world, Run(GENESIS, txs).log, a);
  }

  /**
   GUIDs in every run: no GUID is issued twice, every creation number is below its account's
   generator, and `get_next_creation_num` is the number of GUIDs the account has issued.
   */
  lemma GuidsInEveryRun(txs: seq<Transaction>)
    ensures var c := Run(GENESIS, txs);
      && (forall i, j :: 0 <= i < j < |c.issued| ==> c.issued[i] != c.issued[j])
      && (forall g :: g in c.issued ==> g.addr in c.world.generators && g.creationNum < c.world.generators[g.addr])
      && (forall a: Address :: NextCreationNum(c.world, a) == IssuedBy(c.issued, a))
  {
    hide GuidBytes, EventCount, IssuedBy, Run;
    GenesisInv();
    RunKeepsInv(GENESIS, txs);
    var c := Run(GENESIS, txs);
    forall i | 0 <= i < |c.issued|
      ensures c.issued[i].addr in c.world.generators
      ensures c.issued[i].creationNum < c.world.generators[c.issued[i].addr]
      ensures forall j :: 0 <= j < i ==> c.issued[j] != c.issued[i]
    {
      BelowLaterCounts(c.issued, i);
      assert IssuedBy(c.issued, c.issued[i].addr) == NextCreationNum(c.world, c.issued[i].addr);
      forall j | 0 <= j < i ensures c.issued[j] != c.issued[i] {
        BelowCount(c.issued, j, i);
      }
    }
  }

  lemma BelowCount(issued: seq<GUID>, j: nat, i: nat)
    requires InOrder(issued) && j < i <= |issued|
    ensures issued[j].creationNum < IssuedBy(issued[..i], issued[j].addr)
  {
    hide IssuedBy;
    assert issued[..j + 1] == issued[..j] + [issued[j]];
    IssuedByStep(issued[..j], issued[j], issued[j].addr);
    IssuedByMonotone(issued[..i], j + 1, issued[j].addr);
    assert issued[..i][..j + 1] == issued[..j + 1];
  }

  lemma BelowLaterCounts(issued: seq<GUID>, j: nat)
    requires InOrder(issued) && j < |issued|
    ensures issued[j].creationNum < IssuedBy(issued, issued[j].addr)
  {
    BelowCount(issued, j, |issued|);
    assert issued[..|issued|] == issued;
  }

  // ---- Generators only grow ----

  ghost predicate Grows(w: World, w': World) {
    forall a :: a in w.generators ==> a in w'.generators && w.generators[a] <= w'.generators[a]
  }

  lemma {:induction false} RunOpsGrows(limit: u64, s: Session, ops: seq<Op>)
    ensures Grows(s.world, RunOps(limit, s, ops).0.world)
    decreases |ops|
  {
    if ops != [] {
      StepGrows(limit, s, ops[0]);
      hide Step;
      var (s', abort) := Step(limit, s, ops[0]);
      if abort.None? { RunOpsGrows(limit, s', ops[1..]); }
    }
  }

  lemma StepGrows(limit: u64, s: Session, op: Op)
    ensures Grows(s.world, Step(limit, s, op).0.world)
  {
    hide GuidBytes;
  }

  /** No later transaction removes a generator or lowers its counter. */
  lemma {:induction false} GeneratorsNeverShrink(c: Chain, txs: seq<Transaction>)
    ensures Grows(c.world, Run(c, txs).world)
    decreases |txs|
  {
    if txs != [] {
      RunOpsGrows(txs[0].gasLimit, StartSession(c), txs[0].ops);
      assert Grows(c.world, Execute(c, txs[0]).0.world) by { hide RunOps; }
      hide Execute;
      GeneratorsNeverShrink(Execute(c, txs[0]).0, txs[1..]);
    }
  }

  // ---- Gas and aborts ----

  lemma {:induction false} RunOpsWithinLimit(limit: u64, s: Session, ops: seq<Op>)
    requires s.consumed <= limit
    ensures s.consumed <= RunOps(limit, s, ops).0.consumed <= limit
    decreases |ops|
  {
    if ops != [] {
      StepWithinLimit(limit, s, ops[0]);
      hide Step;
      var (s', abort) := Step(limit, s, ops[0]);
      if abort.None? { RunOpsWithinLimit(limit, s', ops[1..]); }
    }
  }

  lemma StepWithinLimit(limit: u64, s: Session, op: Op)
    requires s.consumed <= limit
    ensures s.consumed <= Step(limit, s, op).0.consumed <= limit
  {
    hide GuidBytes;
  }

  /**
   Whatever the cost estimates, reported gas lies between what the interpreter consumed and the
   limit; an aborted transaction leaves the chain as it was and puts out nothing.
   */
  lemma OutputOfEveryTransaction(c: Chain, tx: Transaction)
    ensures var (c', out) := Execute(c, tx);
      && Interpreted(c, tx).0.consumed <= out.gasUsed <= tx.gasLimit
      && (out.status.Success? <==> tx.loads && RunOps(tx.gasLimit, StartSession(c), tx.ops).1.None?)
      && (!out.status.Success? ==> c' == c && out.effects.None? && out.events == [] && out.returnValues == [])
      && (out.status.Success? ==> out.effects == Some(c'.world) && c'.log == c.log + out.events)
  {
    RunOpsWithinLimit(tx.gasLimit, StartSession(c), tx.ops);
    hide RunOps;
  }

  /**
   A handle at the last counter value: the event reaches the transaction's store before the
   counter overflows, and the abort then drops it together with everything else.
   */
  lemma OverflowDropsTheEvent(c: Chain, tx: Transaction, slot: nat, typeTag: Bytes, data: Bytes)
    requires Slot(slot) in c.world.handles && c.world.handles[Slot(slot)].counter == U64_MAX
    requires tx.loads && tx.ops == [EmitEvent(slot, typeTag, data)]
    ensures |RunOps(tx.gasLimit, StartSession(c), tx.ops).0.events| == 1
    ensures Execute(c, tx).0 == c && Execute(c, tx).1.events == []
    ensures Execute(c, tx).1.status == Aborted(ArithmeticError)
  {
    hide GuidBytes;
  }
}
