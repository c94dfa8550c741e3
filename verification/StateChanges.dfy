/**
 State changes and write sets. A transaction puts out both a list of changes, to be replayed
 in order, and a map of writes, to be laid over the state. Every producer must make them agree.
 */
module StateChanges {
  import opened Base

  type Loc = (Address, Bytes)

  type State = map<Loc, Bytes>

  type WriteSet = map<Loc, Option<Bytes>>

  datatype StateChange = StateChange(account: Address, key: Bytes, value: Option<Bytes>) {
    function Loc(): Loc {
      (account, key)
    }
  }

  datatype VmStatus = Success | MoveAbort(location: Bytes, code: u64) | OutOfGas | Unsupported

  /** What a transaction puts out for the node. */
  datatype VmOutput = VmOutput(
    status: VmStatus,
    gasUsed: u64,
    stateChanges: seq<StateChange>,
    writeSet: WriteSet,
    events: seq<ContractEvent>,
    returnValues: seq<Bytes>)

  function Get(st: State, account: Address, key: Bytes): Option<Bytes> {
    if (account, key) in st then Some(st[(account, key)]) else None
  }

  function Put(st: State, loc: Loc, value: Option<Bytes>): State {
    match value
    case Some(v) => st[loc := v]
    case None => st - {loc}
  }

  /** Replaying the list, first change first. */
  function Replay(st: State, changes: seq<StateChange>): State {
    if changes == [] then st else
    var last := changes[|changes| - 1];
    Put(Replay(st, changes[..|changes| - 1]), last.Loc(), last.value)
  }

  /** Laying the map over the state. */
  function Overlay(st: State, writes: WriteSet): State {
    map loc | loc in st.Keys + writes.Keys && (loc in writes ==> writes[loc].Some?)
      :: if loc in writes then writes[loc].value else st[loc]
  }

  /** What each location was last changed to. */
  function LastWrites(changes: seq<StateChange>): WriteSet {
    if changes == [] then map[] else
    var last := changes[|changes| - 1];
    LastWrites(changes[..|changes| - 1])[last.Loc() := last.value]
  }

  lemma LastWritesStep(changes: seq<StateChange>, c: StateChange)
    ensures LastWrites(changes + [c]) == LastWrites(changes)[c.Loc() := c.value]
  {
    assert (changes + [c])[..|changes|] == changes;
  }

  lemma OverlayPut(st: State, writes: WriteSet, loc: Loc, value: Option<Bytes>)
    ensures Overlay(st, writes[loc := value]) == Put(Overlay(st, writes), loc, value)
  {
  }

  lemma OverlayNothing(st: State)
    ensures Overlay(st, map[]) == st
  {
  }

  /** On any base state, replaying changes is laying their last writes over it. */
  lemma {:induction false} ReplayIsOverlay(st: State, changes: seq<StateChange>)
    ensures Replay(st, changes) == Overlay(st, LastWrites(changes))
  {
    hide Overlay;
    if changes == [] {
      OverlayNothing(st);
    } else {
      var front, last := changes[..|changes| - 1], changes[|changes| - 1];
      ReplayIsOverlay(st, front);
      OverlayPut(st, LastWrites(front), last.Loc(), last.value);
    }
  }

  lemma {:induction false} ReplayConcat(st: State, a: seq<StateChange>, b: seq<StateChange>)
    ensures Replay(st, a + b) == Replay(Replay(st, a), b)
  {
    if b == [] {
      assert a + b == a;
    } else {
      ReplayConcat(st, a, b[..|b| - 1]);
      assert (a + b)[..|a + b| - 1] == a + b[..|b| - 1];
    }
  }

  lemma ReplayFour(st: State, a: StateChange, b: StateChange, c: StateChange, d: StateChange)
    ensures Replay(st, [a, b, c, d])
         == Put(Put(Put(Put(st, a.Loc(), a.value), b.Loc(), b.value), c.Loc(), c.value), d.Loc(), d.value)
  {
    hide Put;
    assert [a, b, c, d][..3] == [a, b, c] && [a, b, c][..2] == [a, b] && [a, b][..1] == [a];
    assert Replay(st, []) == st;
    assert Replay(st, [a]) == Put(st, a.Loc(), a.value);
    assert Replay(st, [a, b]) == Put(Replay(st, [a]), b.Loc(), b.value);
    assert Replay(st, [a, b, c]) == Put(Replay(st, [a, b]), c.Loc(), c.value);
  }

  /** The two outputs agree: either one gives the same next state, whatever the current one. */
  ghost predicate Coherent(changes: seq<StateChange>, writes: WriteSet) {
    forall st: State :: Replay(st, changes) == Overlay(st, writes)
  }

  lemma LastWritesCoherent(changes: seq<StateChange>)
    ensures Coherent(changes, LastWrites(changes))
  {
    forall st: State ensures Replay(st, changes) == Overlay(st, LastWrites(changes)) {
      ReplayIsOverlay(st, changes);
    }
  }

  /** The pair of `&mut` outputs that the publishers push to. */
  class WriteLog {
    var writeSet: WriteSet
    var stateChanges: seq<StateChange>

    ghost predicate Valid()
      reads this
    {
      writeSet == LastWrites(stateChanges)
    }

    constructor ()
      ensures Valid() && stateChanges == []
    {
      writeSet, stateChanges := map[], [];
    }

    method PushWrite(account: Address, key: Bytes, value: Option<Bytes>)
      requires Valid()
      modifies this
      ensures Valid() && stateChanges == old(stateChanges) + [StateChange(account, key, value)]
    {
      LastWritesStep(stateChanges, StateChange(account, key, value));
      writeSet := writeSet[(account, key) := value];
      stateChanges := stateChanges + [StateChange(account, key, value)];
    }
  }

  // ---- The VM's change sets ----

  datatype ResourceOp = New(bytes: Bytes) | Modify(bytes: Bytes) | Delete

  type AccountChanges<Tag> = seq<(Tag, ResourceOp)>

  function OpValue(op: ResourceOp): Option<Bytes> {
    match op
    case New(bytes) => Some(bytes)
    case Modify(bytes) => Some(bytes)
    case Delete => None
  }

  function AccountStateChanges<Tag>(account: Address, ops: AccountChanges<Tag>, key: Tag -> Bytes): seq<StateChange> {
    seq(|ops|, i requires 0 <= i < |ops| => StateChange(account, key(ops[i].0), OpValue(ops[i].1)))
  }

  function ChangeSetChanges<Tag>(changeSet: seq<(Address, AccountChanges<Tag>)>, key: Tag -> Bytes): seq<StateChange> {
    if changeSet == [] then [] else
    var last := changeSet[|changeSet| - 1];
    ChangeSetChanges(changeSet[..|changeSet| - 1], key) + AccountStateChanges(last.0, last.1, key)
  }

  /** `changeset_to_nexus`: accounts and their resources in the order the VM lists them. */
  method ChangeSetToNexus<Tag>(changeSet: seq<(Address, AccountChanges<Tag>)>, key: Tag -> Bytes)
    returns (stateChanges: seq<StateChange>, writeSet: WriteSet)
    ensures stateChanges == ChangeSetChanges(changeSet, key)
    ensures Coherent(stateChanges, writeSet)
  {
    hide LastWrites, Coherent;
    var log := new WriteLog();
    for i := 0 to |changeSet|
      invariant log.Valid() && fresh(log)
      invariant log.stateChanges == ChangeSetChanges(changeSet[..i], key)
    {
      var (account, ops) := changeSet[i];
      for j := 0 to |ops|
        invariant log.Valid()
        invariant log.stateChanges
               == ChangeSetChanges(changeSet[..i], key) + AccountStateChanges(account, ops, key)[..j]
      {
        log.PushWrite(account, key(ops[j].0), OpValue(ops[j].1));
      }
      assert changeSet[..i + 1][..i] == changeSet[..i];
    }
    assert changeSet[..|changeSet|] == changeSet;
    LastWritesCoherent(log.stateChanges);
    return log.stateChanges, log.writeSet;
  }

  // ---- What a change set means ----

  /** Carrying out the VM's operations on the state, one by one. */
  function ApplyOps<Tag>(st: State, account: Address, ops: AccountChanges<Tag>, key: Tag -> Bytes): State {
    if ops == [] then st else
    var (tag, op) := ops[|ops| - 1];
    var before := ApplyOps(st, account, ops[..|ops| - 1], key);
    match op
    case New(bytes) => before[(account, key(tag)) := bytes]
    case Modify(bytes) => before[(account, key(tag)) := bytes]
    case Delete => before - {(account, key(tag))}
  }

  function ApplyChangeSet<Tag>(st: State, changeSet: seq<(Address, AccountChanges<Tag>)>, key: Tag -> Bytes): State {
    if changeSet == [] then st else
    var (account, ops) := changeSet[|changeSet| - 1];
    ApplyOps(ApplyChangeSet(st, changeSet[..|changeSet| - 1], key), account, ops, key)
  }

  lemma {:induction false} AccountMeaning<Tag>(st: State, account: Address, ops: AccountChanges<Tag>, key: Tag -> Bytes)
    ensures Replay(st, AccountStateChanges(account, ops, key)) == ApplyOps(st, account, ops, key)
  {
    if ops != [] {
      var front := ops[..|ops| - 1];
      AccountMeaning(st, account, front, key);
      var changes := AccountStateChanges(account, ops, key);
      assert changes[..|changes| - 1] == AccountStateChanges(account, front, key);
    }
  }

  /** Replaying the converted change set does what the VM's operations say, deletions included. */
  lemma {:induction false} ChangeSetMeaning<Tag>(
    st: State, changeSet: seq<(Address, AccountChanges<Tag>)>, key: Tag -> Bytes)
    ensures Replay(st, ChangeSetChanges(changeSet, key)) == ApplyChangeSet(st, changeSet, key)
  {
    if changeSet != [] {
      hide Replay, ApplyOps, AccountStateChanges;
      var front, last := changeSet[..|changeSet| - 1], changeSet[|changeSet| - 1];
      ChangeSetMeaning(st, front, key);
      ReplayConcat(st, ChangeSetChanges(front, key), AccountStateChanges(last.0, last.1, key));
      AccountMeaning(ApplyChangeSet(st, front, key), last.0, last.1, key);
    } else {
      assert Replay(st, []) == st;
    }
  }
}
