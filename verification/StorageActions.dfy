/** Public storage: the per-call collector that caches and collapses reads and writes, against a plain store. */
module StorageActions {

  /** Public state by contract address and slot; a slot never written reads as zero. */
  type Store = map<(nat, nat), nat>

  function Lookup(store: Store, address: nat, slot: nat): nat {
    if (address, slot) in store then store[(address, slot)] else 0
  }

  datatype UpdateRequest = UpdateRequest(oldValue: nat, newValue: nat)

  /** First value read of each slot that was only read; first and latest value of each slot written. */
  datatype Actions = Actions(firstReads: map<nat, nat>, updates: map<nat, UpdateRequest>)

  /** What a call of a public function does, in order: storage accesses and nested calls. */
  datatype Script =
    | Done
    | Read(slot: nat, next: Script)
    | Write(slot: nat, value: nat, next: Script)
    | Call(address: nat, body: Script, next: Script)

  function ReadValue(c: Actions, store: Store, address: nat, slot: nat): nat {
    if slot in c.updates then c.updates[slot].newValue
    else if slot in c.firstReads then c.firstReads[slot]
    else Lookup(store, address, slot)
  }

  function AfterRead(c: Actions, store: Store, address: nat, slot: nat): Actions {
    if slot in c.updates || slot in c.firstReads then c
    else c.(firstReads := c.firstReads[slot := Lookup(store, address, slot)])
  }

  function AfterWrite(c: Actions, store: Store, address: nat, slot: nat, value: nat): Actions {
    if slot in c.updates then
      c.(updates := c.updates[slot := UpdateRequest(c.updates[slot].oldValue, value)])
    else if slot in c.firstReads then
      Actions(c.firstReads - {slot}, c.updates[slot := UpdateRequest(c.firstReads[slot], value)])
    else
      c.(updates := c.updates[slot := UpdateRequest(Lookup(store, address, slot), value)])
  }

  /** The state database afterwards, the values that the reads returned (nested ones included), and what the
      outermost call collected. */
  datatype Ran = Ran(store: Store, values: seq<nat>, collected: Actions)

  const NOTHING := Actions(map[], map[])

  /** Execution with collectors, one per call: the rest of a call of the contract `self`. */
  function Execute(store: Store, self: nat, c: Actions, s: Script): Ran
    decreases s
  {
    match s
    case Done => Ran(store, [], c)
    case Read(slot, next) =>
      var r := Execute(store, self, AfterRead(c, store, self, slot), next);
      r.(values := [ReadValue(c, store, self, slot)] + r.values)
    case Write(slot, value, next) =>
      Execute(store[(self, slot) := value], self, AfterWrite(c, store, self, slot, value), next)
    case Call(address, body, next) =>
      var k := Execute(store, address, NOTHING, body);
      var r := Execute(k.store, self, c, next);
      r.(values := k.values + r.values)
  }

  /** The meaning without collectors: every read asks the store. */
  function Plain(store: Store, self: nat, s: Script): (Store, seq<nat>)
    decreases s
  {
    match s
    case Done => (store, [])
    case Read(slot, next) =>
      var (end, values) := Plain(store, self, next);
      (end, [Lookup(store, self, slot)] + values)
    case Write(slot, value, next) => Plain(store[(self, slot) := value], self, next)
    case Call(address, body, next) =>
      var (mid, values) := Plain(store, address, body);
      var (end, rest) := Plain(mid, self, next);
      (end, values + rest)
  }

  /** No call in the script runs code of the contract, at any depth. */
  predicate Avoids(s: Script, contract: nat) {
    match s
    case Done => true
    case Read(_, next) => Avoids(next, contract)
    case Write(_, _, next) => Avoids(next, contract)
    case Call(address, body, next) => address != contract && Avoids(body, contract) && Avoids(next, contract)
  }

  /** No contract is called again while a call of it is running. */
  predicate NoReentry(s: Script, self: nat) {
    match s
    case Done => true
    case Read(_, next) => NoReentry(next, self)
    case Write(_, _, next) => NoReentry(next, self)
    case Call(address, body, next) =>
      address != self && Avoids(body, self) && NoReentry(body, address) && NoReentry(next, self)
  }

  /** Calls elsewhere leave a contract's storage alone. */
  lemma {:induction false} PlainFrame(store: Store, self: nat, s: Script, other: nat)
    requires self != other && Avoids(s, other)
    ensures forall slot :: Lookup(Plain(store, self, s).0, other, slot) == Lookup(store, other, slot)
    decreases s
  {
    match s
    case Done =>
    case Read(_, next) => PlainFrame(store, self, next, other);
    case Write(slot, value, next) => PlainFrame(store[(self, slot) := value], self, next, other);
    case Call(address, body, next) =>
      PlainFrame(store, address, body, other);
      PlainFrame(Plain(store, address, body).0, self, next, other);
  }

  /** `store0` is the database when the call began: collected reads are values it had and still has, old values
      are values it had, new values are current, and nothing else has changed. */
  ghost predicate Collapsed(store0: Store, store: Store, address: nat, c: Actions) {
    && c.firstReads.Keys !! c.updates.Keys
    && (forall slot :: slot in c.firstReads ==> c.firstReads[slot] == Lookup(store0, address, slot))
    && (forall slot :: slot in c.updates ==> c.updates[slot].oldValue == Lookup(store0, address, slot))
    && forall slot :: Lookup(store, address, slot) == if slot in c.updates then c.updates[slot].newValue else Lookup(store0, address, slot)
  }

  lemma WriteCollapsed(store0: Store, store: Store, address: nat, c: Actions, slot: nat, value: nat)
    requires Collapsed(store0, store, address, c)
    ensures Collapsed(store0, store[(address, slot) := value], address, AfterWrite(c, store, address, slot, value))
  {
    var store' := store[(address, slot) := value];
    assert forall s :: Lookup(store', address, s) == if s == slot then value else Lookup(store, address, s);
    hide Lookup;
    assert slot !in c.updates ==> Lookup(store, address, slot) == Lookup(store0, address, slot);
  }

  /** The collector refines the plain store along a call, from any point of it. */
  lemma {:induction false} CollectorStep(store0: Store, store: Store, self: nat, c: Actions, s: Script)
    requires Collapsed(store0, store, self, c) && NoReentry(s, self)
    ensures var r := Execute(store, self, c, s);
      (r.store, r.values) == Plain(store, self, s) && Collapsed(store0, r.store, self, r.collected)
    decreases s
  {
    match s
    case Done =>
    case Read(slot, next) => CollectorStep(store0, store, self, AfterRead(c, store, self, slot), next);
    case Write(slot, value, next) =>
      WriteCollapsed(store0, store, self, c, slot, value);
      CollectorStep(store0, store[(self, slot) := value], self, AfterWrite(c, store, self, slot, value), next);
    case Call(address, body, next) =>
      CollectorStep(store, store, address, NOTHING, body);
      PlainFrame(store, address, body, self);
      CollectorStep(store0, Plain(store, address, body).0, self, c, next);
  }

  /** Without re-entry every read returns what the plain store holds, the state database ends as the plain store
      does, and the collected reads and updates describe the call: disjoint slots, old values from the start, and
      updates that turn the starting store into the final one. */
  lemma CollectorRefinesStore(store: Store, self: nat, s: Script)
    requires NoReentry(s, self)
    ensures var r := Execute(store, self, NOTHING, s);
      (r.store, r.values) == Plain(store, self, s) && Collapsed(store, r.store, self, r.collected)
  {
    CollectorStep(store, store, self, NOTHING, s);
  }

  /** Writes always reach the database, so the final state is right even with re-entry. */
  lemma {:induction false} StateAlwaysRight(store: Store, self: nat, c: Actions, s: Script)
    ensures Execute(store, self, c, s).store == Plain(store, self, s).0
    decreases s
  {
    match s
    case Done =>
    case Read(slot, next) => StateAlwaysRight(store, self, AfterRead(c, store, self, slot), next);
    case Write(slot, value, next) =>
      StateAlwaysRight(store[(self, slot) := value], self, AfterWrite(c, store, self, slot, value), next);
    case Call(address, body, next) =>
      StateAlwaysRight(store, address, NOTHING, body);
      StateAlwaysRight(Execute(store, address, NOTHING, body).store, self, c, next);
  }

  /** The slots that the call itself reads and writes; nested calls have collectors of their own. */
  function OwnReads(s: Script): set<nat> {
    match s
    case Done => {}
    case Read(slot, next) => {slot} + OwnReads(next)
    case Write(_, _, next) => OwnReads(next)
    case Call(_, _, next) => OwnReads(next)
  }

  function OwnWrites(s: Script): set<nat> {
    match s
    case Done => {}
    case Read(_, next) => OwnWrites(next)
    case Write(slot, _, next) => {slot} + OwnWrites(next)
    case Call(_, _, next) => OwnWrites(next)
  }

  /** A read adds its slot unless the slot has an update request; a write moves its slot to the update requests. */
  lemma AccessedSlots(c: Actions, store: Store, self: nat, slot: nat, value: nat)
    requires c.firstReads.Keys !! c.updates.Keys
    ensures var r := AfterRead(c, store, self, slot);
      r.updates.Keys == c.updates.Keys && r.firstReads.Keys == (c.firstReads.Keys + {slot}) - c.updates.Keys
    ensures var w := AfterWrite(c, store, self, slot, value);
      w.updates.Keys == c.updates.Keys + {slot} && w.firstReads.Keys == c.firstReads.Keys - {slot}
  {
    hide Lookup;
  }

  lemma {:induction false} CollectedFrom(store: Store, self: nat, c: Actions, s: Script)
    requires c.firstReads.Keys !! c.updates.Keys
    ensures var r := Execute(store, self, c, s).collected;
      && r.updates.Keys == c.updates.Keys + OwnWrites(s)
      && r.firstReads.Keys == (c.firstReads.Keys + OwnReads(s)) - (c.updates.Keys + OwnWrites(s))
    decreases s
  {
    match s
    case Done =>
    case Read(slot, next) =>
      AccessedSlots(c, store, self, slot, 0);
      hide AfterRead; hide ReadValue;
      CollectedFrom(store, self, AfterRead(c, store, self, slot), next);
    case Write(slot, value, next) =>
      AccessedSlots(c, store, self, slot, value);
      hide AfterWrite;
      CollectedFrom(store[(self, slot) := value], self, AfterWrite(c, store, self, slot, value), next);
    case Call(address, body, next) => CollectedFrom(Execute(store, address, NOTHING, body).store, self, c, next);
  }

  /** Whatever is called, re-entrant or not: the update requests are for exactly the slots that the call wrote, the
      storage reads for exactly those that it read and did not write. */
  lemma CollectedSlots(store: Store, self: nat, s: Script)
    ensures var r := Execute(store, self, NOTHING, s).collected;
      r.updates.Keys == OwnWrites(s) && r.firstReads.Keys == OwnReads(s) - OwnWrites(s)
  {
    CollectedFrom(store, self, NOTHING, s);
  }

  /** With re-entry a read can return a stale value: read slot 0, let a nested call of the same contract write 7
      to it, read it again. */
  lemma ReentryReadsStale()
    ensures var s := Read(0, Call(1, Write(0, 7, Done), Read(0, Done)));
      !NoReentry(s, 1) && Execute(map[], 1, NOTHING, s).values == [0, 0] && Plain(map[], 1, s).1 == [0, 7]
  {
  }

  class StateDb {
    var store: Store

    constructor (store: Store)
      ensures this.store == store
    {
      this.store := store;
    }
  }

  class ContractStorageActionsCollector {
    const db: StateDb
    const address: nat
    var contractStorageReads: map<nat, nat>
    var contractStorageUpdateRequests: map<nat, UpdateRequest>

    ghost function State(): Actions
      reads this
    {
      Actions(contractStorageReads, contractStorageUpdateRequests)
    }

    constructor (db: StateDb, address: nat)
      ensures this.db == db && this.address == address && State() == Actions(map[], map[])
    {
      this.db, this.address := db, address;
      contractStorageReads, contractStorageUpdateRequests := map[], map[];
    }

    method ReadSlot(slot: nat) returns (value: nat)
      modifies this
      ensures value == ReadValue(old(State()), db.store, address, slot)
      ensures State() == AfterRead(old(State()), db.store, address, slot)
    {
      if slot in contractStorageUpdateRequests { return contractStorageUpdateRequests[slot].newValue; }
      if slot in contractStorageReads { return contractStorageReads[slot]; }
      value := Lookup(db.store, address, slot);
      contractStorageReads := contractStorageReads[slot := value];
    }

    method WriteSlot(slot: nat, newValue: nat)
      modifies this
      ensures State() == AfterWrite(old(State()), db.store, address, slot, newValue)
    {
      if slot in contractStorageUpdateRequests {
        var updateRequest := contractStorageUpdateRequests[slot];
        contractStorageUpdateRequests := contractStorageUpdateRequests[slot := UpdateRequest(updateRequest.oldValue, newValue)];
        return;
      }
      if slot in contractStorageReads {
        var currentValue := contractStorageReads[slot];
        contractStorageReads := contractStorageReads - {slot};
        contractStorageUpdateRequests := contractStorageUpdateRequests[slot := UpdateRequest(currentValue, newValue)];
        return;
      }
      var oldValue := Lookup(db.store, address, slot);
      contractStorageUpdateRequests := contractStorageUpdateRequests[slot := UpdateRequest(oldValue, newValue)];
    }
  }

  /** The executor's storage callbacks over one call and the calls nested in it. */
  method ExecuteCall(db: StateDb, self: nat, script: Script) returns (values: seq<nat>, collected: Actions)
    modifies db
    ensures Ran(db.store, values, collected) == Execute(old(db.store), self, NOTHING, script)
    decreases script
  {
    hide AfterRead; hide AfterWrite; hide ReadValue; hide Execute; hide After;
    var storageActions := new ContractStorageActionsCollector(db, self);
    values := [];
    var s := script;
    AfterNothing(Execute(db.store, self, NOTHING, script));
    while s != Done
      invariant storageActions.db == db && storageActions.address == self && fresh(storageActions)
      invariant s == script || s < script
      invariant After(Execute(old(db.store), self, NOTHING, script), values, Execute(db.store, self, storageActions.State(), s))
      decreases s
    {
      ghost var c := storageActions.State();
      Advance(Execute(old(db.store), self, NOTHING, script), values, db.store, self, c, s);
      match s {
        case Read(slot, _) =>
          var value := storageActions.ReadSlot(slot);
          values := values + [value];
        case Write(slot, newValue, _) =>
          storageActions.WriteSlot(slot, newValue);
          db.store := db.store[(self, slot) := newValue];
        case Call(address, body, _) =>
          var nested, _ := ExecuteCall(db, address, body);
          values := values + nested;
      }
      s := s.next;
    }
    collected := Actions(storageActions.contractStorageReads, storageActions.contractStorageUpdateRequests);
    AfterAll(Execute(old(db.store), self, NOTHING, script), values, db.store, self, collected);
  }

  /** A run whose reads so far returned `values` and whose remainder is `rest`. */
  ghost predicate After(total: Ran, values: seq<nat>, rest: Ran) {
    total == Ran(rest.store, values + rest.values, rest.collected)
  }

  lemma AfterNothing(total: Ran)
    ensures After(total, [], total)
  {
  }

  lemma AfterAll(total: Ran, values: seq<nat>, store: Store, self: nat, c: Actions)
    requires After(total, values, Execute(store, self, c, Done))
    ensures total == Ran(store, values, c)
  {
  }

  /** One element of the script. */
  lemma Advance(total: Ran, values: seq<nat>, store: Store, self: nat, c: Actions, s: Script)
    requires s != Done && After(total, values, Execute(store, self, c, s))
    ensures match s
      case Read(slot, next) =>
        After(total, values + [ReadValue(c, store, self, slot)], Execute(store, self, AfterRead(c, store, self, slot), next))
      case Write(slot, value, next) =>
        After(total, values, Execute(store[(self, slot) := value], self, AfterWrite(c, store, self, slot, value), next))
      case Call(address, body, next) =>
        var k := Execute(store, address, NOTHING, body);
        After(total, values + k.values, Execute(k.store, self, c, next))
  {
    hide AfterRead; hide AfterWrite; hide ReadValue;
    if s.Call? {
      var k := Execute(store, s.address, NOTHING, s.body);
      var r := Execute(k.store, self, c, s.next);
      assert values + (k.values + r.values) == values + k.values + r.values;
    }
  }
}
