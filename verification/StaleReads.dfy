/** Exactly which calls the storage collector serves right, re-entrant ones included: a condition on the order of
    accesses, which does not depend on the stored or written values. */
module StaleReads {
  import opened StorageActions

  /** The slots of `target` that a call of `self` writes, at any depth. */
  function Writes(s: Script, self: nat, target: nat): set<nat> {
    match s
    case Done => {}
    case Read(_, next) => Writes(next, self, target)
    case Write(slot, _, next) => (if self == target then {slot} else {}) + Writes(next, self, target)
    case Call(address, body, next) => Writes(body, address, target) + Writes(next, self, target)
  }

  /** No call reads a slot that it had read or written before a nested call wrote it, unless it has written the slot
      since.  `cached` are the slots that the call has accessed, `dirty` those of them overwritten by nested calls. */
  predicate NoStaleRead(s: Script, self: nat, cached: set<nat>, dirty: set<nat>) {
    match s
    case Done => true
    case Read(slot, next) => slot !in dirty && NoStaleRead(next, self, cached + {slot}, dirty)
    case Write(slot, _, next) => NoStaleRead(next, self, cached + {slot}, dirty - {slot})
    case Call(address, body, next) =>
      NoStaleRead(body, address, {}, {}) && NoStaleRead(next, self, cached, dirty + cached * Writes(body, address, self))
  }

  function Cached(c: Actions): set<nat> {
    c.firstReads.Keys + c.updates.Keys
  }

  lemma NothingCached()
    ensures Cached(NOTHING) == {}
  {
  }

  /** A nested call changes the slots that it writes and no others. */
  lemma {:induction false} WritesFrame(store: Store, self: nat, s: Script, target: nat)
    ensures forall slot :: slot !in Writes(s, self, target) ==> Lookup(Plain(store, self, s).0, target, slot) == Lookup(store, target, slot)
    decreases s
  {
    match s
    case Done =>
    case Read(_, next) => WritesFrame(store, self, next, target);
    case Write(slot, value, next) => WritesFrame(store[(self, slot) := value], self, next, target);
    case Call(address, body, next) =>
      WritesFrame(store, address, body, target);
      WritesFrame(Plain(store, address, body).0, self, next, target);
  }

  /** Cached values are current, except perhaps in dirty slots. */
  ghost predicate Current(c: Actions, store: Store, self: nat, dirty: set<nat>) {
    forall slot :: slot in Cached(c) && slot !in dirty ==> ReadValue(c, store, self, slot) == Lookup(store, self, slot)
  }

  lemma CurrentWrite(c: Actions, store: Store, self: nat, dirty: set<nat>, slot: nat, value: nat)
    requires Current(c, store, self, dirty)
    ensures Current(AfterWrite(c, store, self, slot, value), store[(self, slot) := value], self, dirty - {slot})
    ensures Cached(AfterWrite(c, store, self, slot, value)) == Cached(c) + {slot}
  {
  }

  /** Enough: from any point of a call, if no stale slot is read, every read returns what the plain store holds. */
  lemma {:induction false} FreshReads(store: Store, self: nat, c: Actions, s: Script, dirty: set<nat>)
    requires Current(c, store, self, dirty) && NoStaleRead(s, self, Cached(c), dirty)
    ensures Execute(store, self, c, s).values == Plain(store, self, s).1
    decreases s
  {
    match s
    case Done =>
    case Read(slot, next) =>
      assert Cached(AfterRead(c, store, self, slot)) == Cached(c) + {slot};
      FreshReads(store, self, AfterRead(c, store, self, slot), next, dirty);
    case Write(slot, value, next) =>
      CurrentWrite(c, store, self, dirty, slot, value);
      FreshReads(store[(self, slot) := value], self, AfterWrite(c, store, self, slot, value), next, dirty - {slot});
    case Call(address, body, next) =>
      NothingCached();
      FreshReads(store, address, NOTHING, body, {});
      StateAlwaysRight(store, address, NOTHING, body);
      WritesFrame(store, address, body, self);
      FreshReads(Plain(store, address, body).0, self, c, next, dirty + Cached(c) * Writes(body, address, self));
  }

  /** The same accesses and calls in the same order, with other values written. */
  predicate SameShape(s: Script, s': Script) {
    match (s, s')
    case (Done, Done) => true
    case (Read(slot, next), Read(slot', next')) => slot == slot' && SameShape(next, next')
    case (Write(slot, _, next), Write(slot', _, next')) => slot == slot' && SameShape(next, next')
    case (Call(address, body, next), Call(address', body', next')) => address == address' && SameShape(body, body') && SameShape(next, next')
    case _ => false
  }

  lemma {:induction false} ShapeWrites(s: Script, s': Script, self: nat, target: nat)
    requires SameShape(s, s')
    ensures Writes(s, self, target) == Writes(s', self, target)
  {
    match s
    case Done =>
    case Read(_, next) => ShapeWrites(next, s'.next, self, target);
    case Write(_, _, next) => ShapeWrites(next, s'.next, self, target);
    case Call(address, body, next) =>
      ShapeWrites(body, s'.body, address, target);
      ShapeWrites(next, s'.next, self, target);
  }

  lemma {:induction false} ShapeDecides(s: Script, s': Script, self: nat, cached: set<nat>, dirty: set<nat>)
    requires SameShape(s, s')
    ensures NoStaleRead(s, self, cached, dirty) <==> NoStaleRead(s', self, cached, dirty)
  {
    match s
    case Done =>
    case Read(slot, next) => ShapeDecides(next, s'.next, self, cached + {slot}, dirty);
    case Write(slot, _, next) => ShapeDecides(next, s'.next, self, cached + {slot}, dirty - {slot});
    case Call(address, body, next) =>
      ShapeWrites(body, s'.body, address, self);
      ShapeDecides(body, s'.body, address, {}, {});
      ShapeDecides(next, s'.next, self, cached, dirty + cached * Writes(body, address, self));
  }

  /** Numbers the written values from k on, in the order of execution. */
  function Number(s: Script, k: nat): (Script, nat) {
    match s
    case Done => (Done, k)
    case Read(slot, next) => var (n, m) := Number(next, k); (Read(slot, n), m)
    case Write(slot, _, next) => var (n, m) := Number(next, k + 1); (Write(slot, k, n), m)
    case Call(address, body, next) =>
      var (b, j) := Number(body, k);
      var (n, m) := Number(next, j);
      (Call(address, b, n), m)
  }

  lemma {:induction false} NumberShape(s: Script, k: nat)
    ensures SameShape(s, Number(s, k).0) && Number(s, k).1 >= k
  {
    match s
    case Done =>
    case Read(_, next) => NumberShape(next, k);
    case Write(_, _, next) => NumberShape(next, k + 1);
    case Call(_, body, next) =>
      NumberShape(body, k);
      NumberShape(next, Number(body, k).1);
  }

  ghost predicate Below(store: Store, k: nat) {
    k > 0 && forall key :: key in store ==> store[key] < k
  }

  /** After a numbered call the slots that it wrote hold new numbers. */
  lemma {:induction false} NumbersAreNew(store: Store, self: nat, s: Script, k: nat, target: nat)
    requires Below(store, k)
    ensures var (s', m) := Number(s, k);
      && Below(Plain(store, self, s').0, m) && m >= k
      && forall slot :: slot in Writes(s, self, target) ==> Lookup(Plain(store, self, s').0, target, slot) >= k
    decreases s
  {
    match s
    case Done =>
    case Read(_, next) => NumbersAreNew(store, self, next, k, target);
    case Write(slot, _, next) =>
      var store' := store[(self, slot) := k];
      NumbersAreNew(store', self, next, k + 1, target);
      NumberShape(next, k + 1);
      ShapeWrites(next, Number(next, k + 1).0, self, target);
      WritesFrame(store', self, Number(next, k + 1).0, target);
    case Call(address, body, next) =>
      var (b, j) := Number(body, k);
      var mid := Plain(store, address, b).0;
      NumbersAreNew(store, address, body, k, target);
      NumbersAreNew(mid, self, next, j, target);
      NumberShape(next, j);
      ShapeWrites(next, Number(next, j).0, self, target);
      WritesFrame(mid, self, Number(next, j).0, target);
  }

  /** Both executions return one value per read. */
  lemma {:induction false} SameLength(store: Store, self: nat, c: Actions, s: Script)
    ensures |Execute(store, self, c, s).values| == |Plain(store, self, s).1|
    decreases s
  {
    match s
    case Done =>
    case Read(slot, next) => SameLength(store, self, AfterRead(c, store, self, slot), next);
    case Write(slot, value, next) => SameLength(store[(self, slot) := value], self, AfterWrite(c, store, self, slot, value), next);
    case Call(address, body, next) =>
      SameLength(store, address, NOTHING, body);
      StateAlwaysRight(store, address, NOTHING, body);
      SameLength(Plain(store, address, body).0, self, c, next);
  }

  lemma PartsDiffer(a: seq<nat>, b: seq<nat>, c: seq<nat>, d: seq<nat>)
    requires |a| == |c| && (a != c || b != d)
    ensures a + b != c + d
  {
    assert a == (a + b)[..|a|] && c == (c + d)[..|c|];
    assert b == (a + b)[|a|..] && d == (c + d)[|c|..];
  }

  /** Cached values are old numbers, and those of dirty slots are no longer in the store. */
  ghost predicate Stale(c: Actions, store: Store, self: nat, dirty: set<nat>, k: nat) {
    && (forall slot :: slot in Cached(c) ==> ReadValue(c, store, self, slot) < k)
    && (forall slot :: slot in dirty ==> slot in Cached(c) && ReadValue(c, store, self, slot) != Lookup(store, self, slot))
  }

  lemma StaleWrite(c: Actions, store: Store, self: nat, dirty: set<nat>, k: nat, slot: nat)
    requires Stale(c, store, self, dirty, k) && Below(store, k)
    ensures var c', store' := AfterWrite(c, store, self, slot, k), store[(self, slot) := k];
      Stale(c', store', self, dirty - {slot}, k + 1) && Below(store', k + 1) && Cached(c') == Cached(c) + {slot}
  {
  }

  lemma StaleCall(c: Actions, store: Store, self: nat, dirty: set<nat>, k: nat, address: nat, body: Script)
    requires Stale(c, store, self, dirty, k) && Below(store, k)
    ensures var (b, j) := Number(body, k);
      var mid := Plain(store, address, b).0;
      Stale(c, mid, self, dirty + Cached(c) * Writes(body, address, self), j) && Below(mid, j)
  {
    var (b, j) := Number(body, k);
    NumbersAreNew(store, address, body, k, self);
    NumberShape(body, k);
    ShapeWrites(body, b, address, self);
    WritesFrame(store, address, b, self);
  }

  /** Needed: where a stale slot is read, numbering the writes makes some read return a wrong value. */
  lemma {:induction false} StaleReadShows(store: Store, self: nat, c: Actions, s: Script, dirty: set<nat>, k: nat)
    requires Stale(c, store, self, dirty, k) && Below(store, k) && !NoStaleRead(s, self, Cached(c), dirty)
    ensures var s' := Number(s, k).0; Execute(store, self, c, s').values != Plain(store, self, s').1
    decreases s
  {
    match s
    case Read(slot, next) =>
      var c', n := AfterRead(c, store, self, slot), Number(next, k).0;
      if slot !in dirty {
        assert Cached(c') == Cached(c) + {slot};
        StaleReadShows(store, self, c', next, dirty, k);
      }
      PartsDiffer([ReadValue(c, store, self, slot)], Execute(store, self, c', n).values, [Lookup(store, self, slot)], Plain(store, self, n).1);
    case Write(slot, _, next) =>
      StaleWrite(c, store, self, dirty, k, slot);
      StaleReadShows(store[(self, slot) := k], self, AfterWrite(c, store, self, slot, k), next, dirty - {slot}, k + 1);
    case Call(address, body, next) =>
      var (b, j) := Number(body, k);
      var n, mid := Number(next, j).0, Plain(store, address, b).0;
      NothingCached();
      StateAlwaysRight(store, address, NOTHING, b);
      SameLength(store, address, NOTHING, b);
      if !NoStaleRead(body, address, {}, {}) {
        StaleReadShows(store, address, NOTHING, body, {}, k);
      } else {
        StaleCall(c, store, self, dirty, k, address, body);
        StaleReadShows(mid, self, c, next, dirty + Cached(c) * Writes(body, address, self), j);
      }
      PartsDiffer(Execute(store, address, NOTHING, b).values, Execute(mid, self, c, n).values, Plain(store, address, b).1, Plain(mid, self, n).1);
  }

  /** The collector returns plain-store values for every starting store and all written values if and only if the
      order of accesses has no stale read. */
  lemma CollectorExact(self: nat, s: Script)
    ensures NoStaleRead(s, self, {}, {}) <==>
      forall store: Store, s': Script :: SameShape(s, s') ==> Execute(store, self, NOTHING, s').values == Plain(store, self, s').1
  {
    NothingCached();
    if NoStaleRead(s, self, {}, {}) {
      forall store: Store, s': Script | SameShape(s, s')
        ensures Execute(store, self, NOTHING, s').values == Plain(store, self, s').1
      {
        ShapeDecides(s, s', self, {}, {});
        FreshReads(store, self, NOTHING, s', {});
      }
    } else {
      NumberShape(s, 1);
      StaleReadShows(map[], self, NOTHING, s, {}, 1);
    }
  }

  lemma {:induction false} AvoidsWritesNothing(s: Script, self: nat, target: nat)
    requires self != target && Avoids(s, target)
    ensures Writes(s, self, target) == {}
  {
    match s
    case Done =>
    case Read(_, next) => AvoidsWritesNothing(next, self, target);
    case Write(_, _, next) => AvoidsWritesNothing(next, self, target);
    case Call(address, body, next) =>
      AvoidsWritesNothing(body, address, target);
      AvoidsWritesNothing(next, self, target);
  }

  /** Without re-entry there is no stale read. */
  lemma {:induction false} NoReentryNoStale(s: Script, self: nat, cached: set<nat>)
    requires NoReentry(s, self)
    ensures NoStaleRead(s, self, cached, {})
  {
    var none: set<nat> := {};
    match s
    case Done =>
    case Read(slot, next) => NoReentryNoStale(next, self, cached + {slot});
    case Write(slot, _, next) =>
      assert none - {slot} == none;
      NoReentryNoStale(next, self, cached + {slot});
    case Call(address, body, next) =>
      AvoidsWritesNothing(body, address, self);
      NoReentryNoStale(body, address, {});
      NoReentryNoStale(next, self, cached);
      assert none + cached * none == none;
  }

  // The collected records.

  /** Nested calls write only slots that the call has accessed before, and the call writes each of them again
      afterwards. */
  predicate RecordsKept(s: Script, self: nat, cached: set<nat>, dirty: set<nat>) {
    match s
    case Done => dirty == {}
    case Read(slot, next) => RecordsKept(next, self, cached + {slot}, dirty)
    case Write(slot, _, next) => RecordsKept(next, self, cached + {slot}, dirty - {slot})
    case Call(address, body, next) =>
      Writes(body, address, self) <= cached && RecordsKept(next, self, cached, dirty + Writes(body, address, self))
  }

  /** The records describe the call so far, except for the current values of dirty slots. */
  ghost predicate CollapsedBut(store0: Store, store: Store, address: nat, c: Actions, dirty: set<nat>) {
    && c.firstReads.Keys !! c.updates.Keys && dirty <= Cached(c)
    && (forall slot :: slot in c.firstReads ==> c.firstReads[slot] == Lookup(store0, address, slot))
    && (forall slot :: slot in c.updates ==> c.updates[slot].oldValue == Lookup(store0, address, slot))
    && forall slot :: slot !in dirty ==>
         Lookup(store, address, slot) == if slot in c.updates then c.updates[slot].newValue else Lookup(store0, address, slot)
  }

  lemma CollapsedButRead(store0: Store, store: Store, self: nat, c: Actions, dirty: set<nat>, slot: nat)
    requires CollapsedBut(store0, store, self, c, dirty)
    ensures CollapsedBut(store0, store, self, AfterRead(c, store, self, slot), dirty)
    ensures Cached(AfterRead(c, store, self, slot)) == Cached(c) + {slot}
  {
  }

  lemma CollapsedButWrite(store0: Store, store: Store, self: nat, c: Actions, dirty: set<nat>, slot: nat, value: nat)
    requires CollapsedBut(store0, store, self, c, dirty)
    ensures CollapsedBut(store0, store[(self, slot) := value], self, AfterWrite(c, store, self, slot, value), dirty - {slot})
  {
    var store' := store[(self, slot) := value];
    assert forall s :: Lookup(store', self, s) == if s == slot then value else Lookup(store, self, s);
    assert dirty - {slot} <= Cached(AfterWrite(c, store, self, slot, value)) by { CachedAfterWrite(c, store, self, slot, value); }
    hide Lookup; hide Cached;
    assert slot !in c.updates && slot !in c.firstReads ==> slot !in dirty by { CachedSlots(c); }
  }

  lemma CachedSlots(c: Actions)
    ensures forall slot :: slot in Cached(c) <==> slot in c.firstReads || slot in c.updates
  {
  }

  lemma CachedAfterWrite(c: Actions, store: Store, self: nat, slot: nat, value: nat)
    ensures Cached(AfterWrite(c, store, self, slot, value)) == Cached(c) + {slot}
  {
    hide Lookup;
  }

  /** Enough: the records describe the whole call. */
  lemma {:induction false} RecordsRight(store0: Store, store: Store, self: nat, c: Actions, s: Script, dirty: set<nat>)
    requires CollapsedBut(store0, store, self, c, dirty) && RecordsKept(s, self, Cached(c), dirty)
    ensures var r := Execute(store, self, c, s); Collapsed(store0, r.store, self, r.collected)
    decreases s
  {
    match s
    case Done =>
    case Read(slot, next) =>
      CollapsedButRead(store0, store, self, c, dirty, slot);
      RecordsRight(store0, store, self, AfterRead(c, store, self, slot), next, dirty);
    case Write(slot, value, next) =>
      CollapsedButWrite(store0, store, self, c, dirty, slot, value);
      CachedAfterWrite(c, store, self, slot, value);
      RecordsRight(store0, store[(self, slot) := value], self, AfterWrite(c, store, self, slot, value), next, dirty - {slot});
    case Call(address, body, next) =>
      StateAlwaysRight(store, address, NOTHING, body);
      WritesFrame(store, address, body, self);
      RecordsRight(store0, Plain(store, address, body).0, self, c, next, dirty + Writes(body, address, self));
  }

  lemma {:induction false} ShapeDecidesRecords(s: Script, s': Script, self: nat, cached: set<nat>, dirty: set<nat>)
    requires SameShape(s, s')
    ensures RecordsKept(s, self, cached, dirty) <==> RecordsKept(s', self, cached, dirty)
  {
    match s
    case Done =>
    case Read(slot, next) => ShapeDecidesRecords(next, s'.next, self, cached + {slot}, dirty);
    case Write(slot, _, next) => ShapeDecidesRecords(next, s'.next, self, cached + {slot}, dirty - {slot});
    case Call(address, body, next) =>
      ShapeWrites(body, s'.body, address, self);
      ShapeDecidesRecords(next, s'.next, self, cached, dirty + Writes(body, address, self));
  }

  /** The first value recorded for a slot. */
  function Original(c: Actions, store: Store, self: nat, slot: nat): nat {
    if slot in c.updates then c.updates[slot].oldValue
    else if slot in c.firstReads then c.firstReads[slot]
    else Lookup(store, self, slot)
  }

  /** A slot whose value when first accessed is a number given out after the call began is recorded wrongly. */
  lemma {:induction false} LateValueStays(store0: Store, k0: nat, store: Store, self: nat, c: Actions, s: Script, k: nat, slot: nat)
    requires Below(store0, k0) && k0 <= k && Below(store, k) && Original(c, store, self, slot) >= k0
    ensures var r := Execute(store, self, c, Number(s, k).0); !Collapsed(store0, r.store, self, r.collected)
    decreases s
  {
    match s
    case Done => assert Lookup(store0, self, slot) < k0;
    case Read(x, next) => LateValueStays(store0, k0, store, self, AfterRead(c, store, self, x), next, k, slot);
    case Write(x, _, next) =>
      LateValueStays(store0, k0, store[(self, x) := k], self, AfterWrite(c, store, self, x, k), next, k + 1, slot);
    case Call(address, body, next) =>
      var (b, j) := Number(body, k);
      var mid := Plain(store, address, b).0;
      StateAlwaysRight(store, address, NOTHING, b);
      NumbersAreNew(store, address, body, k, self);
      NumberShape(body, k);
      ShapeWrites(body, b, address, self);
      WritesFrame(store, address, b, self);
      LateValueStays(store0, k0, mid, self, c, next, j, slot);
  }

  lemma DirtyAtEnd(store0: Store, store: Store, self: nat, c: Actions, dirty: set<nat>, k: nat)
    requires Stale(c, store, self, dirty, k) && dirty != {}
    ensures !Collapsed(store0, store, self, c)
  {
    var slot :| slot in dirty;
  }

  /** Needed: otherwise numbering the writes makes some record wrong. */
  lemma {:induction false} RecordsWrong(store0: Store, store: Store, self: nat, c: Actions, s: Script, dirty: set<nat>, k: nat)
    requires Stale(c, store, self, dirty, k) && Below(store0, k) && Below(store, k) && !RecordsKept(s, self, Cached(c), dirty)
    ensures var r := Execute(store, self, c, Number(s, k).0); !Collapsed(store0, r.store, self, r.collected)
    decreases s
  {
    match s
    case Done => DirtyAtEnd(store0, store, self, c, dirty, k);
    case Read(slot, next) =>
      assert Cached(AfterRead(c, store, self, slot)) == Cached(c) + {slot};
      RecordsWrong(store0, store, self, AfterRead(c, store, self, slot), next, dirty, k);
    case Write(slot, _, next) =>
      StaleWrite(c, store, self, dirty, k, slot);
      RecordsWrong(store0, store[(self, slot) := k], self, AfterWrite(c, store, self, slot, k), next, dirty - {slot}, k + 1);
    case Call(address, body, next) =>
      var (b, j) := Number(body, k);
      var mid := Plain(store, address, b).0;
      StateAlwaysRight(store, address, NOTHING, b);
      NumbersAreNew(store, address, body, k, self);
      var written := Writes(body, address, self);
      if slot :| slot in written && slot !in Cached(c) {
        LateValueStays(store0, k, mid, self, c, next, j, slot);
      } else {
        StaleCall(c, store, self, dirty, k, address, body);
        assert Cached(c) * written == written;
        RecordsWrong(store0, mid, self, c, next, dirty + written, j);
      }
  }

  /** For every starting store and all written values the collected reads and updates describe the call (disjoint
      slots, starting values, updates that lead to the final store) if and only if the order of accesses keeps the
      records. */
  lemma RecordsExact(self: nat, s: Script)
    ensures RecordsKept(s, self, {}, {}) <==>
      forall store: Store, s': Script :: SameShape(s, s') ==>
        var r := Execute(store, self, NOTHING, s'); Collapsed(store, r.store, self, r.collected)
  {
    NothingCached();
    if RecordsKept(s, self, {}, {}) {
      forall store: Store, s': Script | SameShape(s, s')
        ensures var r := Execute(store, self, NOTHING, s'); Collapsed(store, r.store, self, r.collected)
      {
        ShapeDecidesRecords(s, s', self, {}, {});
        RecordsRight(store, store, self, NOTHING, s', {});
      }
    } else {
      NumberShape(s, 1);
      RecordsWrong(map[], map[], self, NOTHING, s, {}, 1);
      var s' := Number(s, 1).0;
      var r := Execute(map[], self, NOTHING, s');
      assert SameShape(s, s') && !Collapsed(map[], r.store, self, r.collected);
    }
  }

  /** Without re-entry the records are kept. */
  lemma {:induction false} NoReentryRecordsKept(s: Script, self: nat, cached: set<nat>)
    requires NoReentry(s, self)
    ensures RecordsKept(s, self, cached, {})
  {
    var none: set<nat> := {};
    match s
    case Done =>
    case Read(slot, next) => NoReentryRecordsKept(next, self, cached + {slot});
    case Write(slot, _, next) =>
      assert none - {slot} == none;
      NoReentryRecordsKept(next, self, cached + {slot});
    case Call(address, body, next) =>
      AvoidsWritesNothing(body, address, self);
      NoReentryRecordsKept(next, self, cached);
      assert none + none == none;
  }
}
