/** The asynchronous queue under the semaphore and the serial queues.  Each call of `get` is identified by the
    promise it returns; a promise keeps the first outcome it is settled with. */
module MemoryFifo {

  datatype Outcome<T> = Item(value: T) | Null | TimedOut

  /** The queue and its history: `accepted` are the items that put took, `served` the promises that received an
      item, in the order of delivery, and `discarded` the items that cancel dropped. */
  datatype Fifo<T> = Fifo(items: seq<T>, waiting: seq<nat>, flushing: bool, promises: map<nat, Outcome<T>>, nextId: nat,
                          accepted: seq<T>, served: seq<nat>, discarded: seq<T>)

  function Empty<T>(): Fifo<T> {
    Fifo([], [], false, map[], 0, [], [], [])
  }

  function Settle<T>(promises: map<nat, Outcome<T>>, id: nat, o: Outcome<T>): map<nat, Outcome<T>> {
    if id in promises then promises else promises[id := o]
  }

  /** Settles every listed promise that is still open. */
  function SettleAll<T>(promises: map<nat, Outcome<T>>, ids: seq<nat>, o: Outcome<T>): (r: map<nat, Outcome<T>>)
    ensures forall id: nat :: id in r <==> id in promises || id in ids
    ensures forall id: nat :: id in r ==> r[id] == if id in promises then promises[id] else o
    decreases |ids|
  {
    if ids == [] then promises else SettleAll(Settle(promises, ids[0], o), ids[1..], o)
  }

  function Put<T>(q: Fifo<T>, item: T): Fifo<T> {
    if q.flushing then q
    else if q.waiting != [] then
      q.(waiting := q.waiting[1..], promises := Settle(q.promises, q.waiting[0], Item(item)),
         accepted := q.accepted + [item], served := q.served + [q.waiting[0]])
    else q.(items := q.items + [item], accepted := q.accepted + [item])
  }

  function Get<T>(q: Fifo<T>): Fifo<T> {
    var next := q.(nextId := q.nextId + 1);
    if q.items != [] then
      next.(items := q.items[1..], promises := Settle(q.promises, q.nextId, Item(q.items[0])), served := q.served + [q.nextId])
    else if q.flushing then next.(promises := Settle(q.promises, q.nextId, Null))
    else next.(waiting := q.waiting + [q.nextId])
  }

  /** Removes the first occurrence, if any. */
  function Without(ids: seq<nat>, id: nat): seq<nat> {
    if ids == [] then [] else if ids[0] == id then ids[1..] else [ids[0]] + Without(ids[1..], id)
  }

  /** The timer of a `get` fires: it matters only while its promise is still listed. */
  function Timeout<T>(q: Fifo<T>, id: nat): Fifo<T> {
    if id in q.waiting then q.(waiting := Without(q.waiting, id), promises := Settle(q.promises, id, TimedOut)) else q
  }

  /** The waiting list is not emptied: its promises are settled, and flushing keeps it from being used again. */
  function End<T>(q: Fifo<T>): Fifo<T> {
    q.(flushing := true, promises := SettleAll(q.promises, q.waiting, Null))
  }

  function Cancel<T>(q: Fifo<T>): Fifo<T> {
    q.(flushing := true, items := [], discarded := q.discarded + q.items, promises := SettleAll(q.promises, q.waiting, Null))
  }

  datatype Event<T> = PutEvent(item: T) | GetEvent | TimeoutEvent(id: nat) | EndEvent | CancelEvent

  function Step<T>(q: Fifo<T>, e: Event<T>): Fifo<T> {
    match e
    case PutEvent(item) => Put(q, item)
    case GetEvent => Get(q)
    case TimeoutEvent(id) => Timeout(q, id)
    case EndEvent => End(q)
    case CancelEvent => Cancel(q)
  }

  function Run<T>(q: Fifo<T>, events: seq<Event<T>>): Fifo<T> {
    if events == [] then q else Step(Run(q, events[..|events| - 1]), events[|events| - 1])
  }

  ghost predicate Increasing(ids: seq<nat>) {
    forall i, j :: 0 <= i < j < |ids| ==> ids[i] < ids[j]
  }

  /** Nothing is lost, duplicated or reordered: the k-th accepted item went to the k-th served promise, the rest
      was discarded or is queued. */
  ghost predicate Conserved<T>(q: Fifo<T>) {
    && |q.served| <= |q.accepted|
    && q.accepted[|q.served|..] == q.discarded + q.items
    && (forall k :: 0 <= k < |q.served| ==> q.served[k] in q.promises && q.promises[q.served[k]] == Item(q.accepted[k]))
  }

  /** Promises are served in the order of the calls, and none is overtaken while it waits. */
  ghost predicate InOrder<T>(q: Fifo<T>) {
    && Increasing(q.served)
    && (forall s, id: nat :: s in q.served && id <= s ==> id in q.promises)
    && (forall id: nat :: id in q.promises && q.promises[id].Item? ==> id in q.served)
  }

  /** The open promises are exactly those listed as waiting while the queue is not flushing; then they do not
      coexist with items.  A flushing queue has none, and only a flushing queue answers null. */
  ghost predicate Waiters<T>(q: Fifo<T>) {
    && Increasing(q.waiting)
    && (forall id: nat :: id in q.promises ==> id < q.nextId)
    && (forall id: nat :: id in q.waiting ==> id < q.nextId)
    && (q.flushing ==> forall id: nat :: id < q.nextId ==> id in q.promises)
    && (!q.flushing ==>
          && (forall id: nat :: id < q.nextId ==> (id in q.promises <==> id !in q.waiting))
          && (q.waiting != [] ==> q.items == []) && q.discarded == [])
    && (q.discarded != [] ==> q.items == [])
    && (forall id: nat :: id in q.promises && q.promises[id].Null? ==> q.flushing)
  }

  ghost predicate Inv<T>(q: Fifo<T>) {
    Conserved(q) && InOrder(q) && Waiters(q)
  }

  lemma EmptyInv<T>()
    ensures Inv(Empty<T>())
  {
  }

  lemma PutInv<T>(q: Fifo<T>, item: T)
    requires Inv(q)
    ensures Inv(Put(q, item))
  {
    if !q.flushing && q.waiting != [] {
      var w := q.waiting[0];
      assert q.accepted == q.accepted[..|q.served|] by { assert q.accepted[|q.served|..] == []; }
      assert w !in q.promises;
      PutToWaiter(q, item);
    }
  }

  /** The longest waiting promise is older than every other open one, and newer than every served one. */
  lemma PutToWaiter<T>(q: Fifo<T>, item: T)
    requires Inv(q) && !q.flushing && q.waiting != []
    ensures InOrder(Put(q, item)) && Waiters(Put(q, item))
  {
    var w, q' := q.waiting[0], Put(q, item);
    assert w in q.waiting;
    forall id: nat | id < w
      ensures id in q.promises
    {
      assert id !in q.waiting;
    }
    forall s | s in q.served
      ensures s < w
    {
      assert s in q.promises && w !in q.promises;
      assert forall id: nat :: id <= s ==> id in q.promises;
    }
    IncreasingLast(q.served, w);
    assert forall id: nat :: id in q.waiting <==> id == w || id in q'.waiting;
    assert w !in q'.waiting;
  }

  lemma IncreasingLast(ids: seq<nat>, id: nat)
    requires Increasing(ids) && forall j :: j in ids ==> j < id
    ensures Increasing(ids + [id])
  {
    assert forall i :: 0 <= i < |ids| ==> ids[i] in ids;
  }

  lemma GetInv<T>(q: Fifo<T>)
    requires Inv(q)
    ensures Inv(Get(q))
  {
    if q.items != [] {
      GetQueued(q);
    } else if !q.flushing {
      GetBlocked(q);
    }
  }

  lemma GetQueued<T>(q: Fifo<T>)
    requires Inv(q) && q.items != []
    ensures Inv(Get(q))
  {
    GetQueuedConserves(q);
    hide Conserved;
    forall s | s in q.served
      ensures s < q.nextId
    {
      assert s in q.promises by { ServedSettled(q, s); }
    }
    IncreasingLast(q.served, q.nextId);
  }

  lemma ServedSettled<T>(q: Fifo<T>, s: nat)
    requires Conserved(q) && s in q.served
    ensures s in q.promises
  {
  }

  /** The oldest queued item is the first accepted one that was not yet delivered. */
  lemma GetQueuedConserves<T>(q: Fifo<T>)
    requires Conserved(q) && Waiters(q) && q.items != []
    ensures Conserved(Get(q))
  {
    assert q.nextId !in q.promises && q.discarded == [];
    assert q.accepted[|q.served|..] == q.items;
    assert q.accepted[|q.served|] == q.items[0];
    assert Get(q).accepted[|q.served| + 1..] == q.items[1..];
  }

  lemma GetBlocked<T>(q: Fifo<T>)
    requires Inv(q) && q.items == [] && !q.flushing
    ensures Inv(Get(q))
  {
    hide Conserved; hide InOrder;
    IncreasingLast(q.waiting, q.nextId);
    assert Conserved(Get(q)) && InOrder(Get(q)) by { SameHistory(q, Get(q)); }
  }

  lemma SameHistory<T>(q: Fifo<T>, q': Fifo<T>)
    requires Conserved(q) && InOrder(q)
    requires q'.items == q.items && q'.promises == q.promises && q'.accepted == q.accepted && q'.served == q.served && q'.discarded == q.discarded
    ensures Conserved(q') && InOrder(q')
  {
  }

  lemma {:induction false} WithoutId(ids: seq<nat>, id: nat)
    requires Increasing(ids)
    ensures Increasing(Without(ids, id))
    ensures forall j: nat :: j in Without(ids, id) <==> j in ids && j != id
    ensures |Without(ids, id)| <= |ids|
  {
    if ids != [] {
      WithoutId(ids[1..], id);
      assert ids == [ids[0]] + ids[1..];
      forall j | 0 <= j < |Without(ids[1..], id)|
        ensures ids[0] < Without(ids[1..], id)[j]
      {
        assert Without(ids[1..], id)[j] in ids[1..];
      }
    }
  }

  lemma TimeoutInv<T>(q: Fifo<T>, id: nat)
    requires Inv(q)
    ensures Inv(Timeout(q, id))
  {
    WithoutId(q.waiting, id);
  }

  lemma FlushInv<T>(q: Fifo<T>)
    requires Inv(q)
    ensures Inv(End(q)) && Inv(Cancel(q))
  {
    assert q.discarded + q.items == q.discarded + q.items + [];
  }

  lemma StepInv<T>(q: Fifo<T>, e: Event<T>)
    requires Inv(q)
    ensures Inv(Step(q, e))
  {
    hide Inv; hide Put; hide Get; hide Timeout; hide End; hide Cancel;
    match e
    case PutEvent(item) => PutInv(q, item);
    case GetEvent => GetInv(q);
    case TimeoutEvent(id) => TimeoutInv(q, id);
    case _ => FlushInv(q);
  }

  /** A settled promise keeps its outcome, and a promise is rejected only by its own timer. */
  lemma PromisesStay<T>(q: Fifo<T>, e: Event<T>)
    ensures forall id: nat :: id in q.promises ==> id in Step(q, e).promises && Step(q, e).promises[id] == q.promises[id]
    ensures forall id: nat :: id in Step(q, e).promises && id !in q.promises && Step(q, e).promises[id].TimedOut? ==> e == TimeoutEvent(id)
    ensures Step(q, e).nextId >= q.nextId
  {
  }

  /** A promise is settled once: whatever happens later, its outcome stays. */
  lemma {:induction false} SettledForGood<T>(q: Fifo<T>, events: seq<Event<T>>, id: nat)
    requires id in q.promises
    ensures id in Run(q, events).promises && Run(q, events).promises[id] == q.promises[id]
  {
    if events != [] {
      SettledForGood(q, events[..|events| - 1], id);
      PromisesStay(Run(q, events[..|events| - 1]), events[|events| - 1]);
      hide Step;
    }
  }

  /** The timer of an open promise rejects that promise for good, and takes it and no other off the waiting list. */
  lemma TimeoutRejects<T>(q: Fifo<T>, id: nat, more: seq<Event<T>>)
    requires Inv(q) && id < q.nextId && id !in q.promises
    ensures var q' := Timeout(q, id);
      && q' == q.(waiting := q'.waiting, promises := q.promises[id := TimedOut])
      && Increasing(q'.waiting) && (forall j: nat :: j in q'.waiting <==> j in q.waiting && j != id)
    ensures id in Run(Timeout(q, id), more).promises && Run(Timeout(q, id), more).promises[id] == TimedOut
  {
    WithoutId(q.waiting, id);
    assert id in q.waiting;
    SettledForGood(Timeout(q, id), more, id);
  }

  /** The timer of a promise that is settled by now has no effect. */
  lemma LateTimeout<T>(q: Fifo<T>, id: nat)
    requires Inv(q) && id in q.promises
    ensures Timeout(q, id).promises == q.promises
  {
  }

  /** The items put before the first end or cancel. */
  function PutsBeforeEnd<T>(events: seq<Event<T>>): seq<T> {
    if events == [] then []
    else
      var init, e := events[..|events| - 1], events[|events| - 1];
      PutsBeforeEnd(init) + if e.PutEvent? && !Ended(init) then [e.item] else []
  }

  predicate Ended<T>(events: seq<Event<T>>) {
    exists i :: 0 <= i < |events| && (events[i].EndEvent? || events[i].CancelEvent?)
  }

  function CountGets<T>(events: seq<Event<T>>): nat {
    if events == [] then 0 else CountGets(events[..|events| - 1]) + if events[|events| - 1].GetEvent? then 1 else 0
  }

  /** A run accepts exactly the items put before the first end or cancel, makes one promise per get, refuses items
      exactly from the first end or cancel on, and discards nothing without a cancel. */
  lemma {:induction false} RunAccepts<T>(events: seq<Event<T>>)
    ensures var q := Run(Empty<T>(), events);
      && q.accepted == PutsBeforeEnd(events) && q.nextId == CountGets(events)
      && (q.flushing <==> Ended(events))
      && (CancelEvent !in events ==> q.discarded == [])
  {
    if events != [] {
      var init, e := events[..|events| - 1], events[|events| - 1];
      RunAccepts(init);
      assert events == init + [e];
      EndedLast(init, e);
      StepAccepts(Run(Empty<T>(), init), e);
      hide Ended; hide Step;
    }
  }

  lemma StepAccepts<T>(q: Fifo<T>, e: Event<T>)
    ensures var q' := Step(q, e);
      && q'.accepted == q.accepted + (if e.PutEvent? && !q.flushing then [e.item] else [])
      && q'.nextId == q.nextId + (if e.GetEvent? then 1 else 0)
      && (q'.flushing <==> q.flushing || e.EndEvent? || e.CancelEvent?)
      && (q'.discarded == q.discarded || e.CancelEvent?)
  {
    hide SettleAll; hide Settle; hide Without;
  }

  lemma EndedLast<T>(events: seq<Event<T>>, e: Event<T>)
    ensures Ended(events + [e]) <==> Ended(events) || e.EndEvent? || e.CancelEvent?
  {
    var all := events + [e];
    assert all[|events|] == e;
    if i :| 0 <= i < |events| && (events[i].EndEvent? || events[i].CancelEvent?) { assert all[i] == events[i]; }
  }

  /** A get is answered at once if an item is queued or the queue is flushing, and waits otherwise. */
  lemma GetAnswers<T>(q: Fifo<T>)
    requires Inv(q)
    ensures var q' := Get(q);
      if q.items != [] then q'.promises == q.promises[q.nextId := Item(q.items[0])] && q'.items == q.items[1..]
      else if q.flushing then q'.promises == q.promises[q.nextId := Null]
      else q'.promises == q.promises && q'.waiting == q.waiting + [q.nextId]
  {
  }

  /** A cancel empties the queue, an end leaves the items to be taken; both answer every open promise with null. */
  lemma FlushAnswers<T>(q: Fifo<T>, id: nat)
    requires Inv(q)
    ensures Cancel(q).items == [] && End(q).items == q.items
    ensures id < q.nextId ==>
      forall q' :: q' == End(q) || q' == Cancel(q) ==>
        id in q'.promises && q'.promises[id] == if id in q.promises then q.promises[id] else Null
  {
    hide Conserved; hide InOrder;
  }

  /** Safety over every interleaving of put, get, timeout, end and cancel. */
  lemma {:induction false} RunInv<T>(events: seq<Event<T>>)
    ensures Inv(Run(Empty<T>(), events))
  {
    if events == [] {
      EmptyInv<T>();
    } else {
      hide Inv; hide Step;
      RunInv(events[..|events| - 1]);
      StepInv(Run(Empty<T>(), events[..|events| - 1]), events[|events| - 1]);
    }
  }

  /** What a run means to its users: delivered items, in delivery order, are a prefix of the accepted ones; the
      others were discarded by a cancel or are still queued; promises were served in call order; once end or
      cancel was called no promise is open, and a further get is settled at once. */
  lemma FifoSafety<T>(events: seq<Event<T>>)
    ensures var q := Run(Empty<T>(), events);
      && Increasing(q.served)
      && (forall k :: 0 <= k < |q.served| ==> k < |q.accepted| && q.served[k] in q.promises && q.promises[q.served[k]] == Item(q.accepted[k]))
      && (forall id: nat :: id in q.promises && q.promises[id].Item? ==> id in q.served)
      && |q.served| <= |q.accepted| && q.accepted == q.accepted[..|q.served|] + q.discarded + q.items
      && (q.items != [] ==> forall id: nat :: id < q.nextId ==> id in q.promises)
      && (q.flushing ==>
            && (forall id: nat :: id < q.nextId ==> id in q.promises)
            && Get(q).promises[q.nextId] == (if q.items != [] then Item(q.items[0]) else Null)
            && forall item :: Put(q, item) == q)
  {
    RunInv(events);
    var q := Run(Empty<T>(), events);
    hide Run;
    assert q.accepted == q.accepted[..|q.served|] + q.accepted[|q.served|..];
  }

  /** The queue as it is coded; the history is ghost. */
  class Queue<T(!new)> {
    var items: seq<T>
    var waiting: seq<nat>
    var flushing: bool
    var promises: map<nat, Outcome<T>>
    var nextId: nat
    ghost var accepted: seq<T>
    ghost var served: seq<nat>
    ghost var discarded: seq<T>

    ghost function State(): Fifo<T>
      reads this
    {
      Fifo(items, waiting, flushing, promises, nextId, accepted, served, discarded)
    }

    ghost predicate Valid()
      reads this
    {
      Inv(State())
    }

    constructor ()
      ensures Valid() && State() == Empty()
    {
      items, waiting, flushing, promises, nextId := [], [], false, map[], 0;
      accepted, served, discarded := [], [], [];
    }

    /** Returns the promise of the next item. */
    method GetItem() returns (id: nat)
      requires Valid()
      modifies this
      ensures Valid() && State() == Get(old(State())) && id == old(nextId)
    {
      hide Inv;
      GetInv(State());
      id := nextId;
      nextId := nextId + 1;
      if |items| > 0 {
        promises := Settle(promises, id, Item(items[0]));
        served := served + [id];
        items := items[1..];
      } else if flushing {
        promises := Settle(promises, id, Null);
      } else {
        waiting := waiting + [id];
      }
    }

    method FireTimeout(id: nat)
      requires Valid()
      modifies this
      ensures Valid() && State() == Timeout(old(State()), id)
    {
      hide Inv;
      TimeoutInv(State(), id);
      if id in waiting {
        waiting := Without(waiting, id);
        promises := Settle(promises, id, TimedOut);
      }
    }

    method PutItem(item: T)
      requires Valid()
      modifies this
      ensures Valid() && State() == Put(old(State()), item)
    {
      hide Inv;
      PutInv(State(), item);
      if flushing {
        return;
      } else if |waiting| > 0 {
        promises := Settle(promises, waiting[0], Item(item));
        served := served + [waiting[0]];
        waiting := waiting[1..];
      } else {
        items := items + [item];
      }
      accepted := accepted + [item];
    }

    /** `waiting.forEach(resolve => resolve(null))` */
    method ResolveWaiting()
      modifies this`promises
      ensures promises == SettleAll(old(promises), waiting, Null)
    {
      for i := 0 to |waiting|
        invariant SettleAll(promises, waiting[i..], Null) == SettleAll(old(promises), waiting, Null)
      {
        assert waiting[i..][1..] == waiting[i + 1..];
        promises := Settle(promises, waiting[i], Null);
      }
    }

    method EndQueue()
      requires Valid()
      modifies this
      ensures Valid() && State() == End(old(State()))
    {
      hide Inv; hide SettleAll;
      FlushInv(State());
      flushing := true;
      ResolveWaiting();
    }

    method CancelQueue()
      requires Valid()
      modifies this
      ensures Valid() && State() == Cancel(old(State()))
    {
      hide Inv; hide SettleAll;
      FlushInv(State());
      flushing := true;
      discarded := discarded + items;
      items := [];
      ResolveWaiting();
    }
  }
}

/** The `process` loop of the queue. */
module FifoProcess {
  import opened MemoryFifo

  /** The loop: about to call get, awaiting its promise, in the handler, or left. */
  datatype Consumer = Ready | Awaiting(promise: nat) | Handling | Stopped

  /** The loop beside other users of the queue: `pulled` are its promises and `handled` the items it gave to the
      handler. */
  datatype Process<T> = Process(queue: Fifo<T>, consumer: Consumer, pulled: seq<nat>, handled: seq<T>)
  datatype ProcessStep<T> = Other(event: Event<T>) | Pull | Wake | HandlerReturns | HandlerThrows

  function Begin<T>(): Process<T> {
    Process(Empty(), Ready, [], [])
  }

  /** The loop calls get without a timeout, so no timer rejects its promises. */
  function NextProcess<T>(p: Process<T>, s: ProcessStep<T>): Process<T> {
    match s
    case Other(event) => if event.TimeoutEvent? && event.id in p.pulled then p else p.(queue := Step(p.queue, event))
    case Pull =>
      if p.consumer.Ready? then
        p.(queue := Get(p.queue), consumer := Awaiting(p.queue.nextId), pulled := p.pulled + [p.queue.nextId])
      else p
    case Wake =>
      if p.consumer.Awaiting? && p.consumer.promise in p.queue.promises then
        match p.queue.promises[p.consumer.promise] {
          case Item(item) => p.(consumer := Handling, handled := p.handled + [item])
          case _ => p.(consumer := Stopped)
        }
      else p
    case HandlerReturns => if p.consumer.Handling? then p.(consumer := Ready) else p
    case HandlerThrows => if p.consumer.Handling? then p.(consumer := Stopped) else p
  }

  function RunProcess<T>(steps: seq<ProcessStep<T>>): Process<T> {
    if steps == [] then Begin() else NextProcess(RunProcess(steps[..|steps| - 1]), steps[|steps| - 1])
  }

  lemma RunLast<T>(steps: seq<ProcessStep<T>>, s: ProcessStep<T>)
    ensures RunProcess(steps + [s]) == NextProcess(RunProcess(steps), s)
  {
    assert (steps + [s])[..|steps|] == steps;
  }

  /** The handler throws, or the loop wakes to null. */
  predicate Stops<T(==)>(p: Process<T>, s: ProcessStep<T>) {
    || (s.HandlerThrows? && p.consumer.Handling?)
    || (s.Wake? && p.consumer.Awaiting? && p.consumer.promise in p.queue.promises && p.queue.promises[p.consumer.promise] == Null)
  }

  /** The k-th handled item is the one delivered to the loop's k-th promise; at most one promise is not yet handled. */
  ghost predicate HandledInOrder<T>(p: Process<T>) {
    && |p.handled| <= |p.pulled| <= |p.handled| + 1
    && (forall k :: 0 <= k < |p.handled| ==> p.pulled[k] in p.queue.promises && p.queue.promises[p.pulled[k]] == Item(p.handled[k]))
    && (forall k :: 0 <= k < |p.pulled| ==> p.pulled[k] < p.queue.nextId)
    && (p.consumer.Awaiting? ==> |p.pulled| == |p.handled| + 1 && p.pulled[|p.handled|] == p.consumer.promise)
    && (p.consumer.Ready? || p.consumer.Handling? ==> |p.pulled| == |p.handled|)
  }

  ghost predicate ProcessInv<T>(p: Process<T>) {
    && Inv(p.queue) && HandledInOrder(p)
    && (forall id :: id in p.pulled && id in p.queue.promises ==> !p.queue.promises[id].TimedOut?)
  }

  lemma ProcessStepInv<T>(p: Process<T>, s: ProcessStep<T>)
    requires ProcessInv(p)
    ensures ProcessInv(NextProcess(p, s))
  {
    hide Inv; hide Step; hide Get;
    match s
    case Other(event) =>
      StepInv(p.queue, event);
      PromisesStay(p.queue, event);
    case Pull =>
      PullIsGet(p.queue);
      GetInv(p.queue);
      PromisesStay(p.queue, GetEvent);
    case _ =>
  }

  lemma PullIsGet<T>(q: Fifo<T>)
    requires Inv(q)
    ensures Step(q, GetEvent) == Get(q) && Get(q).nextId == q.nextId + 1 && q.nextId !in q.promises
  {
  }

  lemma {:induction false} ProcessRunInv<T>(steps: seq<ProcessStep<T>>)
    ensures ProcessInv(RunProcess(steps))
  {
    if steps == [] {
      EmptyInv<T>();
    } else {
      hide ProcessInv; hide NextProcess;
      ProcessRunInv(steps[..|steps| - 1]);
      ProcessStepInv(RunProcess(steps[..|steps| - 1]), steps[|steps| - 1]);
    }
  }

  /** What `process` does over every interleaving with other users of the queue: it has handled, in order, the items
      delivered to its own promises. */
  lemma ProcessHandles<T>(steps: seq<ProcessStep<T>>)
    ensures var p := RunProcess(steps);
      && |p.handled| <= |p.pulled| <= |p.handled| + 1
      && (forall k :: 0 <= k < |p.handled| ==> p.pulled[k] in p.queue.promises && p.queue.promises[p.pulled[k]] == Item(p.handled[k]))
      && (p.consumer.Ready? || p.consumer.Handling? ==> |p.pulled| == |p.handled|)
  {
    ProcessRunInv(steps);
    hide RunProcess;
  }

  lemma StopStep<T>(p: Process<T>, s: ProcessStep<T>)
    requires ProcessInv(p)
    ensures NextProcess(p, s).consumer.Stopped? <==> p.consumer.Stopped? || Stops(p, s)
    ensures s.Wake? && Stops(p, s) ==> p.queue.flushing
  {
    hide Step; hide Get;
    if s.Wake? && p.consumer.Awaiting? { assert p.consumer.promise in p.pulled; }
  }

  /** Step i of the run ends the loop. */
  predicate StopsAt<T(==)>(steps: seq<ProcessStep<T>>, i: nat) {
    i < |steps| && Stops(RunProcess(steps[..i]), steps[i])
  }

  lemma StopsAtSplit<T>(steps: seq<ProcessStep<T>>, s: ProcessStep<T>)
    ensures (exists i: nat :: StopsAt(steps + [s], i)) <==> (exists i: nat :: StopsAt(steps, i)) || Stops(RunProcess(steps), s)
  {
    hide Stops; hide RunProcess;
    var all, n := steps + [s], |steps|;
    assert all[..n] == steps && all[n] == s;
    assert StopsAt(all, n) <==> Stops(RunProcess(steps), s);
    forall i: nat | i < n
      ensures StopsAt(all, i) <==> StopsAt(steps, i)
    {
      assert all[..i] == steps[..i] && all[i] == steps[i];
    }
    if i: nat :| StopsAt(all, i) { assert i == n || StopsAt(steps, i); }
  }

  /** The loop has ended if and only if a handler has thrown or it has been woken with null. */
  lemma {:induction false} ProcessStopsExactly<T>(steps: seq<ProcessStep<T>>)
    ensures RunProcess(steps).consumer.Stopped? <==> exists i: nat :: StopsAt(steps, i)
  {
    if steps != [] {
      hide *;
      var init, last := steps[..|steps| - 1], steps[|steps| - 1];
      assert steps == init + [last];
      ProcessStopsExactly(init);
      ProcessRunInv(init);
      RunLast(init, last);
      StopStep(RunProcess(init), last);
      StopsAtSplit(init, last);
    }
  }

  /** Only an end or a cancel wakes the loop with null: a loop that has ended although the queue is open was ended by
      its handler. */
  lemma OpenLoopEndedByThrow<T>(steps: seq<ProcessStep<T>>, i: nat)
    requires StopsAt(steps, i) && !RunProcess(steps[..i]).queue.flushing
    ensures steps[i].HandlerThrows? && RunProcess(steps[..i]).consumer.Handling?
  {
    ProcessRunInv(steps[..i]);
    StopStep(RunProcess(steps[..i]), steps[i]);
    hide RunProcess; hide NextProcess; hide ProcessInv;
  }

  /** A loop that has stopped handles nothing more. */
  lemma {:induction false} StoppedStays<T>(steps: seq<ProcessStep<T>>, more: seq<ProcessStep<T>>)
    requires RunProcess(steps).consumer.Stopped?
    ensures RunProcess(steps + more).consumer.Stopped? && RunProcess(steps + more).handled == RunProcess(steps).handled
    decreases |more|
  {
    if more == [] {
      assert steps + more == steps;
    } else {
      StoppedStays(steps, more[..|more| - 1]);
      assert (steps + more)[..|steps + more| - 1] == steps + more[..|more| - 1];
    }
  }

  function Throwing(): seq<ProcessStep<nat>> {
    [Other(PutEvent(7)), Other(PutEvent(8)), Pull, Wake, HandlerThrows]
  }

  lemma ThrowingRun()
    ensures var p := RunProcess(Throwing());
      p.consumer.Stopped? && !p.queue.flushing && p.queue.items == [8] && p.handled == [7]
  {
    hide RunProcess;
    var p0: Process<nat> := Begin();
    var p1 := NextProcess(p0, Other(PutEvent(7)));
    var p2 := NextProcess(p1, Other(PutEvent(8)));
    assert p2.queue.items == [7, 8] && p2.queue.nextId == 0;
    var p3 := NextProcess(p2, Pull);
    assert p3.queue.items == [8] && p3.queue.promises == map[0 := Item(7)];
    var p4 := NextProcess(p3, Wake);
    var p5 := NextProcess(p4, HandlerThrows);
    assert p5.consumer.Stopped? && !p5.queue.flushing && p5.queue.items == [8] && p5.handled == [7];
    hide NextProcess;
    var s1: seq<ProcessStep<nat>> := [Other(PutEvent(7))];
    RunNone<nat>();
    RunLast<nat>([], Other(PutEvent(7)));
    RunLast(s1, Other(PutEvent(8)));
    RunLast(s1 + [Other(PutEvent(8))], Pull);
    RunLast(s1 + [Other(PutEvent(8))] + [Pull], Wake);
    RunLast(s1 + [Other(PutEvent(8))] + [Pull] + [Wake], HandlerThrows);
    assert [] + [Other(PutEvent(7))] == s1;
    assert Throwing() == s1 + [Other(PutEvent(8))] + [Pull] + [Wake] + [HandlerThrows];
  }

  lemma RunNone<T>()
    ensures RunProcess<T>([]) == Begin()
  {
  }

  /** Two items are queued and the handler throws on the first: the queue is open, yet whatever happens next the second
      is never handled. */
  lemma ThrowEndsProcess(more: seq<ProcessStep<nat>>)
    ensures !RunProcess(Throwing()).queue.flushing && RunProcess(Throwing()).queue.items == [8]
    ensures RunProcess(Throwing() + more).handled == [7]
  {
    hide *;
    ThrowingRun();
    StoppedStays(Throwing(), more);
  }

  /** A loop whose handler returns goes on with the next item. */
  lemma LoopTakesNext<T>(p: Process<T>)
    requires ProcessInv(p) && p.consumer.Handling? && p.queue.items != []
    ensures NextProcess(p, HandlerReturns).consumer.Ready?
    ensures var p' := NextProcess(NextProcess(NextProcess(p, HandlerReturns), Pull), Wake);
      p'.consumer.Handling? && p'.handled == p.handled + [p.queue.items[0]] && p'.queue.items == p.queue.items[1..]
  {
    PullIsGet(p.queue);
  }
}
