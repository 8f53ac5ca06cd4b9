/** The bounded serial queue as a protocol: callers that acquire a token and then enqueue, a worker that runs the
    enqueued functions one at a time, and a semaphore whose tokens live in a queue of their own.  A step is an
    uninterrupted stretch of code between two awaits; when a function ends, the wrapper of put or exec, the wrapper
    of the serial queue and the process loop resume in three steps. */
module BoundedQueue {
  import opened MemoryFifo

  /** An enqueued function; those of put and exec hold a token, those of syncPoint do not. */
  datatype Task = Task(id: nat, bounded: bool)

  /** How a function ends. */
  datatype Completion = Returned | Threw

  /** The process loop: not started, about to call get, awaiting a promise, running a function, with the wrapper of put
      or exec done, with the serial queue's wrapper done, or left. */
  datatype Worker =
    | Off
    | Ready
    | Awaiting(promise: nat)
    | Running(task: Task)
    | Unwinding(task: Task, completion: Completion)
    | Returning(completion: Completion)
    | Stopped

  /** `requested` maps the semaphore promise of each put or exec call that has not yet resumed to its function;
      `finished` lists the functions whose caller has been answered and `results` the answers, `lost` counts the
      tokens of functions that were dropped. */
  datatype Bounded = Bounded(max: nat, sem: Fifo<()>, queue: Fifo<Task>, requested: map<nat, Task>,
                             worker: Worker, finished: seq<Task>, results: seq<Completion>, lost: nat)

  function Tokens(n: nat): (s: seq<()>)
    ensures |s| == n
  {
    if n == 0 then [] else Tokens(n - 1) + [()]
  }

  /** The semaphore's constructor puts `max` tokens. */
  function Start(max: nat): Bounded {
    Bounded(max, Empty<()>().(items := Tokens(max), accepted := Tokens(max)), Empty(), map[], Off, [], [], 0)
  }

  datatype Step =
    | CallBounded(id: nat)       // put or exec, up to the await of acquire
    | Resume(promise: nat)       // the rest of put or exec, once the token is there
    | CallSync(id: nat)
    | StartWorker
    | WorkerGet
    | WorkerResume
    | Complete(completion: Completion) // the running function ends, and the finally clause of put or exec runs
    | Answer                     // the serial queue's wrapper resolves or rejects its caller's promise
    | LoopBack                   // the process loop resumes after its handler
    | EndQueue
    | CancelQueue

  ghost predicate Enabled(b: Bounded, s: Step) {
    match s
    case Resume(p) => p in b.requested && p in b.sem.promises
    case StartWorker => b.worker.Off?
    case WorkerGet => b.worker.Ready?
    case WorkerResume => b.worker.Awaiting? && b.worker.promise in b.queue.promises
    case Complete(_) => b.worker.Running?
    case Answer => b.worker.Unwinding?
    case LoopBack => b.worker.Returning?
    case _ => true
  }

  function CountBounded(tasks: seq<Task>): nat {
    if tasks == [] then 0 else CountBounded(tasks[..|tasks| - 1]) + if tasks[|tasks| - 1].bounded then 1 else 0
  }

  /** put and exec: `try { await fn() } finally { release() }`.  The token is given back and the outcome goes on. */
  function Finally(sem: Fifo<()>, task: Task, c: Completion): (Fifo<()>, Completion) {
    (if task.bounded then Put(sem, ()) else sem, c)
  }

  /** The serial queue's wrapper: `try { resolve(await fn()) } catch { reject }`.  The caller is answered with the
      outcome, and the wrapper itself returns. */
  function Caught(c: Completion): (Completion, Completion) {
    (c, Returned)
  }

  /** The process loop after its handler: it goes on, or an exception leads out of it. */
  function AfterHandler(c: Completion): Worker {
    if c == Returned then Ready else Stopped
  }

  /** A step that is not enabled changes nothing. */
  ghost function Next(b: Bounded, s: Step): Bounded {
    if !Enabled(b, s) then b
    else match s
      case CallBounded(id) => b.(sem := Get(b.sem), requested := b.requested[b.sem.nextId := Task(id, true)])
      case Resume(p) => Enqueue(b.(requested := b.requested - {p}), b.requested[p])
      case CallSync(id) => Enqueue(b, Task(id, false))
      case StartWorker => b.(worker := Ready)
      case WorkerGet => b.(queue := Get(b.queue), worker := Awaiting(b.queue.nextId))
      case WorkerResume =>
        (match b.queue.promises[b.worker.promise]
         case Item(task) => b.(worker := Running(task))
         case _ => b.(worker := Stopped))
      case Complete(c) =>
        var (sem, outcome) := Finally(b.sem, b.worker.task, c);
        b.(sem := sem, worker := Unwinding(b.worker.task, outcome))
      case Answer =>
        var (result, outcome) := Caught(b.worker.completion);
        b.(finished := b.finished + [b.worker.task], results := b.results + [result], worker := Returning(outcome))
      case LoopBack => b.(worker := AfterHandler(b.worker.completion))
      case EndQueue => b.(queue := End(b.queue))
      case CancelQueue => b.(queue := Cancel(b.queue), lost := b.lost + CountBounded(b.queue.items))
  }

  /** Once the queue is flushing the function is dropped, and with it its token. */
  function Enqueue(b: Bounded, task: Task): Bounded {
    b.(queue := Put(b.queue, task), lost := b.lost + if b.queue.flushing && task.bounded then 1 else 0)
  }

  ghost function Run(max: nat, steps: seq<Step>): Bounded {
    if steps == [] then Start(max) else Next(Run(max, steps[..|steps| - 1]), steps[|steps| - 1])
  }

  /** The functions handed to the worker and not answered: at most one. */
  function InHand(b: Bounded): (tasks: seq<Task>)
    ensures |tasks| <= 1
  {
    match b.worker
    case Running(task) => [task]
    case Unwinding(task, _) => [task]
    case Awaiting(p) => if p in b.queue.promises && b.queue.promises[p].Item? then [b.queue.promises[p].value] else []
    case _ => []
  }

  /** Those of them that still hold their token. */
  function Holding(b: Bounded): (tasks: seq<Task>)
    ensures |tasks| <= 1
  {
    if b.worker.Unwinding? then [] else InHand(b)
  }

  /** The put and exec calls that hold a token and have not yet enqueued. */
  ghost function Granted(b: Bounded): set<nat> {
    set p | p in b.requested && p in b.sem.promises
  }

  /** Every token is free, granted, attached to an enqueued function, held by the worker, or lost. */
  ghost predicate Accounted(b: Bounded) {
    |b.sem.items| + |Granted(b)| + CountBounded(b.queue.items) + CountBounded(Holding(b)) + b.lost == b.max
  }

  /** Functions finish in the order in which they were enqueued, one at a time. */
  ghost predicate Serial(b: Bounded) {
    && |b.results| == |b.finished|
    && |b.queue.served| <= |b.queue.accepted|
    && b.queue.accepted[..|b.queue.served|] == b.finished + InHand(b)
  }

  /** The worker alone takes from the queue, and has at most one promise open. */
  ghost predicate SoleConsumer(b: Bounded) {
    match b.worker
    case Awaiting(p) => p + 1 == b.queue.nextId && (p !in b.queue.promises ==> b.queue.waiting == [p])
                        && (p in b.queue.promises && !b.queue.flushing ==> b.queue.waiting == [])
                        && (p in b.queue.promises && b.queue.promises[p].Item? ==> |b.queue.served| > 0)
    case _ => !b.queue.flushing ==> b.queue.waiting == []
  }

  /** Tokens are only ever handed to calls of put and exec, which always get them. */
  ghost predicate Requests(b: Bounded) {
    && !b.sem.flushing
    && (forall p :: p in b.requested ==> p < b.sem.nextId && b.requested[p].bounded)
    && (forall p :: p in b.sem.waiting ==> p in b.requested)
  }

  /** Whatever the functions do, no exception reaches the process loop: only null ends it. */
  ghost predicate LoopAlive(b: Bounded) {
    && (b.worker.Returning? ==> b.worker.completion == Returned)
    && (b.worker.Stopped? ==> b.queue.flushing)
    && (forall p :: p in b.queue.promises ==> !b.queue.promises[p].TimedOut?)
  }

  ghost predicate BoundedInv(b: Bounded) {
    && Inv(b.sem) && Inv(b.queue) && LoopAlive(b)
    && Requests(b) && SoleConsumer(b) && Serial(b) && Accounted(b)
  }

  lemma StartInv(max: nat)
    ensures BoundedInv(Start(max))
  {
    assert Granted(Start(max)) == {};
  }

  lemma CountLast(tasks: seq<Task>, task: Task)
    ensures CountBounded(tasks + [task]) == CountBounded(tasks) + if task.bounded then 1 else 0
  {
    assert (tasks + [task])[..|tasks|] == tasks;
  }

  lemma {:induction false} CountFirst(tasks: seq<Task>)
    requires tasks != []
    ensures CountBounded(tasks) == CountBounded(tasks[1..]) + if tasks[0].bounded then 1 else 0
  {
    if |tasks| == 1 {
      assert tasks[..0] == tasks[1..] == [];
    } else {
      CountFirst(tasks[..|tasks| - 1]);
      assert tasks[..|tasks| - 1][1..] == tasks[1..][..|tasks| - 2];
    }
  }

  lemma Fresh<T>(q: Fifo<T>)
    requires Inv(q)
    ensures q.nextId !in q.promises && (forall p :: p in q.waiting ==> p < q.nextId)
  {
  }

  /** The next item of a queue that has one is the first accepted item not yet served. */
  lemma Head<T>(q: Fifo<T>)
    requires Inv(q) && q.items != []
    ensures |q.served| < |q.accepted| && q.accepted[|q.served|] == q.items[0]
  {
    assert q.discarded == [];
    assert q.accepted[|q.served|..][0] == q.items[0];
  }

  /** While a promise is open, everything accepted has been served. */
  lemma Drained<T>(q: Fifo<T>)
    requires Inv(q) && !q.flushing && q.waiting != []
    ensures q.items == [] && q.accepted == q.accepted[..|q.served|] && |q.served| == |q.accepted|
    ensures q.waiting[0] !in q.promises
  {
    assert q.accepted[|q.served|..] == [];
    assert q.waiting[0] in q.waiting;
  }

  lemma NullMeansFlushing<T>(q: Fifo<T>, p: nat)
    requires Inv(q) && p in q.promises && q.promises[p].Null?
    ensures q.flushing
  {
  }

  lemma CallInv(b: Bounded, id: nat)
    requires BoundedInv(b)
    ensures BoundedInv(Next(b, CallBounded(id)))
  {
    hide Inv; hide Serial; hide SoleConsumer;
    var b' := Next(b, CallBounded(id));
    GetInv(b.sem);
    Fresh(b.sem);
    var p := b.sem.nextId;
    if b.sem.items != [] {
      assert Granted(b') == Granted(b) + {p};
    } else {
      assert Granted(b') == Granted(b);
    }
    SameQueue(b, b');
    hide InHand; hide Granted; hide CountBounded;
  }

  /** The worker's side looks only at the queue, the worker and what has finished. */
  lemma SameQueue(b: Bounded, b': Bounded)
    requires SoleConsumer(b) && Serial(b)
    requires b'.queue == b.queue && b'.worker == b.worker && b'.finished == b.finished
    requires b'.results == b.results && LoopAlive(b)
    ensures SoleConsumer(b') && Serial(b') && InHand(b') == InHand(b) && Holding(b') == Holding(b) && LoopAlive(b')
  {
  }

  /** Enqueueing: the function is handed to the waiting worker, queued, or dropped. */
  lemma EnqueueInv(b: Bounded, task: Task)
    requires Inv(b.queue) && SoleConsumer(b) && Serial(b) && LoopAlive(b)
    ensures var b' := Enqueue(b, task);
      && Inv(b'.queue) && SoleConsumer(b') && Serial(b') && LoopAlive(b')
      && CountBounded(b'.queue.items) + CountBounded(Holding(b')) + b'.lost ==
         CountBounded(b.queue.items) + CountBounded(Holding(b)) + b.lost + if task.bounded then 1 else 0
  {
    hide Inv; hide CountBounded;
    var b' := Enqueue(b, task);
    PutInv(b.queue, task);
    if b.queue.flushing {
      assert InHand(b') == InHand(b);
    } else if b.queue.waiting != [] {
      EnqueueToWorker(b, task);
    } else {
      CountLast(b.queue.items, task);
      assert InHand(b') == InHand(b);
      assert b'.queue.accepted[..|b.queue.served|] == b.queue.accepted[..|b.queue.served|];
    }
  }

  lemma EnqueueToWorker(b: Bounded, task: Task)
    requires Inv(b.queue) && SoleConsumer(b) && Serial(b) && LoopAlive(b) && !b.queue.flushing && b.queue.waiting != []
    ensures var b' := Enqueue(b, task);
      && SoleConsumer(b') && Serial(b') && LoopAlive(b') && Holding(b) == [] && b'.queue.items == b.queue.items
      && CountBounded(Holding(b)) == 0 && CountBounded(Holding(b')) == if task.bounded then 1 else 0
  {
    hide Inv; hide CountBounded;
    var b' := Enqueue(b, task);
    Drained(b.queue);
    assert b.worker == Awaiting(b.queue.waiting[0]);
    assert InHand(b) == [] && InHand(b') == [task] == [] + [task];
    CountNone();
    CountLast([], task);
    assert b'.queue.accepted[..|b'.queue.served|] == b.queue.accepted + [task];
  }

  lemma ResumeInv(b: Bounded, p: nat)
    requires BoundedInv(b)
    ensures BoundedInv(Next(b, Resume(p)))
  {
    hide Inv; hide Serial; hide SoleConsumer; hide CountBounded; hide InHand; hide Holding; hide LoopAlive;
    if Enabled(b, Resume(p)) {
      var mid := b.(requested := b.requested - {p});
      var b' := Next(b, Resume(p));
      SameQueue(b, mid);
      EnqueueInv(mid, b.requested[p]);
      OpenIfWaiting(b.sem, p);
      assert Granted(b) == Granted(b') + {p};
    }
  }

  lemma OpenIfWaiting<T>(q: Fifo<T>, p: nat)
    requires Inv(q) && !q.flushing && p in q.promises
    ensures p !in q.waiting
  {
  }

  lemma SyncInv(b: Bounded, id: nat)
    requires BoundedInv(b)
    ensures BoundedInv(Next(b, CallSync(id)))
  {
    hide Inv; hide Serial; hide SoleConsumer; hide CountBounded; hide InHand; hide Holding; hide LoopAlive;
    EnqueueInv(b, Task(id, false));
    assert Granted(Next(b, CallSync(id))) == Granted(b);
  }

  lemma WorkerGetInv(b: Bounded)
    requires BoundedInv(b)
    ensures BoundedInv(Next(b, WorkerGet))
  {
    hide Inv; hide CountBounded; hide SoleConsumer; hide Serial;
    if b.worker.Ready? {
      var b' := Next(b, WorkerGet);
      GetInv(b.queue);
      assert Granted(b') == Granted(b);
      WorkerTakes(b, b');
      hide Granted; hide InHand;
    }
  }

  /** The worker takes the next function, or its promise waits. */
  lemma WorkerTakes(b: Bounded, b': Bounded)
    requires Inv(b.queue) && SoleConsumer(b) && Serial(b) && LoopAlive(b) && b.worker.Ready?
    requires b' == b.(queue := Get(b.queue), worker := Awaiting(b.queue.nextId))
    ensures SoleConsumer(b') && Serial(b') && LoopAlive(b')
    ensures CountBounded(b'.queue.items) + CountBounded(Holding(b')) == CountBounded(b.queue.items) + CountBounded(Holding(b))
  {
    hide Inv; hide CountBounded;
    Fresh(b.queue);
    if b.queue.items != [] {
      WorkerTakesItem(b, b');
    } else {
      assert InHand(b) == [] && InHand(b') == [];
    }
  }

  lemma WorkerTakesItem(b: Bounded, b': Bounded)
    requires Inv(b.queue) && SoleConsumer(b) && Serial(b) && LoopAlive(b) && b.worker.Ready? && b.queue.items != []
    requires b' == b.(queue := Get(b.queue), worker := Awaiting(b.queue.nextId))
    ensures SoleConsumer(b') && Serial(b') && LoopAlive(b')
    ensures CountBounded(b'.queue.items) + CountBounded(Holding(b')) == CountBounded(b.queue.items) + CountBounded(Holding(b))
  {
    hide Inv; hide CountBounded;
    var q := b.queue;
    Fresh(q);
    CountFirst(q.items);
    Head(q);
    assert InHand(b) == [] && InHand(b') == [q.items[0]] == [] + [q.items[0]];
    CountLast([], q.items[0]);
    CountNone();
    assert q.accepted[..|q.served| + 1] == q.accepted[..|q.served|] + [q.items[0]];
  }

  lemma WorkerResumeInv(b: Bounded)
    requires BoundedInv(b)
    ensures BoundedInv(Next(b, WorkerResume))
  {
    hide Inv; hide CountBounded;
    if Enabled(b, WorkerResume) {
      var b' := Next(b, WorkerResume);
      if b.queue.promises[b.worker.promise].Null? { NullMeansFlushing(b.queue, b.worker.promise); }
      assert Granted(b') == Granted(b) && InHand(b') == InHand(b);
    }
  }

  /** The finally clause releases the token, to the longest waiting call or to the free ones, and the function stays
      in hand. */
  lemma CompleteInv(b: Bounded, c: Completion)
    requires BoundedInv(b)
    ensures BoundedInv(Next(b, Complete(c)))
  {
    hide Inv; hide CountBounded;
    if b.worker.Running? {
      var b', task := Next(b, Complete(c)), b.worker.task;
      PutInv(b.sem, ());
      if b.sem.waiting != [] { Drained(b.sem); }
      assert Holding(b) == [task] == [] + [task] && Holding(b') == [];
      CountLast([], task);
      assert InHand(b') == InHand(b);
      if task.bounded && b.sem.waiting != [] {
        var p := b.sem.waiting[0];
        assert p in b.sem.waiting;
        assert Granted(b') == Granted(b) + {p};
      } else {
        assert Granted(b') == Granted(b);
      }
    }
  }

  /** The caller is answered, and the loop goes on whether the function returned or threw. */
  lemma AnswerInv(b: Bounded)
    requires BoundedInv(b)
    ensures BoundedInv(Next(b, Answer)) && BoundedInv(Next(b, LoopBack))
    ensures b.worker.Returning? ==> Next(b, LoopBack).worker.Ready?
  {
    hide Inv; hide CountBounded;
    var a, l := Next(b, Answer), Next(b, LoopBack);
    assert Granted(a) == Granted(b) && Granted(l) == Granted(b);
    assert Holding(a) == Holding(b) && Holding(l) == Holding(b);
    assert a.finished + InHand(a) == b.finished + InHand(b);
  }

  lemma FlushQueueInv(b: Bounded)
    requires BoundedInv(b)
    ensures BoundedInv(Next(b, EndQueue)) && BoundedInv(Next(b, CancelQueue))
  {
    hide Inv; hide Serial; hide SoleConsumer; hide LoopAlive; hide InHand; hide CountBounded;
    FlushInv(b.queue);
    var e, c := Next(b, EndQueue), Next(b, CancelQueue);
    FlushedWorker(b, e);
    FlushedWorker(b, c);
    assert CountBounded([]) == 0 by { CountNone(); }
    assert Granted(e) == Granted(b) && Granted(c) == Granted(b);
  }

  lemma CountNone()
    ensures CountBounded([]) == 0
  {
  }

  /** End and cancel take nothing out of the worker's hand. */
  lemma FlushedWorker(b: Bounded, b': Bounded)
    requires Inv(b.queue) && SoleConsumer(b) && Serial(b) && LoopAlive(b)
    requires b'.worker == b.worker && b'.finished == b.finished && b'.results == b.results
    requires b'.queue == End(b.queue) || b'.queue == Cancel(b.queue)
    ensures SoleConsumer(b') && Serial(b') && LoopAlive(b') && Holding(b') == Holding(b)
  {
    hide Inv;
    if !b.queue.flushing && b.queue.waiting != [] { Drained(b.queue); }
    assert InHand(b') == InHand(b);
  }

  lemma NextInv(b: Bounded, s: Step)
    requires BoundedInv(b)
    ensures BoundedInv(Next(b, s))
  {
    hide Inv; hide CountBounded;
    match s
    case CallBounded(id) => CallInv(b, id);
    case Resume(p) => ResumeInv(b, p);
    case CallSync(id) => SyncInv(b, id);
    case StartWorker =>
      var b' := Next(b, s);
      assert Granted(b') == Granted(b) && InHand(b') == InHand(b);
    case WorkerGet => WorkerGetInv(b);
    case WorkerResume => WorkerResumeInv(b);
    case Complete(c) => CompleteInv(b, c);
    case Answer => AnswerInv(b);
    case LoopBack => AnswerInv(b);
    case _ => FlushQueueInv(b);
  }

  lemma NextMax(b: Bounded, s: Step)
    ensures Next(b, s).max == b.max
    ensures s != EndQueue && s != CancelQueue && !b.queue.flushing ==> Next(b, s).lost == b.lost && !Next(b, s).queue.flushing
  {
  }

  /** Safety over every interleaving of callers, worker, end and cancel. */
  lemma {:induction false} RunBoundedInv(max: nat, steps: seq<Step>)
    ensures BoundedInv(Run(max, steps)) && Run(max, steps).max == max
  {
    if steps == [] {
      StartInv(max);
    } else {
      var before := Run(max, steps[..|steps| - 1]);
      RunBoundedInv(max, steps[..|steps| - 1]);
      NextInv(before, steps[|steps| - 1]);
      NextMax(before, steps[|steps| - 1]);
      hide BoundedInv; hide Next;
    }
  }

  /** What the queue promises: functions finish in enqueue order with none skipped, at most one runs, so a function
      that has finished (a sync point, say) was preceded by all those enqueued before it; at most `max` functions of
      put and exec are enqueued, running or about to be enqueued; and the worker stops only after end or cancel,
      however many functions throw. */
  lemma BoundedSafety(max: nat, steps: seq<Step>)
    ensures var b := Run(max, steps);
      && |b.finished| <= |b.queue.accepted| && b.finished == b.queue.accepted[..|b.finished|]
      && (b.worker.Running? ==> |b.finished| < |b.queue.accepted| && b.queue.accepted[|b.finished|] == b.worker.task)
      && |b.sem.items| + |Granted(b)| + CountBounded(b.queue.items) + CountBounded(Holding(b)) + b.lost == max
      && (b.sem.waiting != [] ==> |b.sem.items| == 0)
      && CountBounded(b.queue.items) + CountBounded(Holding(b)) <= max
      && (b.worker.Stopped? ==> b.queue.flushing)
  {
    hide Inv; hide CountBounded; hide Granted; hide SoleConsumer;
    RunBoundedInv(max, steps);
    var b := Run(max, steps);
    hide Run;
    if b.sem.waiting != [] { Drained(b.sem); }
    var given := b.queue.accepted[..|b.queue.served|];
    assert b.finished == given[..|b.finished|];
    if b.worker.Running? { assert given[|b.finished|] == b.worker.task; }
  }

  /** The steps that lose a token: a cancel with functions of put or exec in the queue, and a put or exec call that
      gets its token only after end or cancel. */
  ghost predicate Loses(b: Bounded, s: Step) {
    || (s == CancelQueue && CountBounded(b.queue.items) > 0)
    || (s.Resume? && Enabled(b, s) && b.queue.flushing)
  }

  lemma LostStep(b: Bounded, s: Step)
    requires Requests(b)
    ensures Next(b, s).lost > b.lost <==> Loses(b, s)
    ensures Next(b, s).lost >= b.lost
  {
  }

  /** Step i of the run loses a token. */
  ghost predicate LosesAt(max: nat, steps: seq<Step>, i: nat) {
    i < |steps| && Loses(Run(max, steps[..i]), steps[i])
  }

  lemma RunLast(max: nat, steps: seq<Step>, s: Step)
    ensures Run(max, steps + [s]) == Next(Run(max, steps), s)
  {
    assert (steps + [s])[..|steps|] == steps;
  }

  lemma LosesAtSplit(max: nat, steps: seq<Step>, s: Step)
    ensures (exists i: nat :: LosesAt(max, steps + [s], i)) <==> (exists i: nat :: LosesAt(max, steps, i)) || Loses(Run(max, steps), s)
  {
    hide Loses; hide Run;
    var all, n := steps + [s], |steps|;
    assert all[..n] == steps && all[n] == s;
    assert LosesAt(max, all, n) <==> Loses(Run(max, steps), s);
    forall i: nat | i < n
      ensures LosesAt(max, all, i) <==> LosesAt(max, steps, i)
    {
      assert all[..i] == steps[..i] && all[i] == steps[i];
    }
    if i: nat :| LosesAt(max, all, i) { assert i == n || LosesAt(max, steps, i); }
  }

  /** Tokens have been lost if and only if some step was one that loses them. */
  lemma {:induction false} LostExactly(max: nat, steps: seq<Step>)
    ensures Run(max, steps).lost > 0 <==> exists i: nat :: LosesAt(max, steps, i)
  {
    if steps != [] {
      hide *;
      var init, last := steps[..|steps| - 1], steps[|steps| - 1];
      assert steps == init + [last];
      LostExactly(max, init);
      assert Requests(Run(max, init)) by { RunRequests(max, init); }
      RunLast(max, init, last);
      LostStep(Run(max, init), last);
      LosesAtSplit(max, init, last);
    }
  }

  lemma RunRequests(max: nat, steps: seq<Step>)
    ensures Requests(Run(max, steps))
  {
    RunBoundedInv(max, steps);
    hide Run;
  }

  /** Without end and cancel no token is ever lost. */
  lemma {:induction false} NothingLost(max: nat, steps: seq<Step>)
    requires EndQueue !in steps && CancelQueue !in steps
    ensures Run(max, steps).lost == 0 && !Run(max, steps).queue.flushing
  {
    if steps != [] {
      var last := steps[|steps| - 1];
      NothingLost(max, steps[..|steps| - 1]);
      assert last in steps;
      NextMax(Run(max, steps[..|steps| - 1]), last);
      hide Next;
    }
  }

  /** A put call that has its token, a cancel, and then the rest of the call: the only token is gone for good. */
  lemma CancelLosesToken(more: seq<Step>)
    ensures Run(1, [CallBounded(0), CancelQueue, Resume(0)]).lost == 1
    ensures Run(1, [CallBounded(0), CancelQueue, Resume(0)] + more).sem.items == []
  {
    var b0 := Start(1);
    var b1 := Next(b0, CallBounded(0));
    assert Tokens(1) == Tokens(0) + [()];
    assert b1.requested == map[0 := Task(0, true)] && b1.sem.promises == map[0 := Item(())] && b1.queue == Empty();
    var b2 := Next(b1, CancelQueue);
    assert b2.lost == 0 && b2.queue.flushing;
    var b3 := Next(b2, Resume(0));
    assert b3.lost == 1;
    hide Next; hide Start;
    RunNone(1);
    RunLast(1, [], CallBounded(0));
    RunLast(1, [CallBounded(0)], CancelQueue);
    RunLast(1, [CallBounded(0)] + [CancelQueue], Resume(0));
    var s := [CallBounded(0), CancelQueue, Resume(0)];
    assert [] + [CallBounded(0)] == [CallBounded(0)];
    assert s == [CallBounded(0)] + [CancelQueue] + [Resume(0)];
    LostStays(1, s, more);
    BoundedSafety(1, s + more);
  }

  lemma RunNone(max: nat)
    ensures Run(max, []) == Start(max)
  {
  }

  lemma {:induction false} LostStays(max: nat, a: seq<Step>, b: seq<Step>)
    ensures Run(max, a + b).lost >= Run(max, a).lost
    decreases |b|
  {
    if b == [] {
      assert a + b == a;
    } else {
      var init := b[..|b| - 1];
      LostStays(max, a, init);
      assert a + b == (a + init) + [b[|b| - 1]];
      RunLast(max, a + init, b[|b| - 1]);
      RunRequests(max, a + init);
      LostStep(Run(max, a + init), b[|b| - 1]);
      hide *;
    }
  }

  /** The outcomes of the functions that the worker ran, in order. */
  ghost function Outcomes(max: nat, steps: seq<Step>): seq<Completion> {
    if steps == [] then []
    else
      var init, last := steps[..|steps| - 1], steps[|steps| - 1];
      Outcomes(max, init) + if last.Complete? && Enabled(Run(max, init), last) then [last.completion] else []
  }

  /** Callers are answered in enqueue order with the outcome of their own function; at most one is still to be. */
  lemma {:induction false} CallersSeeOutcomes(max: nat, steps: seq<Step>)
    ensures var b := Run(max, steps);
      Outcomes(max, steps) == b.results + Pending(b)
  {
    if steps != [] {
      var init, last := steps[..|steps| - 1], steps[|steps| - 1];
      CallersSeeOutcomes(max, init);
      OutcomeStep(Run(max, init), last);
      hide Next; hide Enabled;
    }
  }

  function Pending(b: Bounded): seq<Completion> {
    if b.worker.Unwinding? then [b.worker.completion] else []
  }

  lemma OutcomeStep(b: Bounded, s: Step)
    ensures var b' := Next(b, s);
      b'.results + Pending(b') == b.results + Pending(b) + if s.Complete? && Enabled(b, s) then [s.completion] else []
  {
    hide Get; hide Put; hide End; hide Cancel;
  }

  lemma NextFrozen(b: Bounded, s: Step)
    requires b.queue.flushing
    ensures Next(b, s).queue.flushing && Next(b, s).queue.accepted == b.queue.accepted
  {
  }

  /** After end or cancel no function is accepted any more. */
  lemma {:induction false} FlushedAcceptsNothing(max: nat, a: seq<Step>, b: seq<Step>)
    requires Run(max, a).queue.flushing
    ensures Run(max, a + b).queue.flushing && Run(max, a + b).queue.accepted == Run(max, a).queue.accepted
    decreases |b|
  {
    if b == [] {
      assert a + b == a;
    } else {
      FlushedAcceptsNothing(max, a, b[..|b| - 1]);
      assert a + b == (a + b[..|b| - 1]) + [b[|b| - 1]];
      RunLast(max, a + b[..|b| - 1], b[|b| - 1]);
      NextFrozen(Run(max, a + b[..|b| - 1]), b[|b| - 1]);
      hide *;
    }
  }

  lemma NextAccepts(b: Bounded, s: Step)
    ensures b.queue.accepted <= Next(b, s).queue.accepted
  {
  }

  lemma {:induction false} AcceptedGrows(max: nat, a: seq<Step>, b: seq<Step>)
    ensures Run(max, a).queue.accepted <= Run(max, a + b).queue.accepted
    decreases |b|
  {
    if b == [] {
      assert a + b == a;
    } else {
      AcceptedGrows(max, a, b[..|b| - 1]);
      assert (a + b)[..|a + b| - 1] == a + b[..|b| - 1];
      NextAccepts(Run(max, a + b[..|b| - 1]), (a + b)[|a + b| - 1]);
      hide Next;
    }
  }

  /** A sync point enqueued at any moment of any run before end and cancel finishes only after every function
      enqueued before it, in their order. */
  lemma SyncPointWaits(max: nat, a: seq<Step>, id: nat, b: seq<Step>)
    requires !Run(max, a).queue.flushing
    ensures var earlier, end := Run(max, a).queue.accepted, Run(max, a + [CallSync(id)] + b);
      && |earlier| < |end.queue.accepted| && end.queue.accepted[|earlier|] == Task(id, false)
      && (|end.finished| > |earlier| ==> end.finished[..|earlier|] == earlier && end.finished[|earlier|] == Task(id, false))
  {
    var steps := a + [CallSync(id)];
    assert steps[..|a|] == a && steps[|a|] == CallSync(id);
    assert Run(max, steps) == Enqueue(Run(max, a), Task(id, false));
    assert Run(max, steps).queue.accepted == Run(max, a).queue.accepted + [Task(id, false)];
    AcceptedGrows(max, steps, b);
    BoundedSafety(max, steps + b);
  }

  /** While a put or exec call waits, its function does not change, and its promise is not used again. */
  ghost predicate Remembers(b: Bounded, p: nat, task: Task) {
    p < b.sem.nextId && (p in b.requested ==> b.requested[p] == task)
  }

  lemma RemembersStep(b: Bounded, s: Step, p: nat, task: Task)
    requires Remembers(b, p, task)
    ensures Remembers(Next(b, s), p, task)
  {
  }

  lemma {:induction false} RemembersRun(max: nat, a: seq<Step>, more: seq<Step>, p: nat, task: Task)
    requires Remembers(Run(max, a), p, task)
    ensures Remembers(Run(max, a + more), p, task)
    decreases |more|
  {
    if more == [] {
      assert a + more == a;
    } else {
      var init, last := more[..|more| - 1], more[|more| - 1];
      RemembersRun(max, a, init, p, task);
      assert a + more == (a + init) + [last];
      RunLast(max, a + init, last);
      RemembersStep(Run(max, a + init), last, p, task);
      hide *;
    }
  }

  /** The function enqueued when a put or exec call resumes, at any later moment before end and cancel, is the one
      that its caller passed. */
  lemma CallerFunctionEnqueued(max: nat, a: seq<Step>, id: nat, more: seq<Step>)
    ensures var p := Run(max, a).sem.nextId;
      var b := Run(max, a + [CallBounded(id)] + more);
      Enabled(b, Resume(p)) && !b.queue.flushing ==>
        Run(max, a + [CallBounded(id)] + more + [Resume(p)]).queue.accepted == b.queue.accepted + [Task(id, true)]
  {
    var p, called := Run(max, a).sem.nextId, a + [CallBounded(id)];
    RunLast(max, a, CallBounded(id));
    assert Remembers(Run(max, called), p, Task(id, true));
    RemembersRun(max, called, more, p, Task(id, true));
    RunLast(max, called + more, Resume(p));
    hide Run;
  }

  /** A call that finds a free token has it at once. */
  lemma FreeTokenGranted(b: Bounded, id: nat)
    requires BoundedInv(b) && b.sem.items != []
    ensures Enabled(Next(b, CallBounded(id)), Resume(b.sem.nextId))
  {
    Fresh(b.sem);
    hide Inv;
  }

  /** A started worker runs the next queued function. */
  lemma WorkerRunsNext(b: Bounded)
    requires BoundedInv(b) && b.queue.items != [] && (b.worker.Off? || b.worker.Ready?)
    ensures var ready := if b.worker.Off? then Next(b, StartWorker) else b;
      Next(Next(ready, WorkerGet), WorkerResume) ==
        b.(queue := Get(b.queue), worker := Running(b.queue.items[0])) && Get(b.queue).items == b.queue.items[1..]
  {
    Fresh(b.queue);
    hide BoundedInv; hide InHand;
    var ready := if b.worker.Off? then Next(b, StartWorker) else b;
    var taken := Next(ready, WorkerGet);
    assert taken == b.(queue := Get(b.queue), worker := Awaiting(b.queue.nextId));
    assert taken.queue.promises == b.queue.promises[b.queue.nextId := Item(b.queue.items[0])];
  }

  /** Whatever the outcome of the running function, its caller is answered with it and the worker is ready again. */
  lemma WorkerGoesOn(b: Bounded, c: Completion)
    requires b.worker.Running?
    ensures var done := Next(Next(Next(b, Complete(c)), Answer), LoopBack);
      && done.worker.Ready? && done.queue == b.queue
      && done.finished == b.finished + [b.worker.task] && done.results == b.results + [c]
      && done.sem == if b.worker.task.bounded then Put(b.sem, ()) else b.sem
  {
    hide Put;
    var unwinding := Next(b, Complete(c));
    assert unwinding.worker == Unwinding(b.worker.task, c);
    assert Next(unwinding, Answer).worker == Returning(Returned);
  }

  /** End and cancel are the only ways to close the queue. */
  lemma {:induction false} ClosedExactly(max: nat, steps: seq<Step>)
    ensures Run(max, steps).queue.flushing <==> EndQueue in steps || CancelQueue in steps
  {
    if steps != [] {
      var init, last := steps[..|steps| - 1], steps[|steps| - 1];
      ClosedExactly(max, init);
      assert steps == init + [last];
      ClosedStep(Run(max, init), last);
      hide Next;
    }
  }

  lemma ClosedStep(b: Bounded, s: Step)
    ensures Next(b, s).queue.flushing <==> b.queue.flushing || s == EndQueue || s == CancelQueue
  {
  }
}
