/** The shared record of the thread pool and the code that runs while its mutex is held.

    A critical section runs from pthread_mutex_lock (or from the return of
    pthread_cond_wait) to the next wait or unlock. Each one is a function on
    `Shared`, the abstract pool record, and a method of `TPool` that performs it
    on the linked queue of work nodes. */
module PoolQueue {

  /** One request: which routine to call, and on what. */
  datatype Work = Work(routine: int, arg: int)

  datatype Config = Config(numThreads: nat, maxQueueSize: nat, doNotBlockWhenFull: bool)

  /** The mutable fields of struct tpool, with the queue as a sequence. */
  datatype Shared = Shared(queue: seq<Work>, closed: bool, shutdown: bool)

  // ----- tpool_add_work -----

  datatype AddOutcome = AddRefused | AddWait | AddDone

  datatype AddEffect = AddEffect(outcome: AddOutcome, next: Shared, broadcastNotEmpty: bool)

  /** The wait condition of a producer. */
  predicate ProducerWaits(cfg: Config, sh: Shared) {
    |sh.queue| == cfg.maxQueueSize && !(sh.shutdown || sh.closed)
  }

  /** From lock (entering) or from a return of cond_wait (!entering) to the next wait or unlock. */
  function AddSection(cfg: Config, sh: Shared, work: Work, entering: bool): AddEffect {
    if entering && |sh.queue| == cfg.maxQueueSize && cfg.doNotBlockWhenFull then
      AddEffect(AddRefused, sh, false)
    else if ProducerWaits(cfg, sh) then
      AddEffect(AddWait, sh, false)
    else if sh.shutdown || sh.closed then
      AddEffect(AddRefused, sh, false)
    else
      AddEffect(AddDone, sh.(queue := sh.queue + [work]), sh.queue == [])
  }

  // ----- tpool_thread -----

  datatype WorkerOutcome = WorkerWait | WorkerExit | WorkerTake(work: Work)

  datatype WorkerEffect = WorkerEffect(outcome: WorkerOutcome, next: Shared,
                                       broadcastNotFull: bool, signalEmpty: bool)

  /** The wait condition of a worker. */
  predicate WorkerWaits(sh: Shared) {
    sh.queue == [] && !sh.shutdown
  }

  function WorkerSection(cfg: Config, sh: Shared): WorkerEffect {
    if WorkerWaits(sh) then
      WorkerEffect(WorkerWait, sh, false, false)
    else if sh.shutdown then
      WorkerEffect(WorkerExit, sh, false, false)
    else
      var rest := sh.queue[1..];
      WorkerEffect(WorkerTake(sh.queue[0]), sh.(queue := rest),
                   !cfg.doNotBlockWhenFull && |rest| == cfg.maxQueueSize - 1,
                   rest == [])
  }

  // ----- tpool_destroy -----

  datatype DestroyOutcome = DestroyAlready | DestroyWait | DestroyProceed

  datatype DestroyEffect = DestroyEffect(outcome: DestroyOutcome, next: Shared)

  /** The loop that waits for the queue to drain, entered only when finish == 1,
      and the assignment to shutdown behind it. */
  function DrainSection(sh: Shared): DestroyEffect {
    if sh.queue != [] then
      DestroyEffect(DestroyWait, sh)
    else
      DestroyEffect(DestroyProceed, sh.(shutdown := true))
  }

  function DestroySection(sh: Shared, finish: bool): DestroyEffect {
    if sh.closed || sh.shutdown then
      DestroyEffect(DestroyAlready, sh)
    else if finish then
      DrainSection(sh.(closed := true))
    else
      DestroyEffect(DestroyProceed, sh.(closed := true, shutdown := true))
  }

  // ----- what the sections decide -----

  predicate Open(sh: Shared) {
    !sh.closed && !sh.shutdown
  }

  /** A call of tpool_add_work is accepted exactly if the pool is open and has room, and
      then the item goes to the end of the queue. It waits exactly if the pool is open
      and full, unless it has just come to a pool that does not block. */
  lemma AddIs(cfg: Config, sh: Shared, work: Work, entering: bool)
    requires |sh.queue| <= cfg.maxQueueSize
    ensures var e := AddSection(cfg, sh, work, entering);
      && (e.outcome.AddDone? <==> Open(sh) && |sh.queue| < cfg.maxQueueSize)
      && (e.outcome.AddWait? <==>
            Open(sh) && |sh.queue| == cfg.maxQueueSize && !(entering && cfg.doNotBlockWhenFull))
      && e.next == (if e.outcome.AddDone? then Shared(sh.queue + [work], false, false) else sh)
      && (e.broadcastNotEmpty <==> e.outcome.AddDone? && |sh.queue| == 0)
  {
  }

  /** A worker leaves exactly when the pool is shut down, otherwise takes the oldest item
      or waits if there is none. Producers are woken exactly when a full queue of a
      blocking pool gets room, the closer exactly when the last item is taken. */
  lemma WorkerIs(cfg: Config, sh: Shared)
    requires |sh.queue| <= cfg.maxQueueSize
    ensures var e := WorkerSection(cfg, sh);
      && (e.outcome.WorkerExit? <==> sh.shutdown)
      && (e.outcome.WorkerWait? <==> !sh.shutdown && |sh.queue| == 0)
      && (e.outcome.WorkerTake? ==> [e.outcome.work] + e.next.queue == sh.queue)
      && (e.outcome.WorkerTake? || e.next.queue == sh.queue)
      && e.next.closed == sh.closed && e.next.shutdown == sh.shutdown
      && (e.broadcastNotFull <==>
            e.outcome.WorkerTake? && !cfg.doNotBlockWhenFull && |sh.queue| == cfg.maxQueueSize)
      && (e.signalEmpty <==> e.outcome.WorkerTake? && |sh.queue| == 1)
  {
  }

  /** The first call of tpool_destroy closes the pool; it goes on to shutdown in the same
      section unless it is to finish a queue that is not empty. Later calls do nothing. */
  lemma DestroyIs(sh: Shared, finish: bool)
    ensures var e := DestroySection(sh, finish);
      && (e.outcome.DestroyAlready? <==> !Open(sh))
      && (e.outcome.DestroyWait? <==> Open(sh) && finish && |sh.queue| > 0)
      && e.next == Shared(sh.queue, sh.closed || !e.outcome.DestroyAlready?,
                          sh.shutdown || e.outcome.DestroyProceed?)
    ensures var e := DrainSection(sh);
      && !e.outcome.DestroyAlready? && (e.outcome.DestroyWait? <==> |sh.queue| > 0)
      && e.next == Shared(sh.queue, sh.closed, sh.shutdown || |sh.queue| == 0)
  {
  }

  // ----- the record on the heap -----

  class WorkNode {
    var work: Work
    var next: WorkNode?

    constructor (work: Work)
      ensures this.work == work && next == null
    {
      this.work := work;
      next := null;
    }
  }

  class TPool {
    const cfg: Config
    var curQueueSize: int
    var queueHead: WorkNode?
    var queueTail: WorkNode?
    var queueClosed: bool
    var shutdown: bool
    ghost var nodes: seq<WorkNode>  // the chain from queueHead

    ghost predicate Valid()
      reads this, nodes
    {
      && curQueueSize == |nodes|
      && (nodes == [] ==> queueHead == null && queueTail == null)
      && (nodes != [] ==> queueHead == nodes[0] && queueTail == nodes[|nodes| - 1] && queueTail.next == null)
      && (forall i {:trigger nodes[i].next} :: 0 <= i < |nodes| - 1 ==> nodes[i].next == nodes[i + 1])
      && (forall i, j :: 0 <= i < j < |nodes| ==> nodes[i] != nodes[j])
    }

    ghost function Abs(): Shared
      reads this, nodes
    {
      Shared(seq(|nodes|, i requires 0 <= i < |nodes| reads this, nodes => nodes[i].work), queueClosed, shutdown)
    }

    /** tpool_init, up to the creation of the threads. */
    constructor (cfg: Config)
      ensures Valid() && this.cfg == cfg && fresh(nodes)
      ensures Abs() == Shared([], false, false)
    {
      this.cfg := cfg;
      curQueueSize := 0;
      queueHead := null;
      queueTail := null;
      queueClosed := false;
      shutdown := false;
      nodes := [];
    }

    method AddWork(work: Work, entering: bool) returns (outcome: AddOutcome, broadcastNotEmpty: bool)
      requires Valid()
      modifies this, nodes
      ensures Valid() && fresh(set n | n in nodes && n !in old(nodes))
      ensures AddEffect(outcome, Abs(), broadcastNotEmpty) == AddSection(cfg, old(Abs()), work, entering)
    {
      ghost var before := Abs();
      broadcastNotEmpty := false;
      if entering && curQueueSize == cfg.maxQueueSize && cfg.doNotBlockWhenFull {
        return AddRefused, false;
      }
      if curQueueSize == cfg.maxQueueSize && !(shutdown || queueClosed) {
        return AddWait, false;
      }
      if shutdown || queueClosed {
        return AddRefused, false;
      }
      var node := new WorkNode(work);
      if curQueueSize == 0 {
        queueTail := node;
        queueHead := node;
        broadcastNotEmpty := true;
      } else {
        queueTail.next := node;
        queueTail := node;
      }
      nodes := nodes + [node];
      curQueueSize := curQueueSize + 1;
      assert Abs().queue == before.queue + [work];
      outcome := AddDone;
    }

    method Worker() returns (outcome: WorkerOutcome, broadcastNotFull: bool, signalEmpty: bool)
      requires Valid()
      modifies this
      ensures Valid() && (forall n :: n in nodes ==> n in old(nodes))
      ensures WorkerEffect(outcome, Abs(), broadcastNotFull, signalEmpty) == WorkerSection(cfg, old(Abs()))
    {
      ghost var before := Abs();
      broadcastNotFull, signalEmpty := false, false;
      if curQueueSize == 0 && !shutdown {
        return WorkerWait, false, false;
      }
      if shutdown {
        return WorkerExit, false, false;
      }
      var mine := queueHead;
      curQueueSize := curQueueSize - 1;
      if curQueueSize == 0 {
        queueHead := null;
        queueTail := null;
      } else {
        queueHead := mine.next;
      }
      nodes := nodes[1..];
      assert Abs().queue == before.queue[1..];
      if !cfg.doNotBlockWhenFull && curQueueSize == cfg.maxQueueSize - 1 {
        broadcastNotFull := true;
      }
      if curQueueSize == 0 {
        signalEmpty := true;
      }
      outcome := WorkerTake(mine.work);
    }

    /** tpool_destroy from its lock to its first wait or to the unlock behind shutdown. */
    method Destroy(finish: bool) returns (outcome: DestroyOutcome)
      requires Valid()
      modifies this
      ensures Valid() && nodes == old(nodes)
      ensures DestroyEffect(outcome, Abs()) == DestroySection(old(Abs()), finish)
    {
      if queueClosed || shutdown {
        return DestroyAlready;
      }
      queueClosed := true;
      if finish {
        outcome := DestroyResume();
      } else {
        shutdown := true;
        outcome := DestroyProceed;
      }
    }

    /** The test of the drain loop, on entry and after every return of cond_wait. */
    method DestroyResume() returns (outcome: DestroyOutcome)
      requires Valid()
      modifies this
      ensures Valid() && nodes == old(nodes)
      ensures DestroyEffect(outcome, Abs()) == DrainSection(old(Abs()))
    {
      ghost var before := Abs();
      if curQueueSize != 0 {
        return DestroyWait;
      }
      shutdown := true;
      outcome := DestroyProceed;
    }
  }
}
