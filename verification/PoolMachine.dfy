/** The thread pool as a transition system: any number of callers of
    tpool_add_work and tpool_destroy, and the worker threads, interleaved at
    every lock acquisition, wait, unlock, broadcast and join.

    A thread that waits on a condition variable is `Asleep` until it is woken by a
    signal, a broadcast or spuriously; then it must take the lock again. */
module PoolMachine {
  import opened PoolQueue

  /** `WAtLock` covers the top of the loop and the return from cond_wait: both
      lead to the same test. */
  datatype WorkerPc = WAtLock | WAsleep | WRunning(work: Work) | WExited

  datatype CallerPc =
    | Idle
    | AddAtLock(work: Work, entering: bool)
    | AddAsleep(work: Work)
    | DestroyAtLock(finish: bool)
    | DrainAsleep                 // waits on queue_empty
    | DrainAwake
    | WakeWorkers(finish: bool)   // shutdown is set, the broadcast of queue_not_empty is next
    | WakeProducers(finish: bool) // the broadcast of queue_not_full is next
    | Joining(joined: nat, finish: bool)
    | Destroyed(finish: bool)     // tpool_destroy has joined every worker and freed the pool

  /** `closer` remembers which caller has set queue_closed; no step depends on it. */
  datatype State = State(sh: Shared, workers: seq<WorkerPc>, callers: seq<CallerPc>, closer: nat)

  datatype Action =
    | BeginAdd(c: nat, work: Work)
    | BeginDestroy(c: nat, finish: bool)
    | AddStep(c: nat)
    | DestroyStep(c: nat)
    | BroadcastStep(c: nat)
    | JoinStep(c: nat)
    | WorkerStep(t: nat, woken: nat)  // woken: the thread that pthread_cond_signal picks
    | FinishStep(t: nat)
    | SpuriousWorker(t: nat)
    | SpuriousCaller(c: nat)

  /** The state behind tpool_init, with `n` threads that may call into the pool. */
  function Init(cfg: Config, n: nat): State {
    State(Shared([], false, false), seq(cfg.numThreads, _ => WAtLock), seq(n, _ => Idle), 0)
  }

  // ----- condition variables -----

  function WakeAllWorkers(ws: seq<WorkerPc>): (r: seq<WorkerPc>)
    ensures |r| == |ws|
  {
    seq(|ws|, i requires 0 <= i < |ws| => if ws[i].WAsleep? then WAtLock else ws[i])
  }

  function WakeAllProducers(cs: seq<CallerPc>): (r: seq<CallerPc>)
    ensures |r| == |cs|
  {
    seq(|cs|, i requires 0 <= i < |cs| => if cs[i].AddAsleep? then AddAtLock(cs[i].work, false) else cs[i])
  }

  predicate DrainWaiter(cs: seq<CallerPc>, c: nat) {
    c < |cs| && cs[c].DrainAsleep?
  }

  /** pthread_cond_signal on queue_empty: wakes one waiter, `woken`, if there is any. */
  function SignalEmpty(cs: seq<CallerPc>, woken: nat): (r: seq<CallerPc>)
    ensures |r| == |cs|
  {
    if DrainWaiter(cs, woken) then cs[woken := DrainAwake] else cs
  }

  // ----- steps -----

  /** tpool_destroy has freed the record, with its mutex and condition variables. */
  predicate Freed(s: State) {
    s.closer < |s.callers| && s.callers[s.closer].Destroyed?
  }

  /** No step is taken on a pool that has been freed. */
  predicate Enabled(cfg: Config, s: State, a: Action) {
    && !Freed(s)
    && match a
       case BeginAdd(c, _) => c < |s.callers| && s.callers[c].Idle?
       case BeginDestroy(c, _) => c < |s.callers| && s.callers[c].Idle?
       case AddStep(c) => c < |s.callers| && s.callers[c].AddAtLock?
       case DestroyStep(c) => c < |s.callers| && (s.callers[c].DestroyAtLock? || s.callers[c].DrainAwake?)
       case BroadcastStep(c) => c < |s.callers| && (s.callers[c].WakeWorkers? || s.callers[c].WakeProducers?)
       case JoinStep(c) =>
         && c < |s.callers| && s.callers[c].Joining?
         && (s.callers[c].joined < |s.workers| ==> s.workers[s.callers[c].joined].WExited?)
       case WorkerStep(t, woken) =>
         && t < |s.workers| && s.workers[t].WAtLock?
         && (WorkerSection(cfg, s.sh).signalEmpty && (exists c: nat :: c < |s.callers| && DrainWaiter(s.callers, c))
             ==> DrainWaiter(s.callers, woken))
       case FinishStep(t) => t < |s.workers| && s.workers[t].WRunning?
       case SpuriousWorker(t) => t < |s.workers| && s.workers[t].WAsleep?
       case SpuriousCaller(c) => c < |s.callers| && (s.callers[c].AddAsleep? || s.callers[c].DrainAsleep?)
  }

  function ApplyAdd(cfg: Config, s: State, c: nat): State
    requires c < |s.callers| && s.callers[c].AddAtLock?
  {
    var pc := s.callers[c];
    var e := AddSection(cfg, s.sh, pc.work, pc.entering);
    match e.outcome
    case AddWait => s.(callers := s.callers[c := AddAsleep(pc.work)])
    case AddRefused => s.(callers := s.callers[c := Idle])
    case AddDone =>
      s.(sh := e.next,
         callers := s.callers[c := Idle],
         workers := if e.broadcastNotEmpty then WakeAllWorkers(s.workers) else s.workers)
  }

  function ApplyWorker(cfg: Config, s: State, t: nat, woken: nat): State
    requires t < |s.workers|
  {
    var e := WorkerSection(cfg, s.sh);
    match e.outcome
    case WorkerWait => s.(workers := s.workers[t := WAsleep])
    case WorkerExit => s.(workers := s.workers[t := WExited])
    case WorkerTake(work) =>
      var cs := if e.broadcastNotFull then WakeAllProducers(s.callers) else s.callers;
      s.(sh := e.next,
         workers := s.workers[t := WRunning(work)],
         callers := if e.signalEmpty then SignalEmpty(cs, woken) else cs)
  }

  function ApplyDestroy(s: State, c: nat): State
    requires c < |s.callers| && (s.callers[c].DestroyAtLock? || s.callers[c].DrainAwake?)
  {
    var pc := s.callers[c];
    var finish := pc.DrainAwake? || pc.finish;
    var e := if pc.DrainAwake? then DrainSection(s.sh) else DestroySection(s.sh, finish);
    match e.outcome
    case DestroyAlready => s.(callers := s.callers[c := Idle])
    case DestroyWait => s.(sh := e.next, callers := s.callers[c := DrainAsleep], closer := c)
    case DestroyProceed => s.(sh := e.next, callers := s.callers[c := WakeWorkers(finish)], closer := c)
  }

  function Apply(cfg: Config, s: State, a: Action): State
    requires Enabled(cfg, s, a)
  {
    match a
    case BeginAdd(c, work) => s.(callers := s.callers[c := AddAtLock(work, true)])
    case BeginDestroy(c, finish) => s.(callers := s.callers[c := DestroyAtLock(finish)])
    case AddStep(c) => ApplyAdd(cfg, s, c)
    case DestroyStep(c) => ApplyDestroy(s, c)
    case BroadcastStep(c) =>
      var pc := s.callers[c];
      if pc.WakeWorkers? then
        s.(callers := s.callers[c := WakeProducers(pc.finish)], workers := WakeAllWorkers(s.workers))
      else
        s.(callers := WakeAllProducers(s.callers[c := Joining(0, pc.finish)]))
    case JoinStep(c) =>
      var pc := s.callers[c];
      s.(callers := s.callers[c := if pc.joined < |s.workers| then Joining(pc.joined + 1, pc.finish)
                                   else Destroyed(pc.finish)])
    case WorkerStep(t, woken) => ApplyWorker(cfg, s, t, woken)
    case FinishStep(t) => s.(workers := s.workers[t := WAtLock])
    case SpuriousWorker(t) => s.(workers := s.workers[t := WAtLock])
    case SpuriousCaller(c) =>
      var pc := s.callers[c];
      s.(callers := s.callers[c := if pc.AddAsleep? then AddAtLock(pc.work, false) else DrainAwake])
  }

  /** The actions `acts`, in this order, lead from `s` to `s'`. */
  predicate Run(cfg: Config, s: State, acts: seq<Action>, s': State)
    decreases |acts|
  {
    if acts == [] then s == s'
    else Enabled(cfg, s, acts[0]) && Run(cfg, Apply(cfg, s, acts[0]), acts[1..], s')
  }

  ghost predicate Reachable(cfg: Config, s: State) {
    exists n: nat, acts :: Run(cfg, Init(cfg, n), acts, s)
  }

  lemma {:induction false} RunAppend(cfg: Config, s: State, acts: seq<Action>, m: State, more: seq<Action>, s': State)
    requires Run(cfg, s, acts, m) && Run(cfg, m, more, s')
    ensures Run(cfg, s, acts + more, s')
    decreases |acts|
  {
    if acts == [] {
      assert acts + more == more;
    } else {
      assert (acts + more)[1..] == acts[1..] + more;
      RunAppend(cfg, Apply(cfg, s, acts[0]), acts[1..], m, more, s');
    }
  }

  /** The initial state is reachable, and so is what a step makes of a reachable one. */
  lemma ReachableInit(cfg: Config, n: nat)
    ensures Reachable(cfg, Init(cfg, n))
  {
    assert Run(cfg, Init(cfg, n), [], Init(cfg, n));
  }

  lemma ReachableStep(cfg: Config, s: State, a: Action)
    requires Reachable(cfg, s) && Enabled(cfg, s, a)
    ensures Reachable(cfg, Apply(cfg, s, a))
  {
    hide Enabled, Apply;
    var n: nat, acts :| Run(cfg, Init(cfg, n), acts, s);
    assert [a][1..] == [];
    assert Run(cfg, s, [a], Apply(cfg, s, a));
    RunAppend(cfg, Init(cfg, n), acts, s, [a], Apply(cfg, s, a));
  }

  // ----- what can be observed of a run -----

  /** The item for which this step makes tpool_add_work return 1. */
  function AcceptedBy(cfg: Config, s: State, a: Action): seq<Work>
    requires Enabled(cfg, s, a)
  {
    if a.AddStep? && AddSection(cfg, s.sh, s.callers[a.c].work, s.callers[a.c].entering).outcome.AddDone?
    then [s.callers[a.c].work] else []
  }

  /** The item whose routine a worker is about to call. */
  function StartedBy(cfg: Config, s: State, a: Action): seq<Work>
    requires Enabled(cfg, s, a)
  {
    if a.WorkerStep? && WorkerSection(cfg, s.sh).outcome.WorkerTake?
    then [WorkerSection(cfg, s.sh).outcome.work] else []
  }

  /** The item whose routine returns. */
  function FinishedBy(cfg: Config, s: State, a: Action): seq<Work>
    requires Enabled(cfg, s, a)
  {
    if a.FinishStep? then [s.workers[a.t].work] else []
  }

  function Accepted(cfg: Config, s: State, acts: seq<Action>, s': State): seq<Work>
    requires Run(cfg, s, acts, s')
    decreases |acts|
  {
    if acts == [] then []
    else AcceptedBy(cfg, s, acts[0]) + Accepted(cfg, Apply(cfg, s, acts[0]), acts[1..], s')
  }

  function Started(cfg: Config, s: State, acts: seq<Action>, s': State): seq<Work>
    requires Run(cfg, s, acts, s')
    decreases |acts|
  {
    if acts == [] then []
    else StartedBy(cfg, s, acts[0]) + Started(cfg, Apply(cfg, s, acts[0]), acts[1..], s')
  }

  function Finished(cfg: Config, s: State, acts: seq<Action>, s': State): seq<Work>
    requires Run(cfg, s, acts, s')
    decreases |acts|
  {
    if acts == [] then []
    else FinishedBy(cfg, s, acts[0]) + Finished(cfg, Apply(cfg, s, acts[0]), acts[1..], s')
  }

  // ----- the inductive invariant -----

  /** The caller is the one that has set queue_closed. */
  predicate Closing(pc: CallerPc) {
    pc.DrainAsleep? || pc.DrainAwake? || ShutDown(pc)
  }

  predicate ShutDown(pc: CallerPc) {
    pc.WakeWorkers? || pc.WakeProducers? || pc.Joining? || pc.Destroyed?
  }

  ghost predicate QueueInv(cfg: Config, s: State) {
    && |s.workers| == cfg.numThreads
    && |s.sh.queue| <= cfg.maxQueueSize
  }

  /** At most one caller closes the pool, and the flags tell how far it has come. */
  ghost predicate CloserInv(s: State) {
    && (forall c :: 0 <= c < |s.callers| && Closing(s.callers[c]) ==> s.sh.closed && c == s.closer)
    && (s.sh.closed ==> s.closer < |s.callers| && Closing(s.callers[s.closer]))
    && (s.sh.closed ==> (s.sh.shutdown <==> ShutDown(s.callers[s.closer])))
    && (s.sh.shutdown ==> s.sh.closed)
    && (s.sh.shutdown && s.callers[s.closer].finish ==> s.sh.queue == [])
    && (forall t :: 0 <= t < |s.workers| && s.workers[t].WExited? ==> s.sh.shutdown)
    && (s.sh.shutdown && s.callers[s.closer].Joining? ==>
          forall t :: 0 <= t < s.callers[s.closer].joined && t < |s.workers| ==> s.workers[t].WExited?)
    && (s.sh.shutdown && s.callers[s.closer].Destroyed? ==>
          forall t :: 0 <= t < |s.workers| ==> s.workers[t].WExited?)
  }

  /** The broadcast of queue_not_empty behind shutdown is still to come. */
  predicate WorkersPending(s: State) {
    s.sh.shutdown && s.closer < |s.callers| && s.callers[s.closer].WakeWorkers?
  }

  /** The broadcast of queue_not_full behind shutdown is still to come. */
  predicate ProducersPending(s: State) {
    s.sh.shutdown && s.closer < |s.callers| && (s.callers[s.closer].WakeWorkers? || s.callers[s.closer].WakeProducers?)
  }

  ghost predicate SleepInv(cfg: Config, s: State) {
    && (forall t :: 0 <= t < |s.workers| && s.workers[t].WAsleep? ==>
          s.sh.queue == [] && (s.sh.shutdown ==> WorkersPending(s)))
    && (forall c :: 0 <= c < |s.callers| && s.callers[c].AddAsleep? ==>
          && |s.sh.queue| == cfg.maxQueueSize && !cfg.doNotBlockWhenFull
          && (s.sh.shutdown ==> ProducersPending(s)))
    && (forall c :: 0 <= c < |s.callers| && s.callers[c].AddAtLock? && !s.callers[c].entering ==>
          !cfg.doNotBlockWhenFull)
    && (forall c :: 0 <= c < |s.callers| && s.callers[c].DrainAsleep? ==>
          s.sh.closed && !s.sh.shutdown && s.sh.queue != [])
  }

  ghost predicate Inv(cfg: Config, s: State) {
    QueueInv(cfg, s) && CloserInv(s) && SleepInv(cfg, s)
  }

  // ----- every step keeps the invariant -----

  lemma QueueInvStep(cfg: Config, s: State, a: Action)
    requires QueueInv(cfg, s) && Enabled(cfg, s, a)
    ensures QueueInv(cfg, Apply(cfg, s, a))
  {
  }

  lemma CloserInvStep(cfg: Config, s: State, a: Action)
    requires CloserInv(s) && Enabled(cfg, s, a)
    ensures CloserInv(Apply(cfg, s, a))
  {
    match a {
      case AddStep(c) => CloserInvAdd(cfg, s, c);
      case DestroyStep(c) => CloserInvDestroy(cfg, s, c);
      case BroadcastStep(c) => CloserInvBroadcast(cfg, s, c);
      case JoinStep(c) => CloserInvJoin(cfg, s, c);
      case WorkerStep(t, woken) => CloserInvWorker(cfg, s, t, woken);
      case _ =>
    }
  }

  lemma CloserInvAdd(cfg: Config, s: State, c: nat)
    requires CloserInv(s) && Enabled(cfg, s, AddStep(c))
    ensures CloserInv(Apply(cfg, s, AddStep(c)))
  {
  }

  lemma CloserInvJoin(cfg: Config, s: State, c: nat)
    requires CloserInv(s) && Enabled(cfg, s, JoinStep(c))
    ensures CloserInv(Apply(cfg, s, JoinStep(c)))
  {
  }

  lemma CloserInvDestroy(cfg: Config, s: State, c: nat)
    requires CloserInv(s) && Enabled(cfg, s, DestroyStep(c))
    ensures CloserInv(Apply(cfg, s, DestroyStep(c)))
  {
  }

  lemma CloserInvBroadcast(cfg: Config, s: State, c: nat)
    requires CloserInv(s) && Enabled(cfg, s, BroadcastStep(c))
    ensures CloserInv(Apply(cfg, s, BroadcastStep(c)))
  {
  }

  lemma CloserInvWorker(cfg: Config, s: State, t: nat, woken: nat)
    requires CloserInv(s) && Enabled(cfg, s, WorkerStep(t, woken))
    ensures CloserInv(Apply(cfg, s, WorkerStep(t, woken)))
  {
  }

  lemma SleepInvAdd(cfg: Config, s: State, c: nat)
    requires Inv(cfg, s) && Enabled(cfg, s, AddStep(c))
    ensures SleepInv(cfg, Apply(cfg, s, AddStep(c)))
  {
  }

  lemma SleepInvDestroy(cfg: Config, s: State, c: nat)
    requires Inv(cfg, s) && Enabled(cfg, s, DestroyStep(c))
    ensures SleepInv(cfg, Apply(cfg, s, DestroyStep(c)))
  {
  }

  lemma SleepInvBroadcast(cfg: Config, s: State, c: nat)
    requires Inv(cfg, s) && Enabled(cfg, s, BroadcastStep(c))
    ensures SleepInv(cfg, Apply(cfg, s, BroadcastStep(c)))
  {
  }

  lemma SleepInvWorker(cfg: Config, s: State, t: nat, woken: nat)
    requires Inv(cfg, s) && Enabled(cfg, s, WorkerStep(t, woken))
    ensures SleepInv(cfg, Apply(cfg, s, WorkerStep(t, woken)))
  {
    assert forall c :: 0 <= c < |s.callers| && s.callers[c].DrainAsleep? ==> DrainWaiter(s.callers, c);
  }

  lemma SleepInvStep(cfg: Config, s: State, a: Action)
    requires Inv(cfg, s) && Enabled(cfg, s, a)
    ensures SleepInv(cfg, Apply(cfg, s, a))
  {
    match a {
      case AddStep(c) => SleepInvAdd(cfg, s, c);
      case DestroyStep(c) => SleepInvDestroy(cfg, s, c);
      case BroadcastStep(c) => SleepInvBroadcast(cfg, s, c);
      case WorkerStep(t, woken) => SleepInvWorker(cfg, s, t, woken);
      case _ =>
    }
  }

  lemma InvStep(cfg: Config, s: State, a: Action)
    requires Inv(cfg, s) && Enabled(cfg, s, a)
    ensures Inv(cfg, Apply(cfg, s, a))
  {
    QueueInvStep(cfg, s, a);
    CloserInvStep(cfg, s, a);
    SleepInvStep(cfg, s, a);
  }

  lemma {:induction false} RunKeepsInv(cfg: Config, s: State, acts: seq<Action>, s': State)
    requires Inv(cfg, s) && Run(cfg, s, acts, s')
    ensures Inv(cfg, s')
    decreases |acts|
  {
    if acts != [] {
      InvStep(cfg, s, acts[0]);
      RunKeepsInv(cfg, Apply(cfg, s, acts[0]), acts[1..], s');
    }
  }

  lemma ReachableInv(cfg: Config, s: State)
    requires Reachable(cfg, s)
    ensures Inv(cfg, s)
  {
    var n: nat, acts :| Run(cfg, Init(cfg, n), acts, s);
    RunKeepsInv(cfg, Init(cfg, n), acts, s);
  }

  // ----- no lost wakeup -----

  /** In every reachable state a thread that sleeps unsignalled would go back to
      sleep if it ran, or a broadcast on its condition variable is still to come.
      The one exception is a producer between queue_closed and shutdown. */
  lemma NoLostWakeup(cfg: Config, s: State)
    requires Reachable(cfg, s)
    ensures forall t :: 0 <= t < |s.workers| && s.workers[t].WAsleep? ==> WorkerWaits(s.sh) || WorkersPending(s)
    ensures forall c :: 0 <= c < |s.callers| && s.callers[c].AddAsleep? ==>
              && |s.sh.queue| == cfg.maxQueueSize
              && (ProducerWaits(cfg, s.sh) || ProducersPending(s) <==> !(s.sh.closed && !s.sh.shutdown))
    ensures forall c :: 0 <= c < |s.callers| && s.callers[c].DrainAsleep? ==>
              s.sh.closed && !s.sh.shutdown && s.sh.queue != []
    ensures forall c, d :: 0 <= c < d < |s.callers| ==> !(s.callers[c].DrainAsleep? && s.callers[d].DrainAsleep?)
  {
    ReachableInv(cfg, s);
  }

  /** A pool with room for one item is full, and nobody has taken the item yet. */
  lemma FullPool(cfg: Config, w: Work) returns (s: State)
    requires cfg == Config(1, 1, false)
    ensures Reachable(cfg, s) && s == State(Shared([w], false, false), [WAtLock], [Idle, Idle], 0)
  {
    hide Reachable;
    s := Init(cfg, 2);
    ReachableInit(cfg, 2);
    s := ReachableNext(cfg, s, BeginAdd(0, w));
    s := ReachableNext(cfg, s, AddStep(0));
  }

  /** The exception occurs: tpool_destroy closes a full pool without waking the
      producers that wait for room, whose wait condition has become false. */
  lemma ClosingLeavesProducerAsleep() returns (cfg: Config, s: State)
    ensures Reachable(cfg, s)
    ensures |s.callers| == 2 && s.callers[1].AddAsleep? && !ProducerWaits(cfg, s.sh) && !ProducersPending(s)
    ensures cfg.numThreads >= 1 && s.sh.closed && s.closer == 0 && s.callers[0].DrainAsleep?
  {
    hide Reachable;
    cfg := Config(1, 1, false);
    var w := Work(0, 0);
    s := FullPool(cfg, w);
    s := ReachableNext(cfg, s, BeginAdd(1, w));
    s := ReachableNext(cfg, s, AddStep(1));
    assert s == State(Shared([w], false, false), [WAtLock], [Idle, AddAsleep(w)], 0);
    s := ReachableNext(cfg, s, BeginDestroy(0, true));
    s := ReachableNext(cfg, s, DestroyStep(0));
  }

  lemma ReachableNext(cfg: Config, s: State, a: Action) returns (s': State)
    requires Reachable(cfg, s) && Enabled(cfg, s, a)
    ensures s' == Apply(cfg, s, a) && Reachable(cfg, s')
  {
    s' := Apply(cfg, s, a);
    ReachableStep(cfg, s, a);
  }

  // ----- which calls are refused -----

  /** In every run a section of tpool_add_work returns with the item accepted exactly if
      the pool is open and has room, and returns with the item refused exactly if the pool
      is closed, or full and not blocking. Otherwise it waits. */
  lemma AddStepIs(cfg: Config, s: State, c: nat)
    requires Reachable(cfg, s) && Enabled(cfg, s, AddStep(c))
    ensures var s' := Apply(cfg, s, AddStep(c));
      var full := |s.sh.queue| == cfg.maxQueueSize;
      && (s'.callers[c].Idle? && AcceptedBy(cfg, s, AddStep(c)) == [s.callers[c].work] <==> !s.sh.closed && !full)
      && (s'.callers[c].Idle? && AcceptedBy(cfg, s, AddStep(c)) == [] <==>
            s.sh.closed || (full && cfg.doNotBlockWhenFull))
      && (s'.callers[c].AddAsleep? <==> !s.sh.closed && full && !cfg.doNotBlockWhenFull)
  {
    ReachableInv(cfg, s);
    AddIs(cfg, s.sh, s.callers[c].work, s.callers[c].entering);
  }

  // ----- FIFO and conservation -----

  lemma FifoStep(cfg: Config, s: State, a: Action)
    requires Enabled(cfg, s, a)
    ensures s.sh.queue + AcceptedBy(cfg, s, a) == StartedBy(cfg, s, a) + Apply(cfg, s, a).sh.queue
  {
  }

  lemma FifoCompose<T>(q: seq<T>, in1: seq<T>, out1: seq<T>, m: seq<T>, in2: seq<T>, out2: seq<T>, q': seq<T>)
    requires q + in1 == out1 + m && m + in2 == out2 + q'
    ensures q + (in1 + in2) == (out1 + out2) + q'
  {
    assert q + (in1 + in2) == (q + in1) + in2 == out1 + (m + in2) == (out1 + out2) + q';
  }

  /** Items start in the order in which they were accepted, and those accepted but
      not started are exactly the queue. */
  lemma {:induction false} Fifo(cfg: Config, s: State, acts: seq<Action>, s': State)
    requires Run(cfg, s, acts, s')
    ensures s.sh.queue + Accepted(cfg, s, acts, s') == Started(cfg, s, acts, s') + s'.sh.queue
    decreases |acts|
  {
    if acts != [] {
      var m := Apply(cfg, s, acts[0]);
      Fifo(cfg, m, acts[1..], s');
      FifoStep(cfg, s, acts[0]);
      FifoCompose(s.sh.queue, AcceptedBy(cfg, s, acts[0]), StartedBy(cfg, s, acts[0]), m.sh.queue,
                  Accepted(cfg, m, acts[1..], s'), Started(cfg, m, acts[1..], s'), s'.sh.queue);
    }
  }

  ghost function HeldBy(w: WorkerPc): multiset<Work> {
    if w.WRunning? then multiset{w.work} else multiset{}
  }

  /** The items in the hands of the workers. */
  ghost function InHand(ws: seq<WorkerPc>): multiset<Work> {
    if ws == [] then multiset{} else HeldBy(ws[0]) + InHand(ws[1..])
  }

  lemma AddToBoth<T>(h: multiset<T>, a: multiset<T>, b: multiset<T>, c: multiset<T>, d: multiset<T>)
    requires a + b == c + d
    ensures h + a + b == h + c + d
  {
    assert h + a + b == h + (a + b);
    assert h + c + d == h + (c + d);
  }

  lemma SwapEnds<T>(a: multiset<T>, b: multiset<T>, c: multiset<T>)
    ensures a + b + c == c + b + a
  {
  }

  lemma {:induction false} InHandUpdate(ws: seq<WorkerPc>, t: nat, w: WorkerPc)
    requires t < |ws|
    ensures InHand(ws[t := w]) + HeldBy(ws[t]) == InHand(ws) + HeldBy(w)
  {
    var us := ws[t := w];
    if t > 0 {
      assert us[1..] == ws[1..][t - 1 := w];
      InHandUpdate(ws[1..], t - 1, w);
      AddToBoth(HeldBy(ws[0]), InHand(us[1..]), HeldBy(ws[t]), InHand(ws[1..]), HeldBy(w));
    } else {
      assert us[1..] == ws[1..];
      SwapEnds(HeldBy(w), InHand(ws[1..]), HeldBy(ws[0]));
    }
  }

  lemma {:induction false} InHandSame(ws: seq<WorkerPc>, us: seq<WorkerPc>)
    requires |us| == |ws|
    requires forall t :: 0 <= t < |ws| ==> us[t] == ws[t] || (!us[t].WRunning? && !ws[t].WRunning?)
    ensures InHand(us) == InHand(ws)
  {
    if ws != [] {
      assert HeldBy(us[0]) == HeldBy(ws[0]);
      InHandSame(ws[1..], us[1..]);
    }
  }

  lemma InHandTake(cfg: Config, s: State, t: nat, woken: nat)
    requires Enabled(cfg, s, WorkerStep(t, woken))
    ensures InHand(s.workers) + multiset(StartedBy(cfg, s, WorkerStep(t, woken))) ==
            InHand(Apply(cfg, s, WorkerStep(t, woken)).workers)
  {
    hide InHand;
    var ws' := Apply(cfg, s, WorkerStep(t, woken)).workers;
    InHandUpdate(s.workers, t, ws'[t]);
    HeldIsStarted(cfg, s, t, woken);
    PlusNothing(InHand(ws'));
  }

  lemma HeldIsStarted(cfg: Config, s: State, t: nat, woken: nat)
    requires Enabled(cfg, s, WorkerStep(t, woken))
    ensures var ws' := Apply(cfg, s, WorkerStep(t, woken)).workers;
      && HeldBy(s.workers[t]) == multiset{}
      && ws' == s.workers[t := ws'[t]]
      && multiset(StartedBy(cfg, s, WorkerStep(t, woken))) == HeldBy(ws'[t])
  {
  }

  lemma PlusNothing<T>(m: multiset<T>)
    ensures m + multiset{} == m
  {
  }

  lemma InHandPut(cfg: Config, s: State, t: nat)
    requires Enabled(cfg, s, FinishStep(t))
    ensures InHand(s.workers) == multiset{s.workers[t].work} + InHand(Apply(cfg, s, FinishStep(t)).workers)
  {
    var ws' := s.workers[t := WAtLock];
    InHandUpdate(s.workers, t, WAtLock);
    assert InHand(s.workers) + HeldBy(WAtLock) == InHand(s.workers);
    assert InHand(ws') + HeldBy(s.workers[t]) == HeldBy(s.workers[t]) + InHand(ws');
  }

  lemma InHandKeep(cfg: Config, s: State, a: Action)
    requires Enabled(cfg, s, a) && !a.WorkerStep? && !a.FinishStep?
    ensures InHand(s.workers) == InHand(Apply(cfg, s, a).workers)
  {
    InHandSame(s.workers, Apply(cfg, s, a).workers);
  }

  lemma InHandStep(cfg: Config, s: State, a: Action)
    requires Enabled(cfg, s, a)
    ensures InHand(s.workers) + multiset(StartedBy(cfg, s, a)) ==
            multiset(FinishedBy(cfg, s, a)) + InHand(Apply(cfg, s, a).workers)
  {
    if a.WorkerStep? {
      InHandTake(cfg, s, a.t, a.woken);
    } else if a.FinishStep? {
      InHandPut(cfg, s, a.t);
    } else {
      InHandKeep(cfg, s, a);
    }
  }

  lemma InHandCompose<T>(h: multiset<T>, in1: seq<T>, out1: seq<T>, m: multiset<T>,
                         in2: seq<T>, out2: seq<T>, h': multiset<T>)
    requires h + multiset(in1) == multiset(out1) + m && m + multiset(in2) == multiset(out2) + h'
    ensures h + multiset(in1 + in2) == multiset(out1 + out2) + h'
  {
    var i2, o1, o2 := multiset(in2), multiset(out1), multiset(out2);
    assert multiset(in1 + in2) == multiset(in1) + i2 && multiset(out1 + out2) == o1 + o2;
    assert h + (multiset(in1) + i2) == (h + multiset(in1)) + i2;
    assert o1 + m + i2 == o1 + (m + i2);
    assert o1 + (o2 + h') == (o1 + o2) + h';
  }

  /** No started item is lost or executed twice. */
  lemma {:induction false} StartedOnceFinishedOnce(cfg: Config, s: State, acts: seq<Action>, s': State)
    requires Run(cfg, s, acts, s')
    ensures InHand(s.workers) + multiset(Started(cfg, s, acts, s')) ==
            multiset(Finished(cfg, s, acts, s')) + InHand(s'.workers)
    decreases |acts|
  {
    if acts != [] {
      var m := Apply(cfg, s, acts[0]);
      StartedOnceFinishedOnce(cfg, m, acts[1..], s');
      InHandStep(cfg, s, acts[0]);
      InHandCompose(InHand(s.workers), StartedBy(cfg, s, acts[0]), FinishedBy(cfg, s, acts[0]), InHand(m.workers),
                    Started(cfg, m, acts[1..], s'), Finished(cfg, m, acts[1..], s'), InHand(s'.workers));
    }
  }

  lemma {:induction false} NothingInHand(ws: seq<WorkerPc>)
    requires forall t :: 0 <= t < |ws| ==> !ws[t].WRunning?
    ensures InHand(ws) == multiset{}
  {
    if ws != [] {
      NothingInHand(ws[1..]);
    }
  }

  /** Once the pool is closed nothing is accepted any more. */
  lemma {:induction false} ClosedAcceptsNothing(cfg: Config, s: State, acts: seq<Action>, s': State)
    requires Run(cfg, s, acts, s') && s.sh.closed
    ensures s'.sh.closed && Accepted(cfg, s, acts, s') == []
    decreases |acts|
  {
    if acts != [] {
      ClosedAcceptsNothing(cfg, Apply(cfg, s, acts[0]), acts[1..], s');
    }
  }

  /** When tpool_destroy(pool, 1) has joined the workers, every accepted item has
      been executed exactly once, started in the order of acceptance, and the queue
      that the final loop would free is empty. */
  lemma DestroyFinishesEverything(cfg: Config, n: nat, acts: seq<Action>, s: State, c: nat)
    requires Run(cfg, Init(cfg, n), acts, s)
    requires c < |s.callers| && s.callers[c] == Destroyed(true)
    ensures s.sh.queue == []
    ensures Started(cfg, Init(cfg, n), acts, s) == Accepted(cfg, Init(cfg, n), acts, s)
    ensures multiset(Finished(cfg, Init(cfg, n), acts, s)) == multiset(Accepted(cfg, Init(cfg, n), acts, s))
  {
    ReachableInv(cfg, s);
    NothingLeft(cfg, n, acts, s);
  }

  /** Once nothing is queued and nothing is in hand, all that was accepted is finished. */
  lemma NothingLeft(cfg: Config, n: nat, acts: seq<Action>, s: State)
    requires Run(cfg, Init(cfg, n), acts, s)
    requires s.sh.queue == [] && forall t :: 0 <= t < |s.workers| ==> !s.workers[t].WRunning?
    ensures Started(cfg, Init(cfg, n), acts, s) == Accepted(cfg, Init(cfg, n), acts, s)
    ensures multiset(Finished(cfg, Init(cfg, n), acts, s)) == multiset(Accepted(cfg, Init(cfg, n), acts, s))
  {
    hide Run, Started, Accepted, Finished, InHand;
    var s0 := Init(cfg, n);
    var accepted, finished := Accepted(cfg, s0, acts, s), Finished(cfg, s0, acts, s);
    Fifo(cfg, s0, acts, s);
    assert s0.sh.queue + accepted == accepted;
    assert Started(cfg, s0, acts, s) + [] == Started(cfg, s0, acts, s);
    StartedOnceFinishedOnce(cfg, s0, acts, s);
    NothingInHand(s0.workers);
    NothingInHand(s.workers);
    PlusNothing(multiset(finished));
  }
}
