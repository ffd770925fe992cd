/** Progress of the thread pool: no reachable state is stuck, once the pool is closed
    every schedule without spurious wakeups and new calls is finite and ends with all
    workers joined and the pool freed, and exactly when no call is left inside it then. */
module PoolDrain {
  import opened PoolQueue
  import opened PoolMachine

  /** The steps the threads take on their own, that is, other than new calls into
      the pool and spurious wakeups. Routines are assumed to return. */
  predicate Own(a: Action) {
    a.AddStep? || a.DestroyStep? || a.BroadcastStep? || a.JoinStep? || a.WorkerStep? || a.FinishStep?
  }

  ghost predicate CanStep(cfg: Config, s: State) {
    exists a :: Own(a) && Enabled(cfg, s, a)
  }

  /** The step is not one of caller d. */
  predicate Without(a: Action, d: nat) {
    a.AddStep? || a.DestroyStep? || a.BroadcastStep? || a.JoinStep? ==> a.c != d
  }

  ghost predicate CanStepWithout(cfg: Config, s: State, d: nat) {
    exists a :: Own(a) && Without(a, d) && Enabled(cfg, s, a)
  }

  // ----- no reachable state is stuck -----

  predicate InCall(s: State, c: nat) {
    c < |s.callers| && !s.callers[c].Idle? && !s.callers[c].Destroyed?
  }

  lemma WorkerCanStep(cfg: Config, s: State, t: nat, d: nat)
    requires !Freed(s) && t < |s.workers| && (s.workers[t].WAtLock? || s.workers[t].WRunning?)
    ensures CanStepWithout(cfg, s, d)
  {
    if s.workers[t].WRunning? {
      assert Enabled(cfg, s, FinishStep(t));
    } else if w: nat :| w < |s.callers| && DrainWaiter(s.callers, w) {
      assert Enabled(cfg, s, WorkerStep(t, w));
    } else {
      assert Enabled(cfg, s, WorkerStep(t, 0));
    }
  }

  /** While the queue holds work and the pool is not shut down, a worker can go on;
      while the closer is at work, it or a worker can. */
  lemma BusyCanStep(cfg: Config, s: State, d: nat)
    requires Inv(cfg, s) && cfg.numThreads >= 1
    requires s.sh.queue != [] && !s.sh.shutdown
    ensures CanStepWithout(cfg, s, d)
  {
    WorkerCanStep(cfg, s, 0, d);
  }

  lemma CloserCanStep(cfg: Config, s: State, d: nat)
    requires Inv(cfg, s) && cfg.numThreads >= 1
    requires s.sh.closed && !Freed(s) && d != s.closer
    ensures CanStepWithout(cfg, s, d)
  {
    var c := s.closer;
    match s.callers[c] {
      case DrainAsleep => BusyCanStep(cfg, s, d);
      case DrainAwake => assert Enabled(cfg, s, DestroyStep(c));
      case WakeWorkers(_) => assert Enabled(cfg, s, BroadcastStep(c));
      case WakeProducers(_) => assert Enabled(cfg, s, BroadcastStep(c));
      case Joining(j, _) =>
        if j < |s.workers| && !s.workers[j].WExited? {
          WorkerCanStep(cfg, s, j, d);
        } else {
          assert Enabled(cfg, s, JoinStep(c));
        }
    }
  }

  /** Sparse broadcasts and the single signal never strand a thread: as long as the
      pool exists and a call is in progress or work is queued, some thread can take a
      step of its own. */
  lemma NeverStuck(cfg: Config, s: State)
    requires Reachable(cfg, s) && cfg.numThreads >= 1 && cfg.maxQueueSize >= 1 && !Freed(s)
    requires (exists c: nat :: InCall(s, c)) || (s.sh.queue != [] && !s.sh.shutdown)
    ensures CanStep(cfg, s)
  {
    ReachableInv(cfg, s);
    if s.sh.queue != [] && !s.sh.shutdown {
      BusyCanStep(cfg, s, 0);
    } else if s.sh.closed {
      CloserCanStep(cfg, s, s.closer + 1);
    } else {
      var c: nat :| InCall(s, c);
      match s.callers[c] {
        case AddAtLock(_, _) => assert Enabled(cfg, s, AddStep(c));
        case DestroyAtLock(_) => assert Enabled(cfg, s, DestroyStep(c));
        case _ =>
      }
    }
  }

  // ----- after queue_closed every own step makes progress -----

  /** How much of tpool_destroy the closer still has before it. */
  function Stage(cfg: Config, pc: CallerPc): int {
    match pc
    case WakeWorkers(_) => cfg.numThreads + 3
    case WakeProducers(_) => cfg.numThreads + 2
    case Joining(j, _) => if j <= cfg.numThreads then cfg.numThreads - j + 1 else 1
    case Destroyed(_) => 0
    case _ => cfg.numThreads + 4
  }

  function WorkerWeight(w: WorkerPc): nat {
    match w
    case WRunning(_) => 2
    case WAtLock => 1
    case _ => 0
  }

  function CallerWeight(c: CallerPc): nat {
    if c.AddAtLock? || c.DestroyAtLock? || c.DrainAwake? then 1 else 0
  }

  function WorkerLoad(ws: seq<WorkerPc>): (r: nat)
    ensures r <= 2 * |ws|
  {
    if ws == [] then 0 else WorkerWeight(ws[0]) + WorkerLoad(ws[1..])
  }

  function CallerLoad(cs: seq<CallerPc>): (r: nat)
    ensures r <= |cs|
  {
    if cs == [] then 0 else CallerWeight(cs[0]) + CallerLoad(cs[1..])
  }

  lemma {:induction false} WorkerLoadUpdate(ws: seq<WorkerPc>, t: nat, w: WorkerPc)
    requires t < |ws|
    ensures WorkerLoad(ws[t := w]) == WorkerLoad(ws) - WorkerWeight(ws[t]) + WorkerWeight(w)
  {
    if t == 0 {
      assert ws[t := w][1..] == ws[1..];
    } else {
      assert ws[t := w][1..] == ws[1..][t - 1 := w];
      WorkerLoadUpdate(ws[1..], t - 1, w);
    }
  }

  lemma {:induction false} CallerLoadUpdate(cs: seq<CallerPc>, c: nat, pc: CallerPc)
    requires c < |cs|
    ensures CallerLoad(cs[c := pc]) == CallerLoad(cs) - CallerWeight(cs[c]) + CallerWeight(pc)
  {
    if c == 0 {
      assert cs[c := pc][1..] == cs[1..];
    } else {
      assert cs[c := pc][1..] == cs[1..][c - 1 := pc];
      CallerLoadUpdate(cs[1..], c - 1, pc);
    }
  }

  function Load(s: State): (r: nat)
    ensures r <= 2 * |s.workers| + |s.callers|
  {
    WorkerLoad(s.workers) + CallerLoad(s.callers)
  }

  /** The closer's stage and the queue, the stage counting for more than any queue. */
  function Phase(cfg: Config, s: State): int
    requires s.closer < |s.callers|
  {
    Stage(cfg, s.callers[s.closer]) * (cfg.maxQueueSize + 1) + |s.sh.queue|
  }

  /** Bounds the number of own steps that are left once the pool is closed. */
  function Measure(cfg: Config, s: State): int
    requires s.closer < |s.callers|
  {
    Phase(cfg, s) * (2 * |s.workers| + |s.callers| + 1) + Load(s)
  }

  /** Either the stage drops, or the queue does, or the load. */
  ghost predicate Progress(cfg: Config, s: State, s': State) {
    && s'.closer == s.closer < |s.callers| == |s'.callers| && |s'.workers| == |s.workers|
    && s'.sh.closed
    && var stage, stage' := Stage(cfg, s.callers[s.closer]), Stage(cfg, s'.callers[s.closer]);
       || (stage' < stage && s'.sh.queue == s.sh.queue)
       || (stage' == stage && |s'.sh.queue| < |s.sh.queue|)
       || (stage' == stage && s'.sh.queue == s.sh.queue && Load(s') < Load(s))
  }

  lemma ProgressAdd(cfg: Config, s: State, c: nat)
    requires Inv(cfg, s) && s.sh.closed && Enabled(cfg, s, AddStep(c))
    ensures Progress(cfg, s, Apply(cfg, s, AddStep(c)))
  {
    CallerLoadUpdate(s.callers, c, Idle);
  }

  lemma ProgressDestroy(cfg: Config, s: State, c: nat)
    requires Inv(cfg, s) && s.sh.closed && Enabled(cfg, s, DestroyStep(c))
    ensures Progress(cfg, s, Apply(cfg, s, DestroyStep(c)))
  {
    var s' := Apply(cfg, s, DestroyStep(c));
    CallerLoadUpdate(s.callers, c, s'.callers[c]);
  }

  lemma ProgressCloser(cfg: Config, s: State, a: Action)
    requires Inv(cfg, s) && s.sh.closed && (a.BroadcastStep? || a.JoinStep?) && Enabled(cfg, s, a)
    ensures Progress(cfg, s, Apply(cfg, s, a))
  {
    assert a.c == s.closer;
  }

  lemma ProgressWorker(cfg: Config, s: State, t: nat, woken: nat)
    requires Inv(cfg, s) && s.sh.closed && Enabled(cfg, s, WorkerStep(t, woken))
    ensures Progress(cfg, s, Apply(cfg, s, WorkerStep(t, woken)))
  {
    var s' := Apply(cfg, s, WorkerStep(t, woken));
    WorkerLoadUpdate(s.workers, t, s'.workers[t]);
  }

  lemma OwnStepProgress(cfg: Config, s: State, a: Action)
    requires Inv(cfg, s) && s.sh.closed && Own(a) && Enabled(cfg, s, a)
    ensures Progress(cfg, s, Apply(cfg, s, a))
  {
    match a {
      case AddStep(c) => ProgressAdd(cfg, s, c);
      case DestroyStep(c) => ProgressDestroy(cfg, s, c);
      case WorkerStep(t, woken) => ProgressWorker(cfg, s, t, woken);
      case FinishStep(t) => WorkerLoadUpdate(s.workers, t, WAtLock);
      case _ => ProgressCloser(cfg, s, a);
    }
  }

  lemma ScaledDrop(a: int, b: int, k: int, x: int, y: int)
    requires a < b && 0 <= x < k && 0 <= y
    ensures a * k + x < b * k + y
  {
    assert (a + 1) * k <= b * k;
  }

  lemma OwnStepDecreases(cfg: Config, s: State, a: Action)
    requires Inv(cfg, s) && s.sh.closed && Own(a) && Enabled(cfg, s, a)
    ensures var s' := Apply(cfg, s, a);
      && s'.closer == s.closer && |s'.callers| == |s.callers| && s'.sh.closed
      && Measure(cfg, s') < Measure(cfg, s)
  {
    var s' := Apply(cfg, s, a);
    OwnStepProgress(cfg, s, a);
    QueueInvStep(cfg, s, a);
    var stage, stage' := Stage(cfg, s.callers[s.closer]), Stage(cfg, s'.callers[s.closer]);
    if stage' < stage {
      ScaledDrop(stage', stage, cfg.maxQueueSize + 1, |s'.sh.queue|, |s.sh.queue|);
    }
    if Phase(cfg, s') < Phase(cfg, s) {
      ScaledDrop(Phase(cfg, s'), Phase(cfg, s), 2 * |s.workers| + |s.callers| + 1, Load(s'), Load(s));
    }
  }

  lemma MeasureNonNegative(cfg: Config, s: State)
    requires s.closer < |s.callers|
    ensures Measure(cfg, s) >= 0
  {
    assert Stage(cfg, s.callers[s.closer]) * (cfg.maxQueueSize + 1) >= 0;
    assert Phase(cfg, s) * (2 * |s.workers| + |s.callers| + 1) >= 0;
  }

  predicate AllOwn(acts: seq<Action>) {
    forall i :: 0 <= i < |acts| ==> Own(acts[i])
  }

  lemma {:induction false} DrainIsFinite(cfg: Config, s: State, acts: seq<Action>, s': State)
    requires Inv(cfg, s) && s.sh.closed && AllOwn(acts) && Run(cfg, s, acts, s')
    ensures s'.closer == s.closer && |s'.callers| == |s.callers| && s'.sh.closed
    ensures |acts| + Measure(cfg, s') <= Measure(cfg, s)
    decreases |acts|
  {
    if acts != [] {
      OwnStepDecreases(cfg, s, acts[0]);
      InvStep(cfg, s, acts[0]);
      assert AllOwn(acts[1..]);
      DrainIsFinite(cfg, Apply(cfg, s, acts[0]), acts[1..], s');
    }
  }

  // ----- when tpool_destroy is safe for the other callers -----

  /** Nobody but the thread that closes the pool is inside one of its functions. */
  ghost predicate NoOtherCall(s: State) {
    forall d: nat :: InCall(s, d) ==> d == s.closer
  }

  /** The steps contain no new call into the pool; spurious wakeups may occur. */
  predicate NoNewCall(acts: seq<Action>) {
    forall i :: 0 <= i < |acts| ==> !acts[i].BeginAdd? && !acts[i].BeginDestroy?
  }

  /** However the threads are scheduled, every call has returned when the pool is freed. */
  ghost predicate CallsReturnFirst(cfg: Config, s: State) {
    forall acts, s' :: NoNewCall(acts) && Run(cfg, s, acts, s') && Freed(s') ==> forall d: nat :: !InCall(s', d)
  }

  lemma OthersStayOutStep(cfg: Config, s: State, a: Action)
    requires Inv(cfg, s) && s.sh.closed && Enabled(cfg, s, a) && NoOtherCall(s)
    requires !a.BeginAdd? && !a.BeginDestroy?
    ensures var s' := Apply(cfg, s, a);
      s'.sh.closed && s'.closer == s.closer && NoOtherCall(s')
  {
    var s' := Apply(cfg, s, a);
    forall d: nat | InCall(s', d)
      ensures InCall(s, d)
    {
    }
  }

  lemma {:induction false} OthersStayOut(cfg: Config, s: State, acts: seq<Action>, s': State)
    requires Inv(cfg, s) && s.sh.closed && NoOtherCall(s) && NoNewCall(acts) && Run(cfg, s, acts, s')
    ensures s'.closer == s.closer && NoOtherCall(s')
    decreases |acts|
  {
    if acts != [] {
      OthersStayOutStep(cfg, s, acts[0]);
      InvStep(cfg, s, acts[0]);
      assert NoNewCall(acts[1..]);
      OthersStayOut(cfg, Apply(cfg, s, acts[0]), acts[1..], s');
    }
  }

  /** What becomes of a caller that takes no step: at most it is woken. */
  predicate Delayed(pc: CallerPc, pc': CallerPc) {
    pc' == pc || (pc.AddAsleep? && pc' == AddAtLock(pc.work, false))
  }

  /** The closer was told to drain the queue first. */
  predicate Finishing(pc: CallerPc) {
    pc.DrainAsleep? || pc.DrainAwake? || (ShutDown(pc) && pc.finish)
  }

  lemma DelayStep(cfg: Config, s: State, a: Action, d: nat)
    requires Inv(cfg, s) && s.sh.closed && Own(a) && Without(a, d) && Enabled(cfg, s, a)
    requires d < |s.callers| && d != s.closer
    ensures var m := Apply(cfg, s, a);
      && m.closer == s.closer < |s.callers| == |m.callers| && Delayed(s.callers[d], m.callers[d])
      && (Finishing(s.callers[s.closer]) ==> Finishing(m.callers[s.closer]))
  {
  }

  lemma NotDelayed(a: CallerPc)
    ensures Delayed(a, a)
  {
  }

  lemma DelayedTwice(a: CallerPc, b: CallerPc, c: CallerPc)
    requires Delayed(a, b) && Delayed(b, c)
    ensures Delayed(a, c)
  {
  }

  /** While one caller is not scheduled, the closer and the workers go on to the end. */
  lemma {:induction false} DelayCaller(cfg: Config, s: State, d: nat) returns (acts: seq<Action>, s': State)
    requires Inv(cfg, s) && s.sh.closed && cfg.numThreads >= 1
    requires d < |s.callers| && d != s.closer
    ensures AllOwn(acts) && Run(cfg, s, acts, s') && Freed(s') && s'.closer == s.closer
    ensures |s'.callers| == |s.callers| && Delayed(s.callers[d], s'.callers[d])
    ensures Finishing(s.callers[s.closer]) ==> Finishing(s'.callers[s.closer])
    decreases Measure(cfg, s)
  {
    hide Inv, Enabled, Apply, Measure, Delayed, Finishing;
    if Freed(s) {
      NotDelayed(s.callers[d]);
      acts, s' := [], s;
    } else {
      CloserCanStep(cfg, s, d);
      var a :| Own(a) && Without(a, d) && Enabled(cfg, s, a);
      var m := Apply(cfg, s, a);
      OwnStepDecreases(cfg, s, a);
      InvStep(cfg, s, a);
      DelayStep(cfg, s, a, d);
      MeasureNonNegative(cfg, s);
      MeasureNonNegative(cfg, m);
      var rest;
      rest, s' := DelayCaller(cfg, m, d);
      DelayedTwice(s.callers[d], m.callers[d], s'.callers[d]);
      acts := [a] + rest;
      assert acts[1..] == rest;
    }
  }

  /** From a closed pool on, every call returns before the pool is freed if and only if
      no call but the closing one is in progress: any other can be delayed until it is
      inside a pool that no longer exists. */
  lemma ClosedPoolIsLeft(cfg: Config, s: State)
    requires Inv(cfg, s) && s.sh.closed && cfg.numThreads >= 1
    ensures CallsReturnFirst(cfg, s) <==> NoOtherCall(s)
  {
    if NoOtherCall(s) {
      forall acts, s' | NoNewCall(acts) && Run(cfg, s, acts, s') && Freed(s')
        ensures forall d: nat :: !InCall(s', d)
      {
        OthersStayOut(cfg, s, acts, s');
      }
    } else {
      var d: nat :| InCall(s, d) && d != s.closer;
      var acts, s' := DelayCaller(cfg, s, d);
      assert NoNewCall(acts) && InCall(s', d);
    }
  }

  /** The call of tpool_destroy that closes the pool is safe for all callers exactly if
      it is the only call in progress when it takes the lock. */
  lemma SafeToDestroy(cfg: Config, s: State, c: nat)
    requires Reachable(cfg, s) && cfg.numThreads >= 1
    requires Enabled(cfg, s, DestroyStep(c)) && s.callers[c].DestroyAtLock? && !s.sh.closed
    ensures CallsReturnFirst(cfg, Apply(cfg, s, DestroyStep(c))) <==> forall d: nat :: InCall(s, d) ==> d == c
  {
    ReachableInv(cfg, s);
    var s' := Apply(cfg, s, DestroyStep(c));
    InvStep(cfg, s, DestroyStep(c));
    assert s'.closer == c && InCall(s', c);
    assert forall d: nat :: d != c ==> (InCall(s', d) <==> InCall(s, d));
    ClosedPoolIsLeft(cfg, s');
  }

  /** It happens: the producer that closing has left asleep can be woken by a worker
      and not get the lock again before tpool_destroy frees the pool. */
  lemma FreedUnderAProducer() returns (cfg: Config, s: State)
    ensures Reachable(cfg, s) && |s.callers| == 2
    ensures s.callers[0] == Destroyed(true) && s.callers[1].AddAtLock? && !s.callers[1].entering
  {
    var m, acts;
    cfg, m := ClosingLeavesProducerAsleep();
    ReachableInv(cfg, m);
    acts, s := DelayCaller(cfg, m, 1);
    var n: nat, before :| Run(cfg, Init(cfg, n), before, m);
    RunAppend(cfg, Init(cfg, n), before, m, acts, s);
    ReachableInv(cfg, s);
  }

  /** Every schedule from a closed pool has bounded length. One that cannot be continued
      ends with every worker joined, the pool freed and nobody asleep on it; if no other
      call was in progress when it began, every other caller has returned. */
  lemma DrainCompletes(cfg: Config, s: State, acts: seq<Action>, s': State)
    requires Reachable(cfg, s) && s.sh.closed && cfg.numThreads >= 1 && cfg.maxQueueSize >= 1
    requires AllOwn(acts) && Run(cfg, s, acts, s')
    ensures s.closer < |s.callers| == |s'.callers|
    ensures |acts| <= Measure(cfg, s)
    ensures !CanStep(cfg, s') ==>
              && Freed(s') && s'.closer == s.closer
              && (forall t :: 0 <= t < |s'.workers| ==> s'.workers[t].WExited?)
              && (forall c :: 0 <= c < |s'.callers| ==> !s'.callers[c].AddAsleep? && !s'.callers[c].DrainAsleep?)
              && (NoOtherCall(s) ==> forall c :: 0 <= c < |s'.callers| && c != s.closer ==> s'.callers[c].Idle?)
  {
    ReachableInv(cfg, s);
    DrainIsFinite(cfg, s, acts, s');
    MeasureNonNegative(cfg, s');
    RunKeepsInv(cfg, s, acts, s');
    if !CanStep(cfg, s') {
      if !Freed(s') {
        CloserCanStep(cfg, s', s'.closer + 1);
      }
      if NoOtherCall(s) {
        OthersStayOut(cfg, s, acts, s');
        forall c | 0 <= c < |s'.callers| && c != s.closer
          ensures s'.callers[c].Idle?
        {
          assert !InCall(s', c);
        }
      }
    }
  }

  // ----- before queue_closed the threads come to rest -----

  predicate Adding(pc: CallerPc) {
    pc.AddAtLock? || pc.AddAsleep?
  }

  function Adders(cs: seq<CallerPc>): (r: nat)
    ensures r <= |cs|
  {
    if cs == [] then 0 else (if Adding(cs[0]) then 1 else 0) + Adders(cs[1..])
  }

  lemma {:induction false} AddersUpdate(cs: seq<CallerPc>, c: nat, pc: CallerPc)
    requires c < |cs|
    ensures Adders(cs[c := pc]) ==
            Adders(cs) - (if Adding(cs[c]) then 1 else 0) + (if Adding(pc) then 1 else 0)
  {
    if c == 0 {
      assert cs[c := pc][1..] == cs[1..];
    } else {
      assert cs[c := pc][1..] == cs[1..][c - 1 := pc];
      AddersUpdate(cs[1..], c - 1, pc);
    }
  }

  lemma {:induction false} AddersSame(cs: seq<CallerPc>, ds: seq<CallerPc>)
    requires |cs| == |ds| && forall i :: 0 <= i < |cs| ==> (Adding(cs[i]) <==> Adding(ds[i]))
    ensures Adders(cs) == Adders(ds)
  {
    if cs != [] {
      AddersSame(cs[1..], ds[1..]);
    }
  }

  /** An item counts twice while its producer holds it, and once in the queue. */
  function Pending(s: State): nat {
    2 * Adders(s.callers) + |s.sh.queue|
  }

  /** Either work moves on, or the threads do. */
  ghost predicate OpenProgress(s: State, s': State) {
    && |s'.callers| == |s.callers| && |s'.workers| == |s.workers|
    && (Pending(s') < Pending(s) || (Pending(s') == Pending(s) && Load(s') < Load(s)))
  }

  lemma OpenProgressAdd(cfg: Config, s: State, c: nat)
    requires Inv(cfg, s) && !s.sh.closed && Enabled(cfg, s, AddStep(c))
    ensures OpenProgress(s, Apply(cfg, s, AddStep(c)))
  {
    var pc := Apply(cfg, s, AddStep(c)).callers[c];
    AddersUpdate(s.callers, c, pc);
    CallerLoadUpdate(s.callers, c, pc);
  }

  lemma OpenProgressWorker(cfg: Config, s: State, t: nat, woken: nat)
    requires Inv(cfg, s) && !s.sh.closed && Enabled(cfg, s, WorkerStep(t, woken))
    ensures OpenProgress(s, Apply(cfg, s, WorkerStep(t, woken)))
  {
    var s' := Apply(cfg, s, WorkerStep(t, woken));
    AddersSame(s.callers, s'.callers);
    if WorkerWaits(s.sh) {
      WorkerLoadUpdate(s.workers, t, WAsleep);
    }
  }

  lemma OpenStepProgress(cfg: Config, s: State, a: Action)
    requires Inv(cfg, s) && !s.sh.closed && Own(a) && Enabled(cfg, s, a)
    ensures !a.DestroyStep? ==> !Apply(cfg, s, a).sh.closed && OpenProgress(s, Apply(cfg, s, a))
    ensures a.DestroyStep? ==> Apply(cfg, s, a).sh.closed
  {
    match a {
      case AddStep(c) => OpenProgressAdd(cfg, s, c);
      case WorkerStep(t, woken) => OpenProgressWorker(cfg, s, t, woken);
      case FinishStep(t) => WorkerLoadUpdate(s.workers, t, WAtLock);
      case _ =>
    }
  }

  /** More than any load. */
  function LoadBound(s: State): nat {
    2 * |s.workers| + |s.callers| + 1
  }

  /** More than the measure of any closed state with these threads. */
  function ClosedBound(cfg: Config, s: State): nat {
    (cfg.numThreads + 5) * (cfg.maxQueueSize + 1) * LoadBound(s)
  }

  /** Bounds the number of own steps from any state. */
  function StepBound(cfg: Config, s: State): int
    requires s.sh.closed ==> s.closer < |s.callers|
  {
    if s.sh.closed then Measure(cfg, s) else ClosedBound(cfg, s) + Pending(s) * LoadBound(s) + Load(s)
  }

  lemma MeasureIsBounded(cfg: Config, s: State)
    requires Inv(cfg, s) && s.sh.closed
    ensures Measure(cfg, s) < ClosedBound(cfg, s)
  {
    var stage := Stage(cfg, s.callers[s.closer]);
    ScaledDrop(stage, cfg.numThreads + 5, cfg.maxQueueSize + 1, |s.sh.queue|, 0);
    ScaledDrop(Phase(cfg, s), (cfg.numThreads + 5) * (cfg.maxQueueSize + 1), LoadBound(s), Load(s), 0);
  }

  lemma OpenDrop(cfg: Config, s: State, s': State)
    requires OpenProgress(s, s') && !s.sh.closed && !s'.sh.closed
    ensures StepBound(cfg, s') < StepBound(cfg, s)
  {
    if Pending(s') < Pending(s) {
      ScaledDrop(Pending(s'), Pending(s), LoadBound(s), Load(s'), Load(s));
    }
  }

  lemma ClosingDrop(cfg: Config, s: State, c: nat)
    requires Inv(cfg, s) && !s.sh.closed && Enabled(cfg, s, DestroyStep(c))
    ensures var s' := Apply(cfg, s, DestroyStep(c));
      s'.sh.closed && Inv(cfg, s') && StepBound(cfg, s') < StepBound(cfg, s)
  {
    var s' := Apply(cfg, s, DestroyStep(c));
    InvStep(cfg, s, DestroyStep(c));
    MeasureIsBounded(cfg, s');
    assert Pending(s) * LoadBound(s) >= 0;
  }

  lemma OwnStepLowersBound(cfg: Config, s: State, a: Action)
    requires Inv(cfg, s) && Own(a) && Enabled(cfg, s, a)
    ensures var s' := Apply(cfg, s, a); Inv(cfg, s') && StepBound(cfg, s') < StepBound(cfg, s)
  {
    var s' := Apply(cfg, s, a);
    InvStep(cfg, s, a);
    if s.sh.closed {
      OwnStepDecreases(cfg, s, a);
    } else if a.DestroyStep? {
      ClosingDrop(cfg, s, a.c);
    } else {
      OpenStepProgress(cfg, s, a);
      OpenDrop(cfg, s, s');
    }
  }

  lemma StepBoundNonNegative(cfg: Config, s: State)
    requires Inv(cfg, s)
    ensures StepBound(cfg, s) >= 0
  {
    if s.sh.closed {
      MeasureNonNegative(cfg, s);
    } else {
      assert Pending(s) * LoadBound(s) >= 0;
    }
  }

  lemma {:induction false} OwnRunsAreBounded(cfg: Config, s: State, acts: seq<Action>, s': State)
    requires Inv(cfg, s) && AllOwn(acts) && Run(cfg, s, acts, s')
    ensures Inv(cfg, s') && |acts| + StepBound(cfg, s') <= StepBound(cfg, s)
    decreases |acts|
  {
    hide Inv, Enabled, Apply, StepBound;
    if acts != [] {
      OwnStepLowersBound(cfg, s, acts[0]);
      assert AllOwn(acts[1..]);
      OwnRunsAreBounded(cfg, Apply(cfg, s, acts[0]), acts[1..], s');
    }
  }

  /** An open pool with nothing to do. */
  ghost predicate AtRest(s: State) {
    && !s.sh.closed && s.sh.queue == []
    && (forall t :: 0 <= t < |s.workers| ==> s.workers[t].WAsleep?)
    && (forall c :: 0 <= c < |s.callers| ==> s.callers[c].Idle?)
  }

  /** Sparse broadcasts and one signal strand nobody: from every reachable state the
      threads take a bounded number of steps of their own. When none is left, the pool
      has been freed, or it is open and every call has returned, every item has been
      taken and finished, and all workers wait for more. */
  lemma ThreadsComeToRest(cfg: Config, s: State, acts: seq<Action>, s': State)
    requires Reachable(cfg, s) && cfg.numThreads >= 1 && cfg.maxQueueSize >= 1
    requires AllOwn(acts) && Run(cfg, s, acts, s')
    ensures s.sh.closed ==> s.closer < |s.callers|
    ensures |acts| <= StepBound(cfg, s)
    ensures !CanStep(cfg, s') <==> Freed(s') || AtRest(s')
  {
    ReachableInv(cfg, s);
    OwnRunsAreBounded(cfg, s, acts, s');
    StepBoundNonNegative(cfg, s');
    if !CanStep(cfg, s') && !Freed(s') {
      StuckIsAtRest(cfg, s');
    } else if Freed(s') || AtRest(s') {
      RestIsStuck(cfg, s');
    }
  }

  lemma StuckIsAtRest(cfg: Config, s: State)
    requires Inv(cfg, s) && cfg.numThreads >= 1 && cfg.maxQueueSize >= 1 && !CanStep(cfg, s) && !Freed(s)
    ensures AtRest(s)
  {
    if s.sh.closed {
      CloserCanStep(cfg, s, s.closer + 1);
    } else if s.sh.queue != [] {
      BusyCanStep(cfg, s, 0);
    }
    forall t | 0 <= t < |s.workers|
      ensures s.workers[t].WAsleep?
    {
      if s.workers[t].WAtLock? || s.workers[t].WRunning? {
        WorkerCanStep(cfg, s, t, 0);
      }
    }
    forall c | 0 <= c < |s.callers|
      ensures s.callers[c].Idle?
    {
      assert !Enabled(cfg, s, AddStep(c)) && !Enabled(cfg, s, DestroyStep(c));
    }
  }

  lemma RestIsStuck(cfg: Config, s: State)
    requires Freed(s) || AtRest(s)
    ensures !CanStep(cfg, s)
  {
  }

  /** At rest every accepted item has been executed exactly once, without any call of
      tpool_destroy. */
  lemma RestFinishesEverything(cfg: Config, n: nat, acts: seq<Action>, s: State)
    requires Run(cfg, Init(cfg, n), acts, s) && AtRest(s)
    ensures Started(cfg, Init(cfg, n), acts, s) == Accepted(cfg, Init(cfg, n), acts, s)
    ensures multiset(Finished(cfg, Init(cfg, n), acts, s)) == multiset(Accepted(cfg, Init(cfg, n), acts, s))
  {
    NothingLeft(cfg, n, acts, s);
  }

  /** A schedule that goes on until no step is left exists from every state. */
  lemma {:induction false} RestSchedule(cfg: Config, s: State) returns (acts: seq<Action>, s': State)
    requires Inv(cfg, s)
    ensures AllOwn(acts) && Run(cfg, s, acts, s') && !CanStep(cfg, s')
    decreases StepBound(cfg, s)
  {
    hide Inv, Enabled, Apply, StepBound;
    if a :| Own(a) && Enabled(cfg, s, a) {
      OwnStepLowersBound(cfg, s, a);
      StepBoundNonNegative(cfg, s);
      StepBoundNonNegative(cfg, Apply(cfg, s, a));
      var rest;
      rest, s' := RestSchedule(cfg, Apply(cfg, s, a));
      acts := [a] + rest;
      assert acts[1..] == rest;
    } else {
      acts, s' := [], s;
    }
  }

  /** Such a schedule exists from every closed state. */
  lemma DrainSchedule(cfg: Config, s: State) returns (acts: seq<Action>, s': State)
    requires Inv(cfg, s) && s.sh.closed && cfg.numThreads >= 1 && cfg.maxQueueSize >= 1
    ensures AllOwn(acts) && Run(cfg, s, acts, s') && !CanStep(cfg, s') && Freed(s')
  {
    acts, s' := RestSchedule(cfg, s);
    DrainIsFinite(cfg, s, acts, s');
    RunKeepsInv(cfg, s, acts, s');
    if !Freed(s') {
      CloserCanStep(cfg, s', s'.closer + 1);
    }
  }
}
