/**
 One getUpdates at a time: with the lock's TTL longer than the longest iteration, no run of
 any number of pollers ever has two requests in flight; with a TTL that is not, some run has.
 */
module PollerExclusion {
  import opened Options
  import opened PollerProtocol

  /** The deployment's timing makes sense at all. */
  predicate Plausible(c: Config) {
    c.lag >= 0.0 && c.pollMax >= 0.0
  }

  /** The longest stretch between two renewals: up to the request, the request, the sleep after a
      timeout, and up to the renewal. */
  function LongestIteration(c: Config): real {
    c.lag + c.pollMax + TIMEOUT_SLEEP + c.lag
  }

  /** What exclusion needs: Redis always answers, and the longest iteration is within the TTL. */
  predicate LockIsEnough(c: Config) {
    !c.redisMayFail && LongestIteration(c) < LOCK_TTL
  }

  /** How long ago the lock may have been extended, phase by phase. */
  predicate RenewedInTime(c: Config, task: Task) {
    match task.phase
    case Top(since) => since == task.setAt
    case InFlight(since, _, _) => since <= task.setAt + c.lag
    case Pausing(from, until) =>
      until <= from + TIMEOUT_SLEEP && from <= task.setAt + c.lag + c.pollMax
    case _ => true
  }

  predicate TaskInv(c: Config, s: State, t: Tid, task: Task) {
    && InTime(c, task.phase, s.now)
    && (task.phase.Booting? ==> !task.acquired)
    && (task.phase.InFlight? ==> task.acquired)
    && (InLoop(task.phase) && task.acquired ==>
      s.key == Some(Hold(t, task.setAt + LOCK_TTL)) && RenewedInTime(c, task))
  }

  ghost predicate LockInv(c: Config, s: State) {
    forall t :: t in s.tasks ==> TaskInv(c, s, t, s.tasks[t])
  }

  /** A poller's flag is never wrong while its iterations fit. */
  lemma AcquiredMeansOwned(c: Config, s: State, t: Tid)
    requires Plausible(c) && LockIsEnough(c) && LockInv(c, s)
    requires t in s.tasks && InLoop(s.tasks[t].phase) && s.tasks[t].acquired
    ensures Owns(s, t)
  {
    assert TaskInv(c, s, t, s.tasks[t]);
  }

  lemma LockInvStep(c: Config, s: State, step: Step)
    requires Plausible(c) && LockIsEnough(c)
    requires LockInv(c, s) && Enabled(c, s, step)
    ensures LockInv(c, Apply(c, s, step))
  {
    var s' := Apply(c, s, step);
    forall u | u in s'.tasks ensures TaskInv(c, s', u, s'.tasks[u]) {
      if u in s.tasks {
        assert TaskInv(c, s, u, s.tasks[u]);
        if InLoop(s.tasks[u].phase) && s.tasks[u].acquired {
          AcquiredMeansOwned(c, s, u);
        }
        TaskInvStep(c, s, step, u);
      }
    }
  }

  /** What a step may rely on about one task, and what it must keep about it. */
  predicate Carries(c: Config, s: State, step: Step, u: Tid) {
    && Plausible(c) && LockIsEnough(c) && Enabled(c, s, step)
    && Carried(c, s, u)
    && (InLoop(s.tasks[u].phase) && s.tasks[u].acquired ==> Owns(s, u) && !(step.Conflict? && step.t != u))
  }

  predicate Carried(c: Config, s: State, u: Tid) {
    u in s.tasks && TaskInv(c, s, u, s.tasks[u])
  }

  lemma TaskInvStep(c: Config, s: State, step: Step, u: Tid)
    requires Carries(c, s, step, u)
    ensures Carried(c, Apply(c, s, step), u)
  {
    match step
    case Arrive(_) => OutsideStep(c, s, step, u);
    case Tick(_) => OutsideStep(c, s, step, u);
    case Start(_, _) => CreatingStep(c, s, step, u);
    case Check(_, _) => CreatingStep(c, s, step, u);
    case Acquire(_) => AcquiringStep(c, s, step, u);
    case Degrade(_) => AcquiringStep(c, s, step, u);
    case Wake(_) => RenewingStep(c, s, step, u);
    case Stop(_) => RenewingStep(c, s, step, u);
    case Conflict(_) => ReleasingStep(c, s, step, u);
    case Release(_) => ReleasingStep(c, s, step, u);
    case Send(_) => PollingStep(c, s, step, u);
    case Reply(_, _) => PollingStep(c, s, step, u);
    case Receive(_) => PollingStep(c, s, step, u);
    case _ => PausingStep(c, s, step, u);
  }

  lemma OutsideStep(c: Config, s: State, step: Step, u: Tid)
    requires Carries(c, s, step, u) && (step.Arrive? || step.Tick?)
    ensures Carried(c, Apply(c, s, step), u)
  {
  }

  lemma CreatingStep(c: Config, s: State, step: Step, u: Tid)
    requires Carries(c, s, step, u) && (step.Start? || step.Check?)
    ensures Carried(c, Apply(c, s, step), u)
  {
  }

  lemma AcquiringStep(c: Config, s: State, step: Step, u: Tid)
    requires Carries(c, s, step, u) && (step.Acquire? || step.Degrade?)
    ensures Carried(c, Apply(c, s, step), u)
  {
  }

  lemma RenewingStep(c: Config, s: State, step: Step, u: Tid)
    requires Carries(c, s, step, u) && (step.Wake? || step.Stop?)
    ensures Carried(c, Apply(c, s, step), u)
  {
  }

  lemma ReleasingStep(c: Config, s: State, step: Step, u: Tid)
    requires Carries(c, s, step, u) && (step.Conflict? || step.Release?)
    ensures Carried(c, Apply(c, s, step), u)
  {
  }

  lemma PollingStep(c: Config, s: State, step: Step, u: Tid)
    requires Carries(c, s, step, u) && (step.Send? || step.Reply? || step.Receive?)
    ensures Carried(c, Apply(c, s, step), u)
  {
  }

  lemma PausingStep(c: Config, s: State, step: Step, u: Tid)
    requires Carries(c, s, step, u) && (step.Ready? || step.Defer? || step.TimeOut? || step.Fail?)
    ensures Carried(c, Apply(c, s, step), u)
  {
  }

  lemma {:induction false} LockInvAlways(c: Config, s: State, steps: seq<Step>)
    requires Plausible(c) && LockIsEnough(c)
    requires LockInv(c, s) && Legal(c, s, steps)
    ensures LockInv(c, Final(c, s, steps))
    decreases |steps|
  {
    if steps != [] {
      LockInvStep(c, s, steps[0]);
      LockInvAlways(c, Apply(c, s, steps[0]), steps[1..]);
    }
  }

  /** At most one getUpdates in flight, over all processes. */
  ghost predicate AtMostOneInFlight(s: State) {
    forall t, u :: t in s.tasks && u in s.tasks && s.tasks[t].phase.InFlight? && s.tasks[u].phase.InFlight? ==> t == u
  }

  predicate SleepsLong(ph: Phase) {
    ph.Pausing? && ph.until > ph.from + TIMEOUT_SLEEP
  }

  /** Safety over every run: one request at a time; a poller in its loop whose flag says it holds the
      lock owns the unexpired key; and one that sleeps longer than a timed-out poll does - a
      repeated conflict's backoff - has let go of it first. */
  lemma PollingIsExclusive(c: Config, s: State)
    requires Plausible(c) && LockIsEnough(c) && Reachable(c, s)
    ensures AtMostOneInFlight(s)
    ensures forall t :: t in s.tasks && InLoop(s.tasks[t].phase) && s.tasks[t].acquired ==> Owns(s, t)
    ensures forall t :: t in s.tasks && SleepsLong(s.tasks[t].phase) ==> !s.tasks[t].acquired
  {
    var start, steps :| Leads(c, start, steps, s);
    LockInvAlways(c, start, steps);
    forall t, u | t in s.tasks && u in s.tasks && s.tasks[t].phase.InFlight? && s.tasks[u].phase.InFlight?
      ensures t == u
    {
      assert TaskInv(c, s, t, s.tasks[t]) && TaskInv(c, s, u, s.tasks[u]);
    }
    forall t | t in s.tasks && InLoop(s.tasks[t].phase) && s.tasks[t].acquired ensures Owns(s, t) {
      AcquiredMeansOwned(c, s, t);
    }
    forall t | t in s.tasks && SleepsLong(s.tasks[t].phase) ensures !s.tasks[t].acquired {
      assert TaskInv(c, s, t, s.tasks[t]);
    }
  }

  // ---------------------------------------------------------------- the bound is exact

  /** Two idle processes without a watchdog. */
  function TwoProcesses(): State {
    var p := Proc(false, 0.0, 0.0, 0.0, 0.0, false, 0.0);
    State(0.0, None, [], 0, {}, map[0 := p, 1 := p], map[])
  }

  lemma ReachableStart(c: Config)
    ensures Reachable(c, TwoProcesses())
  {
    assert Leads(c, TwoProcesses(), [], TwoProcesses());
  }

  /** Only the first process has a poller, and it holds the lock since time zero. */
  predicate FirstPollerAlone(s: State) {
    && s.key == Some(Hold(0, LOCK_TTL))
    && s.procs == TwoProcesses().procs[0 := TwoProcesses().procs[0].(started := true)]
    && s.tasks.Keys == {0} && s.tasks[0].proc == 0 && s.tasks[0].acquired
  }

  lemma FirstPollerAcquires(c: Config) returns (s: State)
    requires Plausible(c)
    ensures Reachable(c, s) && FirstPollerAlone(s) && s.now == 0.0 && s.tasks[0].phase == Top(0.0)
  {
    ReachableStart(c);
    s := TwoProcesses();
    s := Take(c, s, Start(0, 0));
    s := Take(c, s, Ready(0));
    s := Take(c, s, Acquire(0));
  }

  lemma FirstPollerPolls(c: Config) returns (s: State)
    requires Plausible(c)
    ensures Reachable(c, s) && FirstPollerAlone(s) && s.now == c.lag
    ensures s.tasks[0].phase.InFlight? && s.tasks[0].phase.since == c.lag
  {
    s := FirstPollerAcquires(c);
    s := Take(c, s, Tick(c.lag));
    s := Take(c, s, Send(0));
  }

  /** Its first iteration, up to the moment the lock runs out while it sleeps off a timeout. */
  lemma FirstPollerOversleeps(c: Config) returns (s: State)
    requires Plausible(c) && LongestIteration(c) >= LOCK_TTL
    ensures Reachable(c, s) && FirstPollerAlone(s) && s.now == LongestIteration(c)
    ensures s.tasks[0].phase.Pausing? && s.tasks[0].phase.until == s.now - c.lag
  {
    s := FirstPollerPolls(c);
    s := Take(c, s, Tick(c.pollMax));
    s := Take(c, s, TimeOut(0));
    s := Take(c, s, Tick(TIMEOUT_SLEEP + c.lag));
  }

  lemma Take(c: Config, s: State, step: Step) returns (s': State)
    requires Reachable(c, s) && Enabled(c, s, step)
    ensures Reachable(c, s') && s' == Apply(c, s, step)
  {
    ReachableExtends(c, s, step);
    s' := Apply(c, s, step);
  }

  /** A second process takes the expired lock; the first wakes, cannot renew, and polls on its flag. */
  lemma TwoInFlight(c: Config) returns (s: State)
    requires Plausible(c) && LongestIteration(c) >= LOCK_TTL
    ensures Reachable(c, s) && !AtMostOneInFlight(s)
  {
    s := FirstPollerOversleeps(c);
    s := Take(c, s, Start(1, 1));
    s := Take(c, s, Ready(1));
    s := Take(c, s, Acquire(1));
    s := Take(c, s, Send(1));
    s := Take(c, s, Wake(0));
    s := Take(c, s, Send(0));
    assert s.tasks[0].phase.InFlight? && s.tasks[1].phase.InFlight?;
  }

  /** While Redis does not answer, every poller is granted the lock. */
  lemma TwoInFlightWithoutRedis(c: Config) returns (s: State)
    requires c.redisMayFail
    ensures Reachable(c, s) && !AtMostOneInFlight(s)
  {
    ReachableStart(c);
    s := TwoProcesses();
    s := Take(c, s, Start(0, 0));
    s := Take(c, s, Ready(0));
    s := Take(c, s, Degrade(0));
    s := Take(c, s, Send(0));
    s := Take(c, s, Start(1, 1));
    s := Take(c, s, Ready(1));
    s := Take(c, s, Degrade(1));
    s := Take(c, s, Send(1));
    assert s.tasks[0].phase.InFlight? && s.tasks[1].phase.InFlight?;
  }

  /** Exclusion over every run, exactly when the lock is enough. */
  lemma ExclusionIff(c: Config)
    requires Plausible(c)
    ensures (forall s :: Reachable(c, s) ==> AtMostOneInFlight(s)) <==> LockIsEnough(c)
  {
    if LockIsEnough(c) {
      forall s | Reachable(c, s) ensures AtMostOneInFlight(s) {
        PollingIsExclusive(c, s);
      }
    } else if c.redisMayFail {
      var s := TwoInFlightWithoutRedis(c);
    } else {
      var s := TwoInFlight(c);
    }
  }

  /** The constants as shipped do not fit: a 30 s long poll and the 5 s sleep after a timeout already
      use up the 35 s TTL, so a poll that times out can lose the lock without noticing. */
  lemma ShippedTimingIsNotExclusive(c: Config)
    requires c.lag >= 0.0 && c.pollMax >= 30.0
    ensures exists s :: Reachable(c, s) && !AtMostOneInFlight(s)
  {
    var s := TwoInFlight(c);
  }
}
