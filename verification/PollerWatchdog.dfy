/**
 One poller per process: the started flag is up exactly while one poller task lives, and a
 watched process never stays deaf longer than one watchdog interval past its staleness.
 */
module PollerWatchdog {
  import opened Options
  import opened PollerProtocol
  import opened PollerExclusion

  predicate LiveIn(s: State, p: Pid, t: Tid) {
    t in s.tasks && s.tasks[t].proc == p && Live(s.tasks[t].phase)
  }

  ghost predicate RaisedWhileLive(s: State) {
    forall t :: t in s.tasks && Live(s.tasks[t].phase) ==> s.tasks[t].proc in s.procs && s.procs[s.tasks[t].proc].started
  }

  ghost predicate OnePerProcess(s: State) {
    forall t, u, p :: LiveIn(s, p, t) && LiveIn(s, p, u) ==> t == u
  }

  ghost predicate BackedByTask(s: State) {
    forall p :: p in s.procs && s.procs[p].started ==> exists t :: LiveIn(s, p, t)
  }

  ghost predicate FlagInv(s: State) {
    RaisedWhileLive(s) && OnePerProcess(s) && BackedByTask(s)
  }

  /** A live task after a step was live before it, or is the one the step created under a lowered flag. */
  lemma WhoIsLive(c: Config, s: State, step: Step, p: Pid, t: Tid)
    requires Enabled(c, s, step) && LiveIn(Apply(c, s, step), p, t)
    ensures LiveIn(s, p, t) || (t !in s.tasks && p in s.procs && !s.procs[p].started && Creates(step, p, t))
  {
  }

  predicate Creates(step: Step, p: Pid, t: Tid) {
    step == Start(p, t) || step == Check(p, t)
  }

  lemma OnePerProcessStep(c: Config, s: State, step: Step)
    requires FlagInv(s) && Enabled(c, s, step)
    ensures OnePerProcess(Apply(c, s, step))
  {
    var s' := Apply(c, s, step);
    forall t, u, p | LiveIn(s', p, t) && LiveIn(s', p, u) ensures t == u {
      WhoIsLive(c, s, step, p, t);
      WhoIsLive(c, s, step, p, u);
    }
  }

  lemma RaisedStep(c: Config, s: State, step: Step)
    requires FlagInv(s) && Enabled(c, s, step)
    ensures RaisedWhileLive(Apply(c, s, step))
  {
    var s' := Apply(c, s, step);
    assert step.Stop? ==> LiveIn(s, s.tasks[step.t].proc, step.t);
    forall t | t in s'.tasks && Live(s'.tasks[t].phase)
      ensures s'.tasks[t].proc in s'.procs && s'.procs[s'.tasks[t].proc].started
    {
      var p := s'.tasks[t].proc;
      WhoIsLive(c, s, step, p, t);
    }
  }

  lemma BackedStep(c: Config, s: State, step: Step)
    requires FlagInv(s) && Enabled(c, s, step)
    ensures BackedByTask(Apply(c, s, step))
  {
    var s' := Apply(c, s, step);
    forall p | p in s'.procs && s'.procs[p].started ensures exists t :: LiveIn(s', p, t) {
      if s.procs[p].started {
        var t :| LiveIn(s, p, t);
        StillLive(c, s, step, p, t);
      } else {
        RaisedByStep(c, s, step, p);
      }
    }
  }

  lemma StillLive(c: Config, s: State, step: Step, p: Pid, t: Tid)
    requires Enabled(c, s, step) && LiveIn(s, p, t)
    requires p in Apply(c, s, step).procs && Apply(c, s, step).procs[p].started
    ensures LiveIn(Apply(c, s, step), p, t)
  {
  }

  lemma RaisedByStep(c: Config, s: State, step: Step, p: Pid)
    requires Enabled(c, s, step) && p in s.procs && !s.procs[p].started
    requires p in Apply(c, s, step).procs && Apply(c, s, step).procs[p].started
    ensures (step.Start? || step.Check?) && LiveIn(Apply(c, s, step), p, step.t)
  {
  }

  lemma FlagInvStep(c: Config, s: State, step: Step)
    requires FlagInv(s) && Enabled(c, s, step)
    ensures FlagInv(Apply(c, s, step))
  {
    OnePerProcessStep(c, s, step);
    RaisedStep(c, s, step);
    BackedStep(c, s, step);
  }

  lemma {:induction false} FlagInvAlways(c: Config, s: State, steps: seq<Step>)
    requires FlagInv(s) && Legal(c, s, steps)
    ensures FlagInv(Final(c, s, steps))
    decreases |steps|
  {
    if steps != [] {
      FlagInvStep(c, s, steps[0]);
      FlagInvAlways(c, Apply(c, s, steps[0]), steps[1..]);
    }
  }

  /** Whatever the interleaving of starts, exits and watchdog ticks: the flag is up exactly when one
      poller of the process has not dropped it yet, and there are never two. */
  lemma FlagMeansOneLivePoller(c: Config, s: State, p: Pid)
    requires Reachable(c, s) && p in s.procs
    ensures s.procs[p].started <==> exists t :: LiveIn(s, p, t)
    ensures forall t, u :: LiveIn(s, p, t) && LiveIn(s, p, u) ==> t == u
  {
    var start, steps :| Leads(c, start, steps, s);
    FlagInvAlways(c, start, steps);
  }

  // ---------------------------------------------------------------- bounded deafness

  /** A process that was down at its last check was not stale then. */
  predicate DownInv(c: Config, s: State, p: Proc) {
    && p.lastCheck <= s.now && p.downSince <= s.now
    && (p.watched ==> s.now <= p.lastCheck + c.interval + c.lag)
    && (p.watched && !p.started && c.pollingExpected && p.lastCheck > p.downSince && IdleFrom(p).Some? ==>
      p.lastCheck - IdleFrom(p).value < c.staleSeconds)
  }

  ghost predicate WatchInv(c: Config, s: State) {
    FlagInv(s) && forall p :: p in s.procs ==> DownInv(c, s, s.procs[p])
  }

  lemma WatchInvStep(c: Config, s: State, step: Step)
    requires c.interval + c.lag >= 0.0 && WatchInv(c, s) && Enabled(c, s, step)
    ensures WatchInv(c, Apply(c, s, step))
  {
    FlagInvStep(c, s, step);
  }

  lemma {:induction false} WatchInvAlways(c: Config, s: State, steps: seq<Step>)
    requires c.interval + c.lag >= 0.0 && WatchInv(c, s) && Legal(c, s, steps)
    ensures WatchInv(c, Final(c, s, steps))
    decreases |steps|
  {
    if steps != [] {
      WatchInvStep(c, s, steps[0]);
      WatchInvAlways(c, Apply(c, s, steps[0]), steps[1..]);
    }
  }

  function Min(a: real, b: real): real { if a <= b then a else b }

  /** A watched process whose poller is gone is restarted within one interval, and the lag of a check, of the later of two moments:
      its idle clock reaching the stale limit, and the last check that still found the poller up. */
  lemma DeafnessIsBounded(c: Config, s: State, p: Pid)
    requires c.interval + c.lag >= 0.0 && c.pollingExpected && Reachable(c, s)
    requires p in s.procs && s.procs[p].watched && !s.procs[p].started && IdleFrom(s.procs[p]).Some?
    ensures var proc := s.procs[p];
      s.now <= Max(IdleFrom(proc).value + c.staleSeconds, Min(proc.lastCheck, proc.downSince)) + c.interval + c.lag
  {
    var start, steps :| Leads(c, start, steps, s);
    WatchInvAlways(c, start, steps);
    assert DownInv(c, s, s.procs[p]);
  }

  /** When the stamp alone bounds it: as long as the process stays down up to its next check, every moment
      is within stamp + STALE + INTERVAL (and the lag) exactly when its last check came no later than stamp + STALE; and
      a check that came later can only have found the poller still up. */
  lemma StampBoundIff(c: Config, s: State, p: Pid)
    requires c.interval + c.lag >= 0.0 && c.pollingExpected && Reachable(c, s)
    requires p in s.procs && s.procs[p].watched && !s.procs[p].started && IdleFrom(s.procs[p]).Some?
    requires MayPass(c, s, s.procs[p].lastCheck + c.interval + c.lag - s.now)
    ensures var proc := s.procs[p]; var stale := IdleFrom(proc).value + c.staleSeconds;
      && ((forall d :: Enabled(c, s, Tick(d)) ==> Apply(c, s, Tick(d)).now <= stale + c.interval + c.lag) <==> proc.lastCheck <= stale)
      && (proc.lastCheck > stale ==> proc.lastCheck <= proc.downSince)
  {
    var start, steps :| Leads(c, start, steps, s);
    WatchInvAlways(c, start, steps);
    assert DownInv(c, s, s.procs[p]);
    var d := s.procs[p].lastCheck + c.interval + c.lag - s.now;
    assert Enabled(c, s, Tick(d)) && Apply(c, s, Tick(d)).now == s.procs[p].lastCheck + c.interval + c.lag;
  }

  // ---------------------------------------------------------------- a stamp that goes stale while the poller lives

  /** One process, watched since time one, and one update that nobody has seen. */
  function OneProcess(): State {
    State(1.0, None, [7], 0, {}, map[0 := Proc(false, 0.0, 0.0, 1.0, 1.0, true, 1.0)], map[])
  }

  /** Its poller was stamped at time one and has failed ever since: it pauses a second after each failure. */
  predicate Failing(s: State) {
    && s.tasks.Keys == {0} && s.tasks[0].proc == 0 && s.tasks[0].acquired
    && s.tasks[0].phase.Pausing? && s.now <= s.tasks[0].phase.until <= s.now + 1.0
    && s.procs.Keys == {0} && s.procs[0].started && s.procs[0].watched
    && s.procs[0].heartbeat == 1.0 && s.procs[0].deferred == 0.0
  }

  lemma FailOnce(c: Config, s: State) returns (s': State)
    requires Plausible(c) && Reachable(c, s) && Failing(s) && s.tasks[0].phase.until == s.now
    ensures Reachable(c, s') && Failing(s') && s'.now == s.now && s'.procs == s.procs
    ensures s'.tasks[0].phase.until == s.now + 1.0
  {
    s' := Take(c, s, Wake(0));
    s' := Take(c, s', Send(0));
    s' := Take(c, s', Fail(0));
  }

  /** Started, given the lock, and answered once. */
  lemma StampedThenFailing(c: Config) returns (s: State)
    requires Plausible(c)
    ensures Reachable(c, s) && Failing(s) && s.now == 1.0 && s.procs[0].lastCheck == 1.0
  {
    s := Answered(c);
    s := Take(c, s, Receive(0));
    s := FailOnce(c, s);
  }

  lemma Answered(c: Config) returns (s: State)
    requires Plausible(c)
    ensures Reachable(c, s) && s.now == 1.0 && s.procs == OneProcess().procs[0 := OneProcess().procs[0].(started := true)]
    ensures s.tasks.Keys == {0} && s.tasks[0].proc == 0 && s.tasks[0].acquired
    ensures s.tasks[0].phase == InFlight(1.0, None, Some([7]))
  {
    s := OneProcess();
    assert Leads(c, s, [], s);
    s := Take(c, s, Start(0, 0));
    s := Take(c, s, Ready(0));
    s := Take(c, s, Acquire(0));
    s := Take(c, s, Send(0));
    assert Pending([7], 0) == [7] by { assert [7][1..] == []; }
    assert [7][..1] == [7];
    s := Take(c, s, Reply(0, 1));
  }

  /** Failing on until the next check is due; `n` is at least the seconds left. */
  lemma {:induction false} FailUntilDue(c: Config, s: State, n: nat) returns (s': State)
    requires Plausible(c) && c.interval > 0.0 && Reachable(c, s) && Failing(s)
    requires s.now <= s.procs[0].lastCheck + c.interval <= s.tasks[0].phase.until + n as real
    ensures Reachable(c, s') && Failing(s') && s'.procs == s.procs && s'.now == s.procs[0].lastCheck + c.interval
    decreases n
  {
    var due := s.procs[0].lastCheck + c.interval;
    if due <= s.tasks[0].phase.until {
      s' := Take(c, s, Tick(due - s.now));
    } else {
      s' := Take(c, s, Tick(s.tasks[0].phase.until - s.now));
      s' := FailOnce(c, s');
      s' := FailUntilDue(c, s', n - 1);
    }
  }

  /** The poller is still up at its n-th check, so nothing restarts it. */
  lemma {:induction false} FailingAtCheck(c: Config, n: nat) returns (s: State)
    requires Plausible(c) && c.interval > 0.0
    ensures Reachable(c, s) && Failing(s) && s.now == s.procs[0].lastCheck == 1.0 + n as real * c.interval
  {
    if n == 0 {
      s := StampedThenFailing(c);
    } else {
      s := FailingAtCheck(c, n - 1);
      s := FailUntilDue(c, s, c.interval.Floor + 1);
      assert (n - 1) as real * c.interval + c.interval == n as real * c.interval;
      s := Take(c, s, Check(0, 1));
    }
  }

  /** Whatever the settings of a watchdog, the stamp alone does not bound it: a poller that is stamped, then
      fails past the limit, and dies after a check that still found it up, is restarted later than
      stamp + STALE + INTERVAL. */
  lemma StampAloneNeverBounds(c: Config) returns (s: State)
    requires Plausible(c) && c.interval > 0.0 && c.staleSeconds >= 0.0
    ensures Reachable(c, s) && 0 in s.procs && s.procs[0].watched && !s.procs[0].started
    ensures s.procs[0].heartbeat == 1.0 && IdleFrom(s.procs[0]) == Some(1.0)
    ensures s.now > 1.0 + c.staleSeconds + c.interval + c.lag
  {
    var n := (c.staleSeconds / c.interval).Floor + 1;
    assert n as real > c.staleSeconds / c.interval;
    assert n as real * c.interval > c.staleSeconds;
    s := FailingAtCheck(c, n);
    s := Take(c, s, Stop(0));
    s := Take(c, s, Tick(c.interval + c.lag));
  }
}
