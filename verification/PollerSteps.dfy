/**
 What single steps do to the lock, the server and the stamps, in terms of the fields alone: a
 release frees the key, every exit renews it, a request confirms, and only real polls stamp.
 */
module PollerSteps {
  import opened Options
  import opened PollerProtocol
  import opened PollerUpdates

  // ---------------------------------------------------------------- the lock

  predicate Releases(step: Step, t: Tid) {
    step == Conflict(t) || step == Release(t)
  }

  /** A conflict, before its pause, and the end of a poller delete the key exactly when it is theirs, and
      drop the local flag in any case. */
  lemma ReleaseFreesTheLock(c: Config, s: State, step: Step, t: Tid)
    requires Enabled(c, s, step) && Releases(step, t)
    ensures t in s.tasks && t in Apply(c, s, step).tasks && !Apply(c, s, step).tasks[t].acquired
    ensures Apply(c, s, step).key ==
      if s.tasks[t].acquired && s.key.Some? && s.key.value.owner == t && s.now < s.key.value.expires then None else s.key
  {
  }

  /** So that any other poller about to poll can take the lock at once, while the first one still pauses. */
  lemma AnotherMayAcquire(c: Config, s: State, step: Step, t: Tid, u: Tid)
    requires Enabled(c, s, step) && Releases(step, t) && s.tasks[t].acquired && Owns(s, t)
    requires u in s.tasks && u != t && s.tasks[u].phase.Top? && !s.tasks[u].acquired
    ensures Enabled(c, Apply(c, s, step), Acquire(u))
    ensures Owns(Apply(c, Apply(c, s, step), Acquire(u)), u)
    ensures Apply(c, Apply(c, s, step), Acquire(u)).key.value.expires == s.now + 35.0
  {
  }

  /** The key changes hands only so: taken when free, extended by its owner, deleted by its owner. */
  lemma KeyChanges(c: Config, s: State, step: Step)
    requires Enabled(c, s, step) && Apply(c, s, step).key != s.key
    ensures
      var after := Apply(c, s, step).key;
      || (step.Acquire? && (s.key.None? || s.key.value.expires <= s.now) && after == Some(Hold(step.t, s.now + 35.0)))
      || ((step.Wake? || step.Stop?) && Owns(s, step.t) && after == Some(Hold(step.t, s.now + 35.0)))
      || ((step.Conflict? || step.Release?) && Owns(s, step.t) && after.None?)
  {
  }

  /** Leaving an iteration, by any exit, renews the lock it holds: after the pause, or when stopped. */
  lemma EveryExitRenews(c: Config, s: State, step: Step, t: Tid)
    requires Enabled(c, s, step) && (step == Wake(t) || (step == Stop(t) && !s.tasks[t].phase.Booting?))
    requires s.tasks[t].acquired && Owns(s, t)
    ensures Apply(c, s, step).key == Some(Hold(t, s.now + 35.0))
  {
  }

  // ---------------------------------------------------------------- pauses

  /** How long the poller pauses after each outcome of an iteration, in seconds. */
  lemma PauseAfter(c: Config, s: State, step: Step, t: Tid)
    requires Enabled(c, s, step)
    requires step == Defer(t) || step == TimeOut(t) || step == Fail(t) || step == Conflict(t)
    ensures t in s.tasks && t in Apply(c, s, step).tasks
    ensures
      var phase := Apply(c, s, step).tasks[t].phase;
      && phase.Pausing? && phase.from == s.now
      && phase.until - s.now == (match step
        case Conflict(_) => Apply(c, s, step).tasks[t].backoff as real
        case Fail(_) => 1.0
        case _ => 5.0)
  {
  }

  lemma PauseAfterAnswer(c: Config, s: State, t: Tid)
    requires Enabled(c, s, Receive(t))
    ensures
      var phase := Apply(c, s, Receive(t)).tasks[t].phase;
      phase == Pausing(s.now, s.now + (if s.tasks[t].phase.reply == Some([]) then 0.1 else 0.0))
  {
  }

  /** The k-th conflict in a row pauses for `BackoffAfter(k)` seconds; an answer starts the count again, and
      nothing else touches it. */
  lemma ConflictPause(c: Config, s: State, step: Step, t: Tid, k: nat)
    requires Enabled(c, s, step) && t in s.tasks && s.tasks[t].backoff == BackoffAfter(k)
    ensures t in Apply(c, s, step).tasks
    ensures Apply(c, s, step).tasks[t].backoff ==
      if step == Conflict(t) then BackoffAfter(k + 1) else if step == Receive(t) then BackoffAfter(0) else BackoffAfter(k)
  {
  }

  // ---------------------------------------------------------------- the server

  /** A request that carries an offset confirms everything below it, one without confirms nothing, and no
      other step confirms anything. */
  lemma OnlyRequestsConfirm(c: Config, s: State, step: Step)
    requires Enabled(c, s, step)
    ensures Apply(c, s, step).confirmed ==
      if step.Send? && s.tasks[step.t].offset.Some? && s.tasks[step.t].offset.value > s.confirmed
      then s.tasks[step.t].offset.value else s.confirmed
  {
  }

  /** An answer schedules each of its updates, moves the offset past the last one, and logs them in order; no
      other step schedules anything. */
  lemma OnlyAnswersSchedule(c: Config, s: State, step: Step)
    requires Enabled(c, s, step)
    ensures !step.Receive? ==> Apply(c, s, step).scheduled == s.scheduled
    ensures step.Receive? ==>
      var task, next, ids := s.tasks[step.t], Apply(c, s, step).tasks[step.t], s.tasks[step.t].phase.reply.value;
      && (forall id :: id in Apply(c, s, step).scheduled <==> id in s.scheduled || id in ids)
      && next.log == task.log + ids
      && next.offset == if ids == [] then task.offset else Some(ids[|ids| - 1] + 1)
  {
  }

  // ---------------------------------------------------------------- stamps and checks

  /** Only an answer stamps the heartbeat and only a lock held elsewhere the deferral, each with the time and
      for the poller's own process. */
  lemma OnlyPollsStamp(c: Config, s: State, step: Step, p: Pid)
    requires Enabled(c, s, step) && p in s.procs
    ensures p in Apply(c, s, step).procs
    ensures Apply(c, s, step).procs[p].heartbeat ==
      if step.Receive? && s.tasks[step.t].proc == p then s.now else s.procs[p].heartbeat
    ensures Apply(c, s, step).procs[p].deferred ==
      if step.Defer? && s.tasks[step.t].proc == p then s.now else s.procs[p].deferred
  {
  }

  /** Deaf, in numbers: polling is expected, and the newest of the stamps, or the boot time where there is
      none, lies the limit or longer back; a process that has recorded nothing is never deaf. */
  predicate Deaf(c: Config, p: Proc, now: real) {
    && c.pollingExpected
    && if p.heartbeat > 0.0 || p.deferred > 0.0
       then Late(c, p.heartbeat, now) && Late(c, p.deferred, now)
       else p.bootedAt > 0.0 && Late(c, p.bootedAt, now)
  }

  predicate Late(c: Config, from: real, now: real) {
    now - from >= c.staleSeconds || c.staleSeconds <= 0.0
  }

  /** A check starts a poller exactly when the process is deaf and has none, and otherwise changes nothing
      but the time of the last check. */
  lemma CheckRestartsTheDeaf(c: Config, s: State, p: Pid, t: Tid)
    requires Enabled(c, s, Check(p, t))
    requires s.procs[p].heartbeat >= 0.0 && s.procs[p].deferred >= 0.0 && s.procs[p].bootedAt >= 0.0
    ensures
      var restarts := Deaf(c, s.procs[p], s.now) && !s.procs[p].started;
      var after := Apply(c, s, Check(p, t));
      && (t in after.tasks <==> restarts)
      && (restarts ==> after.tasks[t].proc == p && after.tasks[t].phase == Booting && after.tasks[t].offset.None?)
      && after.procs == s.procs[p := s.procs[p].(lastCheck := s.now, started := s.procs[p].started || restarts)]
      && (!restarts ==> after.tasks == s.tasks) && after.key == s.key
  {
  }

  /** Anybody's start does nothing while the flag is up. */
  lemma StartIsIdempotent(c: Config, s: State, p: Pid, t: Tid)
    requires Enabled(c, s, Start(p, t))
    ensures s.procs[p].started ==> Apply(c, s, Start(p, t)) == s
    ensures !s.procs[p].started ==>
      t in Apply(c, s, Start(p, t)).tasks && Apply(c, s, Start(p, t)).procs[p].started
  {
  }
}
