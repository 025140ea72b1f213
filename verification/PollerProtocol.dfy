/**
 The long-poller of main.py and utils/redis_lock.py as a timed protocol: any number of
 processes, each with a started flag and perhaps a watchdog; their poller tasks; one
 expiring lock; and the server, which forgets every update below an offset it is sent.
 */
module PollerProtocol {
  import opened Options

  type Pid = nat
  type Tid = nat

  const LOCK_TTL := 35.0
  const DEFER_SLEEP := 5.0
  const TIMEOUT_SLEEP := 5.0
  const ERROR_SLEEP := 1.0
  const EMPTY_SLEEP := 0.1

  /** How long one getUpdates may take, how late a due step may run, the watchdog's settings, and
      whether Redis may be unreachable when a lock is asked for. */
  datatype Config = Config(pollMax: real, lag: real, staleSeconds: real, interval: real, pollingExpected: bool,
                           redisMayFail: bool)

  /** Where a poller task stands. Every iteration ends in a pause, after which it renews the lock. */
  datatype Phase =
    | Booting
    | Top(since: real)
    | InFlight(since: real, sent: Option<int>, reply: Option<seq<int>>)
    | Pausing(from: real, until: real)
    | Ending
    | Ended

  /** `setAt` is when the task last set or extended the lock; `log` is what it scheduled. */
  datatype Task = Task(proc: Pid, phase: Phase, acquired: bool, setAt: real,
                       offset: Option<int>, backoff: nat, log: seq<int>)

  /** The module globals of one process; a stamp of 0.0 is one never made. */
  datatype Proc = Proc(started: bool, heartbeat: real, deferred: real, bootedAt: real,
                       downSince: real, watched: bool, lastCheck: real)

  datatype Hold = Hold(owner: Tid, expires: real)

  datatype State = State(now: real, key: Option<Hold>, arrived: seq<int>, confirmed: int, scheduled: set<int>,
                         procs: map<Pid, Proc>, tasks: map<Tid, Task>)

  // ---------------------------------------------------------------- staleness helpers

  function Max(a: real, b: real): real { if a >= b then a else b }

  /** The later of the two stamps: the last own poll, or the last time another process held the lock. */
  function Stamp(p: Proc): real { Max(p.heartbeat, p.deferred) }

  /** What the idle clock counts from, if startup has recorded anything. */
  function IdleFrom(p: Proc): Option<real> {
    if Stamp(p) != 0.0 then Some(Stamp(p)) else if p.bootedAt != 0.0 then Some(p.bootedAt) else None
  }

  function IdleSeconds(p: Proc, now: real): Option<real> {
    match IdleFrom(p)
    case None => None
    case Some(from) => Some(Max(0.0, now - from))
  }

  predicate IsStale(c: Config, p: Proc, now: real) {
    c.pollingExpected && IdleSeconds(p, now).Some? && IdleSeconds(p, now).value >= c.staleSeconds
  }

  // ---------------------------------------------------------------- the lock

  predicate KeyFree(s: State) {
    s.key.None? || s.key.value.expires <= s.now
  }

  predicate Owns(s: State, t: Tid) {
    s.key.Some? && s.key.value.owner == t && s.now < s.key.value.expires
  }

  function Update(s: State, t: Tid, task: Task): State {
    s.(tasks := s.tasks[t := task])
  }

  /** Renewal extends the key only for its owner; for anybody else it changes nothing. */
  function Renewed(s: State, t: Tid): State
    requires t in s.tasks
  {
    if s.tasks[t].acquired && Owns(s, t) then
      Update(s, t, s.tasks[t].(setAt := s.now)).(key := Some(Hold(t, s.now + LOCK_TTL)))
    else s
  }

  /** Release deletes the key only for its owner, and clears the local flag in any case. */
  function Released(s: State, t: Tid): State
    requires t in s.tasks
  {
    var s' := if s.tasks[t].acquired && Owns(s, t) then s.(key := None) else s;
    Update(s', t, s.tasks[t].(acquired := false))
  }

  // ---------------------------------------------------------------- the server

  /** What the server still offers: the updates it was never sent a higher offset for. */
  function Pending(arrived: seq<int>, confirmed: int): (r: seq<int>)
    ensures forall id :: id in r <==> id in arrived && id >= confirmed
  {
    if arrived == [] then []
    else (if arrived[0] >= confirmed then [arrived[0]] else []) + Pending(arrived[1..], confirmed)
  }

  predicate Ascending(ids: seq<int>) {
    forall i, j :: 0 <= i < j < |ids| ==> ids[i] < ids[j]
  }

  // ---------------------------------------------------------------- steps

  /** `Degrade` is an acquire that Redis did not answer: the lock object grants it all the same. */
  datatype Step =
    | Arrive(id: int)
    | Tick(d: real)
    | Start(p: Pid, t: Tid)
    | Ready(t: Tid)
    | Acquire(t: Tid)
    | Degrade(t: Tid)
    | Defer(t: Tid)
    | Send(t: Tid)
    | Reply(t: Tid, n: nat)
    | Receive(t: Tid)
    | TimeOut(t: Tid)
    | Conflict(t: Tid)
    | Fail(t: Tid)
    | Wake(t: Tid)
    | Stop(t: Tid)
    | Release(t: Tid)
    | Check(p: Pid, t: Tid)

  /** The backoff after one more 409: 5, 10, 20, 40, 60, 60, ... */
  function NextBackoff(b: nat): nat {
    if b == 0 then 5 else if b * 2 <= 60 then b * 2 else 60
  }

  predicate Live(ph: Phase) {
    ph.Booting? || InLoop(ph)
  }

  predicate InLoop(ph: Phase) {
    ph.Top? || ph.InFlight? || ph.Pausing?
  }

  /** The timing assumption: no task outstays the phase it is in. */
  predicate InTime(c: Config, ph: Phase, now: real) {
    match ph
    case Top(since) => now <= since + c.lag
    case InFlight(since, _, _) => now <= since + c.pollMax
    case Pausing(_, until) => now <= until + c.lag
    case _ => true
  }

  predicate MayPass(c: Config, s: State, d: real) {
    && d >= 0.0
    && (forall t :: t in s.tasks ==> InTime(c, s.tasks[t].phase, s.now + d))
    && (forall p :: p in s.procs && s.procs[p].watched ==> s.now + d <= s.procs[p].lastCheck + c.interval + c.lag)
  }

  predicate Fresh(s: State, t: Tid) {
    t !in s.tasks
  }

  predicate Enabled(c: Config, s: State, step: Step) {
    match step
    case Arrive(id) => id >= s.confirmed && forall x :: x in s.arrived ==> x < id
    case Tick(d) => MayPass(c, s, d)
    case Start(p, t) => p in s.procs && Fresh(s, t)
    case Ready(t) => t in s.tasks && s.tasks[t].phase.Booting?
    case Acquire(t) => t in s.tasks && s.tasks[t].phase.Top? && !s.tasks[t].acquired && KeyFree(s)
    case Degrade(t) => c.redisMayFail && t in s.tasks && s.tasks[t].phase.Top? && !s.tasks[t].acquired
    case Defer(t) => t in s.tasks && s.tasks[t].phase.Top? && !s.tasks[t].acquired && !KeyFree(s) && s.tasks[t].proc in s.procs
    case Send(t) => t in s.tasks && s.tasks[t].phase.Top? && s.tasks[t].acquired
    case Reply(t, n) => t in s.tasks && s.tasks[t].phase.InFlight? && s.tasks[t].phase.reply.None?
      && n <= |Pending(s.arrived, s.confirmed)|
    case Receive(t) => t in s.tasks && s.tasks[t].phase.InFlight? && s.tasks[t].phase.reply.Some? && s.tasks[t].proc in s.procs
    case TimeOut(t) => t in s.tasks && s.tasks[t].phase.InFlight?
    case Conflict(t) => t in s.tasks && s.tasks[t].phase.InFlight?
    case Fail(t) => t in s.tasks && s.tasks[t].phase.InFlight?
    case Wake(t) => t in s.tasks && s.tasks[t].phase.Pausing? && s.tasks[t].phase.until <= s.now
    case Stop(t) => t in s.tasks && Live(s.tasks[t].phase) && s.tasks[t].proc in s.procs
    case Release(t) => t in s.tasks && s.tasks[t].phase.Ending?
    case Check(p, t) => p in s.procs && s.procs[p].watched && s.now >= s.procs[p].lastCheck + c.interval && Fresh(s, t)
  }

  /** `start_long_poller`: None when the flag is up, else claim it and create the task. */
  function Started(s: State, p: Pid, t: Tid): State
    requires p in s.procs
  {
    if s.procs[p].started then s
    else s.(procs := s.procs[p := s.procs[p].(started := true)],
            tasks := s.tasks[t := Task(p, Booting, false, s.now, None, 0, [])])
  }

  function Paused(s: State, t: Tid, seconds: real): State
    requires t in s.tasks
  {
    Update(s, t, s.tasks[t].(phase := Pausing(s.now, s.now + seconds)))
  }

  function Last(ids: seq<int>): int
    requires ids != []
  {
    ids[|ids| - 1]
  }

  /** A completed getUpdates: stamp the heartbeat, forget the backoff, schedule each update and
      move the offset past it. */
  function Received(s: State, t: Tid): State
    requires t in s.tasks && s.tasks[t].phase.InFlight? && s.tasks[t].phase.reply.Some? && s.tasks[t].proc in s.procs
  {
    var task := s.tasks[t];
    var ids := task.phase.reply.value;
    var p := task.proc;
    var next := task.(backoff := 0, log := task.log + ids,
                      offset := if ids == [] then task.offset else Some(Last(ids) + 1));
    Paused(Update(s, t, next), t, if ids == [] then EMPTY_SLEEP else 0.0)
      .(scheduled := s.scheduled + (set id | id in ids), procs := s.procs[p := s.procs[p].(heartbeat := s.now)])
  }

  function Sent(s: State, t: Tid): State
    requires t in s.tasks
  {
    var task := s.tasks[t];
    Update(s, t, task.(phase := InFlight(s.now, task.offset, None)))
      .(confirmed := if task.offset.Some? && task.offset.value > s.confirmed then task.offset.value else s.confirmed)
  }

  /** Leaving the poller for any reason: the inner renewal, then the flag drops. */
  function Stopped(s: State, t: Tid): State
    requires t in s.tasks && s.tasks[t].proc in s.procs
  {
    var s' := if InLoop(s.tasks[t].phase) then Renewed(s, t) else s;
    var p := s.tasks[t].proc;
    Update(s', t, s'.tasks[t].(phase := Ending))
      .(procs := s.procs[p := s.procs[p].(started := false, downSince := s.now)])
  }

  function Checked(c: Config, s: State, p: Pid, t: Tid): State
    requires p in s.procs
  {
    var s' := s.(procs := s.procs[p := s.procs[p].(lastCheck := s.now)]);
    if IsStale(c, s.procs[p], s.now) then Started(s', p, t) else s'
  }

  function Apply(c: Config, s: State, step: Step): State
    requires Enabled(c, s, step)
  {
    match step
    case Arrive(id) => s.(arrived := s.arrived + [id])
    case Tick(d) => s.(now := s.now + d)
    case Start(p, t) => Started(s, p, t)
    case Ready(t) => Update(s, t, s.tasks[t].(phase := Top(s.now)))
    case Acquire(t) =>
      Update(s, t, s.tasks[t].(acquired := true, setAt := s.now, phase := Top(s.now)))
        .(key := Some(Hold(t, s.now + LOCK_TTL)))
    case Degrade(t) => Update(s, t, s.tasks[t].(acquired := true, setAt := s.now, phase := Top(s.now)))
    case Defer(t) =>
      var p := s.tasks[t].proc;
      Paused(s, t, DEFER_SLEEP).(procs := s.procs[p := s.procs[p].(deferred := s.now)])
    case Send(t) => Sent(s, t)
    case Reply(t, n) =>
      Update(s, t, s.tasks[t].(phase := s.tasks[t].phase.(reply := Some(Pending(s.arrived, s.confirmed)[..n]))))
    case Receive(t) => Received(s, t)
    case TimeOut(t) => Paused(s, t, TIMEOUT_SLEEP)
    case Conflict(t) =>
      var backoff := NextBackoff(s.tasks[t].backoff);
      Paused(Released(Update(s, t, s.tasks[t].(backoff := backoff)), t), t, backoff as real)
    case Fail(t) => Paused(s, t, ERROR_SLEEP)
    case Wake(t) => var s' := Renewed(s, t); Update(s', t, s'.tasks[t].(phase := Top(s.now)))
    case Stop(t) => Stopped(s, t)
    case Release(t) => var s' := Released(s, t); Update(s', t, s'.tasks[t].(phase := Ended))
    case Check(p, t) => Checked(c, s, p, t)
  }

  // ---------------------------------------------------------------- runs

  /** Before anything started: no task, no key, every flag down, watchdogs just set off. */
  ghost predicate Init(s: State) {
    && s.now >= 0.0 && s.key.None? && s.tasks == map[] && s.scheduled == {}
    && Ascending(s.arrived) && (forall id :: id in s.arrived ==> id >= s.confirmed)
    && (forall p :: p in s.procs ==>
      !s.procs[p].started && s.procs[p].downSince == s.now && s.procs[p].lastCheck == s.now)
  }

  ghost predicate Legal(c: Config, s: State, steps: seq<Step>)
    decreases |steps|
  {
    steps == [] || (Enabled(c, s, steps[0]) && Legal(c, Apply(c, s, steps[0]), steps[1..]))
  }

  ghost function Final(c: Config, s: State, steps: seq<Step>): State
    requires Legal(c, s, steps)
    decreases |steps|
  {
    if steps == [] then s else Final(c, Apply(c, s, steps[0]), steps[1..])
  }

  ghost predicate Leads(c: Config, start: State, steps: seq<Step>, s: State) {
    Init(start) && Legal(c, start, steps) && Final(c, start, steps) == s
  }

  /** Every state any run of any length passes through. */
  ghost predicate Reachable(c: Config, s: State) {
    exists start, steps :: Leads(c, start, steps, s)
  }

  lemma {:induction false} LegalExtends(c: Config, s: State, steps: seq<Step>, step: Step)
    requires Legal(c, s, steps) && Enabled(c, Final(c, s, steps), step)
    ensures Legal(c, s, steps + [step])
    ensures Final(c, s, steps + [step]) == Apply(c, Final(c, s, steps), step)
    decreases |steps|
  {
    if steps == [] {
      assert [step][1..] == [];
      assert [] + [step] == [step];
    } else {
      assert (steps + [step])[1..] == steps[1..] + [step];
      LegalExtends(c, Apply(c, s, steps[0]), steps[1..], step);
    }
  }

  lemma ReachableExtends(c: Config, s: State, step: Step)
    requires Reachable(c, s) && Enabled(c, s, step)
    ensures Reachable(c, Apply(c, s, step))
  {
    var start, steps :| Leads(c, start, steps, s);
    LegalExtends(c, start, steps, step);
    assert Leads(c, start, steps + [step], Apply(c, s, step));
  }
}
