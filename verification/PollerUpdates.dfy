/**
 No update is lost: whatever the interleaving, and whether or not the lock does its job, an
 update the server has forgotten was scheduled by some poller first.
 */
module PollerUpdates {
  import opened PollerProtocol
  import opened Options

  /** Everything below the mark that ever arrived has been scheduled. */
  ghost predicate DoneBelow(s: State, mark: int) {
    forall id :: id in s.arrived && id < mark ==> id in s.scheduled
  }

  /** A reply in transit starts at the offset it answers and has no gap that is not scheduled. */
  ghost predicate ReplyInv(s: State, task: Task, ids: seq<int>) {
    && Ascending(ids)
    && (forall id :: id in ids ==> id in s.arrived && (task.offset.Some? ==> task.offset.value <= id))
    && (ids != [] ==> forall id :: id in s.arrived && id <= Last(ids) ==> id in s.scheduled || id in ids)
  }

  /** One poller's life so far: what it scheduled is ascending and below its offset. */
  ghost predicate LifeInv(s: State, task: Task) {
    && Ascending(task.log)
    && (task.offset.None? ==> task.log == [])
    && (task.offset.Some? ==> task.offset.value - 1 in s.arrived)
    && (task.offset.Some? ==> DoneBelow(s, task.offset.value) && forall id :: id in task.log ==> id < task.offset.value)
    && (task.phase.InFlight? ==>
      task.phase.sent == task.offset
      && (task.offset.Some? ==> task.offset.value <= s.confirmed)
      && (task.phase.reply.Some? ==> ReplyInv(s, task, task.phase.reply.value)))
  }

  ghost predicate UpdatesInv(s: State) {
    && Ascending(s.arrived)
    && DoneBelow(s, s.confirmed)
    && (forall id :: id in s.scheduled ==> id in s.arrived)
    && (forall t :: t in s.tasks ==> LifeInv(s, s.tasks[t]))
  }

  // ---------------------------------------------------------------- the server's side

  lemma {:induction false} PendingIsOrdered(arrived: seq<int>, confirmed: int)
    requires Ascending(arrived)
    ensures Ascending(Pending(arrived, confirmed))
  {
    if arrived != [] {
      PendingIsOrdered(arrived[1..], confirmed);
      var rest := Pending(arrived[1..], confirmed);
      forall i | 0 <= i < |rest| ensures arrived[0] < rest[i] {
        assert rest[i] in arrived[1..];
      }
    }
  }

  /** Whatever prefix of the pending updates the server sends, it leaves no gap behind. */
  lemma ReplyHasNoGap(s: State, n: nat, task: Task)
    requires UpdatesInv(s) && LifeInv(s, task) && task.phase.InFlight? && n <= |Pending(s.arrived, s.confirmed)|
    ensures ReplyInv(s, task, Pending(s.arrived, s.confirmed)[..n])
  {
    var all := Pending(s.arrived, s.confirmed);
    PendingIsOrdered(s.arrived, s.confirmed);
    var ids := all[..n];
    assert forall id :: id in ids ==> id in all;
    if ids != [] {
      forall id | id in s.arrived && id <= Last(ids) ensures id in s.scheduled || id in ids {
        assert id >= s.confirmed ==> id in all;
      }
    }
  }

  // ---------------------------------------------------------------- one step

  /** Time, locks and flags change nothing here; new arrivals and schedules only help. */
  lemma LifeInvGrows(s: State, s': State, task: Task)
    requires LifeInv(s, task)
    requires s'.scheduled >= s.scheduled && s'.confirmed >= s.confirmed
    requires s'.arrived == s.arrived
      || (|s'.arrived| == |s.arrived| + 1 && s'.arrived[..|s.arrived|] == s.arrived && Ascending(s'.arrived)
        && s'.arrived == s.arrived + [Last(s'.arrived)])
    requires task.offset.Some? ==> s'.arrived == s.arrived || task.offset.value <= Last(s'.arrived)
    ensures LifeInv(s', task)
  {
    forall id | id in s'.arrived && id !in s.arrived ensures id == Last(s'.arrived) && s'.arrived != s.arrived {
    }
    if task.phase.InFlight? && task.phase.reply.Some? && task.phase.reply.value != [] {
      var last := Last(task.phase.reply.value);
      assert last in task.phase.reply.value && last in s.arrived;
      if s'.arrived != s.arrived {
        var i :| 0 <= i < |s.arrived| && s.arrived[i] == last;
        assert s'.arrived[i] == last && last < Last(s'.arrived);
      }
    }
  }

  /** The receiving poller itself: its reply closes every gap below the new offset. */
  lemma ReceiverLife(s: State, s': State, task: Task, ids: seq<int>, next: Task)
    requires LifeInv(s, task) && ReplyInv(s, task, ids)
    requires s'.arrived == s.arrived && s'.scheduled == s.scheduled + (set id | id in ids)
    requires next.log == task.log + ids && !next.phase.InFlight?
    requires next.offset == if ids == [] then task.offset else Some(Last(ids) + 1)
    ensures LifeInv(s', next)
  {
    AppendAscending(task, ids);
    assert task.log + [] == task.log;
    if ids != [] {
      assert Last(ids) in ids;
      assert forall i :: 0 <= i < |ids| ==> ids[i] <= Last(ids);
    }
  }

  lemma ReceiveStep(c: Config, s: State, t: Tid)
    requires UpdatesInv(s) && Enabled(c, s, Receive(t))
    ensures UpdatesInv(Apply(c, s, Receive(t)))
  {
    var s' := Apply(c, s, Receive(t));
    var task := s.tasks[t];
    var ids := task.phase.reply.value;
    assert LifeInv(s, task);
    ReceiverLife(s, s', task, ids, s'.tasks[t]);
    forall u | u in s'.tasks && u != t ensures LifeInv(s', s'.tasks[u]) {
      LifeInvGrows(s, s', s.tasks[u]);
    }
  }

  lemma AppendAscending(task: Task, ids: seq<int>)
    requires Ascending(task.log) && Ascending(ids)
    requires task.offset.None? ==> task.log == []
    requires task.offset.Some? ==> forall id :: id in task.log ==> id < task.offset.value
    requires task.offset.Some? ==> forall id :: id in ids ==> task.offset.value <= id
    ensures Ascending(task.log + ids)
  {
    assert forall i :: 0 <= i < |task.log| ==> task.log[i] in task.log;
    assert forall i :: 0 <= i < |ids| ==> ids[i] in ids;
  }

  lemma SendStep(c: Config, s: State, t: Tid)
    requires UpdatesInv(s) && Enabled(c, s, Send(t))
    ensures UpdatesInv(Apply(c, s, Send(t)))
  {
    var s' := Apply(c, s, Send(t));
    assert LifeInv(s, s.tasks[t]);
    forall u | u in s'.tasks ensures LifeInv(s', s'.tasks[u]) {
      LifeInvGrows(s, s', s.tasks[u]);
    }
  }

  lemma ReplyStep(c: Config, s: State, t: Tid, n: nat)
    requires UpdatesInv(s) && Enabled(c, s, Reply(t, n))
    ensures UpdatesInv(Apply(c, s, Reply(t, n)))
  {
    var s' := Apply(c, s, Reply(t, n));
    assert LifeInv(s, s.tasks[t]);
    ReplyHasNoGap(s, n, s.tasks[t]);
    RepliedLife(s, s', s.tasks[t], Pending(s.arrived, s.confirmed)[..n], s'.tasks[t]);
    forall u | u in s'.tasks && u != t ensures LifeInv(s', s'.tasks[u]) {
      assert LifeInv(s, s.tasks[u]);
    }
  }

  /** A reply on its way is all that changed for the poller it goes to. */
  lemma RepliedLife(s: State, s': State, task: Task, ids: seq<int>, next: Task)
    requires LifeInv(s, task) && task.phase.InFlight? && ReplyInv(s, task, ids)
    requires SameServer(s, s') && next == task.(phase := task.phase.(reply := Some(ids)))
    ensures LifeInv(s', next)
  {
  }

  predicate SameServer(s: State, s': State) {
    s'.arrived == s.arrived && s'.confirmed == s.confirmed && s'.scheduled == s.scheduled
  }

  /** Every other step: nothing arrives, is sent, or is scheduled. */
  lemma QuietStep(c: Config, s: State, step: Step)
    requires UpdatesInv(s) && Enabled(c, s, step)
    requires Quiet(step)
    ensures UpdatesInv(Apply(c, s, step))
  {
    var s' := Apply(c, s, step);
    forall u | u in s'.tasks ensures LifeInv(s', s'.tasks[u]) {
      QuietTask(c, s, step, u);
      if u in s.tasks {
        assert LifeInv(s, s.tasks[u]);
      }
    }
    QuietServer(c, s, step);
  }

  predicate Quiet(step: Step) {
    !step.Receive? && !step.Arrive? && !step.Send? && !step.Reply?
  }

  lemma QuietServer(c: Config, s: State, step: Step)
    requires Enabled(c, s, step) && Quiet(step)
    ensures SameServer(s, Apply(c, s, step))
  {
  }

  /** Such a step leaves every poller's offset and log alone; a poller it creates has neither. */
  lemma QuietTask(c: Config, s: State, step: Step, u: Tid)
    requires Enabled(c, s, step) && u in Apply(c, s, step).tasks && Quiet(step)
    ensures var next := Apply(c, s, step).tasks[u];
      if u in s.tasks then
        next.offset == s.tasks[u].offset && next.log == s.tasks[u].log
        && (next.phase.InFlight? ==> next.phase == s.tasks[u].phase)
      else next.offset.None? && next.log == [] && next.phase.Booting?
  {
  }

  lemma UpdatesInvStep(c: Config, s: State, step: Step)
    requires UpdatesInv(s) && Enabled(c, s, step)
    ensures UpdatesInv(Apply(c, s, step))
  {
    match step
    case Receive(t) => ReceiveStep(c, s, t);
    case Arrive(id) => ArriveStep(c, s, id);
    case Send(t) => SendStep(c, s, t);
    case Reply(t, n) => ReplyStep(c, s, t, n);
    case _ => QuietStep(c, s, step);
  }

  lemma ArriveStep(c: Config, s: State, id: int)
    requires UpdatesInv(s) && Enabled(c, s, Arrive(id))
    ensures UpdatesInv(Apply(c, s, Arrive(id)))
  {
    var s' := Apply(c, s, Arrive(id));
    assert forall i :: 0 <= i < |s.arrived| ==> s.arrived[i] in s.arrived;
    assert Ascending(s'.arrived) && Last(s'.arrived) == id;
    forall t | t in s'.tasks ensures LifeInv(s', s'.tasks[t]) {
      assert LifeInv(s, s.tasks[t]);
      LifeInvGrows(s, s', s.tasks[t]);
    }
  }

  lemma {:induction false} UpdatesInvAlways(c: Config, s: State, steps: seq<Step>)
    requires UpdatesInv(s) && Legal(c, s, steps)
    ensures UpdatesInv(Final(c, s, steps))
    decreases |steps|
  {
    if steps != [] {
      UpdatesInvStep(c, s, steps[0]);
      UpdatesInvAlways(c, Apply(c, s, steps[0]), steps[1..]);
    }
  }

  // ---------------------------------------------------------------- what it means

  /** In every reachable state each update that ever arrived was scheduled, or the server still offers it. */
  lemma NoUpdateIsLost(c: Config, s: State)
    requires Reachable(c, s)
    ensures forall id :: id in s.arrived ==> id in s.scheduled || id in Pending(s.arrived, s.confirmed)
    ensures forall id :: id in s.arrived && id < s.confirmed ==> id in s.scheduled
  {
    var start, steps :| Leads(c, start, steps, s);
    UpdatesInvAlways(c, start, steps);
  }

  /** Within one poller's life nothing is scheduled twice, and in order of arrival. */
  lemma NothingTwiceInOneLife(c: Config, s: State, t: Tid)
    requires Reachable(c, s) && t in s.tasks
    ensures Ascending(s.tasks[t].log)
    ensures s.tasks[t].offset.Some? ==> forall id :: id in s.tasks[t].log ==> id < s.tasks[t].offset.value
  {
    var start, steps :| Leads(c, start, steps, s);
    UpdatesInvAlways(c, start, steps);
    assert LifeInv(s, s.tasks[t]);
  }

  /** A poller's offset never moves back, and its log only grows. */
  lemma OffsetsOnlyGrow(c: Config, s: State, step: Step, t: Tid)
    requires Reachable(c, s) && Enabled(c, s, step) && t in s.tasks
    ensures t in Apply(c, s, step).tasks
    ensures s.tasks[t].offset.Some? ==> Apply(c, s, step).tasks[t].offset.Some?
    ensures s.tasks[t].offset.Some? ==> s.tasks[t].offset.value <= Apply(c, s, step).tasks[t].offset.value
    ensures s.tasks[t].log <= Apply(c, s, step).tasks[t].log
  {
    var start, steps :| Leads(c, start, steps, s);
    UpdatesInvAlways(c, start, steps);
    assert LifeInv(s, s.tasks[t]);
    if step == Receive(t) {
      ReceiptMovesOn(c, s, t);
    } else {
      OnlyReceiptsMove(c, s, step, t);
    }
  }

  lemma ReceiptMovesOn(c: Config, s: State, t: Tid)
    requires Enabled(c, s, Receive(t)) && LifeInv(s, s.tasks[t])
    ensures var task, next := s.tasks[t], Apply(c, s, Receive(t)).tasks[t];
      && task.log <= next.log
      && (task.offset.Some? ==> next.offset.Some? && task.offset.value <= next.offset.value)
  {
    var ids := s.tasks[t].phase.reply.value;
    assert ids != [] ==> Last(ids) in ids;
  }

  lemma OnlyReceiptsMove(c: Config, s: State, step: Step, t: Tid)
    requires Enabled(c, s, step) && t in s.tasks && step != Receive(t)
    ensures t in Apply(c, s, step).tasks
    ensures Apply(c, s, step).tasks[t].offset == s.tasks[t].offset && Apply(c, s, step).tasks[t].log == s.tasks[t].log
  {
  }

  /** A restart or a handover begins without an offset: it confirms nothing, and a full reply gives it
      every update not yet confirmed, whether or not an earlier poller had scheduled it. */
  lemma RestartRedeliversUnconfirmed(c: Config, s: State, t: Tid)
    requires Enabled(c, s, Send(t)) && s.tasks[t].offset.None?
    ensures var sent := Apply(c, s, Send(t));
      && sent.confirmed == s.confirmed
      && Enabled(c, sent, Reply(t, |Pending(s.arrived, s.confirmed)|))
      && Apply(c, sent, Reply(t, |Pending(s.arrived, s.confirmed)|)).tasks[t].phase.reply == Some(Pending(s.arrived, s.confirmed))
  {
    var all := Pending(s.arrived, s.confirmed);
    assert all[..|all|] == all;
  }

  // ---------------------------------------------------------------- conflict backoff

  function Doubled(k: nat): nat {
    if k == 0 then 1 else 2 * Doubled(k - 1)
  }

  function BackoffAfter(k: nat): nat {
    if k == 0 then 0 else NextBackoff(BackoffAfter(k - 1))
  }

  lemma {:induction false} DoubledGrows(i: nat, j: nat)
    requires i <= j
    ensures Doubled(i) <= Doubled(j)
    decreases j
  {
    if i < j {
      DoubledGrows(i, j - 1);
    }
  }

  /** After k conflicts in a row the pause is min(5 * 2^(k-1), 60) seconds; from the fourth on it is
      longer than the lock's TTL, which is why the lock is let go first. */
  lemma {:induction false} BackoffIsCappedDoubling(k: nat)
    requires k > 0
    ensures BackoffAfter(k) == if 5 * Doubled(k - 1) <= 60 then 5 * Doubled(k - 1) else 60
    ensures BackoffAfter(k) as real > LOCK_TTL <==> k >= 4
  {
    if k > 1 {
      BackoffIsCappedDoubling(k - 1);
    }
    assert Doubled(0) == 1 && Doubled(1) == 2 && Doubled(2) == 4 && Doubled(3) == 8 && Doubled(4) == 16;
    if k >= 5 {
      DoubledGrows(4, k - 1);
    } else if k == 4 {
      DoubledGrows(3, 3);
    }
  }
}
