/**
 What an apply of the offline sweep leaves of each entry and each key, and what its counters
 say, told in the words of the keyspace it started from and nothing else.
 */
module StaleSweepFates {
  import opened Options
  import opened Collections
  import opened RedisKeyspace
  import opened StaleSweep
  import opened StaleSweepRun
  import opened StaleSweepLaws

  // ---------------------------------------------------------------- jobs

  predicate Over(status: string) {
    || status == "done" || status == "completed" || status == "error" || status == "failed"
    || status == "cancelled" || status == "canceled"
  }

  predicate AtWork(status: string) {
    || status == "queued" || status == "processing" || status == "waiting" || status == "started"
    || status == "uploading" || status == "sending"
  }

  predicate Says(fields: map<string, string>, name: string, text: string) {
    name in fields && fields[name] == text
  }

  predicate HasJob(db: Keyspace, id: string) {
    var key := "ffmpeg:job:" + id;
    key in db && db[key].Hash? && db[key].fields != map[]
  }

  function JobFields(db: Keyspace, id: string): map<string, string>
    requires HasJob(db, id)
  {
    db["ffmpeg:job:" + id].fields
  }

  /** Of no batch, or of another one than the run is limited to. */
  predicate Foreign(sc: Scope, fields: map<string, string>) {
    sc.batch != "" && !Says(fields, "batch_id", sc.batch)
  }

  predicate JobAtWork(db: Keyspace, sc: Scope, id: string) {
    HasJob(db, id) && !Foreign(sc, JobFields(db, id))
    && "status" in JobFields(db, id) && AtWork(JobFields(db, id)["status"])
  }

  /** What keeps a queue entry: it names no job, or a job there is a hash of that is not over, or one the
      run is not limited to. */
  predicate EntryStays(db: Keyspace, sc: Scope, raw: string) {
    var job := sc.jobIdOf(raw);
    || job.None? || job.value == ""
    || (HasJob(db, job.value)
        && (Foreign(sc, JobFields(db, job.value))
            || !("status" in JobFields(db, job.value) && Over(JobFields(db, job.value)["status"]))))
  }

  lemma StatusWords(status: string)
    ensures status in TERMINAL_STATUSES <==> Over(status)
    ensures status in ACTIVE_STATUSES <==> AtWork(status)
    ensures !Over("") && !AtWork("")
  {
  }

  lemma EntryVerdict(db: Keyspace, sc: Scope, raw: string)
    ensures EntryStale(db, sc, raw) <==> !EntryStays(db, sc, raw)
  {
    var id := JobOf(sc, raw);
    if HasJob(db, id) {
      StatusWords(Field(JobFields(db, id), "status"));
    }
  }

  lemma ActiveVerdict(db: Keyspace, sc: Scope, id: string)
    ensures id in ActiveIds(db, sc) <==> JobAtWork(db, sc, id)
  {
    var key := JOB_PREFIX + id;
    assert JOB_PREFIX <= key && key[|JOB_PREFIX|..] == id;
    if HasJob(db, id) {
      StatusWords(Field(JobFields(db, id), "status"));
    } else {
      StatusWords("");
    }
  }

  // ---------------------------------------------------------------- queue entries

  predicate Queued(db: Keyspace, raw: string) {
    "ffmpeg:jobs" in db && db["ffmpeg:jobs"].List? && raw in db["ffmpeg:jobs"].items
  }

  predicate Delayed(db: Keyspace, raw: string) {
    "ffmpeg:delayed" in db && db["ffmpeg:delayed"].ZSet? && raw in db["ffmpeg:delayed"].ranked
  }

  /** An entry is there after an apply exactly when it was there and has a reason to stay. */
  lemma EntryFate(db: Keyspace, sc: Scope, raw: string)
    requires Sane(db)
    ensures Queued(Applied(db, sc), raw) <==> Queued(db, raw) && EntryStays(db, sc, raw)
    ensures Delayed(Applied(db, sc), raw) <==> Delayed(db, raw) && EntryStays(db, sc, raw)
  {
    EntryVerdict(db, sc, raw);
    AppliedQueues(db, sc);
    assert forall any: Keyspace :: Queued(any, raw) <==> raw in QueueItems(any);
    assert forall any: Keyspace :: Delayed(any, raw) <==> raw in DelayedItems(any);
  }

  /** The entries that stay keep their order, and each stays as often as it was queued. */
  lemma QueuesKeepTheirOrder(db: Keyspace, sc: Scope) returns (queued: seq<nat>, delayed: seq<nat>)
    requires Sane(db)
    ensures Selects(queued, QueueItems(db), raw => EntryStays(db, sc, raw), QueueItems(Applied(db, sc)))
    ensures Selects(delayed, DelayedItems(db), raw => EntryStays(db, sc, raw), DelayedItems(Applied(db, sc)))
  {
    AppliedQueues(db, sc);
    queued := LivePlaces(db, sc, QueueItems(db));
    delayed := LivePlaces(db, sc, DelayedItems(db));
  }

  lemma {:induction false} LivePlaces(db: Keyspace, sc: Scope, items: seq<string>) returns (at: seq<nat>)
    ensures Selects(at, items, raw => EntryStays(db, sc, raw), LiveEntries(db, sc, items))
  {
    at := [];
    if items != [] {
      var init, last := items[..|items| - 1], items[|items| - 1];
      at := LivePlaces(db, sc, init);
      EntryVerdict(db, sc, last);
      SelectsLast(at, init, raw => EntryStays(db, sc, raw), LiveEntries(db, sc, init), last);
      assert items == init + [last];
      if EntryStays(db, sc, last) {
        at := at + [|init|];
      }
    }
  }

  // ---------------------------------------------------------------- counters

  /** The places of a queue whose entries go. */
  function GoingPlaces(db: Keyspace, sc: Scope, items: seq<string>): set<nat> {
    set i: nat | i < |items| && !EntryStays(db, sc, items[i])
  }

  predicate AllFor(lines: seq<Line>, reason: string) {
    forall i :: 0 <= i < |lines| ==> lines[i].Reason() == reason
  }

  predicate NoneFor(lines: seq<Line>, reason: string) {
    forall i :: 0 <= i < |lines| ==> lines[i].Reason() != reason
  }

  lemma {:induction false} TallyOfOne(lines: seq<Line>, reason: string)
    ensures AllFor(lines, reason) ==> Tally(lines, reason) == |lines|
    ensures NoneFor(lines, reason) ==> Tally(lines, reason) == 0
  {
    if lines != [] {
      TallyOfOne(lines[..|lines| - 1], reason);
    }
  }

  lemma {:induction false} OneLinePerPlace(db: Keyspace, sc: Scope, items: seq<string>, line: string -> Line, reason: string)
    requires forall id :: line(id).Reason() == reason
    ensures |EntryLines(db, sc, items, line)| == |GoingPlaces(db, sc, items)|
    ensures AllFor(EntryLines(db, sc, items, line), reason)
  {
    if items != [] {
      var init, last := items[..|items| - 1], items[|items| - 1];
      OneLinePerPlace(db, sc, init, line, reason);
      EntryVerdict(db, sc, last);
      NextPlace(db, sc, init, last);
      assert items == init + [last];
    }
  }

  lemma NextPlace(db: Keyspace, sc: Scope, init: seq<string>, last: string)
    ensures |GoingPlaces(db, sc, init + [last])|
      == |GoingPlaces(db, sc, init)| + (if EntryStays(db, sc, last) then 0 else 1)
  {
    var items, before := init + [last], GoingPlaces(db, sc, init);
    var after := before + (if EntryStays(db, sc, last) then {} else {|init|});
    forall i: nat ensures i in GoingPlaces(db, sc, items) <==> i in after {
      assert i < |init| ==> items[i] == init[i];
      assert i == |init| ==> items[i] == last;
    }
    assert GoingPlaces(db, sc, items) == after;
  }

  lemma QueuesLines(db: Keyspace, sc: Scope)
    ensures var queue, delayed := QueueLines(db, sc, QueueItems(db)), DelayedLines(db, sc, DelayedItems(db));
      && AllFor(queue, "queue") && |queue| == |GoingPlaces(db, sc, QueueItems(db))|
      && AllFor(delayed, "delayed") && |delayed| == |GoingPlaces(db, sc, DelayedItems(db))|
  {
    OneLinePerPlace(db, sc, QueueItems(db), id => QueueLine(id), "queue");
    OneLinePerPlace(db, sc, DelayedItems(db), id => DelayedLine(id), "delayed");
  }

  function For(ls: set<Line>, reason: string): set<Line> {
    set l | l in ls && l.Reason() == reason
  }

  lemma {:induction false} Listed(ls: set<Line>) returns (lines: seq<Line>)
    ensures multiset(lines) == multiset(ls)
    ensures forall reason :: Tally(lines, reason) == |For(ls, reason)|
  {
    lines := [];
    if ls != {} {
      var l :| l in ls;
      var rest := Listed(ls - {l});
      lines := rest + [l];
      forall reason ensures For(ls, reason) == For(ls - {l}, reason) + (if l.Reason() == reason then {l} else {}) {}
    }
  }

  /** No key's line adds to a queue's counter. */
  lemma KeyLinesCountElsewhere(db: Keyspace, sc: Scope, l: Line)
    requires l in KeyLines(db, sc)
    ensures l.Reason() != "queue" && l.Reason() != "delayed"
  {
    if l in AllBatchLines(db, StaleBatches(db, sc)) {
      var id :| id in StaleBatches(db, sc) && l in BatchLines(db, id);
      BatchReason(db, id, l);
    }
  }

  lemma BatchReason(db: Keyspace, id: string, l: Line)
    requires l in BatchLines(db, id)
    ensures l.Reason() == "batch" || l.Reason() == "batch lock" || l.Reason() == "batch tombstone"
  {
  }

  /** The owned keys of one kind that go. */
  function GoingKeys(db: Keyspace, sc: Scope, prefix: string): set<string> {
    set k | k in db && prefix <= k && db[k].Str?
      && !JobAtWork(db, sc, db[k].text) && !(prefix == DEDUP_PREFIX && db[k].text == "pending")
  }

  /** The counters of a run, in either mode: as many as there are entries without a reason to stay, */
  lemma QueueCounters(db: Keyspace, sc: Scope, report: seq<Line>)
    requires multiset(report) == Expected(db, sc)
    ensures Tally(report, "queue") == |GoingPlaces(db, sc, QueueItems(db))|
    ensures Tally(report, "delayed") == |GoingPlaces(db, sc, DelayedItems(db))|
  {
    QueuesLines(db, sc);
    QueueTallies(db, sc, report, QueueLines(db, sc, QueueItems(db)), DelayedLines(db, sc, DelayedItems(db)));
  }

  /** A report is what the queues print and what the keys print. */
  predicate MadeOf(report: seq<Line>, queue: seq<Line>, delayed: seq<Line>, keys: set<Line>) {
    && AllFor(queue, "queue") && AllFor(delayed, "delayed")
    && multiset(report) == multiset(queue) + multiset(delayed) + multiset(keys)
  }

  lemma QueueTallies(db: Keyspace, sc: Scope, report: seq<Line>, queue: seq<Line>, delayed: seq<Line>)
    requires MadeOf(report, queue, delayed, KeyLines(db, sc))
    ensures Tally(report, "queue") == |queue| && Tally(report, "delayed") == |delayed|
  {
    var others := ThreeParts(report, queue, delayed, KeyLines(db, sc));
    OthersCountElsewhere(db, sc, others);
    QueueIsNotDelayed(queue, delayed);
    TallyOfFirst(report, queue, delayed, others, "queue");
    TallyOfSecond(report, queue, delayed, others, "delayed");
  }

  lemma QueueIsNotDelayed(queue: seq<Line>, delayed: seq<Line>)
    requires AllFor(queue, "queue") && AllFor(delayed, "delayed")
    ensures NoneFor(queue, "delayed") && NoneFor(delayed, "queue")
  {
    assert "queue" != "delayed" by { assert "queue"[0] != "delayed"[0]; }
  }

  /** and as many as there are locks, slots and dedup keys of each kind whose owner is not at work. */
  lemma KeyCounters(db: Keyspace, sc: Scope, report: seq<Line>)
    requires Sane(db) && multiset(report) == Expected(db, sc)
    ensures Tally(report, "lock") == |GoingKeys(db, sc, LOCK_PREFIX)|
    ensures Tally(report, "slot") == |GoingKeys(db, sc, SLOT_PREFIX)|
    ensures Tally(report, "dedup") == |GoingKeys(db, sc, DEDUP_PREFIX)|
  {
    KeyCounter(db, sc, report, LOCK_PREFIX, {}, "lock");
    KeyCounter(db, sc, report, SLOT_PREFIX, {}, "slot");
    KeyCounter(db, sc, report, DEDUP_PREFIX, {"pending"}, "dedup");
  }

  predicate KindOf(prefix: string, spared: set<string>, reason: string) {
    || (prefix == LOCK_PREFIX && spared == {} && reason == "lock")
    || (prefix == SLOT_PREFIX && spared == {} && reason == "slot")
    || (prefix == DEDUP_PREFIX && spared == {"pending"} && reason == "dedup")
  }

  lemma KeyCounter(db: Keyspace, sc: Scope, report: seq<Line>, prefix: string, spared: set<string>, reason: string)
    requires Sane(db) && multiset(report) == Expected(db, sc) && KindOf(prefix, spared, reason)
    ensures Tally(report, reason) == |GoingKeys(db, sc, prefix)|
  {
    QueuesLines(db, sc);
    KeyTally(report, QueueLines(db, sc, QueueItems(db)), DelayedLines(db, sc, DelayedItems(db)), KeyLines(db, sc), reason);
    LinesOfKind(db, sc, prefix, spared, reason);
    GoingKeysLose(db, sc, prefix, spared, reason);
    OneLineEach(GoingKeys(db, sc, prefix), reason);
  }

  lemma KeyTally(report: seq<Line>, queue: seq<Line>, delayed: seq<Line>, keys: set<Line>, reason: string)
    requires MadeOf(report, queue, delayed, keys)
    requires reason != "queue" && reason != "delayed"
    ensures Tally(report, reason) == |For(keys, reason)|
  {
    var others := ThreeParts(report, queue, delayed, keys);
    TallyOfParts(report, queue, delayed, others, reason);
    TallyOfOne(queue, reason);
    TallyOfOne(delayed, reason);
  }

  lemma ThreeParts(report: seq<Line>, queue: seq<Line>, delayed: seq<Line>, keys: set<Line>) returns (others: seq<Line>)
    requires MadeOf(report, queue, delayed, keys)
    ensures multiset(others) == multiset(keys) && multiset(report) == multiset(queue + delayed + others)
    ensures forall reason :: Tally(others, reason) == |For(keys, reason)|
  {
    others := Listed(keys);
  }

  /** A reason belongs to one kind of key. */
  lemma LinesOfKind(db: Keyspace, sc: Scope, prefix: string, spared: set<string>, reason: string)
    requires KindOf(prefix, spared, reason)
    ensures For(KeyLines(db, sc), reason) == OwnedLines(db, sc, prefix, spared, reason)
  {
    assert "lock"[0] == 'l' && "slot"[0] == 's' && "dedup"[0] == 'd';
    forall l | l in AllBatchLines(db, StaleBatches(db, sc)) ensures l.Reason() != reason {
      var id :| id in StaleBatches(db, sc) && l in BatchLines(db, id);
      BatchReason(db, id, l);
      assert "batch"[0] == 'b' && "batch lock"[0] == 'b' && "batch tombstone"[0] == 'b';
    }
  }

  lemma GoingKeysLose(db: Keyspace, sc: Scope, prefix: string, spared: set<string>, reason: string)
    requires Sane(db) && KindOf(prefix, spared, reason)
    ensures OwnedLines(db, sc, prefix, spared, reason) == set k | k in GoingKeys(db, sc, prefix) :: KeyLine(k, reason)
  {
    forall id: string ensures id in ActiveIds(db, sc) <==> JobAtWork(db, sc, id) {
      ActiveVerdict(db, sc, id);
    }
    assert LOCK_PREFIX != DEDUP_PREFIX && SLOT_PREFIX != DEDUP_PREFIX by {
      assert LOCK_PREFIX[7] == 'l' && SLOT_PREFIX[7] == 's' && DEDUP_PREFIX[7] == 'p';
    }
  }

  lemma {:induction false} OneLineEach(keys: set<string>, reason: string)
    ensures |set k | k in keys :: KeyLine(k, reason)| == |keys|
  {
    if keys != {} {
      var k :| k in keys;
      OneLineEach(keys - {k}, reason);
      assert (set x | x in keys :: KeyLine(x, reason))
        == (set x | x in keys - {k} :: KeyLine(x, reason)) + {KeyLine(k, reason)};
    }
  }

  lemma OthersCountElsewhere(db: Keyspace, sc: Scope, others: seq<Line>)
    requires multiset(others) == multiset(KeyLines(db, sc))
    ensures NoneFor(others, "queue") && NoneFor(others, "delayed")
  {
    forall i | 0 <= i < |others| ensures others[i].Reason() != "queue" && others[i].Reason() != "delayed" {
      assert others[i] in multiset(others);
      KeyLinesCountElsewhere(db, sc, others[i]);
    }
  }

  lemma TallyOfFirst(report: seq<Line>, queue: seq<Line>, delayed: seq<Line>, others: seq<Line>, reason: string)
    requires multiset(report) == multiset(queue + delayed + others)
    requires AllFor(queue, reason) && NoneFor(delayed, reason) && NoneFor(others, reason)
    ensures Tally(report, reason) == |queue|
  {
    TallyOfParts(report, queue, delayed, others, reason);
    TallyOfOne(queue, reason);
    TallyOfOne(delayed, reason);
    TallyOfOne(others, reason);
  }

  lemma TallyOfSecond(report: seq<Line>, queue: seq<Line>, delayed: seq<Line>, others: seq<Line>, reason: string)
    requires multiset(report) == multiset(queue + delayed + others)
    requires NoneFor(queue, reason) && AllFor(delayed, reason) && NoneFor(others, reason)
    ensures Tally(report, reason) == |delayed|
  {
    TallyOfParts(report, queue, delayed, others, reason);
    TallyOfOne(queue, reason);
    TallyOfOne(delayed, reason);
    TallyOfOne(others, reason);
  }

  lemma TallyOfParts(report: seq<Line>, queue: seq<Line>, delayed: seq<Line>, others: seq<Line>, reason: string)
    requires multiset(report) == multiset(queue + delayed + others)
    ensures Tally(report, reason) == Tally(queue, reason) + Tally(delayed, reason) + Tally(others, reason)
  {
    SameLinesSameCounters(report, queue + delayed + others, reason);
    TallySplit(queue + delayed, others, reason);
    TallySplit(queue, delayed, reason);
  }

  // ---------------------------------------------------------------- keys

  /** A lock, slot or dedup key stays exactly when its owner is at work, or a dedup key is pending. */
  lemma OwnedFate(db: Keyspace, sc: Scope, k: string)
    requires Sane(db) && k in db
    requires "ffmpeg:lock:" <= k || "ffmpeg:slot:" <= k || "ffmpeg:pipeline_dedup:" <= k
    ensures k in Applied(db, sc) <==>
      JobAtWork(db, sc, db[k].text) || ("ffmpeg:pipeline_dedup:" <= k && db[k].text == "pending")
    ensures k in Applied(db, sc) ==> Applied(db, sc)[k] == db[k]
  {
    OwnedKeyFate(db, sc, k);
    ActiveVerdict(db, sc, db[k].text);
  }

  /** What is neither owned nor a batch's nor a queue is left alone. */
  lemma OtherKeysStay(db: Keyspace, sc: Scope, k: string)
    requires Sane(db) && !Owned(k) && !(BATCH_PREFIX <= k) && k != JOB_LIST && k != DELAYED_SET
    ensures k in Applied(db, sc) <==> k in db
    ensures k in db ==> Applied(db, sc)[k] == db[k]
  {
    AppliedAt(db, sc, k);
    LineKeysByPrefix(db, sc);
    assert k in db ==> Left(k, db[k], KeyLines(db, sc)) == db[k];
  }

  /** One of the keys a batch has: its lock or its state. */
  predicate KeyOfBatch(k: string, id: string) {
    var lock := "ffmpeg:batch:" + id;
    || k == lock || k == lock + ":jobs" || k == lock + ":total" || k == lock + ":done" || k == lock + ":done_jobs"
    || k == lock + ":msg" || k == lock + ":finished" || k == lock + ":started" || k == lock + ":cancelled"
  }

  /** Some key or the aggregate view names the batch. */
  predicate Mentioned(db: Keyspace, id: string) {
    || id in IndexMembers(db, "ffmpeg:batch:active")
    || exists k :: k in db && (k == "ffmpeg:batch:" + id || "ffmpeg:batch:" + id + ":" <= k)
  }

  predicate TakenDown(db: Keyspace, sc: Scope, id: string) {
    && Mentioned(db, id) && (sc.batch == "" || id == sc.batch)
    && forall m :: m in IndexMembers(db, "ffmpeg:batch:" + id + ":jobs") ==> !JobAtWork(db, sc, m)
  }

  lemma BatchVerdict(db: Keyspace, sc: Scope, id: string)
    requires Sane(db) && Minted(id)
    ensures id in StaleBatches(db, sc) <==> TakenDown(db, sc, id)
  {
    MentionedVerdict(db, id);
    forall m: string ensures m in ActiveIds(db, sc) <==> JobAtWork(db, sc, m) {
      ActiveVerdict(db, sc, m);
    }
  }

  lemma {:induction false} UpToColonStops(s: string)
    ensures s == UpToColon(s) || UpToColon(s) + ":" <= s
  {
    if s != "" && s[0] != ':' {
      UpToColonStops(s[1..]);
    }
  }

  lemma MentionedVerdict(db: Keyspace, id: string)
    requires Minted(id)
    ensures id in BatchIds(db) <==> Mentioned(db, id)
  {
    forall k | k in db
      ensures BATCH_PREFIX <= k && BatchIdOf(k) == id <==> k == BATCH_PREFIX + id || BATCH_PREFIX + id + ":" <= k
    {
      NamesBatch(k, id);
    }
  }

  lemma NamesBatch(k: string, id: string)
    requires ColonFree(id)
    ensures BATCH_PREFIX <= k && BatchIdOf(k) == id <==> k == BATCH_PREFIX + id || BATCH_PREFIX + id + ":" <= k
  {
    if k == BATCH_PREFIX + id {
      BatchKeyOwner(id, "");
      assert BATCH_PREFIX + id + "" == k;
    } else if BATCH_PREFIX + id + ":" <= k {
      var rest := k[|BATCH_PREFIX + id|..];
      assert k == BATCH_PREFIX + id + rest && rest[0] == ':';
      BatchKeyOwner(id, rest);
    }
    if BATCH_PREFIX <= k && BatchIdOf(k) == id {
      NamedByPrefix(k);
    }
  }

  lemma NamedByPrefix(k: string)
    requires BATCH_PREFIX <= k
    ensures k == BATCH_PREFIX + BatchIdOf(k) || BATCH_PREFIX + BatchIdOf(k) + ":" <= k
  {
    var tail := k[|BATCH_PREFIX|..];
    assert k == BATCH_PREFIX + tail;
    UpToColonStops(tail);
    if tail != BatchIdOf(k) {
      ColonAfter(BATCH_PREFIX, BatchIdOf(k), tail);
    }
  }

  lemma ColonAfter(a: string, id: string, tail: string)
    requires id + ":" <= tail
    ensures a + id + ":" <= a + tail
  {
    assert tail == id + ":" + tail[|id| + 1..];
    assert a + tail == a + id + ":" + tail[|id| + 1..];
  }

  lemma SuffixOf(k: string, id: string) returns (x: string)
    requires KeyOfBatch(k, id)
    ensures StateSuffix(x) && k == BATCH_PREFIX + id + x
  {
    x := k[|BATCH_PREFIX + id|..];
    var all := BATCH_STATE_SUFFIXES;
    assert all[0] == ":jobs" && all[1] == ":total" && all[2] == ":done" && all[3] == ":done_jobs";
    assert all[4] == ":msg" && all[5] == ":finished" && all[6] == ":started" && all[7] == ":cancelled";
  }

  /** A batch's lock and state stay exactly when the batch is not taken down, as they were. */
  lemma BatchKeyFate(db: Keyspace, sc: Scope, id: string, k: string)
    requires Sane(db) && Minted(id) && KeyOfBatch(k, id) && k in db
    ensures k in Applied(db, sc) <==> !TakenDown(db, sc, id)
    ensures k in Applied(db, sc) ==> Applied(db, sc)[k] == db[k]
  {
    BatchVerdict(db, sc, id);
    var x := SuffixOf(k, id);
    if TakenDown(db, sc, id) {
      if k in Applied(db, sc) {
        KeyHasLine(Applied(db, sc), id, x);
      }
      StaleBatchGone(db, sc, id);
    } else {
      LiveBatchKeyKept(db, sc, id, x);
    }
  }

  lemma KeyHasLine(db: Keyspace, id: string, x: string)
    requires StateSuffix(x) && BATCH_PREFIX + id + x in db
    ensures BatchLines(db, id) != {}
  {
    if x == "" {
      assert BATCH_PREFIX + id + x == BATCH_PREFIX + id;
      assert KeyLine(BATCH_PREFIX + id, "batch lock") in StateLines(db, id);
    } else {
      assert KeyLine(BATCH_PREFIX + id + x, SuffixReason(x)) in StateLines(db, id);
    }
  }

  lemma PlaceHasLine(db: Keyspace, id: string, k: string)
    requires IsIndex(k) && id in IndexMembers(db, k)
    ensures BatchLines(db, id) != {}
  {
    assert MemberLine(k, id) in IndexLines(db, id);
  }

  /** Its place in the aggregate view and in a user's resume record is kept under the same condition. */
  lemma BatchIndexFate(db: Keyspace, sc: Scope, id: string, k: string)
    requires Sane(db) && Minted(id) && id in IndexMembers(db, k)
    requires k == "ffmpeg:batch:active" || "ffmpeg:batch:resume:" <= k
    ensures id in IndexMembers(Applied(db, sc), k) <==> !TakenDown(db, sc, id)
  {
    BatchVerdict(db, sc, id);
    if TakenDown(db, sc, id) {
      if id in IndexMembers(Applied(db, sc), k) {
        PlaceHasLine(Applied(db, sc), id, k);
      }
      StaleBatchGone(db, sc, id);
    } else {
      LiveIndexKept(db, sc, id, k);
    }
  }

  /** The batches that are taken down and have the key with this suffix. */
  function TakenDownWith(db: Keyspace, sc: Scope, suffix: string): set<string> {
    set id | id in BatchIds(db) && TakenDown(db, sc, id) && "ffmpeg:batch:" + id + suffix in db
  }

  /** Batch locks and tombstones are counted apart from the rest of a batch, one for each batch taken down. */
  lemma BatchCounters(db: Keyspace, sc: Scope, report: seq<Line>)
    requires Sane(db) && multiset(report) == Expected(db, sc)
    ensures Tally(report, "batch lock") == |TakenDownWith(db, sc, "")|
    ensures Tally(report, "batch tombstone") == |TakenDownWith(db, sc, ":cancelled")|
  {
    BatchCounter(db, sc, report, "", "batch lock");
    BatchCounter(db, sc, report, ":cancelled", "batch tombstone");
  }

  predicate Marks(suffix: string, reason: string) {
    (suffix == "" && reason == "batch lock") || (suffix == ":cancelled" && reason == "batch tombstone")
  }

  lemma BatchCounter(db: Keyspace, sc: Scope, report: seq<Line>, suffix: string, reason: string)
    requires Sane(db) && multiset(report) == Expected(db, sc) && Marks(suffix, reason)
    ensures Tally(report, reason) == |TakenDownWith(db, sc, suffix)|
  {
    QueuesLines(db, sc);
    KeyTally(report, QueueLines(db, sc, QueueItems(db)), DelayedLines(db, sc, DelayedItems(db)), KeyLines(db, sc), reason);
    LinesOfBatches(db, sc, suffix, reason);
    OneLinePerBatch(TakenDownWith(db, sc, suffix), suffix, reason);
  }

  function MarkLines(ids: set<string>, suffix: string, reason: string): set<Line> {
    set id | id in ids :: KeyLine(BATCH_PREFIX + id + suffix, reason)
  }

  lemma LinesOfBatches(db: Keyspace, sc: Scope, suffix: string, reason: string)
    requires Sane(db) && Marks(suffix, reason)
    ensures For(KeyLines(db, sc), reason) == MarkLines(TakenDownWith(db, sc, suffix), suffix, reason)
  {
    forall id | id in BatchIds(db) ensures id in StaleBatches(db, sc) <==> TakenDown(db, sc, id) {
      BatchIdsMinted(db);
      BatchVerdict(db, sc, id);
    }
    assert forall id :: id in StaleBatches(db, sc) ==> id in BatchIds(db);
    var ids := TakenDownWith(db, sc, suffix);
    forall l | l in For(KeyLines(db, sc), reason) ensures l in MarkLines(ids, suffix, reason) {
      MarkIsABatchs(db, sc, l, suffix, reason);
      var id :| id in StaleBatches(db, sc) && l in BatchLines(db, id);
      MarkLine(db, id, l, suffix, reason);
      assert id in ids;
    }
    forall id | id in ids ensures KeyLine(BATCH_PREFIX + id + suffix, reason) in For(KeyLines(db, sc), reason) {
      MarkLine(db, id, KeyLine(BATCH_PREFIX + id + suffix, reason), suffix, reason);
      assert id in StaleBatches(db, sc);
    }
  }

  lemma MarkIsABatchs(db: Keyspace, sc: Scope, l: Line, suffix: string, reason: string)
    requires l in KeyLines(db, sc) && l.Reason() == reason && Marks(suffix, reason)
    ensures l in AllBatchLines(db, StaleBatches(db, sc))
  {
    assert "lock"[0] == 'l' && "slot"[0] == 's' && "dedup"[0] == 'd' && reason[0] == 'b';
  }

  lemma MarkLine(db: Keyspace, id: string, l: Line, suffix: string, reason: string)
    requires Marks(suffix, reason) && l.Reason() == reason
    ensures l in BatchLines(db, id) <==>
      l == KeyLine(BATCH_PREFIX + id + suffix, reason) && BATCH_PREFIX + id + suffix in db
  {
    assert |"batch"| == 5 && |"batch lock"| == 10 && |"batch tombstone"| == 15;
    assert BATCH_PREFIX + id + "" == BATCH_PREFIX + id;
    assert BATCH_STATE_SUFFIXES[7] == ":cancelled";
    assert l !in IndexLines(db, id);
  }

  lemma SameBatch(a: string, b: string, suffix: string)
    requires BATCH_PREFIX + a + suffix == BATCH_PREFIX + b + suffix
    ensures a == b
  {
    assert a == (BATCH_PREFIX + a + suffix)[|BATCH_PREFIX|..|BATCH_PREFIX| + |a|];
    assert b == (BATCH_PREFIX + b + suffix)[|BATCH_PREFIX|..|BATCH_PREFIX| + |b|];
  }

  lemma {:induction false} OneLinePerBatch(ids: set<string>, suffix: string, reason: string)
    ensures |MarkLines(ids, suffix, reason)| == |ids|
  {
    if ids != {} {
      var id :| id in ids;
      OneLinePerBatch(ids - {id}, suffix, reason);
      var line, others := KeyLine(BATCH_PREFIX + id + suffix, reason), MarkLines(ids - {id}, suffix, reason);
      if line in others {
        var other :| other in ids - {id} && line == KeyLine(BATCH_PREFIX + other + suffix, reason);
        SameBatch(id, other, suffix);
      }
      assert MarkLines(ids, suffix, reason) == others + {line};
    }
  }

  // ---------------------------------------------------------------- a whole run

  predicate Tells(counts: map<string, nat>, reason: string, n: nat) {
    Counted(counts, reason) == n
  }

  /** The counters of the summary for entries and owned keys, */
  ghost predicate CountersTell(counts: map<string, nat>, db: Keyspace, sc: Scope) {
    && Tells(counts, "queue", |GoingPlaces(db, sc, QueueItems(db))|)
    && Tells(counts, "delayed", |GoingPlaces(db, sc, DelayedItems(db))|)
    && Tells(counts, "lock", |GoingKeys(db, sc, LOCK_PREFIX)|)
    && Tells(counts, "slot", |GoingKeys(db, sc, SLOT_PREFIX)|)
    && Tells(counts, "dedup", |GoingKeys(db, sc, DEDUP_PREFIX)|)
  }

  // and for what is counted apart of each batch.
  ghost predicate BatchCountersTell(counts: map<string, nat>, db: Keyspace, sc: Scope) {
    && Tells(counts, "batch lock", |TakenDownWith(db, sc, "")|)
    && Tells(counts, "batch tombstone", |TakenDownWith(db, sc, ":cancelled")|)
  }

  ghost predicate Tallied(counts: map<string, nat>, report: seq<Line>) {
    forall reason :: Counted(counts, reason) == Tally(report, reason)
  }

  ghost predicate QueuesTell(after: Keyspace, db: Keyspace, sc: Scope) {
    && (forall raw :: Queued(after, raw) <==> Queued(db, raw) && EntryStays(db, sc, raw))
    && (forall raw :: Delayed(after, raw) <==> Delayed(db, raw) && EntryStays(db, sc, raw))
  }

  lemma TallyTells(counts: map<string, nat>, report: seq<Line>, reason: string, n: nat)
    requires Tallied(counts, report) && Tally(report, reason) == n
    ensures Tells(counts, reason, n)
  {
  }

  lemma RunTellsCounters(db: Keyspace, sc: Scope, report: seq<Line>, counts: map<string, nat>)
    requires Sane(db) && multiset(report) == Expected(db, sc) && Tallied(counts, report)
    ensures CountersTell(counts, db, sc)
  {
    QueueCounters(db, sc, report);
    TallyTells(counts, report, "queue", |GoingPlaces(db, sc, QueueItems(db))|);
    TallyTells(counts, report, "delayed", |GoingPlaces(db, sc, DelayedItems(db))|);
    KeyCounters(db, sc, report);
    TallyTells(counts, report, "lock", |GoingKeys(db, sc, LOCK_PREFIX)|);
    TallyTells(counts, report, "slot", |GoingKeys(db, sc, SLOT_PREFIX)|);
    TallyTells(counts, report, "dedup", |GoingKeys(db, sc, DEDUP_PREFIX)|);
  }

  lemma RunTellsBatchCounters(db: Keyspace, sc: Scope, report: seq<Line>, counts: map<string, nat>)
    requires Sane(db) && multiset(report) == Expected(db, sc) && Tallied(counts, report)
    ensures BatchCountersTell(counts, db, sc)
  {
    BatchCounters(db, sc, report);
    TallyTells(counts, report, "batch lock", |TakenDownWith(db, sc, "")|);
    TallyTells(counts, report, "batch tombstone", |TakenDownWith(db, sc, ":cancelled")|);
  }

  lemma RunTellsQueues(db: Keyspace, sc: Scope)
    requires Sane(db)
    ensures QueuesTell(Applied(db, sc), db, sc)
  {
    forall raw
      ensures Queued(Applied(db, sc), raw) <==> Queued(db, raw) && EntryStays(db, sc, raw)
      ensures Delayed(Applied(db, sc), raw) <==> Delayed(db, raw) && EntryStays(db, sc, raw)
    {
      EntryFate(db, sc, raw);
    }
  }

  /** One run in either mode, its queues and its counters in these words. */
  method SweepOnce(db: Keyspace, apply: bool, sc: Scope) returns (counts: map<string, nat>, after: Keyspace)
    requires Sane(db)
    ensures if apply then QueuesTell(after, db, sc) else after == db
    ensures CountersTell(counts, db, sc) && BatchCountersTell(counts, db, sc)
  {
    var sweeper := new Sweeper(db, apply, sc);
    sweeper.Run();
    counts, after := sweeper.counts, sweeper.db;
    RunTellsCounters(db, sc, sweeper.report, counts);
    RunTellsBatchCounters(db, sc, sweeper.report, counts);
    RunTellsQueues(db, sc);
  }
}
