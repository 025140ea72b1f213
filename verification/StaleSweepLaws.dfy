/**
 What the offline sweep promises its operator: the preview predicts the apply, a second
 apply has nothing to do, and nothing an active job owns is touched.
 */
module StaleSweepLaws {
  import opened Options
  import opened RedisKeyspace
  import opened StaleSweep
  import opened StaleSweepRun

  // ---------------------------------------------------------------- counters

  lemma {:induction false} TallySplit(a: seq<Line>, b: seq<Line>, reason: string)
    ensures Tally(a + b, reason) == Tally(a, reason) + Tally(b, reason)
  {
    if b == [] {
      assert a + b == a;
    } else {
      TallySplit(a, b[..|b| - 1], reason);
      assert (a + b)[..|a + b| - 1] == a + b[..|b| - 1];
    }
  }

  /** The counters depend on what was printed, not on the order. */
  lemma {:induction false} SameLinesSameCounters(a: seq<Line>, b: seq<Line>, reason: string)
    requires multiset(a) == multiset(b)
    ensures Tally(a, reason) == Tally(b, reason)
    decreases |a|
  {
    if a == [] {
      assert |multiset(b)| == 0;
    } else {
      var init, l := a[..|a| - 1], a[|a| - 1];
      WithoutLast(a);
      var i := Occurrence(b, l);
      WithoutOne(b, i);
      SameLinesSameCounters(init, b[..i] + b[i + 1..], reason);
      TallyWithout(b, i, reason);
    }
  }

  lemma WithoutLast(a: seq<Line>)
    requires a != []
    ensures var l := a[|a| - 1]; multiset(a[..|a| - 1]) == multiset(a) - multiset{l} && multiset(a)[l] > 0
  {
    assert a == a[..|a| - 1] + [a[|a| - 1]];
  }

  lemma Occurrence(b: seq<Line>, l: Line) returns (i: nat)
    requires multiset(b)[l] > 0
    ensures i < |b| && b[i] == l
  {
    i :| i < |b| && b[i] == l;
  }

  lemma WithoutOne(b: seq<Line>, i: nat)
    requires i < |b|
    ensures multiset(b[..i] + b[i + 1..]) == multiset(b) - multiset{b[i]}
  {
    assert b == b[..i] + [b[i]] + b[i + 1..];
  }

  lemma TallyWithout(b: seq<Line>, i: nat, reason: string)
    requires i < |b|
    ensures Tally(b, reason) == Tally(b[..i] + b[i + 1..], reason) + (if b[i].Reason() == reason then 1 else 0)
  {
    assert b == b[..i + 1] + b[i + 1..] && b[..i + 1][..i] == b[..i];
    TallySplit(b[..i + 1], b[i + 1..], reason);
    TallySplit(b[..i], b[i + 1..], reason);
  }

  // ---------------------------------------------------------------- a second apply

  /** No line of a run names a job hash, so every verdict on a job stands. */
  lemma JobsUntouched(db: Keyspace, sc: Scope, k: string)
    requires Sane(db) && JOB_PREFIX <= k
    ensures k in Applied(db, sc) <==> k in db
    ensures k in db ==> Applied(db, sc)[k] == db[k]
  {
    QueueKeysApart(k);
    JobsNotNamed(db, sc, k);
    AppliedAt(db, sc, k);
  }

  lemma JobsNotNamed(db: Keyspace, sc: Scope, k: string)
    requires JOB_PREFIX <= k
    ensures k !in KeysOf(KeyLines(db, sc))
    ensures forall v: Value :: Left(k, v, KeyLines(db, sc)) == v
  {
    LineKeysByPrefix(db, sc);
    PrefixLetters(k);
    forall l | l in KeyLines(db, sc) ensures (l.KeyLine? || l.MemberLine?) && l.key != k {
      PrefixLetters(l.key);
    }
  }

  predicate Owned(k: string) {
    LOCK_PREFIX <= k || SLOT_PREFIX <= k || DEDUP_PREFIX <= k
  }

  lemma BatchLineKey(db: Keyspace, id: string, l: Line)
    requires l in BatchLines(db, id)
    ensures (l.KeyLine? || l.MemberLine?) && BATCH_PREFIX <= l.key
  {
    assert BATCH_PREFIX <= BATCH_ACTIVE_SET && BATCH_PREFIX <= BATCH_RESUME_PREFIX;
    if l in StateLines(db, id) {
      assert l.KeyLine? && BATCH_PREFIX <= BATCH_PREFIX + id <= l.key;
    } else {
      assert l in IndexLines(db, id);
    }
  }

  /** Every line but a queue's names a key under one of the swept prefixes. */
  lemma LineKeysByPrefix(db: Keyspace, sc: Scope)
    ensures forall l :: l in KeyLines(db, sc) ==> (l.KeyLine? || l.MemberLine?) && (Owned(l.key) || BATCH_PREFIX <= l.key)
  {
    forall l | l in AllBatchLines(db, StaleBatches(db, sc)) ensures (l.KeyLine? || l.MemberLine?) && BATCH_PREFIX <= l.key {
      var id :| id in StaleBatches(db, sc) && l in BatchLines(db, id);
      BatchLineKey(db, id, l);
    }
  }

  /** The only line that can name an owned key is its own. */
  lemma OwnedKeyLine(db: Keyspace, sc: Scope, k: string, l: Line)
    requires (l.KeyLine? || l.MemberLine?) && l.key == k && Owned(k)
    ensures l in KeyLines(db, sc) ==>
      l.KeyLine? && k in db && OwnerStale(db, sc, if DEDUP_PREFIX <= k then {"pending"} else {}, db[k])
  {
    PrefixLetters(k);
    if l in AllBatchLines(db, StaleBatches(db, sc)) {
      var id :| id in StaleBatches(db, sc) && l in BatchLines(db, id);
      BatchLineKey(db, id, l);
    }
  }

  lemma PrefixLetters(k: string)
    ensures JOB_PREFIX <= k ==> k[7] == 'j'
    ensures LOCK_PREFIX <= k ==> k[7] == 'l'
    ensures SLOT_PREFIX <= k ==> k[7] == 's'
    ensures DEDUP_PREFIX <= k ==> k[7] == 'p'
    ensures BATCH_PREFIX <= k ==> k[7] == 'b'
  {
    assert JOB_PREFIX[7] == 'j' && LOCK_PREFIX[7] == 'l' && SLOT_PREFIX[7] == 's' && DEDUP_PREFIX[7] == 'p'
      && BATCH_PREFIX[7] == 'b';
  }

  lemma VerdictsStand(db: Keyspace, sc: Scope)
    requires Sane(db)
    ensures ActiveIds(Applied(db, sc), sc) == ActiveIds(db, sc)
    ensures forall raw :: EntryStale(Applied(db, sc), sc, raw) <==> EntryStale(db, sc, raw)
  {
    forall k | JOB_PREFIX <= k
      ensures k in Applied(db, sc) <==> k in db
      ensures k in db ==> Applied(db, sc)[k] == db[k]
    {
      JobsUntouched(db, sc, k);
    }
    forall raw ensures EntryStale(Applied(db, sc), sc, raw) <==> EntryStale(db, sc, raw) {
      assert JOB_PREFIX <= JOB_PREFIX + JobOf(sc, raw);
    }
    forall id: string ensures IsActive(Applied(db, sc), sc, id) <==> IsActive(db, sc, id) {
      assert JOB_PREFIX <= JOB_PREFIX + id;
    }
  }

  /** What an apply leaves of one key outside the queues. */
  lemma AppliedAt(db: Keyspace, sc: Scope, k: string)
    requires Sane(db) && k != JOB_LIST && k != DELAYED_SET
    ensures k in Applied(db, sc) <==>
      k in db && k !in KeysOf(KeyLines(db, sc)) && !Empty(Left(k, db[k], KeyLines(db, sc)))
    ensures k in Applied(db, sc) ==> Applied(db, sc)[k] == Left(k, db[k], KeyLines(db, sc))
  {
    SnapshotOf(db, sc);
  }

  /** The queues after an apply: the order-preserving filter of what was there. */
  lemma AppliedQueues(db: Keyspace, sc: Scope)
    requires Sane(db)
    ensures QueueItems(Applied(db, sc)) == LiveEntries(db, sc, QueueItems(db))
    ensures DelayedItems(Applied(db, sc)) == LiveEntries(db, sc, DelayedItems(db))
  {
    var swept, ls := QueuesSwept(db, sc), KeyLines(db, sc);
    SweptQueues(db, sc);
    QueuesNotNamed(db, sc);
  }

  lemma QueuesNotNamed(db: Keyspace, sc: Scope)
    ensures JOB_LIST !in KeysOf(KeyLines(db, sc)) && DELAYED_SET !in KeysOf(KeyLines(db, sc))
  {
    LineKeysByPrefix(db, sc);
    QueueKeysApart(JOB_LIST);
    QueueKeysApart(DELAYED_SET);
  }

  lemma SweptQueues(db: Keyspace, sc: Scope)
    requires Sane(db)
    ensures var swept := QueuesSwept(db, sc);
      && QueueItems(swept) == LiveEntries(db, sc, QueueItems(db))
      && DelayedItems(swept) == LiveEntries(db, sc, DelayedItems(db))
      && (JOB_LIST in swept ==> swept[JOB_LIST].List? && !Empty(swept[JOB_LIST]))
      && (DELAYED_SET in swept ==> swept[DELAYED_SET].ZSet? && !Empty(swept[DELAYED_SET]))
  {
    assert JOB_LIST != DELAYED_SET by { assert JOB_LIST[7] != DELAYED_SET[7]; }
    var d1 := QueueSwept(db, sc);
    PutAt(db, JOB_LIST, List(LiveEntries(db, sc, QueueItems(db))), DELAYED_SET);
    PutAt(d1, DELAYED_SET, ZSet(LiveEntries(db, sc, DelayedItems(db))), JOB_LIST);
  }

  lemma PutAt(db: Keyspace, key: string, v: Value, other: string)
    requires other != key
    ensures key in Put(db, key, v) <==> !Empty(v)
    ensures !Empty(v) ==> Put(db, key, v)[key] == v
    ensures other in Put(db, key, v) <==> other in db
    ensures other in db ==> Put(db, key, v)[other] == db[other]
  {
  }

  lemma {:induction false} NothingStalePrintsNothing(db: Keyspace, sc: Scope, items: seq<string>, line: string -> Line)
    requires forall x :: x in items ==> !EntryStale(db, sc, x)
    ensures EntryLines(db, sc, items, line) == []
  {
    if items != [] {
      NothingStalePrintsNothing(db, sc, items[..|items| - 1], line);
    }
  }

  lemma OwnedLinesGone(db: Keyspace, sc: Scope, prefix: string, spared: set<string>, reason: string)
    requires Sane(db) && prefix in {LOCK_PREFIX, SLOT_PREFIX, DEDUP_PREFIX}
    requires OwnedLines(db, sc, prefix, spared, reason) <= KeyLines(db, sc)
    ensures OwnedLines(Applied(db, sc), sc, prefix, spared, reason) == {}
  {
    VerdictsStand(db, sc);
    forall k | k in Applied(db, sc) && prefix <= k ensures !OwnerStale(db, sc, spared, Applied(db, sc)[k]) {
      QueueKeysApart(k);
      AppliedAt(db, sc, k);
      assert KeyLine(k, reason) !in KeyLines(db, sc);
      assert KeyLine(k, reason) !in OwnedLines(db, sc, prefix, spared, reason);
    }
  }

  lemma IndexMembersShrink(db: Keyspace, sc: Scope, k: string)
    requires Sane(db) && BATCH_PREFIX <= k
    ensures IndexMembers(Applied(db, sc), k) <= IndexMembers(db, k)
  {
    QueueKeysApart(k);
    AppliedAt(db, sc, k);
  }

  /** A key of a batch that is not taken down keeps its value. */
  lemma LiveBatchKeyKept(db: Keyspace, sc: Scope, id: string, x: string)
    requires Sane(db) && Minted(id) && StateSuffix(x) && id !in StaleBatches(db, sc)
    ensures BATCH_PREFIX + id + x in Applied(db, sc) <==> BATCH_PREFIX + id + x in db
    ensures BATCH_PREFIX + id + x in db ==> Applied(db, sc)[BATCH_PREFIX + id + x] == db[BATCH_PREFIX + id + x]
  {
    var k := BATCH_PREFIX + id + x;
    assert BATCH_PREFIX <= k;
    QueueKeysApart(k);
    AppliedAt(db, sc, k);
    KeyLinesOnlyBatches(db, sc);
    StateKeyUntouched(KeyLines(db, sc), StaleBatches(db, sc), id, x);
    assert k in db ==> Left(k, db[k], KeyLines(db, sc)) == db[k];
  }

  lemma KeyLinesOnlyBatches(db: Keyspace, sc: Scope)
    requires Sane(db)
    ensures OnlyBatches(KeyLines(db, sc), StaleBatches(db, sc))
    ensures forall id :: id in StaleBatches(db, sc) ==> Minted(id)
  {
    OwnedApart(db, sc);
    BatchIdsMinted(db);
    forall l | l in AllBatchLines(db, StaleBatches(db, sc)) ensures OnlyBatches({l}, StaleBatches(db, sc)) {
      var id :| id in StaleBatches(db, sc) && l in BatchLines(db, id);
      BatchLinesOwned(db, id);
    }
    forall l | l in KeyLines(db, sc) ensures OnlyBatches({l}, StaleBatches(db, sc)) {
      if l in AllBatchLines(db, StaleBatches(db, sc)) {
        assert OnlyBatches({l}, StaleBatches(db, sc));
      } else {
        assert l in LockLines(db, sc) + SlotLines(db, sc) + DedupLines(db, sc);
      }
    }
    assert forall l :: l in KeyLines(db, sc) ==> l in {l} && OnlyBatches({l}, StaleBatches(db, sc));
  }

  lemma StaleBatchGone(db: Keyspace, sc: Scope, id: string)
    requires Sane(db) && id in StaleBatches(db, sc)
    ensures BatchLines(Applied(db, sc), id) == {}
  {
    var after := Applied(db, sc);
    assert forall l :: l in BatchLines(db, id) ==> l in KeyLines(db, sc);
    forall x | StateSuffix(x) ensures BATCH_PREFIX + id + x !in after {
      var k := BATCH_PREFIX + id + x;
      assert BATCH_PREFIX <= k;
      QueueKeysApart(k);
      AppliedAt(db, sc, k);
      if k in db {
        if x == "" {
          assert k == BATCH_PREFIX + id;
          assert KeyLine(k, "batch lock") in StateLines(db, id);
        } else {
          assert KeyLine(k, SuffixReason(x)) in StateLines(db, id);
        }
      }
    }
    assert BATCH_PREFIX + id + "" == BATCH_PREFIX + id && StateSuffix("");
    forall k | IsIndex(k) ensures id !in IndexMembers(after, k) {
      IndexKeysAreNobodys(k);
      QueueKeysApart(k);
      AppliedAt(db, sc, k);
      if id in IndexMembers(db, k) {
        assert MemberLine(k, id) in IndexLines(db, id);
      }
    }
    assert StateLines(after, id) == {};
    assert IndexLines(after, id) == {};
  }

  /** Nothing is left for a second apply. */
  lemma SecondApplyReportsNothing(db: Keyspace, sc: Scope)
    requires Sane(db)
    ensures Expected(Applied(db, sc), sc) == multiset{}
  {
    var after := Applied(db, sc);
    VerdictsStand(db, sc);
    AppliedQueues(db, sc);
    NothingStalePrintsNothing(after, sc, QueueItems(after), id => QueueLine(id));
    NothingStalePrintsNothing(after, sc, DelayedItems(after), id => DelayedLine(id));
    OwnedLinesGone(db, sc, LOCK_PREFIX, {}, "lock");
    OwnedLinesGone(db, sc, SLOT_PREFIX, {}, "slot");
    OwnedLinesGone(db, sc, DEDUP_PREFIX, {"pending"}, "dedup");
    forall id | id in StaleBatches(after, sc) ensures BatchLines(after, id) == {} {
      StillStale(db, sc, id);
      StaleBatchGone(db, sc, id);
    }
    assert AllBatchLines(after, StaleBatches(after, sc)) == {};
    assert KeyLines(after, sc) == {};
  }

  lemma StillStale(db: Keyspace, sc: Scope, id: string)
    requires Sane(db)
    ensures id in StaleBatches(Applied(db, sc), sc) ==> id in StaleBatches(db, sc)
  {
    if id in StaleBatches(Applied(db, sc), sc) {
      var after := Applied(db, sc);
      VerdictsStand(db, sc);
      IndexMembersShrink(db, sc, BATCH_ACTIVE_SET);
      forall k | k in after && BATCH_PREFIX <= k ensures k in db {
        QueueKeysApart(k);
        AppliedAt(db, sc, k);
      }
      assert id in BatchIds(db);
      BatchIdsMinted(db);
      if id !in StaleBatches(db, sc) {
        LiveBatchKeyKept(db, sc, id, ":jobs");
      }
    }
  }

  lemma AppliedIsSane(db: Keyspace, sc: Scope)
    requires Sane(db)
    ensures Sane(Applied(db, sc))
  {
    SweptQueuesKeepVerdicts(db, sc);
    var swept := QueuesSwept(db, sc);
    var after := Applied(db, sc);
    assert forall k :: k in after ==> k in swept && after[k] == Left(k, swept[k], KeyLines(db, sc));
    assert IndexMembers(after, BATCH_ACTIVE_SET) <= IndexMembers(swept, BATCH_ACTIVE_SET);
  }

  /** The operator's session: preview, apply, apply again. The preview printed what the apply
      removed, with the same counters; the second apply prints nothing. */
  method PreviewThenApply(db: Keyspace, sc: Scope)
    returns (preview: seq<Line>, removed: seq<Line>, again: seq<Line>, after: Keyspace,
             foreseen: map<string, nat>, counted: map<string, nat>)
    requires Sane(db)
    ensures multiset(preview) == multiset(removed)
    ensures forall reason :: Counted(foreseen, reason) == Counted(counted, reason)
    ensures after == Applied(db, sc)
    ensures again == []
  {
    var dry := new Sweeper(db, false, sc);
    dry.Run();
    assert dry.db == db;
    preview, foreseen := dry.report, dry.counts;
    var wet := new Sweeper(dry.db, true, sc);
    wet.Run();
    removed, counted, after := wet.report, wet.counts, wet.db;
    forall reason ensures Counted(foreseen, reason) == Counted(counted, reason) {
      SameLinesSameCounters(preview, removed, reason);
    }
    AppliedIsSane(db, sc);
    SecondApplyReportsNothing(db, sc);
    var wetAgain := new Sweeper(after, true, sc);
    wetAgain.Run();
    again := wetAgain.report;
    assert |multiset(again)| == 0;
  }

  // ---------------------------------------------------------------- live work survives

  lemma {:induction false} LiveEntriesCount(db: Keyspace, sc: Scope, items: seq<string>, raw: string)
    requires !EntryStale(db, sc, raw)
    ensures multiset(LiveEntries(db, sc, items))[raw] == multiset(items)[raw]
  {
    if items != [] {
      var init, last := items[..|items| - 1], items[|items| - 1];
      LiveEntriesCount(db, sc, init, raw);
      assert items == init + [last];
      var kept := LiveEntries(db, sc, init);
      if EntryStale(db, sc, last) {
        assert LiveEntries(db, sc, items) == kept + [] == kept;
      } else {
        assert LiveEntries(db, sc, items) == kept + [last];
      }
    }
  }

  /** Without a batch limit: an active job keeps its hash, every queue entry naming it as often as
      it was queued, and every lock, slot and dedup key it owns. */
  lemma ActiveJobKeepsEverything(db: Keyspace, sc: Scope, id: string, raw: string, k: string)
    requires Sane(db) && sc.batch == "" && id != "" && id in ActiveIds(db, sc)
    ensures JOB_PREFIX + id in Applied(db, sc) && Applied(db, sc)[JOB_PREFIX + id] == db[JOB_PREFIX + id]
    ensures sc.jobIdOf(raw) == Some(id) ==>
      multiset(QueueItems(Applied(db, sc)))[raw] == multiset(QueueItems(db))[raw]
      && multiset(DelayedItems(Applied(db, sc)))[raw] == multiset(DelayedItems(db))[raw]
    ensures k in db && Owned(k) && db[k].text == id ==>
      k in Applied(db, sc) && Applied(db, sc)[k] == db[k]
  {
    assert IsActive(db, sc, id);
    JobsUntouched(db, sc, JOB_PREFIX + id);
    if sc.jobIdOf(raw) == Some(id) {
      ActiveIsNotTerminal();
      assert !EntryStale(db, sc, raw);
      AppliedQueues(db, sc);
      LiveEntriesCount(db, sc, QueueItems(db), raw);
      LiveEntriesCount(db, sc, DelayedItems(db), raw);
    }
    if k in db && Owned(k) && db[k].text == id {
      OwnedKeyFate(db, sc, k);
    }
  }

  lemma ActiveIsNotTerminal()
    ensures ACTIVE_STATUSES !! TERMINAL_STATUSES
  {
    assert "queued"[0] == 'q' && "processing"[0] == 'p' && "waiting"[0] == 'w' && "started"[0] == 's'
      && "uploading"[0] == 'u' && "sending"[0] == 's';
    assert "done"[0] == 'd' && "completed"[0] == 'c' && "error"[0] == 'e' && "failed"[0] == 'f'
      && "cancelled"[0] == 'c' && "canceled"[0] == 'c';
  }

  /** A lock, slot or dedup key goes exactly when its owner is not active in the run's scope. */
  lemma OwnedKeyFate(db: Keyspace, sc: Scope, k: string)
    requires Sane(db) && k in db && Owned(k)
    ensures k in Applied(db, sc) <==>
      db[k].text in ActiveIds(db, sc) || (DEDUP_PREFIX <= k && db[k].text == "pending")
    ensures k in Applied(db, sc) ==> Applied(db, sc)[k] == db[k]
  {
    QueueKeysApart(k);
    AppliedAt(db, sc, k);
    PrefixLetters(k);
    forall l | l in KeyLines(db, sc) && (l.KeyLine? || l.MemberLine?) && l.key == k
      ensures l.KeyLine? && OwnerStale(db, sc, if DEDUP_PREFIX <= k then {"pending"} else {}, db[k])
    {
      OwnedKeyLine(db, sc, k, l);
    }
    if OwnerStale(db, sc, if DEDUP_PREFIX <= k then {"pending"} else {}, db[k]) {
      var reason := if LOCK_PREFIX <= k then "lock" else if SLOT_PREFIX <= k then "slot" else "dedup";
      assert KeyLine(k, reason) in KeyLines(db, sc);
    } else {
      assert k !in KeysOf(KeyLines(db, sc));
    }
  }

  /** A batch that is not taken down keeps its place in every index. */
  lemma LiveIndexKept(db: Keyspace, sc: Scope, batch: string, k: string)
    requires Sane(db) && Minted(batch) && batch !in StaleBatches(db, sc)
    requires IsIndex(k) && batch in IndexMembers(db, k)
    ensures batch in IndexMembers(Applied(db, sc), k)
  {
    var ls := KeyLines(db, sc);
    KeyLinesOnlyBatches(db, sc);
    IndexNeverDeleted(ls, StaleBatches(db, sc), batch, k);
    IndexKeysAreNobodys(k);
    QueueKeysApart(k);
    AppliedAt(db, sc, k);
    MemberLeft(k, db[k], ls, batch);
  }

  lemma MemberLeft(k: string, v: Value, ls: set<Line>, m: string)
    requires v.Set? && m in v.members && MemberLine(k, m) !in ls
    ensures Left(k, v, ls).Set? && m in Left(k, v, ls).members && !Empty(Left(k, v, ls))
  {
  }

  lemma IndexNeverDeleted(ls: set<Line>, ids: set<string>, batch: string, k: string)
    requires OnlyBatches(ls, ids) && (forall i :: i in ids ==> Minted(i)) && batch !in ids && IsIndex(k)
    ensures k !in KeysOf(ls) && MemberLine(k, batch) !in ls
  {
    IndexKeysAreNobodys(k);
  }

  /** Without a batch limit: a batch with an active member keeps all of its state. */
  lemma ActiveBatchKeepsState(db: Keyspace, sc: Scope, batch: string, member: string, x: string)
    requires Sane(db) && Minted(batch) && StateSuffix(x)
    requires member in IndexMembers(db, BATCH_PREFIX + batch + ":jobs") && member in ActiveIds(db, sc)
    ensures BATCH_PREFIX + batch + x in Applied(db, sc) <==> BATCH_PREFIX + batch + x in db
    ensures BATCH_PREFIX + batch + x in db ==> Applied(db, sc)[BATCH_PREFIX + batch + x] == db[BATCH_PREFIX + batch + x]
    ensures forall k :: IsIndex(k) && batch in IndexMembers(db, k) ==> batch in IndexMembers(Applied(db, sc), k)
  {
    LiveBatchKeyKept(db, sc, batch, x);
    forall k | IsIndex(k) && batch in IndexMembers(db, k) ensures batch in IndexMembers(Applied(db, sc), k) {
      LiveIndexKept(db, sc, batch, k);
    }
  }

  /** With a batch limit the promise breaks: a lock owned by an active job survives exactly when that
      job belongs to the selected batch, so every other batch's live locks are removed. */
  lemma BatchLimitRemovesForeignLocks(db: Keyspace, sc: Scope, k: string)
    requires Sane(db) && sc.batch != "" && k in db && LOCK_PREFIX <= k
    requires IsActive(db, sc.(batch := ""), db[k].text)
    ensures k in Applied(db, sc) <==> Field(db[JOB_PREFIX + db[k].text].fields, "batch_id") == sc.batch
  {
    OwnedKeyFate(db, sc, k);
    PrefixLetters(k);
  }

  /** A queued job of one batch with its lock, and a run limited to another batch. */
  function ForeignLock(): Keyspace {
    map[JOB_PREFIX + "j" := Hash(map["status" := "queued", "batch_id" := "b2"]), LOCK_PREFIX + "x" := Str("j")]
  }

  lemma ForeignLockExample(jobIdOf: string -> Option<string>)
    ensures var db, sc := ForeignLock(), Scope("b1", jobIdOf);
      Sane(db) && IsActive(db, sc.(batch := ""), "j") && LOCK_PREFIX + "x" in db && LOCK_PREFIX + "x" !in Applied(db, sc)
  {
    var db, sc := ForeignLock(), Scope("b1", jobIdOf);
    var job, lock := JOB_PREFIX + "j", LOCK_PREFIX + "x";
    PrefixLetters(job);
    PrefixLetters(lock);
    QueueKeysApart(job);
    QueueKeysApart(lock);
    assert job != lock && BATCH_PREFIX <= BATCH_ACTIVE_SET;
    PrefixLetters(BATCH_ACTIVE_SET);
    assert forall k :: k in db ==> k == job || k == lock;
    assert "status" != "batch_id" by { assert |"status"| != |"batch_id"|; }
    assert Field(db[job].fields, "batch_id") == "b2" && "b2" != "b1" by { assert "b2"[1] != "b1"[1]; }
    BatchLimitRemovesForeignLocks(db, sc, lock);
  }
}
