/**
 One run of the offline sweep, pass by pass (scripts/cleanup_stale_redis.py, `main`). The
 ghost fields tie the keyspace a mode has reached so far to the lines printed so far: a
 dry run never leaves `base`, an apply is at `base` without what `done` names.
 */
module StaleSweepRun {
  import opened Collections
  import opened RedisKeyspace
  import opened StaleSweep

  function Tally(report: seq<Line>, reason: string): nat {
    if report == [] then 0
    else Tally(report[..|report| - 1], reason) + (if report[|report| - 1].Reason() == reason then 1 else 0)
  }

  function Counted(counts: map<string, nat>, reason: string): nat {
    if reason in counts then counts[reason] else 0
  }

  // ---------------------------------------------------------------- lookups along the way

  predicate NoneEmpty(db: Keyspace) {
    forall k :: k in db ==> !Empty(db[k])
  }

  predicate Untouched(ls: set<Line>, k: string) {
    forall l :: l in ls && (l.KeyLine? || l.MemberLine?) ==> l.key != k
  }

  lemma UntouchedLookup(base: Keyspace, ls: set<Line>, k: string)
    requires NoneEmpty(base) && Untouched(ls, k)
    ensures k in Purged(base, ls) <==> k in base
    ensures k in base ==> Purged(base, ls)[k] == base[k]
  {
    assert k !in KeysOf(ls);
    assert k in base ==> Left(k, base[k], ls) == base[k];
  }

  lemma PurgedNothing(base: Keyspace)
    requires NoneEmpty(base)
    ensures Purged(base, {}) == base
  {
    forall k | k in base ensures Left(k, base[k], {}) == base[k] {}
  }

  lemma PurgedKey(base: Keyspace, ls: set<Line>, key: string, reason: string)
    ensures Purged(base, ls) - {key} == Purged(base, ls + {KeyLine(key, reason)})
  {
    var more := ls + {KeyLine(key, reason)};
    assert KeysOf(more) == KeysOf(ls) + {key};
    forall k | k in base ensures Left(k, base[k], more) == Left(k, base[k], ls) {}
  }

  lemma PurgedMember(base: Keyspace, ls: set<Line>, key: string, m: string)
    requires key in Purged(base, ls) && Purged(base, ls)[key].Set?
    ensures Put(Purged(base, ls), key, Set(Purged(base, ls)[key].members - {m}))
      == Purged(base, ls + {MemberLine(key, m)})
  {
    var more := ls + {MemberLine(key, m)};
    assert KeysOf(more) == KeysOf(ls);
    forall k | k in base && k != key ensures Left(k, base[k], more) == Left(k, base[k], ls) {}
    assert Left(key, base[key], more) == Set(Purged(base, ls)[key].members - {m});
  }

  lemma MembersLeft(base: Keyspace, ls: set<Line>, key: string, m: string)
    requires key !in KeysOf(ls) && MemberLine(key, m) !in ls
    ensures m in IndexMembers(Purged(base, ls), key) <==> m in IndexMembers(base, key)
  {
    if key in base && base[key].Set? && m in base[key].members {
      assert m in Left(key, base[key], ls).members;
    }
  }

  // ---------------------------------------------------------------- whose line is it

  lemma {:induction false} UpToColonOf(id: string, rest: string)
    requires ColonFree(id) && (rest == "" || rest[0] == ':')
    ensures UpToColon(id + rest) == id
  {
    if id == "" {
      assert id + rest == rest;
    } else {
      assert (id + rest)[0] == id[0] && (id + rest)[1..] == id[1..] + rest;
      UpToColonOf(id[1..], rest);
    }
  }

  lemma BatchKeyOwner(id: string, rest: string)
    requires ColonFree(id) && (rest == "" || rest[0] == ':')
    ensures BATCH_PREFIX <= BATCH_PREFIX + id + rest && BatchIdOf(BATCH_PREFIX + id + rest) == id
  {
    UpToColonOf(id, rest);
    assert (BATCH_PREFIX + id + rest)[|BATCH_PREFIX|..] == id + rest;
  }

  predicate IsIndex(k: string) {
    k == BATCH_ACTIVE_SET || BATCH_RESUME_PREFIX <= k
  }

  lemma IndexKeysAreNobodys(k: string)
    requires IsIndex(k)
    ensures BATCH_PREFIX <= k && BatchIdOf(k) in {"active", "resume"}
  {
    if k == BATCH_ACTIVE_SET {
      BatchKeyOwner("active", "");
      assert BATCH_PREFIX + "active" + "" == k;
    } else {
      var tail := k[|BATCH_RESUME_PREFIX|..];
      BatchKeyOwner("resume", ":" + tail);
      assert BATCH_PREFIX + "resume" + (":" + tail) == k;
    }
  }

  /** Lines printed so far: nothing under the batch prefix but what the batches in `ids` own. */
  predicate OnlyBatches(ls: set<Line>, ids: set<string>) {
    forall l :: l in ls ==>
      match l
      case KeyLine(k, _) => BATCH_PREFIX <= k ==> BatchIdOf(k) in ids
      case MemberLine(k, m) => IsIndex(k) && m in ids
      case _ => false
  }

  predicate StateSuffix(x: string) {
    x == "" || x in BATCH_STATE_SUFFIXES
  }

  lemma BatchLinesOwned(base: Keyspace, id: string)
    requires Minted(id)
    ensures OnlyBatches(BatchLines(base, id), {id})
  {
    forall x | StateSuffix(x) ensures BATCH_PREFIX <= BATCH_PREFIX + id + x && BatchIdOf(BATCH_PREFIX + id + x) == id {
      BatchKeyOwner(id, x);
    }
    assert BATCH_PREFIX + id + "" == BATCH_PREFIX + id;
    assert StateSuffix("");
    assert OnlyBatches(StateLines(base, id), {id});
    assert OnlyBatches(IndexLines(base, id), {id});
  }

  lemma StateKeyUntouched(ls: set<Line>, ids: set<string>, id: string, x: string)
    requires OnlyBatches(ls, ids) && Minted(id) && id !in ids && StateSuffix(x)
    ensures Untouched(ls, BATCH_PREFIX + id + x)
  {
    BatchKeyOwner(id, x);
    var key := BATCH_PREFIX + id + x;
    forall l | l in ls && (l.KeyLine? || l.MemberLine?) ensures l.key != key {
      if l.MemberLine? {
        IndexKeysAreNobodys(l.key);
      }
    }
  }

  lemma SameUnder(base: Keyspace, ls: set<Line>, prefix: string)
    requires NoneEmpty(base) && forall k :: prefix <= k ==> Untouched(ls, k)
    ensures KeysUnder(Purged(base, ls), prefix) == KeysUnder(base, prefix)
    ensures forall k :: k in KeysUnder(base, prefix) ==> Purged(base, ls)[k] == base[k]
  {
    forall k | prefix <= k ensures k in Purged(base, ls) <==> k in base ensures k in base ==> Purged(base, ls)[k] == base[k] {
      UntouchedLookup(base, ls, k);
    }
  }

  /** The lines the loop over one scan has printed for a prefix of its keys. */
  function OwnedAmong(db: Keyspace, sc: Scope, spared: set<string>, reason: string, keys: seq<string>): set<Line> {
    if keys == [] then {}
    else
      var k := keys[|keys| - 1];
      OwnedAmong(db, sc, spared, reason, keys[..|keys| - 1])
      + (if k in db && OwnerStale(db, sc, spared, db[k]) then {KeyLine(k, reason)} else {})
  }

  lemma {:induction false} OwnedAmongKeys(db: Keyspace, sc: Scope, spared: set<string>, reason: string, keys: seq<string>)
    ensures forall l :: l in OwnedAmong(db, sc, spared, reason, keys) <==>
      l.KeyLine? && l.reason == reason && l.key in keys && l.key in db && OwnerStale(db, sc, spared, db[l.key])
  {
    if keys != [] {
      OwnedAmongKeys(db, sc, spared, reason, keys[..|keys| - 1]);
      assert forall k :: k in keys <==> k in keys[..|keys| - 1] || k == keys[|keys| - 1];
    }
  }

  lemma OwnedAmongStep(db: Keyspace, sc: Scope, spared: set<string>, reason: string, ls: set<Line>,
                       keys: seq<string>, n: nat)
    requires n < |keys| && keys[n] in db
    ensures ls + OwnedAmong(db, sc, spared, reason, keys[..n + 1])
      == ls + OwnedAmong(db, sc, spared, reason, keys[..n])
        + (if OwnerStale(db, sc, spared, db[keys[n]]) then {KeyLine(keys[n], reason)} else {})
  {
    assert keys[..n + 1][..n] == keys[..n];
  }

  lemma StillUntouched(db: Keyspace, sc: Scope, spared: set<string>, reason: string, ls: set<Line>,
                       keys: seq<string>, key: string)
    requires Untouched(ls, key) && key !in keys
    ensures Untouched(ls + OwnedAmong(db, sc, spared, reason, keys), key)
  {
    OwnedAmongKeys(db, sc, spared, reason, keys);
  }

  lemma OwnedAmongAll(db: Keyspace, sc: Scope, prefix: string, spared: set<string>, reason: string, keys: seq<string>)
    requires Elements(keys) == KeysUnder(db, prefix)
    ensures OwnedAmong(db, sc, spared, reason, keys) == OwnedLines(db, sc, prefix, spared, reason)
  {
    OwnedAmongKeys(db, sc, spared, reason, keys);
    assert forall k :: k in keys <==> k in Elements(keys);
  }

  /** The state lines once the first `n` suffixes have been looked at. */
  function StateLinesUpTo(db: Keyspace, id: string, n: nat): set<Line>
    requires n <= |BATCH_STATE_SUFFIXES|
  {
    if n == 0 then IfPresent(BATCH_PREFIX + id in db, KeyLine(BATCH_PREFIX + id, "batch lock"))
    else
      var x := BATCH_STATE_SUFFIXES[n - 1];
      StateLinesUpTo(db, id, n - 1) + IfPresent(BATCH_PREFIX + id + x in db, KeyLine(BATCH_PREFIX + id + x, SuffixReason(x)))
  }

  lemma {:induction false} StateLinesMembers(db: Keyspace, id: string, n: nat, l: Line)
    requires n <= |BATCH_STATE_SUFFIXES|
    ensures l in StateLinesUpTo(db, id, n) <==>
      (l == KeyLine(BATCH_PREFIX + id, "batch lock") && BATCH_PREFIX + id in db)
      || exists i :: 0 <= i < n && IsSuffixLine(db, id, BATCH_STATE_SUFFIXES[i], l)
  {
    if n > 0 {
      StateLinesMembers(db, id, n - 1, l);
      assert l in StateLinesUpTo(db, id, n) <==>
        l in StateLinesUpTo(db, id, n - 1) || IsSuffixLine(db, id, BATCH_STATE_SUFFIXES[n - 1], l);
    }
  }

  ghost predicate IsSuffixLine(db: Keyspace, id: string, x: string, l: Line) {
    BATCH_PREFIX + id + x in db && l == KeyLine(BATCH_PREFIX + id + x, SuffixReason(x))
  }

  lemma StateLinesUntouched(db: Keyspace, id: string, n: nat)
    requires n < |BATCH_STATE_SUFFIXES|
    ensures Untouched(StateLinesUpTo(db, id, n), BATCH_PREFIX + id + BATCH_STATE_SUFFIXES[n])
  {
    var p := BATCH_PREFIX + id;
    var x := BATCH_STATE_SUFFIXES[n];
    forall l | l in StateLinesUpTo(db, id, n) ensures l.KeyLine? && l.key != p + x {
      StateLinesMembers(db, id, n, l);
      if i :| 0 <= i < n && IsSuffixLine(db, id, BATCH_STATE_SUFFIXES[i], l) {
        assert (p + x)[|p|..] == x && l.key[|p|..] == BATCH_STATE_SUFFIXES[i];
      } else {
        assert |l.key| == |p| && |x| > 0;
      }
    }
  }

  lemma NextStateKey(db: Keyspace, ls: set<Line>, ids: set<string>, id: string, n: nat)
    requires n < |BATCH_STATE_SUFFIXES| && Minted(id) && id !in ids && OnlyBatches(ls, ids)
    ensures Untouched(ls + StateLinesUpTo(db, id, n), BATCH_PREFIX + id + BATCH_STATE_SUFFIXES[n])
    ensures ls + StateLinesUpTo(db, id, n + 1) == ls + StateLinesUpTo(db, id, n)
      + IfPresent(BATCH_PREFIX + id + BATCH_STATE_SUFFIXES[n] in db,
                  KeyLine(BATCH_PREFIX + id + BATCH_STATE_SUFFIXES[n], SuffixReason(BATCH_STATE_SUFFIXES[n])))
  {
    StateKeyUntouched(ls, ids, id, BATCH_STATE_SUFFIXES[n]);
    StateLinesUntouched(db, id, n);
  }

  lemma AllStateLines(db: Keyspace, id: string)
    ensures StateLinesUpTo(db, id, |BATCH_STATE_SUFFIXES|) == StateLines(db, id)
  {
    forall l ensures l in StateLinesUpTo(db, id, |BATCH_STATE_SUFFIXES|) <==> l in StateLines(db, id) {
      StateLinesMembers(db, id, |BATCH_STATE_SUFFIXES|, l);
      forall x | x in BATCH_STATE_SUFFIXES && IsSuffixLine(db, id, x, l)
        ensures exists i :: 0 <= i < |BATCH_STATE_SUFFIXES| && IsSuffixLine(db, id, BATCH_STATE_SUFFIXES[i], l)
      {
        var i :| 0 <= i < |BATCH_STATE_SUFFIXES| && BATCH_STATE_SUFFIXES[i] == x;
      }
    }
  }

  /** Nothing printed so far removed an index or took `id` out of one. */
  predicate NotIndexed(ls: set<Line>, id: string) {
    forall l :: l in ls ==> match l
      case KeyLine(k, _) => !IsIndex(k)
      case MemberLine(_, m) => m != id
      case _ => true
  }

  function ActiveLine(base: Keyspace, id: string): set<Line> {
    IfPresent(id in IndexMembers(base, BATCH_ACTIVE_SET), MemberLine(BATCH_ACTIVE_SET, id))
  }

  /** A resume record a stale batch is still in cannot have been dropped. */
  lemma ResumesStay(base: Keyspace, ls: set<Line>, id: string)
    requires NotIndexed(ls, id)
    ensures forall k :: BATCH_RESUME_PREFIX <= k && k in base && id in IndexMembers(base, k) ==>
      k in Purged(base, ls + ActiveLine(base, id))
  {
    var more := ls + ActiveLine(base, id);
    forall k | BATCH_RESUME_PREFIX <= k && k in base && id in IndexMembers(base, k) ensures k in Purged(base, more) {
      assert k !in KeysOf(more) && MemberLine(k, id) !in more;
      MembersLeft(base, more, k, id);
    }
  }

  function ResumeAmong(db: Keyspace, id: string, keys: seq<string>): set<Line> {
    if keys == [] then {}
    else
      var k := keys[|keys| - 1];
      ResumeAmong(db, id, keys[..|keys| - 1]) + IfPresent(id in IndexMembers(db, k), MemberLine(k, id))
  }

  lemma {:induction false} ResumeAmongMembers(db: Keyspace, id: string, keys: seq<string>)
    ensures forall l :: l in ResumeAmong(db, id, keys) <==>
      l.MemberLine? && l.member == id && l.key in keys && id in IndexMembers(db, l.key)
  {
    if keys != [] {
      ResumeAmongMembers(db, id, keys[..|keys| - 1]);
      assert forall k :: k in keys <==> k in keys[..|keys| - 1] || k == keys[|keys| - 1];
    }
  }

  lemma NextResume(db: Keyspace, before: set<Line>, id: string, keys: seq<string>, n: nat)
    requires n < |keys| && forall i, j :: 0 <= i < j < |keys| ==> keys[i] != keys[j]
    requires NotIndexed(before, id) && BATCH_RESUME_PREFIX <= keys[n]
    ensures var ls := before + ActiveLine(db, id);
      && ls + ResumeAmong(db, id, keys[..n + 1])
        == ls + ResumeAmong(db, id, keys[..n]) + IfPresent(id in IndexMembers(db, keys[n]), MemberLine(keys[n], id))
      && MemberLine(keys[n], id) !in ls + ResumeAmong(db, id, keys[..n])
      && keys[n] !in KeysOf(ls + ResumeAmong(db, id, keys[..n]))
  {
    assert keys[..n + 1][..n] == keys[..n];
    ResumeAmongMembers(db, id, keys[..n]);
  }

  predicate ScannedResumes(db: Keyspace, id: string, keys: seq<string>) {
    && (forall i :: 0 <= i < |keys| ==> keys[i] in db && BATCH_RESUME_PREFIX <= keys[i])
    && (forall k :: k in db && BATCH_RESUME_PREFIX <= k && id in IndexMembers(db, k) ==> k in Elements(keys))
  }

  lemma AllResumeLines(db: Keyspace, id: string, ls: set<Line>, keys: seq<string>)
    requires ScannedResumes(db, id, keys)
    ensures ls + ActiveLine(db, id) + ResumeAmong(db, id, keys) == ls + IndexLines(db, id)
  {
    ResumeAmongMembers(db, id, keys);
  }

  lemma StateLinesOwned(base: Keyspace, ls: set<Line>, ids: set<string>, id: string)
    requires Minted(id) && id !in ids && OnlyBatches(ls, ids)
    requires forall i :: i in ids ==> Minted(i)
    ensures NotIndexed(ls + StateLines(base, id), id)
  {
    BatchLinesOwned(base, id);
    forall l | l in ls + StateLines(base, id) && l.KeyLine? ensures !IsIndex(l.key) {
      if IsIndex(l.key) {
        IndexKeysAreNobodys(l.key);
      }
    }
  }

  lemma BatchDone(base: Keyspace, ls: set<Line>, ids: set<string>, id: string)
    requires OnlyBatches(ls, ids) && Minted(id)
    ensures OnlyBatches(ls, ids + {id}) && OnlyBatches(ls + BatchLines(base, id), ids + {id})
    ensures ls + StateLines(base, id) + IndexLines(base, id) == ls + BatchLines(base, id)
  {
    BatchLinesOwned(base, id);
  }

  lemma BatchIdsMinted(db: Keyspace)
    requires SaneBatches(db)
    ensures forall id :: id in BatchIds(db) ==> Minted(id)
  {
  }

  function StaleAmong(db: Keyspace, sc: Scope, ids: seq<string>): set<string> {
    set id | id in ids && BatchStale(db, sc, id)
  }

  lemma NextBatch(db: Keyspace, sc: Scope, ls: set<Line>, ids: seq<string>, n: nat)
    requires n < |ids| && forall i, j :: 0 <= i < j < |ids| ==> ids[i] != ids[j]
    ensures ids[n] !in Elements(ids[..n]) && ids[n] in Elements(ids)
    ensures Elements(ids[..n + 1]) == Elements(ids[..n]) + {ids[n]}
    ensures ls + AllBatchLines(db, StaleAmong(db, sc, ids[..n + 1]))
      == ls + AllBatchLines(db, StaleAmong(db, sc, ids[..n]))
        + (if BatchStale(db, sc, ids[n]) then BatchLines(db, ids[n]) else {})
  {
    assert ids[..n + 1] == ids[..n] + [ids[n]];
    ElementsAppend(ids[..n], ids[n]);
    var now, next := StaleAmong(db, sc, ids[..n]), StaleAmong(db, sc, ids[..n + 1]);
    assert next == now + (if BatchStale(db, sc, ids[n]) then {ids[n]} else {});
    forall l ensures l in AllBatchLines(db, next) <==>
      l in AllBatchLines(db, now) || (BatchStale(db, sc, ids[n]) && l in BatchLines(db, ids[n])) {}
  }

  lemma AllStaleAmong(db: Keyspace, sc: Scope, ids: seq<string>)
    requires Elements(ids) == BatchIds(db)
    ensures StaleAmong(db, sc, ids) == StaleBatches(db, sc)
  {
    assert forall id :: id in ids <==> id in Elements(ids);
  }

  // ---------------------------------------------------------------- the queue passes

  ghost predicate HashesOf(hashes: map<string, map<string, string>>, db: Keyspace) {
    && (forall id :: id in hashes <==> JOB_PREFIX + id in db)
    && (forall id :: id in hashes ==> db[JOB_PREFIX + id].Hash? && hashes[id] == db[JOB_PREFIX + id].fields)
  }

  /** The active ids among the job keys read so far. */
  function ActiveAmong(db: Keyspace, sc: Scope, keys: seq<string>): set<string> {
    set k | k in keys && JOB_PREFIX <= k && IsActive(db, sc, k[|JOB_PREFIX|..]) :: k[|JOB_PREFIX|..]
  }

  lemma ActiveAmongStep(db: Keyspace, sc: Scope, keys: seq<string>, id: string)
    ensures ActiveAmong(db, sc, keys + [JOB_PREFIX + id])
      == ActiveAmong(db, sc, keys) + (if IsActive(db, sc, id) then {id} else {})
  {
    assert (JOB_PREFIX + id)[|JOB_PREFIX|..] == id;
  }

  /** `is_stale_job`, on the hashes read at the start of the run. */
  predicate IsStaleJob(hashes: map<string, map<string, string>>, sc: Scope, id: string) {
    if id == "" then false
    else if id !in hashes || hashes[id] == map[] then true
    else if sc.batch != "" && Field(hashes[id], "batch_id") != sc.batch then false
    else Field(hashes[id], "status") in TERMINAL_STATUSES
  }

  lemma StaleByHashes(hashes: map<string, map<string, string>>, db: Keyspace, sc: Scope, raw: string)
    requires HashesOf(hashes, db)
    ensures IsStaleJob(hashes, sc, JobOf(sc, raw)) == EntryStale(db, sc, raw)
  {
  }

  function QueueSwept(db: Keyspace, sc: Scope): Keyspace {
    if JOB_LIST in db then Put(db, JOB_LIST, List(LiveEntries(db, sc, QueueItems(db)))) else db
  }

  /** The keyspaces differ at most in the two queues. */
  ghost predicate SameButQueues(a: Keyspace, b: Keyspace) {
    forall k :: k != JOB_LIST && k != DELAYED_SET ==> (k in a <==> k in b) && (k in a ==> a[k] == b[k])
  }

  lemma QueueKeysApart(k: string)
    ensures JOB_PREFIX <= k || LOCK_PREFIX <= k || SLOT_PREFIX <= k || DEDUP_PREFIX <= k || BATCH_PREFIX <= k ==>
      k != JOB_LIST && k != DELAYED_SET
  {
    assert JOB_LIST[10] == 's' && JOB_PREFIX[10] == ':';
    assert JOB_LIST[7] == 'j' && DELAYED_SET[7] == 'd';
    assert JOB_PREFIX[7] == 'j' && LOCK_PREFIX[7] == 'l' && SLOT_PREFIX[7] == 's' && DEDUP_PREFIX[7] == 'p' && BATCH_PREFIX[7] == 'b';
  }

  lemma SameActive(a: Keyspace, b: Keyspace, sc: Scope)
    requires SameButQueues(a, b)
    ensures ActiveIds(a, sc) == ActiveIds(b, sc)
  {
    forall id: string ensures IsActive(a, sc, id) <==> IsActive(b, sc, id) {
      assert JOB_PREFIX <= JOB_PREFIX + id;
      QueueKeysApart(JOB_PREFIX + id);
    }
    forall k | JOB_PREFIX <= k ensures k in a <==> k in b {
      QueueKeysApart(k);
    }
  }

  lemma SameOwned(a: Keyspace, b: Keyspace, sc: Scope, prefix: string, spared: set<string>, reason: string)
    requires SameButQueues(a, b) && prefix in {LOCK_PREFIX, SLOT_PREFIX, DEDUP_PREFIX}
    ensures OwnedLines(a, sc, prefix, spared, reason) == OwnedLines(b, sc, prefix, spared, reason)
  {
    SameActive(a, b, sc);
    forall k | prefix <= k ensures (k in a <==> k in b) && (k in a ==> a[k] == b[k]) {
      QueueKeysApart(k);
    }
  }

  lemma SameBatchKeys(a: Keyspace, b: Keyspace)
    requires SameButQueues(a, b)
    ensures forall k :: BATCH_PREFIX <= k ==> (k in a <==> k in b) && (k in a ==> a[k] == b[k])
    ensures forall k :: BATCH_PREFIX <= k ==> IndexMembers(a, k) == IndexMembers(b, k)
  {
    forall k | BATCH_PREFIX <= k ensures (k in a <==> k in b) && (k in a ==> a[k] == b[k]) {
      QueueKeysApart(k);
    }
  }

  lemma SameBatchLines(a: Keyspace, b: Keyspace, id: string)
    requires SameButQueues(a, b)
    ensures BatchLines(a, id) == BatchLines(b, id)
  {
    SameBatchKeys(a, b);
    assert BATCH_PREFIX <= BATCH_PREFIX + id && BATCH_PREFIX <= BATCH_ACTIVE_SET;
    assert forall x: string :: BATCH_PREFIX <= BATCH_PREFIX + id + x;
    forall k | k in a || k in b ensures BATCH_RESUME_PREFIX <= k ==> BATCH_PREFIX <= k {
      assert BATCH_PREFIX <= BATCH_RESUME_PREFIX;
    }
    assert StateLines(a, id) == StateLines(b, id);
    assert IndexLines(a, id) == IndexLines(b, id);
  }

  lemma SameStaleBatches(a: Keyspace, b: Keyspace, sc: Scope)
    requires SameButQueues(a, b)
    ensures StaleBatches(a, sc) == StaleBatches(b, sc)
  {
    SameActive(a, b, sc);
    SameBatchKeys(a, b);
    assert BATCH_PREFIX <= BATCH_ACTIVE_SET;
    assert BatchIds(a) == BatchIds(b);
    forall id ensures BatchStale(a, sc, id) <==> BatchStale(b, sc, id) {
      assert BATCH_PREFIX <= BATCH_PREFIX + id + ":jobs";
    }
  }

  lemma SameKeyLines(a: Keyspace, b: Keyspace, sc: Scope)
    requires SameButQueues(a, b)
    ensures KeyLines(a, sc) == KeyLines(b, sc)
  {
    SameOwned(a, b, sc, LOCK_PREFIX, {}, "lock");
    SameOwned(a, b, sc, SLOT_PREFIX, {}, "slot");
    SameOwned(a, b, sc, DEDUP_PREFIX, {"pending"}, "dedup");
    SameStaleBatches(a, b, sc);
    forall l ensures l in AllBatchLines(a, StaleBatches(a, sc)) <==> l in AllBatchLines(b, StaleBatches(b, sc)) {
      forall id ensures BatchLines(a, id) == BatchLines(b, id) {
        SameBatchLines(a, b, id);
      }
    }
  }

  lemma PutQueue(db: Keyspace, key: string, v: Value)
    requires Sane(db) && ((key == JOB_LIST && v.List?) || (key == DELAYED_SET && v.ZSet?))
    ensures SameButQueues(db, Put(db, key, v)) && Sane(Put(db, key, v))
  {
    QueueKeysApart(key);
    assert BATCH_PREFIX <= BATCH_ACTIVE_SET;
    QueueKeysApart(BATCH_ACTIVE_SET);
    assert IndexMembers(Put(db, key, v), BATCH_ACTIVE_SET) == IndexMembers(db, BATCH_ACTIVE_SET);
  }

  /** The queues decide nothing else: every later verdict is the same before and after them. */
  lemma SweptQueuesKeepVerdicts(db: Keyspace, sc: Scope)
    requires Sane(db)
    ensures Sane(QueuesSwept(db, sc))
    ensures ActiveIds(QueuesSwept(db, sc), sc) == ActiveIds(db, sc)
    ensures KeyLines(QueuesSwept(db, sc), sc) == KeyLines(db, sc)
  {
    PutQueue(db, JOB_LIST, List(LiveEntries(db, sc, QueueItems(db))));
    var d1 := QueueSwept(db, sc);
    PutQueue(d1, DELAYED_SET, ZSet(LiveEntries(db, sc, DelayedItems(db))));
    var swept := QueuesSwept(db, sc);
    SameActive(db, swept, sc);
    SameKeyLines(db, swept, sc);
  }

  lemma SnapshotOf(db: Keyspace, sc: Scope)
    requires Sane(db)
    ensures Put(db, JOB_LIST, List(QueueItems(db))) == db
    ensures DelayedItems(QueueSwept(db, sc)) == DelayedItems(db)
    ensures Put(QueueSwept(db, sc), DELAYED_SET, ZSet(DelayedItems(db))) == QueueSwept(db, sc)
    ensures Put(db, DELAYED_SET, ZSet(DelayedItems(db))) == db
    ensures JOB_LIST !in db ==> Put(db, JOB_LIST, List([])) == db
    ensures QueueSwept(db, sc) == Put(db, JOB_LIST, List(LiveEntries(db, sc, QueueItems(db))))
    ensures QueuesSwept(db, sc) ==
      Put(QueueSwept(db, sc), DELAYED_SET, ZSet(LiveEntries(db, sc, DelayedItems(db))))
  {
    assert JOB_LIST != DELAYED_SET by { assert JOB_LIST[7] != DELAYED_SET[7]; }
  }

  lemma EntryStep(db: Keyspace, sc: Scope, items: seq<string>, n: nat, line: string -> Line)
    requires n < |items|
    ensures EntryLines(db, sc, items[..n + 1], line)
      == EntryLines(db, sc, items[..n], line) + (if EntryStale(db, sc, items[n]) then [line(JobOf(sc, items[n]))] else [])
  {
    assert items[..n + 1][..n] == items[..n];
  }

  /** An owned line never lies under another of the swept prefixes. */
  lemma OwnedElsewhere(db: Keyspace, sc: Scope, prefix: string, spared: set<string>, reason: string, other: string)
    requires prefix in {LOCK_PREFIX, SLOT_PREFIX, DEDUP_PREFIX} && other in {LOCK_PREFIX, SLOT_PREFIX, DEDUP_PREFIX}
    ensures OnlyBatches(OwnedLines(db, sc, prefix, spared, reason), {})
    ensures other != prefix ==> forall k :: other <= k ==> Untouched(OwnedLines(db, sc, prefix, spared, reason), k)
  {
    assert LOCK_PREFIX[7] == 'l' && SLOT_PREFIX[7] == 's' && DEDUP_PREFIX[7] == 'p' && BATCH_PREFIX[7] == 'b';
    forall l | l in OwnedLines(db, sc, prefix, spared, reason)
      ensures l.KeyLine? && prefix <= l.key && l.key[7] == prefix[7]
    {
    }
  }

  lemma OwnedApart(db: Keyspace, sc: Scope)
    ensures forall k :: SLOT_PREFIX <= k ==> Untouched({} + LockLines(db, sc), k)
    ensures forall k :: DEDUP_PREFIX <= k ==> Untouched({} + LockLines(db, sc) + SlotLines(db, sc), k)
    ensures OnlyBatches(LockLines(db, sc) + SlotLines(db, sc) + DedupLines(db, sc), {})
  {
    assert LOCK_PREFIX[7] == 'l' && SLOT_PREFIX[7] == 's' && DEDUP_PREFIX[7] == 'p';
    OwnedElsewhere(db, sc, LOCK_PREFIX, {}, "lock", SLOT_PREFIX);
    OwnedElsewhere(db, sc, LOCK_PREFIX, {}, "lock", DEDUP_PREFIX);
    OwnedElsewhere(db, sc, SLOT_PREFIX, {}, "slot", DEDUP_PREFIX);
    OwnedElsewhere(db, sc, DEDUP_PREFIX, {"pending"}, "dedup", LOCK_PREFIX);
    forall k | DEDUP_PREFIX <= k ensures Untouched({} + LockLines(db, sc) + SlotLines(db, sc), k) {
      assert Untouched(LockLines(db, sc), k) && Untouched(SlotLines(db, sc), k);
    }
    forall k | SLOT_PREFIX <= k ensures Untouched({} + LockLines(db, sc), k) {
      assert Untouched(LockLines(db, sc), k);
    }
  }

  class Sweeper {
    var db: Keyspace
    var report: seq<Line>
    var counts: map<string, nat>
    const apply: bool
    const sc: Scope
    ghost var base: Keyspace
    ghost var head: multiset<Line>
    ghost var done: set<Line>

    constructor (db: Keyspace, apply: bool, sc: Scope)
      ensures this.db == db && report == [] && counts == map[] && this.apply == apply && this.sc == sc
    {
      this.db, report, counts, this.apply, this.sc := db, [], map[], apply, sc;
    }

    ghost predicate Counting()
      reads this
    {
      forall reason :: Counted(counts, reason) == Tally(report, reason)
    }

    ghost predicate Valid()
      reads this
    {
      && NoneEmpty(base)
      && db == (if apply then Purged(base, done) else base)
      && multiset(report) == head + multiset(done)
      && Counting()
    }

    /** `counts[reason] += 1` and the printed line. */
    method Emit(l: Line)
      requires Counting()
      modifies this`report, this`counts
      ensures report == old(report) + [l] && Counting()
    {
      assert (report + [l])[..|report|] == report;
      report := report + [l];
      counts := counts[l.Reason() := Counted(counts, l.Reason()) + 1];
    }

    /** `report_or_delete`. */
    method ReportOrDelete(key: string, reason: string)
      requires Valid() && KeyLine(key, reason) !in done
      modifies this
      ensures Valid() && done == old(done) + {KeyLine(key, reason)} && base == old(base) && head == old(head)
    {
      Emit(KeyLine(key, reason));
      if apply {
        PurgedKey(base, done, key, reason);
        db := db - {key};
      }
      done := done + {KeyLine(key, reason)};
    }

    /** `_drop_member`: SISMEMBER in a preview, SREM in an apply; a key of another type is no hit. */
    method DropMember(key: string, m: string)
      requires Valid() && MemberLine(key, m) !in done
      modifies this
      ensures Valid() && base == old(base) && head == old(head)
      ensures done == old(done) + (if m in IndexMembers(old(db), key) then {MemberLine(key, m)} else {})
    {
      if m in IndexMembers(db, key) {
        if apply {
          PurgedMember(base, done, key, m);
          db := Put(db, key, Set(db[key].members - {m}));
        }
        done := done + {MemberLine(key, m)};
        Emit(MemberLine(key, m));
      }
    }

    /** `active_job_ids`: the live ids in scope, and every job hash. */
    method ActiveJobIds() returns (active: set<string>, hashes: map<string, map<string, string>>)
      requires Sane(db)
      ensures active == ActiveIds(db, sc)
      ensures HashesOf(hashes, db)
    {
      var keys := Scan(db, JOB_PREFIX);
      active, hashes := {}, map[];
      for n := 0 to |keys|
        invariant active == ActiveAmong(db, sc, keys[..n])
        invariant forall id :: id in hashes <==> JOB_PREFIX + id in keys[..n]
        invariant forall id :: id in hashes ==> hashes[id] == db[JOB_PREFIX + id].fields
      {
        var key := keys[n];
        var id := key[|JOB_PREFIX|..];
        assert JOB_PREFIX + id == key;
        assert keys[..n + 1] == keys[..n] + [key];
        ActiveAmongStep(db, sc, keys[..n], id);
        var stored := db[key].fields;
        hashes := hashes[id := stored];
        if (sc.batch == "" || Field(stored, "batch_id") == sc.batch) && Field(stored, "status") in ACTIVE_STATUSES {
          active := active + {id};
        }
      }
      assert keys[..|keys|] == keys;
      assert forall k :: k in keys <==> k in KeysUnder(db, JOB_PREFIX) by {
        assert forall k :: k in keys <==> k in Elements(keys);
      }
    }

    method SweepOwner(key: string, spared: set<string>, reason: string, active: set<string>)
      requires Valid() && active == ActiveIds(base, sc)
      requires key in base && base[key].Str? && Untouched(done, key)
      modifies this
      ensures Valid() && base == old(base) && head == old(head)
      ensures done == old(done) + (if OwnerStale(base, sc, spared, base[key]) then {KeyLine(key, reason)} else {})
    {
      UntouchedLookup(base, done, key);
      var owner := db[key].text;
      if owner !in spared && owner !in active {
        ReportOrDelete(key, reason);
      }
    }

    method SweepNthOwner(keys: seq<string>, n: nat, spared: set<string>, reason: string, active: set<string>,
                         ghost before: set<Line>)
      requires Valid() && active == ActiveIds(base, sc)
      requires n < |keys| && keys[n] !in keys[..n] && keys[n] in base && base[keys[n]].Str? && Untouched(before, keys[n])
      requires done == before + OwnedAmong(base, sc, spared, reason, keys[..n])
      modifies this
      ensures Valid() && base == old(base) && head == old(head)
      ensures done == before + OwnedAmong(base, sc, spared, reason, keys[..n + 1])
    {
      OwnedAmongStep(base, sc, spared, reason, before, keys, n);
      StillUntouched(base, sc, spared, reason, before, keys[..n], keys[n]);
      SweepOwner(keys[n], spared, reason, active);
    }

    /** Locks, slots and dedup keys share one rule: an owner that is not active is a ghost claim. */
    method SweepOwned(prefix: string, spared: set<string>, reason: string, active: set<string>)
      requires Valid() && active == ActiveIds(base, sc)
      requires forall k :: k in base && prefix <= k ==> base[k].Str?
      requires forall k :: prefix <= k ==> Untouched(done, k)
      modifies this
      ensures Valid() && base == old(base) && head == old(head)
      ensures done == old(done) + OwnedLines(base, sc, prefix, spared, reason)
    {
      SameUnder(base, done, prefix);
      var keys := Scan(db, prefix);
      ghost var before := done;
      for n := 0 to |keys|
        invariant Valid() && base == old(base) && head == old(head)
        invariant done == before + OwnedAmong(base, sc, spared, reason, keys[..n])
      {
        SweepNthOwner(keys, n, spared, reason, active, before);
      }
      assert keys[..|keys|] == keys;
      OwnedAmongAll(base, sc, prefix, spared, reason, keys);
    }

    /** EXISTS, then `report_or_delete`. */
    method SweepKey(key: string, reason: string)
      requires Valid() && Untouched(done, key)
      modifies this
      ensures Valid() && base == old(base) && head == old(head)
      ensures done == old(done) + IfPresent(key in base, KeyLine(key, reason))
    {
      UntouchedLookup(base, done, key);
      if key in db {
        ReportOrDelete(key, reason);
      }
    }

    /** The batch's lock and state keys. */
    method SweepBatchState(id: string, ghost ids: set<string>)
      requires Valid() && Minted(id) && id !in ids && OnlyBatches(done, ids)
      modifies this
      ensures Valid() && base == old(base) && head == old(head)
      ensures done == old(done) + StateLines(base, id)
    {
      ghost var before := done;
      assert BATCH_PREFIX + id == BATCH_PREFIX + id + "";
      StateKeyUntouched(done, ids, id, "");
      SweepKey(BATCH_PREFIX + id, "batch lock");
      for n := 0 to |BATCH_STATE_SUFFIXES|
        invariant Valid() && base == old(base) && head == old(head)
        invariant done == before + StateLinesUpTo(base, id, n)
      {
        var suffix := BATCH_STATE_SUFFIXES[n];
        NextStateKey(base, before, ids, id, n);
        SweepKey(BATCH_PREFIX + id + suffix, SuffixReason(suffix));
      }
      AllStateLines(base, id);
    }

    method DropFromIndex(key: string, id: string)
      requires Valid() && key !in KeysOf(done) && MemberLine(key, id) !in done
      modifies this
      ensures Valid() && base == old(base) && head == old(head)
      ensures done == old(done) + IfPresent(id in IndexMembers(base, key), MemberLine(key, id))
    {
      MembersLeft(base, done, key, id);
      DropMember(key, id);
    }

    method DropFromNth(keys: seq<string>, n: nat, id: string, ghost before: set<Line>)
      requires Valid() && NotIndexed(before, id)
      requires n < |keys| && (forall i, j :: 0 <= i < j < |keys| ==> keys[i] != keys[j]) && BATCH_RESUME_PREFIX <= keys[n]
      requires done == before + ActiveLine(base, id) + ResumeAmong(base, id, keys[..n])
      modifies this
      ensures Valid() && base == old(base) && head == old(head)
      ensures done == before + ActiveLine(base, id) + ResumeAmong(base, id, keys[..n + 1])
    {
      NextResume(base, before, id, keys, n);
      DropFromIndex(keys[n], id);
    }

    method SweepResumes(id: string, ghost before: set<Line>)
      requires Valid() && NotIndexed(before, id) && done == before + ActiveLine(base, id)
      modifies this
      ensures Valid() && base == old(base) && head == old(head)
      ensures done == before + IndexLines(base, id)
    {
      ResumesStay(base, before, id);
      var keys := Scan(db, BATCH_RESUME_PREFIX);
      for n := 0 to |keys|
        invariant Valid() && base == old(base) && head == old(head)
        invariant done == before + ActiveLine(base, id) + ResumeAmong(base, id, keys[..n])
      {
        DropFromNth(keys, n, id, before);
      }
      assert keys[..|keys|] == keys;
      AllResumeLines(base, id, before, keys);
    }

    /** Its places in the aggregate view and in every resume record. */
    method SweepBatchIndexes(id: string)
      requires Valid() && NotIndexed(done, id)
      modifies this
      ensures Valid() && base == old(base) && head == old(head)
      ensures done == old(done) + IndexLines(base, id)
    {
      ghost var before := done;
      DropFromIndex(BATCH_ACTIVE_SET, id);
      SweepResumes(id, before);
    }

    /** One batch: left alone outside the scope or while a member is active, else taken down whole. */
    method SweepBatch(id: string, active: set<string>, ghost ids: set<string>)
      requires Valid() && SaneBatches(base) && active == ActiveIds(base, sc)
      requires Minted(id) && id !in ids && OnlyBatches(done, ids) && forall i :: i in ids ==> Minted(i)
      modifies this
      ensures Valid() && base == old(base) && head == old(head)
      ensures done == old(done) + (if BatchStale(base, sc, id) then BatchLines(base, id) else {})
      ensures OnlyBatches(done, ids + {id})
    {
      BatchDone(base, done, ids, id);
      if sc.batch != "" && id != sc.batch {
        return;
      }
      var live := HasLiveMember(id, active, ids);
      if live {
        return;
      }
      StateLinesOwned(base, done, ids, id);
      SweepBatchState(id, ids);
      SweepBatchIndexes(id);
    }

    method HasLiveMember(id: string, active: set<string>, ghost ids: set<string>) returns (live: bool)
      requires Valid() && Minted(id) && id !in ids && OnlyBatches(done, ids)
      ensures live <==> !(IndexMembers(base, BATCH_PREFIX + id + ":jobs") !! active)
    {
      StateKeyUntouched(done, ids, id, ":jobs");
      UntouchedLookup(base, done, BATCH_PREFIX + id + ":jobs");
      var members := IndexMembers(db, BATCH_PREFIX + id + ":jobs");
      live := !(members !! active);
    }

    /** The ids to look at: every one a key mentions, and the aggregate view's. */
    method CollectBatchIds() returns (ids: set<string>)
      requires Valid() && OnlyBatches(done, {})
      ensures ids == BatchIds(base)
    {
      forall k | BATCH_PREFIX <= k ensures Untouched(done, k) {
        forall l | l in done ensures !l.MemberLine? {}
      }
      SameUnder(base, done, BATCH_PREFIX);
      var keys := Scan(db, BATCH_PREFIX);
      ids := {};
      for n := 0 to |keys|
        invariant ids == set k | k in keys[..n] && BatchIdOf(k) !in {"", "active", "resume"} :: BatchIdOf(k)
      {
        assert keys[..n + 1] == keys[..n] + [keys[n]];
        var id := BatchIdOf(keys[n]);
        if id !in {"", "active", "resume"} {
          ids := ids + {id};
        }
      }
      assert keys[..|keys|] == keys;
      assert forall k :: k in keys <==> k in Elements(keys);
      assert Untouched(done, BATCH_ACTIVE_SET);
      UntouchedLookup(base, done, BATCH_ACTIVE_SET);
      ids := ids + (IndexMembers(db, BATCH_ACTIVE_SET) - {""});
    }

    method SweepBatches(active: set<string>)
      requires Valid() && SaneBatches(base) && active == ActiveIds(base, sc) && OnlyBatches(done, {})
      modifies this
      ensures Valid() && base == old(base) && head == old(head)
      ensures done == old(done) + AllBatchLines(base, StaleBatches(base, sc))
    {
      var batchIds := CollectBatchIds();
      BatchIdsMinted(base);
      var order := Enumerate(batchIds);
      ghost var before := done;
      for n := 0 to |order|
        invariant Valid() && base == old(base) && head == old(head)
        invariant done == before + AllBatchLines(base, StaleAmong(base, sc, order[..n]))
        invariant OnlyBatches(done, Elements(order[..n]))
      {
        NextBatch(base, sc, before, order, n);
        SweepBatch(order[n], active, Elements(order[..n]));
      }
      assert order[..|order|] == order;
      AllStaleAmong(base, sc, order);
    }

    /** The immediate queue: a snapshot is read, and each stale entry costs one LREM with count 1. */
    method SweepQueue(hashes: map<string, map<string, string>>, ghost db0: Keyspace)
      requires Counting() && HashesOf(hashes, db0)
      requires Put(db, JOB_LIST, List(QueueItems(db))) == db
      modifies this`db, this`report, this`counts
      ensures Counting()
      ensures report == old(report) + QueueLines(db0, sc, QueueItems(old(db)))
      ensures db == if apply then Put(old(db), JOB_LIST, List(LiveEntries(db0, sc, QueueItems(old(db))))) else old(db)
    {
      var snapshot := QueueItems(db);
      ghost var printed: seq<Line> := [];
      for n := 0 to |snapshot|
        invariant Counting()
        invariant printed == QueueLines(db0, sc, snapshot[..n]) && report == old(report) + printed
        invariant db == if apply then Put(old(db), JOB_LIST, List(RemoveEach(db0, sc, snapshot, n))) else old(db)
      {
        EntryStep(db0, sc, snapshot, n, id => QueueLine(id));
        SweepEntry(snapshot[n], hashes, db0, old(db), RemoveEach(db0, sc, snapshot, n));
        printed := printed + (if EntryStale(db0, sc, snapshot[n]) then [QueueLine(JobOf(sc, snapshot[n]))] else []);
      }
      assert snapshot[..|snapshot|] == snapshot;
      RemoveAllIsFilter(db0, sc, snapshot);
    }

    method SweepEntry(raw: string, hashes: map<string, map<string, string>>, ghost db0: Keyspace, ghost start: Keyspace,
                ghost items: seq<string>)
      requires Counting() && HashesOf(hashes, db0)
      requires db == if apply then Put(start, JOB_LIST, List(items)) else start
      modifies this`db, this`report, this`counts
      ensures Counting()
      ensures report == old(report) + (if EntryStale(db0, sc, raw) then [QueueLine(JobOf(sc, raw))] else [])
      ensures db == if !apply then start
        else Put(start, JOB_LIST, List(if EntryStale(db0, sc, raw) then RemoveFirst(items, raw) else items))
    {
      StaleByHashes(hashes, db0, sc, raw);
      if IsStaleJob(hashes, sc, JobOf(sc, raw)) {
        if apply && JOB_LIST in db {
          assert db == start[JOB_LIST := List(items)];
          db := Put(db, JOB_LIST, List(RemoveFirst(QueueItems(db), raw)));
        }
        Emit(QueueLine(JobOf(sc, raw)));
      }
    }

    /** The delayed set, by ZREM. */
    method SweepDelayed(hashes: map<string, map<string, string>>, ghost db0: Keyspace)
      requires Counting() && HashesOf(hashes, db0)
      requires Put(db, DELAYED_SET, ZSet(DelayedItems(db))) == db
      modifies this`db, this`report, this`counts
      ensures Counting()
      ensures report == old(report) + DelayedLines(db0, sc, DelayedItems(old(db)))
      ensures db == if apply then Put(old(db), DELAYED_SET, ZSet(LiveEntries(db0, sc, DelayedItems(old(db))))) else old(db)
    {
      var snapshot := DelayedItems(db);
      ghost var printed: seq<Line> := [];
      for n := 0 to |snapshot|
        invariant Counting()
        invariant printed == DelayedLines(db0, sc, snapshot[..n]) && report == old(report) + printed
        invariant db == if apply then Put(old(db), DELAYED_SET, ZSet(RemoveEach(db0, sc, snapshot, n))) else old(db)
      {
        EntryStep(db0, sc, snapshot, n, id => DelayedLine(id));
        SweepDelayedEntry(snapshot[n], hashes, db0, old(db), RemoveEach(db0, sc, snapshot, n));
        printed := printed + (if EntryStale(db0, sc, snapshot[n]) then [DelayedLine(JobOf(sc, snapshot[n]))] else []);
      }
      assert snapshot[..|snapshot|] == snapshot;
      RemoveAllIsFilter(db0, sc, snapshot);
    }

    method SweepDelayedEntry(raw: string, hashes: map<string, map<string, string>>, ghost db0: Keyspace, ghost start: Keyspace,
                ghost items: seq<string>)
      requires Counting() && HashesOf(hashes, db0)
      requires db == if apply then Put(start, DELAYED_SET, ZSet(items)) else start
      modifies this`db, this`report, this`counts
      ensures Counting()
      ensures report == old(report) + (if EntryStale(db0, sc, raw) then [DelayedLine(JobOf(sc, raw))] else [])
      ensures db == if !apply then start
        else Put(start, DELAYED_SET, ZSet(if EntryStale(db0, sc, raw) then RemoveFirst(items, raw) else items))
    {
      StaleByHashes(hashes, db0, sc, raw);
      if IsStaleJob(hashes, sc, JobOf(sc, raw)) {
        if apply && DELAYED_SET in db {
          assert db == start[DELAYED_SET := ZSet(items)];
          db := Put(db, DELAYED_SET, ZSet(RemoveFirst(DelayedItems(db), raw)));
        }
        Emit(DelayedLine(JobOf(sc, raw)));
      }
    }

    /** Both queues, judged by the hashes read at the start. */
    method SweepQueues(hashes: map<string, map<string, string>>)
      requires Counting() && Sane(db) && HashesOf(hashes, db)
      modifies this`db, this`report, this`counts
      ensures Counting()
      ensures multiset(report) == multiset(old(report))
        + multiset(QueueLines(old(db), sc, QueueItems(old(db)))) + multiset(DelayedLines(old(db), sc, DelayedItems(old(db))))
      ensures db == if apply then QueuesSwept(old(db), sc) else old(db)
    {
      ghost var db0 := db;
      SnapshotOf(db0, sc);
      SweepQueue(hashes, db0);
      SweepDelayed(hashes, db0);
    }

    /** Every pass after the queues. */
    method SweepKeys(active: set<string>)
      requires Counting() && Sane(db) && active == ActiveIds(db, sc)
      modifies this
      ensures Counting()
      ensures multiset(report) == multiset(old(report)) + multiset(KeyLines(old(db), sc))
      ensures db == if apply then Purged(old(db), KeyLines(old(db), sc)) else old(db)
    {
      head, base, done := multiset(report), db, {};
      PurgedNothing(base);
      SweepOwnedKeys(active);
      SweepBatches(active);
    }

    method SweepOwnedKeys(active: set<string>)
      requires Valid() && Sane(base) && active == ActiveIds(base, sc) && done == {}
      modifies this
      ensures Valid() && base == old(base) && head == old(head)
      ensures done == LockLines(base, sc) + SlotLines(base, sc) + DedupLines(base, sc) && OnlyBatches(done, {})
    {
      OwnedApart(base, sc);
      SweepOwned(LOCK_PREFIX, {}, "lock", active);
      SweepOwned(SLOT_PREFIX, {}, "slot", active);
      SweepOwned(DEDUP_PREFIX, {"pending"}, "dedup", active);
    }

    method RunPasses(active: set<string>, hashes: map<string, map<string, string>>)
      requires Counting() && Sane(db) && HashesOf(hashes, db) && active == ActiveIds(db, sc)
      modifies this
      ensures Counting()
      ensures multiset(report) == multiset(old(report)) + Expected(old(db), sc)
      ensures db == if apply then Applied(old(db), sc) else old(db)
    {
      SweptQueuesKeepVerdicts(db, sc);
      SweepQueues(hashes);
      SweepKeys(active);
    }

    /** The whole run. A preview prints exactly what an apply prints and changes nothing; an
        apply leaves the keyspace without exactly what it printed. */
    method Run()
      requires Sane(db) && report == [] && counts == map[]
      modifies this
      ensures multiset(report) == Expected(old(db), sc)
      ensures db == if apply then Applied(old(db), sc) else old(db)
      ensures forall reason :: Counted(counts, reason) == Tally(report, reason)
    {
      var active, hashes := ActiveJobIds();
      RunPasses(active, hashes);
    }
  }
}
