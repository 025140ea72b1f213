/**
 The three Redis passes of the periodic cleanup (tasks/cleanup_tasks.py): job hashes past
 their age, dedup keys and input locks whose job is over. A value of another type makes
 the read raise, and the pass steps over that key.
 */
module StaleKeys {
  import opened Options
  import opened Collections
  import opened RedisKeyspace

  const TERMINAL := {"done", "error", "cancelled"}

  /** Python's `str.replace` with nothing: every occurrence goes, left to right, none overlapping. */
  function Without(s: string, part: string): string
    requires part != ""
    decreases |s|
  {
    if s == "" then ""
    else if part <= s then Without(s[|part|..], part)
    else [s[0]] + Without(s[1..], part)
  }

  function Timestamp(fields: map<string, string>): string {
    var finished := Field(fields, "finished_at");
    if finished != "" then finished else Field(fields, "started_at")
  }

  /** What decides the age of a job: the clock, the limit and how a timestamp parses. */
  datatype AgeRule = AgeRule(now: real, maxAge: int, parse: string -> Option<real>)

  predicate OutOfAge(rule: AgeRule, raw: string) {
    raw == "" || rule.parse(raw).None? || rule.now - rule.parse(raw).value > rule.maxAge as real
  }

  predicate JobStale(rule: AgeRule, key: string, v: Value) {
    && |Without(key, JOB_PREFIX)| >= 8
    && v.Hash?
    && (v.fields == map[] || (Field(v.fields, "status") in TERMINAL && OutOfAge(rule, Timestamp(v.fields))))
  }

  /** The owner a lock or dedup key names is over: no hash, an empty one, or nothing left to run. */
  predicate JobOver(db: Keyspace, id: string) {
    var key := JOB_PREFIX + id;
    key !in db
    || (db[key].Hash? && (db[key].fields == map[] || Field(db[key].fields, "status") in TERMINAL + {""}))
  }

  predicate DedupStale(db: Keyspace, v: Value) {
    v.Str? && (v.text == "" || v.text == "pending" || JobOver(db, v.text))
  }

  predicate LockStale(db: Keyspace, v: Value) {
    v.Str? && (v.text == "" || JobOver(db, v.text))
  }

  function JobsPass(rule: AgeRule, db: Keyspace): Keyspace {
    map k | k in db && !(JOB_PREFIX <= k && JobStale(rule, k, db[k])) :: db[k]
  }

  function DedupPass(db: Keyspace): Keyspace {
    map k | k in db && !(DEDUP_PREFIX <= k && DedupStale(db, db[k])) :: db[k]
  }

  function LockPass(db: Keyspace): Keyspace {
    map k | k in db && !(LOCK_PREFIX <= k && LockStale(db, db[k])) :: db[k]
  }

  /** The three passes in the order of `cleanup_all`. */
  function AllPasses(rule: AgeRule, db: Keyspace): Keyspace {
    LockPass(DedupPass(JobsPass(rule, db)))
  }

  // ---------------------------------------------------------------- the passes as loops

  /** The keyspace once the scanned keys in `done` have been looked at. */
  function Removed(db: Keyspace, gone: set<string>): Keyspace {
    map k | k in db && k !in gone :: db[k]
  }

  lemma JobKeyNotSwept(id: string)
    ensures !(DEDUP_PREFIX <= JOB_PREFIX + id) && !(LOCK_PREFIX <= JOB_PREFIX + id)
  {
    assert (JOB_PREFIX + id)[7] == 'j' && DEDUP_PREFIX[7] == 'p' && LOCK_PREFIX[7] == 'l';
  }

  /** Keys outside the job prefix never decide whether a job is over. */
  lemma JobOverIgnores(db: Keyspace, gone: set<string>, id: string)
    requires forall k :: k in gone ==> DEDUP_PREFIX <= k || LOCK_PREFIX <= k
    ensures JobOver(Removed(db, gone), id) == JobOver(db, id)
  {
    JobKeyNotSwept(id);
  }

  lemma RemovedSize(db: Keyspace, gone: set<string>)
    requires gone <= db.Keys
    ensures |Removed(db, gone)| == |db| - |gone|
  {
    assert Removed(db, gone).Keys == db.Keys - gone;
  }

  /** The stale keys among those looked at so far. */
  function Condemned(keys: seq<string>, stale: set<string>): set<string> {
    set k | k in keys && k in stale
  }

  lemma NextKey(db: Keyspace, keys: seq<string>, n: nat, stale: set<string>)
    requires n < |keys| && keys[n] in db && forall i, j :: 0 <= i < j < |keys| ==> keys[i] != keys[j]
    ensures var now, next := Condemned(keys[..n], stale), Condemned(keys[..n + 1], stale);
      && keys[n] in Removed(db, now)
      && next == (if keys[n] in stale then now + {keys[n]} else now)
      && |next| == |now| + (if keys[n] in stale then 1 else 0)
      && Removed(db, next) == (if keys[n] in stale then Removed(db, now) - {keys[n]} else Removed(db, now))
  {
    assert keys[..n + 1] == keys[..n] + [keys[n]];
  }

  lemma AllKeys(db: Keyspace, keys: seq<string>, prefix: string, stale: set<string>)
    requires Elements(keys) == KeysUnder(db, prefix) && stale <= KeysUnder(db, prefix)
    ensures Condemned(keys[..|keys|], stale) == stale && |Removed(db, stale)| == |db| - |stale|
  {
    assert keys[..|keys|] == keys;
    assert forall k :: k in keys <==> k in Elements(keys);
    RemovedSize(db, stale);
  }

  class CleanupManager {
    var db: Keyspace
    const redisJobMaxAge: int
    const parse: string -> Option<real>

    constructor (db: Keyspace, maxAge: int, parse: string -> Option<real>)
      ensures this.db == db && redisJobMaxAge == maxAge && this.parse == parse
    {
      this.db := db;
      redisJobMaxAge := maxAge;
      this.parse := parse;
    }

    /** One job hash: only a long enough id, a terminal status and no sign of youth condemn it. */
    method JudgeJob(key: string, now: real) returns (stale: bool)
      requires key in db
      ensures stale == JobStale(AgeRule(now, redisJobMaxAge, parse), key, db[key])
    {
      var jobId := Without(key, JOB_PREFIX);
      if |jobId| < 8 || !db[key].Hash? {
        return false;
      }
      var data := db[key].fields;
      if data == map[] {
        return true;
      }
      if Field(data, "status") !in TERMINAL {
        return false;
      }
      var raw := Field(data, "finished_at");
      if raw == "" {
        raw := Field(data, "started_at");
      }
      if raw == "" {
        return true;
      }
      var ts := parse(raw);
      if ts.None? {
        return true;
      }
      return now - ts.value > redisJobMaxAge as real;
    }

    /** One dedup key: empty, the placeholder of a failed ingest, or owned by a job that is over. */
    method JudgeDedup(key: string) returns (stale: bool)
      requires key in db
      ensures stale == DedupStale(db, db[key])
    {
      if !db[key].Str? {
        return false;
      }
      if db[key].text == "" || db[key].text == "pending" {
        return true;
      }
      stale := OwnerIsOver(db[key].text);
    }

    /** One input lock: empty, or owned by a job that is over. */
    method JudgeLock(key: string) returns (stale: bool)
      requires key in db
      ensures stale == LockStale(db, db[key])
    {
      if !db[key].Str? {
        return false;
      }
      if db[key].text == "" {
        return true;
      }
      stale := OwnerIsOver(db[key].text);
    }

    method CleanupStaleRedisJobs(now: real) returns (deleted: nat)
      modifies this`db
      ensures db == JobsPass(AgeRule(now, redisJobMaxAge, parse), old(db))
      ensures deleted == |old(db)| - |db|
    {
      var keys := Scan(db, JOB_PREFIX);
      ghost var before, rule := db, AgeRule(now, redisJobMaxAge, parse);
      ghost var condemned := set k | k in before && JOB_PREFIX <= k && JobStale(rule, k, before[k]);
      deleted := 0;
      for n := 0 to |keys|
        invariant db == Removed(before, Condemned(keys[..n], condemned))
        invariant deleted == |Condemned(keys[..n], condemned)|
      {
        var key := keys[n];
        NextKey(before, keys, n, condemned);
        var stale := JudgeJob(key, now);
        if stale {
          db, deleted := db - {key}, deleted + 1;
        }
      }
      AllKeys(before, keys, JOB_PREFIX, condemned);
    }

    method CleanupStaleDedupKeys() returns (deleted: nat)
      modifies this`db
      ensures db == DedupPass(old(db))
      ensures deleted == |old(db)| - |db|
    {
      var keys := Scan(db, DEDUP_PREFIX);
      ghost var before := db;
      ghost var condemned := set k | k in before && DEDUP_PREFIX <= k && DedupStale(before, before[k]);
      deleted := 0;
      for n := 0 to |keys|
        invariant db == Removed(before, Condemned(keys[..n], condemned))
        invariant deleted == |Condemned(keys[..n], condemned)|
      {
        var key := keys[n];
        NextKey(before, keys, n, condemned);
        if before[key].Str? {
          JobOverIgnores(before, Condemned(keys[..n], condemned), before[key].text);
        }
        var stale := JudgeDedup(key);
        if stale {
          db, deleted := db - {key}, deleted + 1;
        }
      }
      AllKeys(before, keys, DEDUP_PREFIX, condemned);
    }

    method CleanupStaleLocks() returns (deleted: nat)
      modifies this`db
      ensures db == LockPass(old(db))
      ensures deleted == |old(db)| - |db|
    {
      var keys := Scan(db, LOCK_PREFIX);
      ghost var before := db;
      ghost var condemned := set k | k in before && LOCK_PREFIX <= k && LockStale(before, before[k]);
      deleted := 0;
      for n := 0 to |keys|
        invariant db == Removed(before, Condemned(keys[..n], condemned))
        invariant deleted == |Condemned(keys[..n], condemned)|
      {
        var key := keys[n];
        NextKey(before, keys, n, condemned);
        if before[key].Str? {
          JobOverIgnores(before, Condemned(keys[..n], condemned), before[key].text);
        }
        var stale := JudgeLock(key);
        if stale {
          db, deleted := db - {key}, deleted + 1;
        }
      }
      AllKeys(before, keys, LOCK_PREFIX, condemned);
    }

    /** The lookup both passes share; a hash of another type raises, and the key is kept. */
    method OwnerIsOver(id: string) returns (over: bool)
      ensures over == JobOver(db, id)
    {
      var key := JOB_PREFIX + id;
      if key !in db {
        return true;
      }
      if !db[key].Hash? {
        return false;
      }
      if db[key].fields == map[] {
        return true;
      }
      var status := Field(db[key].fields, "status");
      return status in TERMINAL || status == "";
    }

    /** The Redis part of `cleanup_all`. */
    method CleanupRedis(now: real) returns (jobs: nat, dedup: nat, locks: nat)
      modifies this`db
      ensures db == AllPasses(AgeRule(now, redisJobMaxAge, parse), old(db))
      ensures jobs + dedup + locks == |old(db)| - |db|
    {
      jobs := CleanupStaleRedisJobs(now);
      dedup := CleanupStaleDedupKeys();
      locks := CleanupStaleLocks();
    }
  }

  // ---------------------------------------------------------------- what the passes mean

  /** A job the queue still owes work: its hash names a status that is not terminal. */
  predicate LiveJob(db: Keyspace, id: string) {
    var key := JOB_PREFIX + id;
    key in db && db[key].Hash? && db[key].fields != map[] && Field(db[key].fields, "status") !in TERMINAL + {""}
  }

  /** Every lock and dedup key is text, and every job key is a hash: nothing raises. */
  predicate WellTyped(db: Keyspace) {
    forall k :: k in db ==>
      && (JOB_PREFIX <= k ==> db[k].Hash?)
      && (LOCK_PREFIX <= k || DEDUP_PREFIX <= k ==> db[k].Str?)
  }

  lemma DedupAndLockKeepVerdict(db: Keyspace, id: string)
    ensures JobOver(DedupPass(db), id) == JobOver(db, id)
    ensures JobOver(LockPass(db), id) == JobOver(db, id)
  {
    JobKeyNotSwept(id);
  }

  lemma PrefixesAreDisjoint(k: string)
    ensures !(JOB_PREFIX <= k && LOCK_PREFIX <= k)
    ensures !(JOB_PREFIX <= k && DEDUP_PREFIX <= k)
    ensures !(LOCK_PREFIX <= k && DEDUP_PREFIX <= k)
  {
    assert JOB_PREFIX[7] == 'j' && DEDUP_PREFIX[7] == 'p' && LOCK_PREFIX[7] == 'l';
    assert JOB_PREFIX <= k ==> k[7] == 'j';
    assert LOCK_PREFIX <= k ==> k[7] == 'l';
    assert DEDUP_PREFIX <= k ==> k[7] == 'p';
  }

  /** Every key judged against the keyspace as it was before any pass ran: the result of the
      run does not depend on the order the passes take. */
  lemma RunJudgesEachKeyOnce(rule: AgeRule, db: Keyspace, k: string)
    ensures k in AllPasses(rule, db) <==>
      k in db && !(JOB_PREFIX <= k && JobStale(rule, k, db[k]))
      && !(DEDUP_PREFIX <= k && DedupStale(db, db[k]))
      && !(LOCK_PREFIX <= k && LockStale(db, db[k]))
    ensures k in AllPasses(rule, db) ==> AllPasses(rule, db)[k] == db[k]
  {
    PrefixesAreDisjoint(k);
    if k in db && db[k].Str? {
      DedupAndLockKeepVerdict(JobsPass(rule, db), db[k].text);
    }
  }

  lemma PassesCommute(rule: AgeRule, db: Keyspace)
    ensures JobsPass(rule, DedupPass(db)) == DedupPass(JobsPass(rule, db))
    ensures JobsPass(rule, LockPass(db)) == LockPass(JobsPass(rule, db))
    ensures DedupPass(LockPass(db)) == LockPass(DedupPass(db))
  {
    forall id: string
      ensures JobOver(JobsPass(rule, db), id) == JobOver(db, id)
      ensures JobOver(DedupPass(db), id) == JobOver(db, id)
      ensures JobOver(LockPass(db), id) == JobOver(db, id)
    {
      DedupAndLockKeepVerdict(db, id);
    }
    forall k | k in db
      ensures !(JOB_PREFIX <= k && (LOCK_PREFIX <= k || DEDUP_PREFIX <= k)) && !(LOCK_PREFIX <= k && DEDUP_PREFIX <= k)
    {
      PrefixesAreDisjoint(k);
    }
  }

  /** All six orders of the passes end in the same keyspace. */
  lemma AnyOrderGivesTheSameKeyspace(rule: AgeRule, db: Keyspace)
    ensures JobsPass(rule, LockPass(DedupPass(db))) == AllPasses(rule, db)
    ensures JobsPass(rule, DedupPass(LockPass(db))) == AllPasses(rule, db)
    ensures DedupPass(JobsPass(rule, LockPass(db))) == AllPasses(rule, db)
    ensures DedupPass(LockPass(JobsPass(rule, db))) == AllPasses(rule, db)
    ensures LockPass(JobsPass(rule, DedupPass(db))) == AllPasses(rule, db)
  {
    PassesCommute(rule, db);
    PassesCommute(rule, JobsPass(rule, db));
    PassesCommute(rule, DedupPass(db));
    PassesCommute(rule, LockPass(db));
  }

  /** Referential integrity after a run: a lock survives exactly when it names a live job, a dedup
      key exactly when it names one other than the "pending" placeholder, and the job they name
      is still there, unchanged. */
  lemma SurvivingKeysNameLiveJobs(rule: AgeRule, db: Keyspace, k: string)
    requires WellTyped(db) && k in db
    ensures LOCK_PREFIX <= k ==>
      (k in AllPasses(rule, db) <==> db[k].text != "" && LiveJob(db, db[k].text))
    ensures DEDUP_PREFIX <= k ==>
      (k in AllPasses(rule, db) <==> db[k].text !in {"", "pending"} && LiveJob(db, db[k].text))
    ensures (LOCK_PREFIX <= k || DEDUP_PREFIX <= k) && k in AllPasses(rule, db) ==>
      LiveJob(AllPasses(rule, db), db[k].text)
  {
    RunJudgesEachKeyOnce(rule, db, k);
    PrefixesAreDisjoint(k);
    if LOCK_PREFIX <= k || DEDUP_PREFIX <= k {
      LiveJobsSurvive(rule, db, db[k].text);
    }
  }

  /** No live job loses its hash. */
  lemma LiveJobsSurvive(rule: AgeRule, db: Keyspace, id: string)
    ensures LiveJob(db, id) ==> LiveJob(AllPasses(rule, db), id)
    ensures LiveJob(db, id) ==> AllPasses(rule, db)[JOB_PREFIX + id] == db[JOB_PREFIX + id]
  {
    RunJudgesEachKeyOnce(rule, db, JOB_PREFIX + id);
    JobKeyNotSwept(id);
  }

  /** A second run at the same time deletes nothing. */
  lemma SecondRunDeletesNothing(rule: AgeRule, db: Keyspace)
    ensures AllPasses(rule, AllPasses(rule, db)) == AllPasses(rule, db)
  {
    var once := AllPasses(rule, db);
    forall k | k in once ensures k in AllPasses(rule, once) && AllPasses(rule, once)[k] == once[k] {
      RunJudgesEachKeyOnce(rule, db, k);
      RunJudgesEachKeyOnce(rule, once, k);
      if once[k].Str? {
        DedupAndLockKeepVerdict(JobsPass(rule, db), once[k].text);
        DedupAndLockKeepVerdict(DedupPass(JobsPass(rule, db)), once[k].text);
      }
    }
  }

  // ---------------------------------------------------------------- the fate of one job hash

  predicate Filled(fields: map<string, string>, name: string) {
    name in fields && fields[name] != ""
  }

  predicate Over(fields: map<string, string>) {
    "status" in fields
    && (fields["status"] == "done" || fields["status"] == "error" || fields["status"] == "cancelled")
  }

  predicate LongAgo(rule: AgeRule, raw: string) {
    rule.parse(raw).None? || rule.now - rule.parse(raw).value > rule.maxAge as real
  }

  /** Long after the end; or after the start, where no end was noted; or neither was. */
  predicate PastAge(rule: AgeRule, fields: map<string, string>) {
    && (Filled(fields, "finished_at") ==> LongAgo(rule, fields["finished_at"]))
    && (!Filled(fields, "finished_at") && Filled(fields, "started_at") ==> LongAgo(rule, fields["started_at"]))
  }

  lemma {:induction false} NothingToReplace(s: string)
    requires ':' !in s
    ensures Without(s, JOB_PREFIX) == s
  {
    assert JOB_PREFIX[6] == ':';
    if s != "" {
      assert |s| > 6 ==> s[6] != ':';
      NothingToReplace(s[1..]);
    }
  }

  lemma StatusWords(fields: map<string, string>)
    ensures Field(fields, "status") in TERMINAL <==> Over(fields)
  {
  }

  lemma TimeWords(rule: AgeRule, fields: map<string, string>)
    ensures OutOfAge(rule, Timestamp(fields)) <==> PastAge(rule, fields)
  {
  }

  /** A job hash goes in a run exactly when its id has eight characters or more and it is empty, or over and
      past its age. */
  lemma JobFate(rule: AgeRule, db: Keyspace, id: string)
    requires ':' !in id && "ffmpeg:job:" + id in db && db["ffmpeg:job:" + id].Hash?
    ensures var key := "ffmpeg:job:" + id;
      key in AllPasses(rule, db) <==>
      |id| < 8 || (db[key].fields != map[] && !(Over(db[key].fields) && PastAge(rule, db[key].fields)))
  {
    var key := JOB_PREFIX + id;
    RunJudgesEachKeyOnce(rule, db, key);
    JobKeyNotSwept(id);
    assert key[|JOB_PREFIX|..] == id;
    NothingToReplace(id);
    StatusWords(db[key].fields);
    TimeWords(rule, db[key].fields);
  }
}
