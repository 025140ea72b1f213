/**
 The offline sweep (scripts/cleanup_stale_redis.py): one run previews or removes the queue
 entries, locks, slots, dedup keys and batch state that no active job owns. The same code
 runs in both modes; only the deletions are guarded.
 */
module StaleSweep {
  import opened Options
  import opened RedisKeyspace

  const ACTIVE_STATUSES := {"queued", "processing", "waiting", "started", "uploading", "sending"}
  const TERMINAL_STATUSES := {"done", "completed", "error", "failed", "cancelled", "canceled"}
  const BATCH_PREFIX := "ffmpeg:batch:"
  const BATCH_ACTIVE_SET := "ffmpeg:batch:active"
  const BATCH_RESUME_PREFIX := "ffmpeg:batch:resume:"
  const BATCH_STATE_SUFFIXES :=
    [":jobs", ":total", ":done", ":done_jobs", ":msg", ":finished", ":started", ":cancelled"]
  const SLOT_PREFIX := "ffmpeg:slot:"
  const JOB_LIST := "ffmpeg:jobs"
  const DELAYED_SET := "ffmpeg:delayed"

  /** One printed line; its reason is the counter it adds to. */
  datatype Line =
    | QueueLine(jobId: string)
    | DelayedLine(jobId: string)
    | KeyLine(key: string, reason: string)
    | MemberLine(key: string, member: string)
  {
    function Reason(): string {
      match this
      case QueueLine(_) => "queue"
      case DelayedLine(_) => "delayed"
      case KeyLine(_, reason) => reason
      case MemberLine(_, _) => "batch"
    }
  }

  /** The batch a run is limited to ("" for none), and how a queue payload names its job. */
  datatype Scope = Scope(batch: string, jobIdOf: string -> Option<string>)

  // ---------------------------------------------------------------- verdicts

  /** The job a queue payload names, "" for none. */
  function JobOf(sc: Scope, raw: string): string {
    sc.jobIdOf(raw).GetOr("")
  }

  predicate InBatch(sc: Scope, fields: map<string, string>) {
    sc.batch == "" || Field(fields, "batch_id") == sc.batch
  }

  predicate IsActive(db: Keyspace, sc: Scope, id: string) {
    var key := JOB_PREFIX + id;
    key in db && db[key].Hash? && InBatch(sc, db[key].fields) && Field(db[key].fields, "status") in ACTIVE_STATUSES
  }

  function ActiveIds(db: Keyspace, sc: Scope): set<string> {
    set k | k in db && JOB_PREFIX <= k && IsActive(db, sc, k[|JOB_PREFIX|..]) :: k[|JOB_PREFIX|..]
  }

  predicate EntryStale(db: Keyspace, sc: Scope, raw: string) {
    var id := JobOf(sc, raw);
    var key := JOB_PREFIX + id;
    id != "" &&
    if key !in db || !db[key].Hash? || db[key].fields == map[] then true
    else InBatch(sc, db[key].fields) && Field(db[key].fields, "status") in TERMINAL_STATUSES
  }

  predicate OwnerStale(db: Keyspace, sc: Scope, spared: set<string>, v: Value) {
    v.Str? && v.text !in spared && v.text !in ActiveIds(db, sc)
  }

  predicate ColonFree(s: string) {
    ':' !in s
  }

  function UpToColon(s: string): (r: string)
    ensures ColonFree(r) && r <= s
  {
    if s == "" || s[0] == ':' then "" else [s[0]] + UpToColon(s[1..])
  }

  function IndexMembers(db: Keyspace, key: string): set<string> {
    if key in db && db[key].Set? then db[key].members else {}
  }

  function BatchIdOf(key: string): string
    requires BATCH_PREFIX <= key
  {
    UpToColon(key[|BATCH_PREFIX|..])
  }

  /** Every batch the keyspace mentions: by one of its keys, or in the aggregate view. */
  function BatchIds(db: Keyspace): set<string> {
    (set k | k in db && BATCH_PREFIX <= k && BatchIdOf(k) !in {"", "active", "resume"} :: BatchIdOf(k))
    + (IndexMembers(db, BATCH_ACTIVE_SET) - {""})
  }

  predicate BatchStale(db: Keyspace, sc: Scope, id: string) {
    (sc.batch == "" || id == sc.batch) && IndexMembers(db, BATCH_PREFIX + id + ":jobs") !! ActiveIds(db, sc)
  }

  // ---------------------------------------------------------------- what a run reports

  function QueueItems(db: Keyspace): seq<string> {
    if JOB_LIST in db && db[JOB_LIST].List? then db[JOB_LIST].items else []
  }

  function DelayedItems(db: Keyspace): seq<string> {
    if DELAYED_SET in db && db[DELAYED_SET].ZSet? then db[DELAYED_SET].ranked else []
  }

  /** The entries of a snapshot that are not stale, in order. */
  function LiveEntries(db: Keyspace, sc: Scope, items: seq<string>): (r: seq<string>)
    ensures forall x :: x in r <==> x in items && !EntryStale(db, sc, x)
  {
    if items == [] then []
    else
      var raw := items[|items| - 1];
      LiveEntries(db, sc, items[..|items| - 1]) + (if EntryStale(db, sc, raw) then [] else [raw])
  }

  /** The lines one queue pass prints: its stale entries, in order, as often as they occur. */
  function EntryLines(db: Keyspace, sc: Scope, items: seq<string>, line: string -> Line): seq<Line> {
    if items == [] then []
    else
      var raw := items[|items| - 1];
      EntryLines(db, sc, items[..|items| - 1], line) + (if EntryStale(db, sc, raw) then [line(JobOf(sc, raw))] else [])
  }

  function QueueLines(db: Keyspace, sc: Scope, items: seq<string>): seq<Line> {
    EntryLines(db, sc, items, id => QueueLine(id))
  }

  function DelayedLines(db: Keyspace, sc: Scope, items: seq<string>): seq<Line> {
    EntryLines(db, sc, items, id => DelayedLine(id))
  }

  function OwnedLines(db: Keyspace, sc: Scope, prefix: string, spared: set<string>, reason: string): set<Line> {
    set k | k in db && prefix <= k && OwnerStale(db, sc, spared, db[k]) :: KeyLine(k, reason)
  }

  function SuffixReason(suffix: string): string {
    if suffix == ":cancelled" then "batch tombstone" else "batch"
  }

  function IfPresent(present: bool, l: Line): set<Line> {
    if present then {l} else {}
  }

  /** The batch's own lock, which is its bare key, and its state keys. */
  function StateLines(db: Keyspace, id: string): set<Line> {
    IfPresent(BATCH_PREFIX + id in db, KeyLine(BATCH_PREFIX + id, "batch lock"))
    + set x | x in BATCH_STATE_SUFFIXES && BATCH_PREFIX + id + x in db :: KeyLine(BATCH_PREFIX + id + x, SuffixReason(x))
  }

  /** Its places outside its own keys: the aggregate view and every user's resume record. */
  function IndexLines(db: Keyspace, id: string): set<Line> {
    IfPresent(id in IndexMembers(db, BATCH_ACTIVE_SET), MemberLine(BATCH_ACTIVE_SET, id))
    + set k | k in db && BATCH_RESUME_PREFIX <= k && id in IndexMembers(db, k) :: MemberLine(k, id)
  }

  /** Everything one stale batch owns. */
  function BatchLines(db: Keyspace, id: string): set<Line> {
    StateLines(db, id) + IndexLines(db, id)
  }

  function StaleBatches(db: Keyspace, sc: Scope): set<string> {
    set id | id in BatchIds(db) && BatchStale(db, sc, id)
  }

  function AllBatchLines(db: Keyspace, ids: set<string>): set<Line> {
    set id, l | id in ids && l in BatchLines(db, id) :: l
  }

  function LockLines(db: Keyspace, sc: Scope): set<Line> { OwnedLines(db, sc, LOCK_PREFIX, {}, "lock") }
  function SlotLines(db: Keyspace, sc: Scope): set<Line> { OwnedLines(db, sc, SLOT_PREFIX, {}, "slot") }
  function DedupLines(db: Keyspace, sc: Scope): set<Line> { OwnedLines(db, sc, DEDUP_PREFIX, {"pending"}, "dedup") }

  function KeyLines(db: Keyspace, sc: Scope): set<Line> {
    LockLines(db, sc) + SlotLines(db, sc) + DedupLines(db, sc) + AllBatchLines(db, StaleBatches(db, sc))
  }

  /** Everything a run reports, queue entries as often as they occur. */
  function Expected(db: Keyspace, sc: Scope): multiset<Line> {
    multiset(QueueLines(db, sc, QueueItems(db)))
    + multiset(DelayedLines(db, sc, DelayedItems(db)))
    + multiset(KeyLines(db, sc))
  }

  // ---------------------------------------------------------------- what an apply leaves

  predicate Empty(v: Value) {
    match v
    case Str(_) => false
    case Hash(fields) => fields == map[]
    case List(items) => items == []
    case ZSet(ranked) => ranked == []
    case Set(members) => members == {}
  }

  /** Writing a collection back: Redis drops a key whose last element went. */
  function Put(db: Keyspace, key: string, v: Value): Keyspace {
    if Empty(v) then db - {key} else db[key := v]
  }

  function KeysOf(ls: set<Line>): set<string> {
    set l | l in ls && l.KeyLine? :: l.key
  }

  function Left(k: string, v: Value, ls: set<Line>): Value {
    if v.Set? then Set(set m | m in v.members && MemberLine(k, m) !in ls) else v
  }

  /** The keyspace without the reported keys and without the reported index members. */
  function Purged(db: Keyspace, ls: set<Line>): Keyspace {
    map k | k in db && k !in KeysOf(ls) && !Empty(Left(k, db[k], ls)) :: Left(k, db[k], ls)
  }

  function QueuesSwept(db: Keyspace, sc: Scope): Keyspace {
    var d1 := if JOB_LIST in db then Put(db, JOB_LIST, List(LiveEntries(db, sc, QueueItems(db)))) else db;
    if DELAYED_SET in d1 then Put(d1, DELAYED_SET, ZSet(LiveEntries(db, sc, DelayedItems(db)))) else d1
  }

  /** The keyspace after an apply: both queues filtered, every reported key and member gone. */
  function Applied(db: Keyspace, sc: Scope): Keyspace {
    Purged(QueuesSwept(db, sc), KeyLines(db, sc))
  }

  /** The types Redis would insist on, and no empty collections. */
  predicate Typed(db: Keyspace) {
    && (forall k :: k in db ==>
      && !Empty(db[k])
      && (JOB_PREFIX <= k ==> db[k].Hash?)
      && (LOCK_PREFIX <= k || SLOT_PREFIX <= k || DEDUP_PREFIX <= k ==> db[k].Str?)
      && (k == JOB_LIST ==> db[k].List?)
      && (k == DELAYED_SET ==> db[k].ZSet?)
      && (k == BATCH_ACTIVE_SET ==> db[k].Set?))
    && (forall k :: k in db && BATCH_PREFIX <= k && k == BATCH_PREFIX + BatchIdOf(k) + ":jobs" ==> db[k].Set?)
  }

  /** The aggregate view names batches by ids that no index key shares. */
  predicate SaneBatches(db: Keyspace) {
    forall id :: id in IndexMembers(db, BATCH_ACTIVE_SET) ==> ColonFree(id) && id !in {"active", "resume"}
  }

  predicate Sane(db: Keyspace) {
    Typed(db) && SaneBatches(db)
  }

  /** A batch id as it is minted: the 32 hexadecimal digits of a UUID. */
  predicate HexId(id: string) {
    |id| == 32 && forall i :: 0 <= i < |id| ==> '0' <= id[i] <= '9' || 'a' <= id[i] <= 'f'
  }

  /** Minted ids meet the hypothesis on the aggregate view. */
  lemma HexIdsAreSane(db: Keyspace)
    requires Typed(db) && forall id :: id in IndexMembers(db, BATCH_ACTIVE_SET) ==> HexId(id)
    ensures Sane(db)
  {
    forall id | id in IndexMembers(db, BATCH_ACTIVE_SET) ensures ColonFree(id) && id !in {"active", "resume"} {
      HexIdIsMinted(id);
    }
  }

  /** A minted batch id, as opposed to the two index names that share its prefix. */
  predicate Minted(id: string) {
    ColonFree(id) && id !in {"", "active", "resume"}
  }

  lemma HexIdIsMinted(id: string)
    requires HexId(id)
    ensures Minted(id)
  {
    assert |"active"| == 6 && |"resume"| == 6;
  }

  // ---------------------------------------------------------------- list removal

  /** LREM with count 1: the first occurrence from the head. */
  function RemoveFirst(s: seq<string>, x: string): seq<string> {
    if s == [] then []
    else if s[0] == x then s[1..]
    else [s[0]] + RemoveFirst(s[1..], x)
  }

  lemma {:induction false} RemoveFirstAfter(a: seq<string>, x: string, b: seq<string>)
    requires x !in a
    ensures RemoveFirst(a + [x] + b, x) == a + b
  {
    if a == [] {
      assert a + [x] + b == [x] + b;
    } else {
      RemoveFirstAfter(a[1..], x, b);
      assert (a + [x] + b)[1..] == a[1..] + [x] + b;
      assert a + b == [a[0]] + (a[1..] + b);
    }
  }

  /** Removing each stale entry of a snapshot, one occurrence at a time. */
  function RemoveEach(db: Keyspace, sc: Scope, items: seq<string>, n: nat): seq<string>
    requires n <= |items|
  {
    if n == 0 then items
    else
      var before := RemoveEach(db, sc, items, n - 1);
      if EntryStale(db, sc, items[n - 1]) then RemoveFirst(before, items[n - 1]) else before
  }

  /** However often payloads repeat, what is left is the order-preserving filter. */
  lemma {:induction false} RemoveEachIsFilter(db: Keyspace, sc: Scope, items: seq<string>, n: nat)
    requires n <= |items|
    ensures RemoveEach(db, sc, items, n) == LiveEntries(db, sc, items[..n]) + items[n..]
  {
    if n > 0 {
      RemoveEachIsFilter(db, sc, items, n - 1);
      LiveEntriesStep(db, sc, items, n);
      RemoveStep(db, sc, items, n, LiveEntries(db, sc, items[..n - 1]));
    } else {
      assert items[..0] == [] && items[0..] == items;
    }
  }

  lemma RemoveStep(db: Keyspace, sc: Scope, items: seq<string>, n: nat, kept: seq<string>)
    requires 0 < n <= |items| && RemoveEach(db, sc, items, n - 1) == kept + items[n - 1..]
    requires EntryStale(db, sc, items[n - 1]) ==> items[n - 1] !in kept
    ensures RemoveEach(db, sc, items, n)
      == kept + (if EntryStale(db, sc, items[n - 1]) then [] else [items[n - 1]]) + items[n..]
  {
    assert items[n - 1..] == [items[n - 1]] + items[n..];
    OneLooked(kept, items[n - 1], items[n..], EntryStale(db, sc, items[n - 1]));
  }

  lemma LiveEntriesStep(db: Keyspace, sc: Scope, items: seq<string>, n: nat)
    requires 0 < n <= |items|
    ensures LiveEntries(db, sc, items[..n])
      == LiveEntries(db, sc, items[..n - 1]) + (if EntryStale(db, sc, items[n - 1]) then [] else [items[n - 1]])
  {
    assert items[..n][..n - 1] == items[..n - 1];
  }

  lemma OneLooked(kept: seq<string>, x: string, rest: seq<string>, stale: bool)
    requires stale ==> x !in kept
    ensures (if stale then RemoveFirst(kept + ([x] + rest), x) else kept + ([x] + rest))
      == kept + (if stale then [] else [x]) + rest
  {
    assert kept + ([x] + rest) == kept + [x] + rest;
    if stale {
      RemoveFirstAfter(kept, x, rest);
      assert kept + [] == kept;
    }
  }

  lemma RemoveAllIsFilter(db: Keyspace, sc: Scope, items: seq<string>)
    ensures RemoveEach(db, sc, items, |items|) == LiveEntries(db, sc, items)
  {
    RemoveEachIsFilter(db, sc, items, |items|);
    assert items[..|items|] == items;
  }
}
