/**
 The TTL sweep over the object store (tasks/cleanup_tasks.py): list the visible keys,
 delete the expired ones, then purge the versions and delete markers that a plain
 delete leaves behind. `Swept` says key by key what a sweep keeps, given what the server
 refuses and mints; the methods of `CleanupManager` are proved to compute it.
 */
module BucketSweep {
  import opened Collections
  import opened Options
  import opened VersionedBucket

  const LIBRARY_KEY_PREFIX := "inputs/library/"

  /** One sweep: what it covers, its TTL, the override for superseded versions. */
  datatype Policy = Policy(prefix: string, ttl: int, noncurrentTtl: Option<int>, excluded: seq<string>)

  /** The two clock readings of one sweep: at the object listing and at the version listing. */
  datatype Clock = Clock(listedAt: real, purgedAt: real)

  /** One sweep as it happens: its policy, its clock, the bucket's mode and the server's answers. */
  datatype Sweep = Sweep(policy: Policy, clock: Clock, mode: Mode, answer: Answer)

  predicate StartsWithAny(k: Key, prefixes: seq<string>) {
    exists i :: 0 <= i < |prefixes| && prefixes[i] <= k
  }

  predicate InScope(p: Policy, k: Key) {
    p.prefix <= k && !StartsWithAny(k, p.excluded)
  }

  predicate TooOld(p: Policy, listedAt: real, lastModified: real) {
    listedAt - lastModified > p.ttl as real
  }

  /** The keys of one object listing that have outlived the TTL and are not exempt. */
  function PickExpired(p: Policy, listedAt: real, rows: seq<ObjectRow>): (keys: seq<Key>)
    ensures forall k :: k in keys ==> k in ListedKeys(rows)
  {
    if rows == [] then []
    else
      (if TooOld(p, listedAt, rows[0].lastModified) && !StartsWithAny(rows[0].key, p.excluded) then [rows[0].key] else [])
      + PickExpired(p, listedAt, rows[1..])
  }

  predicate Expired(p: Policy, listedAt: real, vs: seq<Version>) {
    vs != [] && !Current(vs).marker && TooOld(p, listedAt, Current(vs).time)
  }

  function Window(p: Policy): int {
    p.noncurrentTtl.GetOr(p.ttl)
  }

  predicate Stale(p: Policy, purgedAt: real, time: real) {
    Window(p) <= 0 || purgedAt - time > Window(p) as real
  }

  predicate Residue(p: Policy, purgedAt: real, v: Version, latest: bool) {
    Stale(p, purgedAt, v.time) && (v.marker || (!latest && v.id != NULL_ID))
  }

  /** A version the purge sends, and the server does not refuse. */
  predicate Goes(w: Sweep, k: Key, expired: bool, v: Version, latest: bool) {
    (expired || Residue(w.policy, w.clock.purgedAt, v, latest)) && (k, v.id) !in w.answer.refusedVersions
  }

  /** The versions a purge leaves of a key in scope, in order. */
  function Spared(w: Sweep, k: Key, expired: bool, vs: seq<Version>): (r: seq<Version>)
    ensures forall v :: v in r ==> v in vs
  {
    if vs == [] then []
    else (if Goes(w, k, expired, vs[0], |vs| == 1) then [] else [vs[0]]) + Spared(w, k, expired, vs[1..])
  }

  /** A key's history as the purge finds it: hidden by name first, if it has expired and the server agrees. */
  function History(w: Sweep, k: Key, vs: seq<Version>): seq<Version> {
    if InScope(w.policy, k) && Expired(w.policy, w.clock.listedAt, vs) && k !in w.answer.refused
    then Hidden(w.mode, vs, w.answer.markerId(k), w.answer.at) else vs
  }

  function Remaining(w: Sweep, k: Key, vs: seq<Version>): seq<Version> {
    if !InScope(w.policy, k) then vs
    else Spared(w, k, Expired(w.policy, w.clock.listedAt, vs), History(w, k, vs))
  }

  /** The store after one sweep: every key's remaining versions, keys without any gone. */
  function Swept(w: Sweep, s: Store): Store {
    map k | k in s && Remaining(w, k, s[k]) != [] :: Remaining(w, k, s[k])
  }

  function ExpiredKeys(p: Policy, listedAt: real, s: Store): set<Key> {
    set k | k in s && InScope(p, k) && Expired(p, listedAt, s[k])
  }

  function VersionIds(s: Store): set<(Key, string)> {
    set k, i | k in s && 0 <= i < |s[k]| :: (k, s[k][i].id)
  }

  /** The keys a sweep deletes by name. */
  function Accepted(w: Sweep, s: Store): set<Key> {
    ExpiredKeys(w.policy, w.clock.listedAt, s) - w.answer.refused
  }

  /** The store between the two halves of a sweep. */
  function Deleted(w: Sweep, s: Store): Store {
    AfterDelete(s, w.mode, w.answer, Accepted(w, s))
  }

  /** The pairs the purge of a sweep gets rid of. */
  function Acknowledged(w: Sweep, s: Store): set<(Key, string)> {
    DoomedPairs(w.policy, w.clock.purgedAt, ExpiredKeys(w.policy, w.clock.listedAt, s), Deleted(w, s))
    - w.answer.refusedVersions
  }

  /** The ids of the markers a sweep may write are fresh when it runs. */
  ghost predicate Fresh(w: Sweep, s: Store) {
    MintsFreshIds(w.answer, s, Accepted(w, s))
  }

  lemma DeletedAt(w: Sweep, s: Store, k: Key)
    requires k in s
    ensures k in Deleted(w, s) <==> History(w, k, s[k]) != []
    ensures k in Deleted(w, s) ==> Deleted(w, s)[k] == History(w, k, s[k])
  {
    assert HiddenIn(s, w.mode, w.answer, Accepted(w, s), k) == History(w, k, s[k]);
  }

  lemma {:induction false} SparedDistinct(w: Sweep, k: Key, expired: bool, vs: seq<Version>)
    requires DistinctIds(vs)
    ensures DistinctIds(Spared(w, k, expired, vs))
  {
    if vs != [] {
      SparedDistinct(w, k, expired, vs[1..]);
      var r := Spared(w, k, expired, vs[1..]);
      forall i | 0 <= i < |r| ensures r[i].id != vs[0].id {
        assert r[i] in vs[1..];
      }
    }
  }

  lemma SweptWellFormed(w: Sweep, s: Store)
    requires WellFormed(s) && Fresh(w, s)
    ensures WellFormed(Swept(w, s))
  {
    AfterDeleteWellFormed(s, w.mode, w.answer, Accepted(w, s));
    var r, mid := Swept(w, s), Deleted(w, s);
    forall k: Key | k in r
      ensures DistinctIds(r[k])
      ensures forall i :: 0 <= i < |r[k]| ==> r[k][i].id != ""
    {
      DeletedAt(w, s, k);
      if InScope(w.policy, k) {
        SparedDistinct(w, k, Expired(w.policy, w.clock.listedAt, s[k]), mid[k]);
        assert forall i :: 0 <= i < |r[k]| ==> r[k][i] in r[k] && r[k][i] in mid[k];
      } else {
        assert r[k] == s[k];
      }
    }
  }

  /** A run of sweeps, each with its own clock readings and answers. */
  function SweptAll(ws: seq<Sweep>, s: Store): Store {
    if ws == [] then s else SweptAll(ws[1..], Swept(ws[0], s))
  }

  // ---------------------------------------------------------------- the sweep itself

  /** Deleting by id leaves what is spared when the deleted ids are those that go. */
  lemma {:induction false} WithoutGoneIds(w: Sweep, k: Key, expired: bool, vs: seq<Version>, gone: set<string>)
    requires forall i :: 0 <= i < |vs| ==> (vs[i].id in gone <==> Goes(w, k, expired, vs[i], i == |vs| - 1))
    ensures WithoutIds(vs, gone) == Spared(w, k, expired, vs)
  {
    if vs != [] {
      forall i | 0 <= i < |vs[1..]|
        ensures vs[1..][i].id in gone <==> Goes(w, k, expired, vs[1..][i], i == |vs[1..]| - 1)
      {
        assert vs[1..][i] == vs[i + 1];
      }
      WithoutGoneIds(w, k, expired, vs[1..], gone);
    }
  }

  lemma {:induction false} WithoutOtherIds(vs: seq<Version>, gone: set<string>)
    requires forall i :: 0 <= i < |vs| ==> vs[i].id !in gone
    ensures WithoutIds(vs, gone) == vs
  {
    if vs != [] {
      assert forall i :: 0 <= i < |vs[1..]| ==> vs[1..][i] == vs[i + 1];
      WithoutOtherIds(vs[1..], gone);
    }
  }

  predicate Dooms(p: Policy, purgedAt: real, expired: set<Key>, k: Key, v: Version, latest: bool) {
    InScope(p, k) && (k in expired || Residue(p, purgedAt, v, latest))
  }

  /** The pairs one purge removes: everything of an expired key, and the residue of the others. */
  function DoomedPairs(p: Policy, purgedAt: real, expired: set<Key>, s: Store): set<(Key, string)> {
    set k, i | k in s && 0 <= i < |s[k]| && Dooms(p, purgedAt, expired, k, s[k][i], i == |s[k]| - 1)
      :: (k, s[k][i].id)
  }

  lemma PurgeCompletesKey(w: Sweep, s: Store, k: Key)
    requires WellFormed(s) && Fresh(w, s) && k in Deleted(w, s)
    ensures WithoutIds(Deleted(w, s)[k], IdsOf(Acknowledged(w, s), k)) == Remaining(w, k, s[k])
  {
    AfterDeleteWellFormed(s, w.mode, w.answer, Accepted(w, s));
    DeletedAt(w, s, k);
    var expired := ExpiredKeys(w.policy, w.clock.listedAt, s);
    var mid := Deleted(w, s);
    var vs, gone := mid[k], IdsOf(Acknowledged(w, s), k);
    forall i | 0 <= i < |vs|
      ensures vs[i].id in gone <==>
        Dooms(w.policy, w.clock.purgedAt, expired, k, vs[i], i == |vs| - 1) && (k, vs[i].id) !in w.answer.refusedVersions
    {
      assert vs[i].id in gone <==> (k, vs[i].id) in Acknowledged(w, s);
    }
    if InScope(w.policy, k) {
      WithoutGoneIds(w, k, k in expired, vs, gone);
    } else {
      WithoutOtherIds(vs, gone);
    }
  }

  /** Whatever the server refuses, by name or by version, the two halves leave what `Swept` says. */
  lemma PurgeCompletesSweep(w: Sweep, s: Store)
    requires WellFormed(s) && Fresh(w, s)
    ensures AfterPurge(Deleted(w, s), Acknowledged(w, s)) == Swept(w, s)
  {
    var mid: Store := Deleted(w, s);
    var left: Store, swept: Store := AfterPurge(mid, Acknowledged(w, s)), Swept(w, s);
    forall k: Key | k in s
      ensures k in left <==> k in swept
      ensures k in swept ==> left[k] == swept[k]
    {
      PurgedAt(w, s, k);
    }
    assert left.Keys == swept.Keys;
  }

  /** What the second half makes of what the first half left. */
  lemma PurgeOutcome(b: Backend, w: Sweep, s: Store)
    requires WellFormed(s) && Fresh(w, s) && Remote(b)
    ensures WellFormed(Deleted(w, s))
    ensures Left(b, w, s) == if b.versions then AfterPurge(Deleted(w, s), Acknowledged(w, s)) else Deleted(w, s)
    ensures Count(b, w, s) == |Accepted(w, s)| + (if b.versions then |Acknowledged(w, s)| else 0)
  {
    AfterDeleteWellFormed(s, w.mode, w.answer, Accepted(w, s));
    if b.versions {
      PurgeCompletesSweep(w, s);
      PurgedIds(Deleted(w, s), Acknowledged(w, s));
    }
  }

  lemma PurgedAt(w: Sweep, s: Store, k: Key)
    requires WellFormed(s) && Fresh(w, s) && k in s
    ensures var left := AfterPurge(Deleted(w, s), Acknowledged(w, s));
      (k in left <==> k in Swept(w, s)) && (k in Swept(w, s) ==> left[k] == Swept(w, s)[k])
  {
    DeletedAt(w, s, k);
    if k in Deleted(w, s) {
      PurgeCompletesKey(w, s, k);
    }
  }

  // ------------------------------------------------------- the outcome, whatever the backend

  /** A backend: whether it is remote at all, and whether it lists versions. */
  datatype Backend = Backend(name: string, versions: bool)

  predicate Remote(b: Backend) {
    b.name in ["s3", "r2"]
  }

  function Left(b: Backend, w: Sweep, s: Store): Store {
    if !Remote(b) then s else if b.versions then Swept(w, s) else Deleted(w, s)
  }

  /** What a sweep reports: the keys it hid and the versions it got rid of. */
  function Count(b: Backend, w: Sweep, s: Store): nat {
    if !Remote(b) then 0
    else |Accepted(w, s)| + (if b.versions then |VersionIds(Deleted(w, s)) - VersionIds(Left(b, w, s))| else 0)
  }

  function LeftAll(b: Backend, ws: seq<Sweep>, s: Store): Store {
    if ws == [] then s else LeftAll(b, ws[1..], Left(b, ws[0], s))
  }

  function CountAll(b: Backend, ws: seq<Sweep>, s: Store): nat {
    if ws == [] then 0 else Count(b, ws[0], s) + CountAll(b, ws[1..], Left(b, ws[0], s))
  }

  /** The ids minted along a run are fresh when they are minted. */
  ghost predicate FreshAlong(b: Backend, ws: seq<Sweep>, s: Store) {
    ws == [] || (Fresh(ws[0], s) && FreshAlong(b, ws[1..], Left(b, ws[0], s)))
  }

  lemma LeftWellFormed(b: Backend, w: Sweep, s: Store)
    requires WellFormed(s) && Fresh(w, s)
    ensures WellFormed(Left(b, w, s))
  {
    SweptWellFormed(w, s);
    AfterDeleteWellFormed(s, w.mode, w.answer, Accepted(w, s));
  }

  /** On a backend that keeps versions, a run is the run of `Swept`. */
  lemma {:induction false} LeftAllIsSweptAll(b: Backend, ws: seq<Sweep>, s: Store)
    requires Remote(b) && b.versions
    ensures LeftAll(b, ws, s) == SweptAll(ws, s)
  {
    if ws != [] {
      LeftAllIsSweptAll(b, ws[1..], Left(b, ws[0], s));
    }
  }

  // ---------------------------------------------------------------- picking the keys

  lemma {:induction false} PickedFrom(p: Policy, listedAt: real, rows: seq<ObjectRow>)
    requires forall i, j :: 0 <= i < j < |rows| ==> rows[i].key != rows[j].key
    ensures var keys := PickExpired(p, listedAt, rows);
      && Distinct(keys)
      && forall row :: row in rows ==>
        (row.key in keys <==> TooOld(p, listedAt, row.lastModified) && !StartsWithAny(row.key, p.excluded))
  {
    if rows != [] {
      PickedFrom(p, listedAt, rows[1..]);
      var rest := PickExpired(p, listedAt, rows[1..]);
      assert forall row :: row in rows[1..] ==> row.key != rows[0].key;
      assert rows[0].key !in ListedKeys(rows[1..]);
      assert forall row :: row in rows ==> row == rows[0] || row in rows[1..];
    }
  }

  /** What the listing and the filter pick are the expired keys, each once. */
  lemma PickedKeys(p: Policy, listedAt: real, s: Store, rows: seq<ObjectRow>)
    requires WellFormed(s)
    requires forall i :: 0 <= i < |rows| ==>
      p.prefix <= rows[i].key && Visible(s, rows[i].key) && rows[i].lastModified == Current(s[rows[i].key]).time
    requires ListedKeys(rows) == set k | k in s && p.prefix <= k && Visible(s, k)
    requires forall i, j :: 0 <= i < j < |rows| ==> rows[i].key != rows[j].key
    ensures var keys := PickExpired(p, listedAt, rows);
      && Distinct(keys)
      && Elements(keys) == ExpiredKeys(p, listedAt, s)
  {
    PickedFrom(p, listedAt, rows);
    var keys := PickExpired(p, listedAt, rows);
    forall k ensures k in keys <==> k in ExpiredKeys(p, listedAt, s) {
      if k in keys || k in ExpiredKeys(p, listedAt, s) {
        assert k in ListedKeys(rows);
        var row :| row in rows && row.key == k;
      }
    }
  }

  class CleanupManager {
    const s3InputTtl: int
    const s3UploadTtl: int
    const s3ForwardTtl: int
    const s3OutputTtl: int
    const s3LibraryTtl: int
    const s3NoncurrentTtl: Option<int>

    constructor (input: int, upload: int, forward: int, output: int, library: int, noncurrent: Option<int>)
      ensures s3InputTtl == input && s3UploadTtl == upload && s3ForwardTtl == forward
      ensures s3OutputTtl == output && s3LibraryTtl == library && s3NoncurrentTtl == noncurrent
    {
      s3InputTtl, s3UploadTtl, s3ForwardTtl := input, upload, forward;
      s3OutputTtl, s3LibraryTtl, s3NoncurrentTtl := output, library, noncurrent;
    }

    function PolicyFor(prefix: string, ttl: int, excluded: seq<string>): Policy {
      Policy(prefix, ttl, s3NoncurrentTtl, excluded)
    }

    function InputsPolicy(): Policy { PolicyFor("inputs/", s3InputTtl, [LIBRARY_KEY_PREFIX]) }

    function LibraryPolicy(): Policy { PolicyFor(LIBRARY_KEY_PREFIX, s3LibraryTtl, []) }

    /** The residue pass on its own: `expired` is what the same sweep just deleted. */
    method PurgeVersionResidue(bucket: Bucket, p: Policy, expired: set<Key>, purgedAt: real, a: Answer) returns (purged: nat)
      requires WellFormed(bucket.store)
      requires p.noncurrentTtl == s3NoncurrentTtl
      modifies bucket
      ensures !bucket.supportsVersions ==> bucket.store == old(bucket.store) && purged == 0
      ensures bucket.supportsVersions ==>
        var pairs := DoomedPairs(p, purgedAt, expired, old(bucket.store)) - a.refusedVersions;
        bucket.store == AfterPurge(old(bucket.store), pairs) && purged == |pairs|
    {
      if !bucket.supportsVersions {
        return 0;
      }
      var doomed := ListDoomed(bucket, p, expired, purgedAt);
      if doomed == [] {
        assert DoomedPairs(p, purgedAt, expired, bucket.store) - a.refusedVersions == {} by {
          assert DoomedPairs(p, purgedAt, expired, bucket.store) == Elements<(Key, string)>([]) == {};
        }
        NothingToDo(bucket.store, bucket.mode, a);
        return 0;
      }
      purged := bucket.DeleteVersions(doomed, a);
    }

    /** The versions to delete, each once. */
    method ListDoomed(bucket: Bucket, p: Policy, expired: set<Key>, purgedAt: real) returns (doomed: seq<(Key, string)>)
      requires WellFormed(bucket.store) && p.noncurrentTtl == s3NoncurrentTtl
      ensures Distinct(doomed) && Elements(doomed) == DoomedPairs(p, purgedAt, expired, bucket.store)
    {
      var versions := bucket.ListVersions(p.prefix);
      doomed := PickVersions(bucket, versions, p, expired, purgedAt);
      DoomedIsListed(p, purgedAt, expired, bucket.store, versions);
    }

    /** The loop over the listed rows. */
    method PickVersions(bucket: Bucket, versions: seq<VersionRow>, p: Policy, expired: set<Key>, purgedAt: real)
      returns (doomed: seq<(Key, string)>)
      requires WellFormed(bucket.store) && p.noncurrentTtl == s3NoncurrentTtl
      requires forall i :: 0 <= i < |versions| ==> RowOf(bucket.store, versions[i]) && p.prefix <= versions[i].key
      ensures doomed == PickDoomed(p, purgedAt, expired, versions)
    {
      var maxAge := if s3NoncurrentTtl.Some? then s3NoncurrentTtl.value else p.ttl;
      doomed := [];
      for n := 0 to |versions|
        invariant doomed == PickDoomed(p, purgedAt, expired, versions[..n])
      {
        var row := versions[n];
        assert versions[..n + 1][..n] == versions[..n];
        var key, versionId := row.key, row.version.id;
        if key == "" || versionId == "" || StartsWithAny(key, p.excluded) {
          continue;
        }
        if key in expired {
          doomed := doomed + [(key, versionId)];
          continue;
        }
        var age := purgedAt - row.version.time;
        var stale := maxAge <= 0 || age > maxAge as real;
        if !stale {
          continue;
        }
        if row.version.marker || (!row.latest && versionId != NULL_ID) {
          doomed := doomed + [(key, versionId)];
        }
      }
      assert versions[..|versions|] == versions;
    }

    /** One sweep of one prefix, on any backend, whatever the server refuses to delete by name or by
        version and whatever markers it writes. */
    method CleanupPrefix(bucket: Bucket, backendName: string, prefix: string, maxAge: int, excluded: seq<string>,
                         c: Clock, a: Answer)
      returns (removed: nat)
      requires WellFormed(bucket.store)
      requires Fresh(Sweep(PolicyFor(prefix, maxAge, excluded), c, bucket.mode, a), bucket.store)
      modifies bucket
      ensures
        var b := Backend(backendName, bucket.supportsVersions);
        var w := Sweep(PolicyFor(prefix, maxAge, excluded), c, bucket.mode, a);
        bucket.store == Left(b, w, old(bucket.store)) && removed == Count(b, w, old(bucket.store))
    {
      if backendName !in ["s3", "r2"] {
        return 0;
      }
      removed := SweepPrefix(bucket, PolicyFor(prefix, maxAge, excluded), c, a, Backend(backendName, bucket.supportsVersions));
    }

    /** The same, once the backend is known to be remote. */
    method SweepPrefix(bucket: Bucket, p: Policy, c: Clock, a: Answer, ghost b: Backend) returns (removed: nat)
      requires p.noncurrentTtl == s3NoncurrentTtl && Remote(b) && b.versions == bucket.supportsVersions
      requires WellFormed(bucket.store) && Fresh(Sweep(p, c, bucket.mode, a), bucket.store)
      modifies bucket
      ensures
        var w := Sweep(p, c, bucket.mode, a);
        bucket.store == Left(b, w, old(bucket.store)) && removed == Count(b, w, old(bucket.store))
    {
      ghost var before, w := bucket.store, Sweep(p, c, bucket.mode, a);
      PurgeOutcome(b, w, before);
      var expired, deleted := DeleteExpired(bucket, p, c, a);
      var purged := PurgeVersionResidue(bucket, p, expired, c.purgedAt, a);
      removed := deleted + purged;
    }

    /** The first half: list, pick, delete by name. */
    method DeleteExpired(bucket: Bucket, p: Policy, c: Clock, a: Answer) returns (expired: set<Key>, deleted: nat)
      requires WellFormed(bucket.store)
      modifies bucket
      ensures expired == ExpiredKeys(p, c.listedAt, old(bucket.store))
      ensures bucket.store == Deleted(Sweep(p, c, bucket.mode, a), old(bucket.store))
      ensures deleted == |Accepted(Sweep(p, c, bucket.mode, a), old(bucket.store))|
    {
      var objects := bucket.ListKeys(p.prefix);
      var toDelete := PickExpired(p, c.listedAt, objects);
      PickedKeys(p, c.listedAt, bucket.store, objects);
      expired, deleted := Elements(toDelete), 0;
      NothingToDo(bucket.store, bucket.mode, a);
      if toDelete != [] {
        deleted := bucket.DeleteKeys(toDelete, a);
      }
    }

    /** `cleanup_s3_inputs`: every per-job input, the shared library exempt. */
    method CleanupS3Inputs(bucket: Bucket, backendName: string, c: Clock, a: Answer) returns (removed: nat)
      requires WellFormed(bucket.store) && Fresh(Sweep(InputsPolicy(), c, bucket.mode, a), bucket.store)
      modifies bucket
      ensures
        var b, w := Backend(backendName, bucket.supportsVersions), Sweep(InputsPolicy(), c, bucket.mode, a);
        bucket.store == Left(b, w, old(bucket.store)) && removed == Count(b, w, old(bucket.store))
    {
      removed := CleanupPrefix(bucket, backendName, "inputs/", s3InputTtl, [LIBRARY_KEY_PREFIX], c, a);
    }

    /** `cleanup_s3_library`: the shared library under its own, longer TTL. */
    method CleanupS3Library(bucket: Bucket, backendName: string, c: Clock, a: Answer) returns (removed: nat)
      requires WellFormed(bucket.store) && Fresh(Sweep(LibraryPolicy(), c, bucket.mode, a), bucket.store)
      modifies bucket
      ensures
        var b, w := Backend(backendName, bucket.supportsVersions), Sweep(LibraryPolicy(), c, bucket.mode, a);
        bucket.store == Left(b, w, old(bucket.store)) && removed == Count(b, w, old(bucket.store))
    {
      removed := CleanupPrefix(bucket, backendName, LIBRARY_KEY_PREFIX, s3LibraryTtl, [], c, a);
    }

    /** The remote half of `cleanup_all`, in its order, each sweep reading the clock for itself. */
    function RemoteRuns(mode: Mode, cs: seq<Clock>, answers: seq<Answer>): seq<Sweep>
      requires |cs| == |answers| == 5
    {
      [Sweep(InputsPolicy(), cs[0], mode, answers[0]),
       Sweep(PolicyFor("uploads/", s3UploadTtl, []), cs[1], mode, answers[1]),
       Sweep(PolicyFor("forwards/", s3ForwardTtl, []), cs[2], mode, answers[2]),
       Sweep(PolicyFor("outputs/", s3OutputTtl, []), cs[3], mode, answers[3]),
       Sweep(LibraryPolicy(), cs[4], mode, answers[4])]
    }

    method CleanupRemote(bucket: Bucket, backendName: string, cs: seq<Clock>, answers: seq<Answer>)
      returns (removed: nat)
      requires |cs| == |answers| == 5 && WellFormed(bucket.store)
      requires FreshAlong(Backend(backendName, bucket.supportsVersions), RemoteRuns(bucket.mode, cs, answers), bucket.store)
      modifies bucket
      ensures
        var b, ws := Backend(backendName, bucket.supportsVersions), RemoteRuns(bucket.mode, cs, answers);
        bucket.store == LeftAll(b, ws, old(bucket.store)) && removed == CountAll(b, ws, old(bucket.store))
    {
      ghost var ws := RemoteRuns(bucket.mode, cs, answers);
      var inputs := SweepOne(bucket, backendName, InputsPolicy(), cs[0], answers[0], ws);
      var uploads := SweepOne(bucket, backendName, PolicyFor("uploads/", s3UploadTtl, []), cs[1], answers[1], ws[1..]);
      var forwards := SweepOne(bucket, backendName, PolicyFor("forwards/", s3ForwardTtl, []), cs[2], answers[2], ws[2..]);
      var outputs := SweepOne(bucket, backendName, PolicyFor("outputs/", s3OutputTtl, []), cs[3], answers[3], ws[3..]);
      var library := SweepOne(bucket, backendName, LibraryPolicy(), cs[4], answers[4], ws[4..]);
      removed := inputs + uploads + forwards + outputs + library;
    }

    /** One of them; what the rest of the run comes to from here is what it comes to from the start. */
    method SweepOne(bucket: Bucket, backendName: string, p: Policy, c: Clock, a: Answer, ghost ws: seq<Sweep>)
      returns (removed: nat)
      requires p.noncurrentTtl == s3NoncurrentTtl && ws != [] && ws[0] == Sweep(p, c, bucket.mode, a)
      requires WellFormed(bucket.store)
      requires FreshAlong(Backend(backendName, bucket.supportsVersions), ws, bucket.store)
      modifies bucket
      ensures WellFormed(bucket.store)
      ensures
        var b := Backend(backendName, bucket.supportsVersions);
        && FreshAlong(b, ws[1..], bucket.store)
        && LeftAll(b, ws, old(bucket.store)) == LeftAll(b, ws[1..], bucket.store)
        && CountAll(b, ws, old(bucket.store)) == removed + CountAll(b, ws[1..], bucket.store)
    {
      assert PolicyFor(p.prefix, p.ttl, p.excluded) == p;
      LeftWellFormed(Backend(backendName, bucket.supportsVersions), ws[0], bucket.store);
      removed := CleanupPrefix(bucket, backendName, p.prefix, p.ttl, p.excluded, c, a);
    }
  }

  /** The doomed list as the loop builds it, one row at a time. */
  function PickDoomed(p: Policy, purgedAt: real, expired: set<Key>, rows: seq<VersionRow>): seq<(Key, string)> {
    if rows == [] then []
    else
      var row := rows[|rows| - 1];
      PickDoomed(p, purgedAt, expired, rows[..|rows| - 1])
      + (if Dooms(p, purgedAt, expired, row.key, row.version, row.latest) then [(row.key, row.version.id)] else [])
  }

  ghost predicate Picks(p: Policy, purgedAt: real, expired: set<Key>, row: VersionRow, q: (Key, string)) {
    Dooms(p, purgedAt, expired, row.key, row.version, row.latest) && q == (row.key, row.version.id)
  }

  ghost predicate PickedFromRows(p: Policy, purgedAt: real, expired: set<Key>, rows: seq<VersionRow>, q: (Key, string)) {
    exists row :: row in rows && Picks(p, purgedAt, expired, row, q)
  }

  lemma {:induction false} PickDoomedMembers(p: Policy, purgedAt: real, expired: set<Key>, rows: seq<VersionRow>,
                                             q: (Key, string))
    ensures q in PickDoomed(p, purgedAt, expired, rows) <==> PickedFromRows(p, purgedAt, expired, rows, q)
  {
    if rows != [] {
      var last, init := rows[|rows| - 1], rows[..|rows| - 1];
      PickDoomedMembers(p, purgedAt, expired, init, q);
      assert forall row :: row in rows <==> row in init || row == last;
      assert PickedFromRows(p, purgedAt, expired, rows, q) <==>
        PickedFromRows(p, purgedAt, expired, init, q) || Picks(p, purgedAt, expired, last, q);
    }
  }

  lemma {:induction false} PickDoomedDistinct(p: Policy, purgedAt: real, expired: set<Key>, rows: seq<VersionRow>)
    requires DistinctRows(rows)
    ensures Distinct(PickDoomed(p, purgedAt, expired, rows))
  {
    if rows != [] {
      var last, init := rows[|rows| - 1], rows[..|rows| - 1];
      PickDoomedDistinct(p, purgedAt, expired, init);
      PickDoomedMembers(p, purgedAt, expired, init, (last.key, last.version.id));
      forall row | row in init ensures (row.key, row.version.id) != (last.key, last.version.id) {
        var i :| 0 <= i < |init| && init[i] == row;
        assert rows[i] == row;
      }
    }
  }

  lemma DoomedIsListed(p: Policy, purgedAt: real, expired: set<Key>, s: Store, rows: seq<VersionRow>)
    requires WellFormed(s)
    requires forall i :: 0 <= i < |rows| ==> RowOf(s, rows[i]) && p.prefix <= rows[i].key
    requires forall k, j :: k in s && p.prefix <= k && 0 <= j < |s[k]| ==>
      VersionRow(k, s[k][j], j == |s[k]| - 1) in rows
    requires DistinctRows(rows)
    ensures var doomed := PickDoomed(p, purgedAt, expired, rows);
      && Distinct(doomed)
      && Elements(doomed) == DoomedPairs(p, purgedAt, expired, s)
  {
    PickDoomedDistinct(p, purgedAt, expired, rows);
    var doomed := PickDoomed(p, purgedAt, expired, rows);
    var pairs := DoomedPairs(p, purgedAt, expired, s);
    forall q | q in pairs ensures q in doomed {
      var k, j :| k in s && 0 <= j < |s[k]| && q == (k, s[k][j].id)
        && Dooms(p, purgedAt, expired, k, s[k][j], j == |s[k]| - 1);
      assert Picks(p, purgedAt, expired, VersionRow(k, s[k][j], j == |s[k]| - 1), q);
      PickDoomedMembers(p, purgedAt, expired, rows, q);
    }
    forall q | q in doomed ensures q in pairs {
      PickDoomedMembers(p, purgedAt, expired, rows, q);
      var row :| row in rows && Picks(p, purgedAt, expired, row, q);
      assert RowOf(s, row);
    }
  }

  /** What a purge takes out of the bucket is exactly the pairs it was given. */
  lemma PurgedIds(s: Store, pairs: set<(Key, string)>)
    requires WellFormed(s) && pairs <= VersionIds(s)
    ensures VersionIds(s) - VersionIds(AfterPurge(s, pairs)) == pairs
  {
    var r: Store := AfterPurge(s, pairs);
    forall k, id | (k, id) in VersionIds(s)
      ensures (k, id) in VersionIds(r) <==> (k, id) !in pairs
    {
      var i :| 0 <= i < |s[k]| && s[k][i].id == id;
      var kept := WithoutIds(s[k], IdsOf(pairs, k));
      assert id in IdsOf(pairs, k) <==> (k, id) in pairs;
      assert s[k][i] in s[k];
      if (k, id) !in pairs {
        assert s[k][i] in kept;
        var j :| 0 <= j < |kept| && kept[j] == s[k][i];
        assert r[k][j].id == id;
      } else {
        assert forall v :: v in kept ==> v.id != id;
      }
    }
  }
}
