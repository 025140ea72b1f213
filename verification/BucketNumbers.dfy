/**
 The remote half of a cleanup run in plain numbers: which versions of a key are left, by its
 prefix, the manager's own TTLs, the clock and what the server refused.
 */
module BucketNumbers {
  import opened Collections
  import opened Options
  import opened VersionedBucket
  import opened BucketSweep
  import opened BucketLaws

  /** The newest version is an object last modified more than `ttl` seconds before the listing. */
  predicate PastTtl(vs: seq<Version>, ttl: int, c: Clock) {
    vs != [] && !vs[|vs| - 1].marker && c.listedAt - vs[|vs| - 1].time > ttl as real
  }

  /** Version `i` is older than the window for superseded versions, which is the TTL where none is set. */
  predicate PastWindow(v: Version, ttl: int, noncurrent: Option<int>, c: Clock) {
    var window := if noncurrent.Some? then noncurrent.value else ttl;
    window <= 0 || c.purgedAt - v.time > window as real
  }

  /** What a delete by name leaves of a version: everything where the server refuses it, else nothing on a
      plain bucket, everything on a versioned one, all but the null version on a suspended one. */
  predicate SurvivesHiding(k: Key, v: Version, mode: Mode, a: Answer) {
    || k in a.refused
    || mode.Enabled?
    || (mode.Suspended? && (v.id != "null" || v == Version("null", a.at, true)))
  }

  /** Version `i` of a key is still there after its sweep. */
  predicate Keeps(k: Key, vs: seq<Version>, i: nat, ttl: int, noncurrent: Option<int>, c: Clock, mode: Mode, a: Answer)
    requires i < |vs|
  {
    var v := vs[i];
    if PastTtl(vs, ttl, c) then (k, v.id) in a.refusedVersions && SurvivesHiding(k, v, mode, a)
    else
      || (k, v.id) in a.refusedVersions
      || !PastWindow(v, ttl, noncurrent, c)
      || (!v.marker && (i == |vs| - 1 || v.id == "null"))
  }

  lemma {:induction false} SparedHas(w: Sweep, k: Key, expired: bool, vs: seq<Version>, i: nat)
    requires DistinctIds(vs) && i < |vs|
    ensures vs[i] in Spared(w, k, expired, vs) <==> !Goes(w, k, expired, vs[i], i == |vs| - 1)
  {
    if i == 0 {
      assert forall j :: 0 < j < |vs| ==> vs[j] != vs[0];
      assert vs[0] !in vs[1..];
    } else {
      assert vs[1..][i - 1] == vs[i] && vs[i] != vs[0];
      SparedHas(w, k, expired, vs[1..], i - 1);
    }
  }

  lemma {:induction false} SparedRefused(w: Sweep, k: Key, vs: seq<Version>, v: Version)
    ensures v in Spared(w, k, true, vs) <==> v in vs && (k, v.id) in w.answer.refusedVersions
  {
    if vs != [] {
      SparedRefused(w, k, vs[1..], v);
      assert vs == [vs[0]] + vs[1..];
    }
  }

  lemma RemainingInNumbers(w: Sweep, k: Key, vs: seq<Version>, i: nat)
    requires InScope(w.policy, k) && DistinctIds(vs) && i < |vs| && !HasId(vs, w.answer.markerId(k))
    ensures vs[i] in Remaining(w, k, vs) <==>
      Keeps(k, vs, i, w.policy.ttl, w.policy.noncurrentTtl, w.clock, w.mode, w.answer)
  {
    if OutOfTime(w, vs) {
      SparedRefused(w, k, History(w, k, vs), vs[i]);
    } else {
      SparedHas(w, k, false, vs, i);
    }
  }

  ghost predicate StillThere(s: Store, after: Store, k: Key, i: nat)
    requires k in s && i < |s[k]|
  {
    k in after && s[k][i] in after[k]
  }

  /** A whole run on a versioned backend, version by version, under the TTL that each prefix has: the shared
      library under its own, the other inputs under theirs, uploads, forwards and outputs under theirs. */
  lemma RunInNumbers(m: CleanupManager, b: Backend, mode: Mode, cs: seq<Clock>, answers: seq<Answer>, s: Store, k: Key, i: nat)
    requires WellFormed(s) && k in s && i < |s[k]| && |cs| == |answers| == 5 && Remote(b) && b.versions
    requires forall j :: 0 <= j < 5 ==> !HasId(s[k], answers[j].markerId(k))
    ensures
      var after := LeftAll(b, m.RemoteRuns(mode, cs, answers), s);
      var kept := StillThere(s, after, k, i);
      && ("inputs/library/" <= k ==>
        (kept <==> Keeps(k, s[k], i, m.s3LibraryTtl, m.s3NoncurrentTtl, cs[4], mode, answers[4])))
      && ("inputs/" <= k && !("inputs/library/" <= k) ==>
        (kept <==> Keeps(k, s[k], i, m.s3InputTtl, m.s3NoncurrentTtl, cs[0], mode, answers[0])))
      && ("uploads/" <= k ==>
        (kept <==> Keeps(k, s[k], i, m.s3UploadTtl, m.s3NoncurrentTtl, cs[1], mode, answers[1])))
      && ("forwards/" <= k ==>
        (kept <==> Keeps(k, s[k], i, m.s3ForwardTtl, m.s3NoncurrentTtl, cs[2], mode, answers[2])))
      && ("outputs/" <= k ==>
        (kept <==> Keeps(k, s[k], i, m.s3OutputTtl, m.s3NoncurrentTtl, cs[3], mode, answers[3])))
  {
    var ws := m.RemoteRuns(mode, cs, answers);
    RemoteRunByOwner(m, b, mode, cs, answers, s, k);
    OwnersByPrefix(m, mode, cs, answers, k);
    forall j | 0 <= j < 5 && InScope(ws[j].policy, k)
      ensures s[k][i] in Remaining(ws[j], k, s[k]) <==>
        Keeps(k, s[k], i, ws[j].policy.ttl, ws[j].policy.noncurrentTtl, ws[j].clock, mode, ws[j].answer)
    {
      RemainingInNumbers(ws[j], k, s[k], i);
    }
  }

  /** A key under a swept prefix goes by name when it is past the prefix's TTL and the server agrees. */
  predicate GoesByName(k: Key, vs: seq<Version>, under: bool, ttl: int, c: Clock, a: Answer) {
    under && PastTtl(vs, ttl, c) && k !in a.refused
  }

  /** Which keys each sweep deletes by name, on whatever store it finds. */
  lemma DeletedByNameInNumbers(m: CleanupManager, mode: Mode, cs: seq<Clock>, answers: seq<Answer>, s: Store, k: Key)
    requires |cs| == |answers| == 5 && k in s
    ensures
      var ws := m.RemoteRuns(mode, cs, answers);
      var library, inputs := "inputs/library/" <= k, "inputs/" <= k && !("inputs/library/" <= k);
      && (k in Accepted(ws[0], s) <==> GoesByName(k, s[k], inputs, m.s3InputTtl, cs[0], answers[0]))
      && (k in Accepted(ws[1], s) <==> GoesByName(k, s[k], "uploads/" <= k, m.s3UploadTtl, cs[1], answers[1]))
      && (k in Accepted(ws[2], s) <==> GoesByName(k, s[k], "forwards/" <= k, m.s3ForwardTtl, cs[2], answers[2]))
      && (k in Accepted(ws[3], s) <==> GoesByName(k, s[k], "outputs/" <= k, m.s3OutputTtl, cs[3], answers[3]))
      && (k in Accepted(ws[4], s) <==> GoesByName(k, s[k], library, m.s3LibraryTtl, cs[4], answers[4]))
  {
    OwnersByPrefix(m, mode, cs, answers, k);
  }
}
