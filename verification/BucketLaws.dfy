/**
 What a sweep means for somebody reading the bucket: against a flat TTL filter on the
 visible keys, against a second sweep, and against the other sweeps of the same run.
 */
module BucketLaws {
  import opened Options
  import opened VersionedBucket
  import opened BucketSweep

  // ------------------------------------------------------- refinement of a TTL filter

  predicate NullObject(v: Version) {
    v.id == NULL_ID && !v.marker
  }

  predicate OutOfTime(w: Sweep, vs: seq<Version>) {
    Expired(w.policy, w.clock.listedAt, vs)
  }

  /** A key whose delete marker is past its window. */
  predicate Retired(w: Sweep, vs: seq<Version>) {
    vs != [] && Current(vs).marker && Stale(w.policy, w.clock.purgedAt, Current(vs).time)
  }

  /** A version of an expired or retired key that the sweep leaves: the server refuses to delete it, or it
      was stored before versioning began and the key is not expired. */
  predicate Clings(w: Sweep, k: Key, expired: bool, v: Version) {
    (k, v.id) in w.answer.refusedVersions || (!expired && NullObject(v))
  }

  /** The newest version that clings is an object, so it is what a GET resolves afterwards. */
  predicate Uncovers(w: Sweep, k: Key, expired: bool, vs: seq<Version>) {
    exists i :: 0 <= i < |vs| && !vs[i].marker && Clings(w, k, expired, vs[i])
      && forall j :: i < j < |vs| ==> !Clings(w, k, expired, vs[j])
  }

  /** A key in scope that ought to be gone, expired now or retired earlier, and that a sweep shows (again). */
  predicate Resurfaces(w: Sweep, s: Store, k: Key) {
    k in s && InScope(w.policy, k) && (OutOfTime(w, s[k]) || Retired(w, s[k]))
    && Uncovers(w, k, OutOfTime(w, s[k]), History(w, k, s[k]))
  }

  lemma {:induction false} SparedKeepsCurrent(w: Sweep, k: Key, vs: seq<Version>)
    requires vs != [] && !Goes(w, k, false, Current(vs), true)
    ensures var r := Spared(w, k, false, vs); r != [] && Current(r) == Current(vs)
  {
    if |vs| > 1 {
      assert Current(vs[1..]) == Current(vs);
      SparedKeepsCurrent(w, k, vs[1..]);
    }
  }

  /** Of a key that ought to be gone exactly the versions that cling are left. */
  ghost predicate OnlyClinging(w: Sweep, k: Key, expired: bool, vs: seq<Version>) {
    forall i :: 0 <= i < |vs| ==> (Goes(w, k, expired, vs[i], i == |vs| - 1) <==> !Clings(w, k, expired, vs[i]))
  }

  lemma {:induction false} SparedNothing(w: Sweep, k: Key, expired: bool, vs: seq<Version>)
    requires OnlyClinging(w, k, expired, vs)
    ensures Spared(w, k, expired, vs) == [] <==> forall i :: 0 <= i < |vs| ==> !Clings(w, k, expired, vs[i])
  {
    if vs != [] {
      var tail := vs[1..];
      assert forall i :: 0 <= i < |tail| ==> tail[i] == vs[i + 1];
      SparedNothing(w, k, expired, tail);
    }
  }

  lemma {:induction false} SparedUncovers(w: Sweep, k: Key, expired: bool, vs: seq<Version>)
    requires OnlyClinging(w, k, expired, vs)
    ensures var r := Spared(w, k, expired, vs); r != [] && !Current(r).marker <==> Uncovers(w, k, expired, vs)
  {
    if vs != [] {
      var tail := vs[1..];
      assert forall i :: 0 <= i < |tail| ==> tail[i] == vs[i + 1];
      SparedUncovers(w, k, expired, tail);
      SparedNothing(w, k, expired, tail);
    }
  }

  /** One key: visible after the sweep exactly when it was visible and unexpired, or resurfaces; and a key
      that was to stay still shows the very same version. */
  lemma SweepVisibility(w: Sweep, s: Store, k: Key)
    requires WellFormed(s) && Chronological(s)
    ensures Visible(Swept(w, s), k) <==>
      (Visible(s, k) && k !in ExpiredKeys(w.policy, w.clock.listedAt, s)) || Resurfaces(w, s, k)
    ensures Visible(s, k) && k !in ExpiredKeys(w.policy, w.clock.listedAt, s) ==> Current(Swept(w, s)[k]) == Current(s[k])
  {
    if k in s && InScope(w.policy, k) {
      var vs := s[k];
      if OutOfTime(w, vs) {
        SparedUncovers(w, k, true, History(w, k, vs));
      } else if Retired(w, vs) {
        SparedUncovers(w, k, false, vs);
      } else {
        SparedKeepsCurrent(w, k, vs);
      }
    }
  }

  /** The sweep is a flat TTL filter on the visible keys: what the documentation promises. */
  ghost predicate RefinesTtlFilter(w: Sweep, s: Store) {
    forall k :: Visible(Swept(w, s), k) <==> Visible(s, k) && k !in ExpiredKeys(w.policy, w.clock.listedAt, s)
  }

  /** It holds exactly when no key resurfaces: of every expired or retired key in scope the newest version
      that clings, a refused one or a null object, is a marker, or there is none. */
  lemma SweepRefinesTtlFilterIff(w: Sweep, s: Store)
    requires WellFormed(s) && Chronological(s)
    ensures RefinesTtlFilter(w, s) <==> forall k :: k in s ==> !Resurfaces(w, s, k)
  {
    forall k
      ensures (Visible(Swept(w, s), k) <==> Visible(s, k) && k !in ExpiredKeys(w.policy, w.clock.listedAt, s))
        <==> !Resurfaces(w, s, k)
    {
      SweepVisibility(w, s, k);
    }
  }

  predicate HasNullObject(vs: seq<Version>) {
    exists i :: 0 <= i < |vs| && NullObject(vs[i])
  }

  /** When the server refuses no version of a key, only a null object under a stale marker resurfaces. */
  lemma ResurfacesUnrefused(w: Sweep, s: Store, k: Key)
    requires forall id :: (k, id) !in w.answer.refusedVersions
    ensures Resurfaces(w, s, k) <==> k in s && InScope(w.policy, k) && Retired(w, s[k]) && HasNullObject(s[k])
  {
    if k in s && InScope(w.policy, k) && Retired(w, s[k]) && HasNullObject(s[k]) {
      NewestNullObject(w, k, s[k], |s[k]|);
    }
  }

  lemma {:induction false} NewestNullObject(w: Sweep, k: Key, vs: seq<Version>, n: nat)
    requires forall id :: (k, id) !in w.answer.refusedVersions
    requires n <= |vs| && (forall j :: n <= j < |vs| ==> !NullObject(vs[j])) && HasNullObject(vs)
    ensures Uncovers(w, k, false, vs)
  {
    var i :| 0 <= i < |vs| && NullObject(vs[i]);
    assert i < n;
    if NullObject(vs[n - 1]) {
      assert Clings(w, k, false, vs[n - 1]);
    } else {
      NewestNullObject(w, k, vs, n - 1);
    }
  }

  /** A bucket whose objects were all stored with versioning on, and a server that refuses of each key only
      what it also keeps covered, never show a deleted key again. */
  lemma NoNullVersionsNoResurrection(w: Sweep, s: Store)
    requires WellFormed(s) && Chronological(s)
    requires forall k :: k in s ==> !HasNullObject(s[k])
    requires forall k :: k in s ==> RefusalsCovered(w, k, History(w, k, s[k]))
    ensures RefinesTtlFilter(w, s)
  {
    forall k | k in s ensures !Resurfaces(w, s, k) {
      var vs := History(w, k, s[k]);
      if i :| 0 <= i < |vs| && !vs[i].marker && (k, vs[i].id) in w.answer.refusedVersions {
        var j :| i < j < |vs| && (k, vs[j].id) in w.answer.refusedVersions;
      }
    }
    SweepRefinesTtlFilterIff(w, s);
  }

  /** Above every object whose deletion is refused some newer version's is refused too. */
  predicate RefusalsCovered(w: Sweep, k: Key, vs: seq<Version>) {
    forall i :: 0 <= i < |vs| && !vs[i].marker && (k, vs[i].id) in w.answer.refusedVersions ==>
      exists j :: i < j < |vs| && (k, vs[j].id) in w.answer.refusedVersions
  }

  /** A day-old marker over one object, and the sweep that retires it. */
  function HiddenObject(id: string): Store {
    map["outputs/a" := [Version(id, 0.0, false), Version("m1", 1.0, true)]]
  }

  function RetiringSweep(refused: set<(Key, string)>): Sweep {
    Sweep(Policy("outputs/", 86400, None, []), Clock(90000.0, 90000.0), Enabled,
          Answer({}, _ => "m2", 90000.0, refused))
  }

  lemma Resurrection(id: string, refused: set<(Key, string)>)
    requires id != "" && id != "m1" && ("outputs/a", "m1") !in refused
    requires id == NULL_ID || ("outputs/a", id) in refused
    ensures
      var s, w := HiddenObject(id), RetiringSweep(refused);
      WellFormed(s) && Chronological(s) && !Visible(s, "outputs/a") && Visible(Swept(w, s), "outputs/a")
  {
    var s, w := HiddenObject(id), RetiringSweep(refused);
    var vs := s["outputs/a"];
    assert "m1" != NULL_ID by { assert |"m1"| != |NULL_ID|; }
    assert InScope(w.policy, "outputs/a") && Retired(w, vs) && !OutOfTime(w, vs);
    assert Clings(w, "outputs/a", false, vs[0]) && !Clings(w, "outputs/a", false, vs[1]);
    assert Uncovers(w, "outputs/a", false, vs);
    SweepVisibility(w, s, "outputs/a");
  }

  /** Two failing inputs: a pre-versioning object deleted by name, which no refusal is needed to show
      again, and a versioned one whose deletion the server refuses while it deletes the marker above. */
  lemma ResurrectionExamples()
    ensures
      var (s, w) := (HiddenObject(NULL_ID), RetiringSweep({}));
      WellFormed(s) && Chronological(s) && !Visible(s, "outputs/a") && Visible(Swept(w, s), "outputs/a")
    ensures
      var (s, w) := (HiddenObject("v1"), RetiringSweep({("outputs/a", "v1")}));
      WellFormed(s) && Chronological(s) && !Visible(s, "outputs/a") && Visible(Swept(w, s), "outputs/a")
  {
    assert "v1"[0] != "m1"[0] && |NULL_ID| != |"m1"|;
    Resurrection(NULL_ID, {});
    Resurrection("v1", {("outputs/a", "v1")});
  }

  // ------------------------------------------------------- what is left behind

  lemma {:induction false} SparedJustified(w: Sweep, k: Key, expired: bool, vs: seq<Version>, v: Version)
    requires DistinctIds(vs) && v in Spared(w, k, expired, vs)
    ensures (k, v.id) in w.answer.refusedVersions
      || (!expired && (!Stale(w.policy, w.clock.purgedAt, v.time) || (!v.marker && (v == Current(vs) || v.id == NULL_ID))))
  {
    if |vs| > 1 && v in Spared(w, k, expired, vs[1..]) {
      assert Current(vs[1..]) == Current(vs);
      SparedJustified(w, k, expired, vs[1..], v);
    }
  }

  /** Every version left in scope was refused, or belongs to an unexpired key and is inside the window, or
      the live current object, or a null object; and a sweep adds nothing to an unexpired key. */
  lemma SurvivorsAreJustified(w: Sweep, s: Store, k: Key)
    requires WellFormed(s) && Fresh(w, s) && InScope(w.policy, k)
    ensures k in Swept(w, s) ==> k in s && forall v :: v in Swept(w, s)[k] ==>
      (k, v.id) in w.answer.refusedVersions
      || (v in s[k] && k !in ExpiredKeys(w.policy, w.clock.listedAt, s)
        && (!Stale(w.policy, w.clock.purgedAt, v.time) || (!v.marker && (v == Current(s[k]) || v.id == NULL_ID))))
  {
    if k in Swept(w, s) {
      AfterDeleteWellFormed(s, w.mode, w.answer, Accepted(w, s));
      DeletedAt(w, s, k);
      var vs, expired := History(w, k, s[k]), OutOfTime(w, s[k]);
      forall v | v in Swept(w, s)[k]
        ensures (k, v.id) in w.answer.refusedVersions
          || (!expired && (!Stale(w.policy, w.clock.purgedAt, v.time) || (!v.marker && (v == Current(vs) || v.id == NULL_ID))))
      {
        SparedJustified(w, k, expired, vs, v);
      }
    }
  }

  /** An expired key none of whose versions is refused keeps nothing, not even a tombstone. */
  lemma ExpiredKeepsNothing(w: Sweep, s: Store, k: Key)
    requires WellFormed(s) && Fresh(w, s) && k in ExpiredKeys(w.policy, w.clock.listedAt, s)
    ensures k in Swept(w, s) <==> exists v :: v in History(w, k, s[k]) && (k, v.id) in w.answer.refusedVersions
  {
    var vs := History(w, k, s[k]);
    SparedNothing(w, k, true, vs);
    if i :| 0 <= i < |vs| && Clings(w, k, true, vs[i]) {
      assert vs[i] in vs;
    }
  }

  // ------------------------------------------------------- a second sweep

  /** The server deletes every version it is asked to. */
  predicate Obeys(w: Sweep) {
    w.answer.refusedVersions == {}
  }

  lemma {:induction false} SparedTwice(w: Sweep, v: Sweep, k: Key, vs: seq<Version>)
    requires vs != [] && SameMoment(w, v)
    requires !Goes(w, k, false, Current(vs), true)
    ensures Spared(v, k, false, Spared(w, k, false, vs)) == Spared(w, k, false, vs)
  {
    if |vs| > 1 {
      assert Current(vs[1..]) == Current(vs);
      SparedTwice(w, v, k, vs[1..]);
      SparedKeepsCurrent(w, k, vs[1..]);
      var rest := Spared(w, k, false, vs[1..]);
      if !Goes(w, k, false, vs[0], false) {
        assert ([vs[0]] + rest)[1..] == rest;
      } else {
        assert [] + rest == rest;
      }
    }
  }

  lemma {:induction false} SparedNulls(w: Sweep, k: Key, vs: seq<Version>)
    requires forall v :: v in vs ==> NullObject(v)
    ensures Spared(w, k, false, vs) == vs
  {
    if vs != [] {
      SparedNulls(w, k, vs[1..]);
      assert NullObject(vs[0]) && vs == [vs[0]] + vs[1..];
    }
  }

  /** A null object that a stale marker hid and that is itself past the key TTL. */
  predicate Relapses(w: Sweep, s: Store, k: Key) {
    k in s && InScope(w.policy, k) && Retired(w, s[k])
    && exists i :: 0 <= i < |s[k]| && NullObject(s[k][i]) && TooOld(w.policy, w.clock.listedAt, s[k][i].time)
  }

  /** Under a stale marker only null objects are left. */
  lemma {:induction false} SparedUnderMarker(w: Sweep, k: Key, vs: seq<Version>)
    requires Obeys(w) && OnlyClinging(w, k, false, vs)
    ensures forall v :: v in Spared(w, k, false, vs) <==> v in vs && NullObject(v)
  {
    if vs != [] {
      assert forall i :: 0 <= i < |vs[1..]| ==> vs[1..][i] == vs[i + 1];
      SparedUnderMarker(w, k, vs[1..]);
    }
  }

  lemma {:induction false} ObeyedExpired(w: Sweep, k: Key, vs: seq<Version>)
    requires Obeys(w)
    ensures Spared(w, k, true, vs) == []
  {
    if vs != [] {
      ObeyedExpired(w, k, vs[1..]);
    }
  }

  ghost predicate SameMoment(w: Sweep, v: Sweep) {
    Obeys(w) && Obeys(v) && v.policy == w.policy && v.clock == w.clock
  }

  lemma SecondSweepRetired(w: Sweep, v: Sweep, k: Key, vs: seq<Version>)
    requires DistinctIds(vs) && TimeOrdered(vs) && SameMoment(w, v) && InScope(w.policy, k) && Retired(w, vs)
    ensures var r := Spared(w, k, false, vs);
      r != [] ==> (Remaining(v, k, r) == r <==>
        !exists i :: 0 <= i < |vs| && NullObject(vs[i]) && TooOld(w.policy, w.clock.listedAt, vs[i].time))
  {
    var r := Spared(w, k, false, vs);
    SparedUnderMarker(w, k, vs);
    SparedNulls(v, k, r);
    ObeyedExpired(v, k, History(v, k, r));
    if r != [] {
      assert Current(r) in r && Current(r) in vs;
      assert forall i :: 0 <= i < |vs| && NullObject(vs[i]) ==> vs[i] == Current(r);
    }
  }

  lemma SecondSweepKept(w: Sweep, v: Sweep, k: Key, vs: seq<Version>)
    requires vs != [] && SameMoment(w, v) && InScope(w.policy, k) && !Retired(w, vs) && !OutOfTime(w, vs)
    ensures var r := Spared(w, k, false, vs); r != [] && Remaining(v, k, r) == r
  {
    SparedKeepsCurrent(w, k, vs);
    SparedTwice(w, v, k, vs);
  }

  lemma SecondSweepKey(w: Sweep, v: Sweep, s: Store, k: Key)
    requires WellFormed(s) && Chronological(s) && k in s && SameMoment(w, v)
    ensures var r := Remaining(w, k, s[k]);
      r != [] ==> (Remaining(v, k, r) == r <==> !Relapses(w, s, k))
  {
    var vs := s[k];
    if InScope(w.policy, k) {
      if Retired(w, vs) {
        SecondSweepRetired(w, v, k, vs);
      } else if OutOfTime(w, vs) {
        ObeyedExpired(w, k, History(w, k, vs));
      } else {
        SecondSweepKept(w, v, k, vs);
      }
    }
  }

  /** Sweeping twice at the same time removes nothing more, exactly when no hidden null object in scope has
      itself outlived the key TTL. */
  lemma SecondSweepRemovesNothingIff(w: Sweep, v: Sweep, s: Store)
    requires WellFormed(s) && Chronological(s) && SameMoment(w, v)
    ensures Swept(v, Swept(w, s)) == Swept(w, s) <==> forall k :: k in s ==> !Relapses(w, s, k)
  {
    var once, twice := Swept(w, s), Swept(v, Swept(w, s));
    forall k: Key | k in s
      ensures (k in once <==> Remaining(w, k, s[k]) != [])
      ensures k in once ==> ((k in twice && twice[k] == once[k]) <==> !Relapses(w, s, k))
      ensures k !in once ==> !Relapses(w, s, k)
    {
      SecondSweepKey(w, v, s, k);
      if k !in once && Relapses(w, s, k) {
        SparedUnderMarker(w, k, s[k]);
      }
    }
    if twice == once {
      assert forall k: Key :: k in s ==> !Relapses(w, s, k);
    }
  }

  // ------------------------------------------------------- several sweeps in one run

  ghost predicate DisjointScopes(ws: seq<Sweep>) {
    forall i, j, k :: 0 <= i < j < |ws| && InScope(ws[i].policy, k) ==> !InScope(ws[j].policy, k)
  }

  ghost predicate SameAt(s: Store, k: Key, vs: seq<Version>) {
    if vs == [] then k !in s else k in s && s[k] == vs
  }

  /** With disjoint scopes every key sees the one sweep that owns it, whatever the order and the answers. */
  lemma {:induction false} EachKeySeesItsOwnSweep(ws: seq<Sweep>, s: Store, k: Key)
    requires NoEmptyHistory(s) && DisjointScopes(ws) && k in s
    ensures forall i :: 0 <= i < |ws| && InScope(ws[i].policy, k) ==>
      SameAt(SweptAll(ws, s), k, Remaining(ws[i], k, s[k]))
    ensures (forall i :: 0 <= i < |ws| ==> !InScope(ws[i].policy, k)) ==> SameAt(SweptAll(ws, s), k, s[k])
  {
    if ws != [] {
      var next := Swept(ws[0], s);
      var rest := ws[1..];
      assert forall i :: 0 <= i < |rest| ==> rest[i] == ws[i + 1];
      if k in next {
        EachKeySeesItsOwnSweep(rest, next, k);
      } else {
        NeverReturns(rest, next, k);
      }
    }
  }

  lemma {:induction false} NeverReturns(ws: seq<Sweep>, s: Store, k: Key)
    requires k !in s
    ensures k !in SweptAll(ws, s)
  {
    if ws != [] {
      NeverReturns(ws[1..], Swept(ws[0], s), k);
    }
  }

  /** The order of sweeps with disjoint scopes does not matter. */
  lemma SweepsCommute(a: Sweep, b: Sweep, s: Store)
    requires NoEmptyHistory(s) && DisjointScopes([a, b])
    ensures SweptAll([a, b], s) == SweptAll([b, a], s)
  {
    var ab, ba := [a, b], [b, a];
    assert ab[0] == a && ab[1] == b && ba[0] == b && ba[1] == a;
    assert DisjointScopes(ba);
    var x, y := SweptAll(ab, s), SweptAll(ba, s);
    forall k: Key | k in s ensures k in x <==> k in y ensures k in x ==> x[k] == y[k] {
      EachKeySeesItsOwnSweep(ab, s, k);
      EachKeySeesItsOwnSweep(ba, s, k);
      if !InScope(a.policy, k) && !InScope(b.policy, k) {
        assert SameAt(x, k, s[k]) && SameAt(y, k, s[k]);
      } else if InScope(a.policy, k) {
        assert InScope(ab[0].policy, k) && InScope(ba[1].policy, k);
      } else {
        assert InScope(ab[1].policy, k) && InScope(ba[0].policy, k);
      }
    }
    forall k: Key ensures k in x ==> k in s ensures k in y ==> k in s {
      if k !in s {
        NeverReturns(ab, s, k);
        NeverReturns(ba, s, k);
      }
    }
  }

  /** The five sweeps of one cleanup run never overlap: the library is carved out of the inputs. */
  lemma CleanupScopesAreDisjoint(m: CleanupManager, mode: Mode, cs: seq<Clock>, answers: seq<Answer>)
    requires |cs| == |answers| == 5
    ensures DisjointScopes(m.RemoteRuns(mode, cs, answers))
  {
    forall k | InScope(m.InputsPolicy(), k) ensures !InScope(m.LibraryPolicy(), k) {
      assert m.InputsPolicy().excluded[0] == LIBRARY_KEY_PREFIX;
    }
    assert "inputs/"[0] == 'i' && LIBRARY_KEY_PREFIX[0] == 'i';
    assert "uploads/"[0] == 'u' && "forwards/"[0] == 'f' && "outputs/"[0] == 'o';
  }

  /** One whole run on a versioned bucket: a key under a swept prefix is what its own TTL leaves of it, the
      inputs' TTL never reaches the library, and every other key is untouched. */
  lemma RemoteRunByOwner(m: CleanupManager, b: Backend, mode: Mode, cs: seq<Clock>, answers: seq<Answer>, s: Store, k: Key)
    requires NoEmptyHistory(s) && k in s && |cs| == |answers| == 5 && Remote(b) && b.versions
    ensures var ws := m.RemoteRuns(mode, cs, answers); var after := LeftAll(b, ws, s);
      && (LIBRARY_KEY_PREFIX <= k ==> SameAt(after, k, Remaining(ws[4], k, s[k])))
      && ("inputs/" <= k && !(LIBRARY_KEY_PREFIX <= k) ==> SameAt(after, k, Remaining(ws[0], k, s[k])))
      && ("uploads/" <= k ==> SameAt(after, k, Remaining(ws[1], k, s[k])))
      && ("forwards/" <= k ==> SameAt(after, k, Remaining(ws[2], k, s[k])))
      && ("outputs/" <= k ==> SameAt(after, k, Remaining(ws[3], k, s[k])))
      && (!("inputs/" <= k) && !("uploads/" <= k) && !("forwards/" <= k) && !("outputs/" <= k) ==> SameAt(after, k, s[k]))
  {
    var ws := m.RemoteRuns(mode, cs, answers);
    CleanupScopesAreDisjoint(m, mode, cs, answers);
    EachKeySeesItsOwnSweep(ws, s, k);
    LeftAllIsSweptAll(b, ws, s);
    OwnersByPrefix(m, mode, cs, answers, k);
  }

  lemma OwnersByPrefix(m: CleanupManager, mode: Mode, cs: seq<Clock>, answers: seq<Answer>, k: Key)
    requires |cs| == |answers| == 5
    ensures var ws := m.RemoteRuns(mode, cs, answers);
      && (InScope(ws[0].policy, k) <==> "inputs/" <= k && !(LIBRARY_KEY_PREFIX <= k))
      && (InScope(ws[1].policy, k) <==> "uploads/" <= k) && (InScope(ws[2].policy, k) <==> "forwards/" <= k)
      && (InScope(ws[3].policy, k) <==> "outputs/" <= k) && (InScope(ws[4].policy, k) <==> LIBRARY_KEY_PREFIX <= k)
      && (LIBRARY_KEY_PREFIX <= k ==> "inputs/" <= k)
  {
    assert m.InputsPolicy().excluded[0] == LIBRARY_KEY_PREFIX;
    assert "inputs/" <= LIBRARY_KEY_PREFIX;
  }
}
