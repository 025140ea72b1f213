/**
 The object store behind the sweep (utils/storage.py): a bucket that keeps versions,
 one that used to, or one that never did. A key's versions are held oldest first, so
 the last one is what a plain GET resolves.
 */
module VersionedBucket {
  import opened Collections

  type Key = string

  datatype Version = Version(id: string, time: real, marker: bool)

  type Store = map<Key, seq<Version>>

  /** What a plain delete does: forget the bytes, hide them, or replace the null version. */
  datatype Mode = Plain | Enabled | Suspended

  /** One row of the object listing and one of the version listing. */
  datatype ObjectRow = ObjectRow(key: Key, lastModified: real)
  datatype VersionRow = VersionRow(key: Key, version: Version, latest: bool)

  /** What the server decides on its own during one sweep: which keys and which versions it refuses to
      delete, the ids of the markers it writes, and their time. */
  datatype Answer = Answer(refused: set<Key>, markerId: Key -> string, at: real, refusedVersions: set<(Key, string)>)

  const NULL_ID := "null"

  predicate DistinctIds(vs: seq<Version>) {
    forall i, j :: 0 <= i < j < |vs| ==> vs[i].id != vs[j].id
  }

  predicate TimeOrdered(vs: seq<Version>) {
    forall i, j :: 0 <= i < j < |vs| ==> vs[i].time <= vs[j].time
  }

  predicate WellFormed(s: Store) {
    forall k :: k in s ==>
      && k != ""
      && s[k] != []
      && DistinctIds(s[k])
      && forall i :: 0 <= i < |s[k]| ==> s[k][i].id != ""
  }

  /** Versions are listed by recency, so times never go down along a key's history. */
  predicate Chronological(s: Store) {
    forall k :: k in s ==> TimeOrdered(s[k])
  }

  function ListedKeys(rows: seq<ObjectRow>): set<Key> {
    set row | row in rows :: row.key
  }

  lemma ListedKeysAppend(rows: seq<ObjectRow>, row: ObjectRow)
    ensures ListedKeys(rows + [row]) == ListedKeys(rows) + {row.key}
  {
    assert forall r :: r in rows + [row] <==> r in rows || r == row;
  }

  function Current(vs: seq<Version>): Version
    requires vs != []
  {
    vs[|vs| - 1]
  }

  /** A key is listed when its newest version is an object rather than a delete marker. */
  predicate Visible(s: Store, k: Key) {
    k in s && s[k] != [] && !Current(s[k]).marker
  }

  predicate HasId(vs: seq<Version>, id: string) {
    exists v :: v in vs && v.id == id
  }

  function WithoutIds(vs: seq<Version>, gone: set<string>): (r: seq<Version>)
    ensures forall v :: v in r <==> v in vs && v.id !in gone
  {
    if vs == [] then []
    else (if vs[0].id in gone then [] else [vs[0]]) + WithoutIds(vs[1..], gone)
  }

  lemma {:induction false} WithoutIdsDistinct(vs: seq<Version>, gone: set<string>)
    requires DistinctIds(vs)
    ensures DistinctIds(WithoutIds(vs, gone))
  {
    if vs != [] {
      WithoutIdsDistinct(vs[1..], gone);
      var r := WithoutIds(vs[1..], gone);
      forall i | 0 <= i < |r| ensures r[i].id != vs[0].id {
        assert r[i] in vs[1..];
      }
    }
  }

  /** The history a plain delete leaves for one key. */
  function Hidden(mode: Mode, vs: seq<Version>, id: string, at: real): seq<Version> {
    match mode
    case Plain => []
    case Enabled => vs + [Version(id, at, true)]
    case Suspended => WithoutIds(vs, {NULL_ID}) + [Version(NULL_ID, at, true)]
  }

  function HiddenIn(s: Store, mode: Mode, a: Answer, accepted: set<Key>, k: Key): seq<Version>
    requires k in s
  {
    if k in accepted then Hidden(mode, s[k], a.markerId(k), a.at) else s[k]
  }

  function AfterDelete(s: Store, mode: Mode, a: Answer, accepted: set<Key>): Store {
    map k | k in s && HiddenIn(s, mode, a, accepted, k) != [] :: HiddenIn(s, mode, a, accepted, k)
  }

  function IdsOf(pairs: set<(Key, string)>, k: Key): set<string> {
    set p | p in pairs && p.0 == k :: p.1
  }

  function AfterPurge(s: Store, pairs: set<(Key, string)>): Store {
    map k | k in s && WithoutIds(s[k], IdsOf(pairs, k)) != [] :: WithoutIds(s[k], IdsOf(pairs, k))
  }

  /** Fresh ids for the markers a delete of `keys` may write. */
  ghost predicate MintsFreshIds(a: Answer, s: Store, keys: set<Key>) {
    forall k :: k in keys && k in s ==>
      a.markerId(k) != "" && a.markerId(k) != NULL_ID && !HasId(s[k], a.markerId(k))
  }

  predicate NoEmptyHistory(s: Store) {
    forall k :: k in s ==> s[k] != []
  }

  /** Deleting in batches is deleting at once. */
  lemma AfterDeleteTwice(s: Store, mode: Mode, a: Answer, first: set<Key>, second: set<Key>)
    requires first !! second && NoEmptyHistory(s)
    ensures AfterDelete(AfterDelete(s, mode, a, first), mode, a, second) == AfterDelete(s, mode, a, first + second)
  {
    var mid: Store := AfterDelete(s, mode, a, first);
    forall k: Key | k in mid
      ensures HiddenIn(mid, mode, a, second, k) == HiddenIn(s, mode, a, first + second, k)
    {
    }
    forall k: Key | k in s && k !in mid ensures HiddenIn(s, mode, a, first + second, k) == [] {
      assert HiddenIn(s, mode, a, first, k) == [];
    }
  }

  lemma {:induction false} WithoutIdsTwice(vs: seq<Version>, first: set<string>, second: set<string>)
    ensures WithoutIds(WithoutIds(vs, first), second) == WithoutIds(vs, first + second)
  {
    if vs != [] {
      WithoutIdsTwice(vs[1..], first, second);
      var rest := WithoutIds(vs[1..], first);
      if vs[0].id in first {
        assert WithoutIds(vs, first) == rest;
        assert WithoutIds(vs, first + second) == WithoutIds(vs[1..], first + second);
      } else {
        assert WithoutIds(vs, first) == [vs[0]] + rest;
      }
    }
  }

  lemma AfterPurgeTwice(s: Store, first: set<(Key, string)>, second: set<(Key, string)>)
    ensures AfterPurge(AfterPurge(s, first), second) == AfterPurge(s, first + second)
  {
    var twice: Store, once: Store := AfterPurge(AfterPurge(s, first), second), AfterPurge(s, first + second);
    forall k: Key | k in s ensures (k in twice <==> k in once) && (k in once ==> twice[k] == once[k]) {
      PurgedTwiceAt(s, first, second, k);
    }
    assert twice.Keys == once.Keys;
  }

  lemma PurgedTwiceAt(s: Store, first: set<(Key, string)>, second: set<(Key, string)>, k: Key)
    requires k in s
    ensures var twice, once := AfterPurge(AfterPurge(s, first), second), AfterPurge(s, first + second);
      (k in twice <==> k in once) && (k in once ==> twice[k] == once[k])
  {
    WithoutIdsTwice(s[k], IdsOf(first, k), IdsOf(second, k));
    assert IdsOf(first + second, k) == IdsOf(first, k) + IdsOf(second, k);
  }

  lemma {:induction false} WithoutNone(vs: seq<Version>)
    ensures WithoutIds(vs, {}) == vs
  {
    if vs != [] {
      WithoutNone(vs[1..]);
    }
  }

  lemma NothingToDo(s: Store, mode: Mode, a: Answer)
    requires NoEmptyHistory(s)
    ensures AfterDelete(s, mode, a, {}) == s && AfterPurge(s, {}) == s
  {
    forall k: Key | k in s ensures WithoutIds(s[k], IdsOf({}, k)) == s[k] {
      WithoutNone(s[k]);
      assert IdsOf({}, k) == {};
    }
  }

  lemma AfterDeleteWellFormed(s: Store, mode: Mode, a: Answer, accepted: set<Key>)
    requires WellFormed(s) && MintsFreshIds(a, s, accepted)
    ensures WellFormed(AfterDelete(s, mode, a, accepted))
  {
    forall k | k in s
      ensures DistinctIds(HiddenIn(s, mode, a, accepted, k))
      ensures forall v :: v in HiddenIn(s, mode, a, accepted, k) ==> v.id != ""
    {
      WithoutIdsDistinct(s[k], {NULL_ID});
      var rest := WithoutIds(s[k], {NULL_ID});
      assert forall i :: 0 <= i < |rest| ==> rest[i] in rest;
    }
    var r: Store := AfterDelete(s, mode, a, accepted);
    forall k: Key | k in r
      ensures forall i :: 0 <= i < |r[k]| ==> r[k][i].id != ""
    {
      assert forall i :: 0 <= i < |r[k]| ==> r[k][i] in r[k];
    }
  }

  class Bucket {
    var store: Store
    const mode: Mode
    const supportsVersions: bool

    constructor (mode: Mode, supportsVersions: bool)
      ensures store == map[] && this.mode == mode && this.supportsVersions == supportsVersions
    {
      store := map[];
      this.mode := mode;
      this.supportsVersions := supportsVersions;
    }

    /** Every visible key under the prefix, each once, in whatever order the server likes. */
    method ListKeys(prefix: string) returns (rows: seq<ObjectRow>)
      ensures forall i :: 0 <= i < |rows| ==>
        prefix <= rows[i].key && Visible(store, rows[i].key)
        && rows[i].lastModified == Current(store[rows[i].key]).time
      ensures ListedKeys(rows) == set k | k in store && prefix <= k && Visible(store, k)
      ensures forall i, j :: 0 <= i < j < |rows| ==> rows[i].key != rows[j].key
    {
      rows := [];
      var todo := set k | k in store && prefix <= k && Visible(store, k);
      ghost var all := todo;
      while todo != {}
        invariant todo <= all
        invariant forall i :: 0 <= i < |rows| ==>
          rows[i].key in all - todo && rows[i].lastModified == Current(store[rows[i].key]).time
        invariant ListedKeys(rows) == all - todo
        invariant forall i, j :: 0 <= i < j < |rows| ==> rows[i].key != rows[j].key
      {
        var k :| k in todo;
        ListedKeysAppend(rows, ObjectRow(k, Current(store[k]).time));
        rows := rows + [ObjectRow(k, Current(store[k]).time)];
        todo := todo - {k};
      }
    }

    /** A plain delete of each key that the server does not refuse, a thousand at a time; the count is
        what it accepted. */
    method DeleteKeys(keys: seq<Key>, a: Answer) returns (deleted: nat)
      requires Distinct(keys) && NoEmptyHistory(store)
      modifies this`store
      ensures store == AfterDelete(old(store), mode, a, Elements(keys) - a.refused)
      ensures deleted == |Elements(keys) - a.refused|
    {
      deleted := 0;
      var i := 0;
      NothingToDo(store, mode, a);
      assert Elements(keys[..0]) - a.refused == {};
      while i < |keys|
        invariant i <= |keys|
        invariant store == AfterDelete(old(store), mode, a, Elements(keys[..i]) - a.refused)
        invariant deleted == |Elements(keys[..i]) - a.refused|
      {
        var end := if i + BATCH_SIZE <= |keys| then i + BATCH_SIZE else |keys|;
        var batch := keys[i..end];
        NextBatch(keys, i, end, a.refused);
        AfterDeleteTwice(old(store), mode, a, Elements(keys[..i]) - a.refused, Elements(batch) - a.refused);
        store := AfterDelete(store, mode, a, Elements(batch) - a.refused);
        deleted := deleted + |Elements(batch) - a.refused|;
        i := end;
      }
      assert keys[..|keys|] == keys;
    }

    /** Every version and marker under the prefix, each once, with the newest flagged. */
    method ListVersions(prefix: string) returns (rows: seq<VersionRow>)
      ensures forall i :: 0 <= i < |rows| ==> RowOf(store, rows[i]) && prefix <= rows[i].key
      ensures forall k, j :: k in store && prefix <= k && 0 <= j < |store[k]| ==>
        VersionRow(k, store[k][j], j == |store[k]| - 1) in rows
      ensures WellFormed(store) ==> DistinctRows(rows)
    {
      rows := [];
      var todo := set k | k in store && prefix <= k;
      ghost var all := todo;
      while todo != {}
        invariant todo <= all
        invariant Lists(store, rows, all - todo)
      {
        var k :| k in todo;
        ListsMore(store, rows, all - todo, k);
        assert all - (todo - {k}) == all - todo + {k};
        rows := rows + RowsOf(k, store[k]);
        todo := todo - {k};
      }
      assert all - todo == all;
    }

    /** Removes each addressed version that the server does not refuse, a thousand at a time; the count is
        what it acknowledged. */
    method DeleteVersions(pairs: seq<(Key, string)>, a: Answer) returns (purged: nat)
      requires Distinct(pairs) && NoEmptyHistory(store)
      modifies this`store
      ensures store == AfterPurge(old(store), Elements(pairs) - a.refusedVersions)
      ensures purged == |Elements(pairs) - a.refusedVersions|
    {
      purged := 0;
      var i := 0;
      NothingToDo(store, mode, a);
      assert Elements(pairs[..0]) - a.refusedVersions == {};
      while i < |pairs|
        invariant i <= |pairs|
        invariant store == AfterPurge(old(store), Elements(pairs[..i]) - a.refusedVersions)
        invariant purged == |Elements(pairs[..i]) - a.refusedVersions|
      {
        var end := if i + BATCH_SIZE <= |pairs| then i + BATCH_SIZE else |pairs|;
        var batch := pairs[i..end];
        NextBatch(pairs, i, end, a.refusedVersions);
        AfterPurgeTwice(old(store), Elements(pairs[..i]) - a.refusedVersions, Elements(batch) - a.refusedVersions);
        store := AfterPurge(store, Elements(batch) - a.refusedVersions);
        purged := purged + |Elements(batch) - a.refusedVersions|;
        i := end;
      }
      assert pairs[..|pairs|] == pairs;
    }
  }

  /** How many keys or versions one request may name. */
  const BATCH_SIZE := 1000

  lemma NextBatch<T>(all: seq<T>, i: nat, end: nat, refused: set<T>)
    requires Distinct(all) && i <= end <= |all|
    ensures var done, batch := Elements(all[..i]) - refused, Elements(all[i..end]) - refused;
      && Elements(all[..end]) - refused == done + batch && done !! batch
      && |Elements(all[..end]) - refused| == |done| + |batch|
  {
    assert all[..end] == all[..i] + all[i..end];
    var done, batch := Elements(all[..i]) - refused, Elements(all[i..end]) - refused;
    assert Elements(all[..end]) - refused == done + batch;
  }

  function RowsOf(k: Key, vs: seq<Version>): seq<VersionRow> {
    seq(|vs|, j requires 0 <= j < |vs| => VersionRow(k, vs[j], j == |vs| - 1))
  }

  /** The rows are those of the keys in `done`, every version once. */
  ghost predicate Lists(s: Store, rows: seq<VersionRow>, done: set<Key>) {
    && (forall i :: 0 <= i < |rows| ==> RowOf(s, rows[i]) && rows[i].key in done)
    && (forall k, j :: k in done && k in s && 0 <= j < |s[k]| ==> VersionRow(k, s[k][j], j == |s[k]| - 1) in rows)
    && (WellFormed(s) ==> DistinctRows(rows))
  }

  lemma ListsMore(s: Store, rows: seq<VersionRow>, done: set<Key>, k: Key)
    requires k in s && k !in done && Lists(s, rows, done)
    ensures Lists(s, rows + RowsOf(k, s[k]), done + {k})
  {
    var mine := RowsOf(k, s[k]);
    var more := rows + mine;
    RowsOfKey(s, k);
    assert forall j :: 0 <= j < |mine| ==> more[|rows| + j] == mine[j];
    assert forall i :: 0 <= i < |rows| ==> more[i] == rows[i];
    forall l, j | l in done + {k} && l in s && 0 <= j < |s[l]|
      ensures VersionRow(l, s[l][j], j == |s[l]| - 1) in more
    {
      assert l == k ==> VersionRow(l, s[l][j], j == |s[l]| - 1) in mine;
    }
    assert WellFormed(s) ==> DistinctRows(more);
  }

  ghost predicate DistinctRows(rows: seq<VersionRow>) {
    forall i, j :: 0 <= i < j < |rows| ==> (rows[i].key, rows[i].version.id) != (rows[j].key, rows[j].version.id)
  }

  /** The rows of one key. */
  lemma RowsOfKey(s: Store, k: Key)
    requires k in s
    ensures var mine := RowsOf(k, s[k]);
      && (forall j :: 0 <= j < |mine| ==> RowOf(s, mine[j]) && mine[j].key == k)
      && (forall j :: 0 <= j < |s[k]| ==> VersionRow(k, s[k][j], j == |s[k]| - 1) in mine)
      && (WellFormed(s) ==> DistinctRows(mine))
  {
    var mine := RowsOf(k, s[k]);
    assert forall j :: 0 <= j < |s[k]| ==> mine[j] == VersionRow(k, s[k][j], j == |s[k]| - 1);
  }

  ghost predicate RowOf(s: Store, row: VersionRow) {
    row.key in s && exists j :: 0 <= j < |s[row.key]| && row == VersionRow(row.key, s[row.key][j], j == |s[row.key]| - 1)
  }
}
