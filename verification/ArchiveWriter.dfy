/**
 The archive writer (tasks/conversion_tasks.py, `create_archive`): each source is resolved,
 written under a name nobody took, and its fetched copy removed, one source at a time.
 */
module ArchiveWriter {
  import opened Collections
  import opened Options
  import opened Text
  import opened ArchiveNames
  import opened ArchiveVolumes

  /** A source as given: nothing at all, a local path, or a record; an empty field is an absent one. */
  datatype Source =
    | Nothing
    | Path(path: string)
    | Record(name: string, path: string, inputKey: string)

  /** What fetching one entry comes to; a returned path may or may not have a file behind it. */
  datatype Fetch = NoFetch | FetchRaises | Fetched(path: string, content: Option<Bytes>)

  /** What the outside world does per source index: the fetches, and whether the member write raises. */
  datatype World = World(fetch: nat -> Fetch, writeFails: nat -> bool)

  datatype Member = Member(name: string, content: Bytes)

  predicate Truthy(src: Source) {
    src.Record? || (src.Path? && src.path != "")
  }

  function LocalPath(src: Source): string {
    match src
    case Nothing => ""
    case Path(p) => p
    case Record(_, p, _) => p
  }

  function Entries(sources: seq<Source>): (r: seq<Source>)
    ensures forall src :: src in r <==> src in sources && Truthy(src)
  {
    if sources == [] then []
    else
      var init, last := sources[..|sources| - 1], sources[|sources| - 1];
      Entries(init) + (if Truthy(last) then [last] else [])
  }

  /** The entries are what the sources hold at the places `at`: every source that is one, in its order. */
  lemma {:induction false} EntriesSelect(sources: seq<Source>) returns (at: seq<nat>)
    ensures Selects(at, sources, Truthy, Entries(sources))
  {
    at := [];
    if sources != [] {
      var init, last := sources[..|sources| - 1], sources[|sources| - 1];
      at := EntriesSelect(init);
      SelectsLast(at, init, Truthy, Entries(init), last);
      assert sources == init + [last];
      if Truthy(last) {
        at := at + [|init|];
      }
    }
  }

  /** The name a member is asked for under: its own, its file's, or its position. */
  function AskedName(src: Source, index: nat): string {
    var name := if src.Record? then src.name else "";
    var key := if src.Record? then src.inputKey else "";
    if name != "" then name
    else if Basename(if LocalPath(src) != "" then LocalPath(src) else key) != ""
    then Basename(if LocalPath(src) != "" then LocalPath(src) else key)
    else "file_" + Decimal(index)
  }

  /** A record's own name comes first, then what follows the last slash of its path, or of its key where it
      has no path; a name that comes out empty is made from the position. */
  lemma AskedNames(name: string, dir: string, base: string, key: string, index: nat)
    requires '/' !in base && base != ""
    ensures name != "" ==> AskedName(Record(name, dir + "/" + base, key), index) == name
    ensures AskedName(Record("", dir + "/" + base, key), index) == base
    ensures AskedName(Record("", "", dir + "/" + base), index) == base
    ensures AskedName(Record("", dir + "/", key), index) == "file_" + Decimal(index)
    ensures AskedName(Path(dir + "/" + base), index) == base
  {
    PathSplits(dir, base);
    PathSplits(dir, "");
    assert dir + "/" + "" == dir + "/";
  }

  /** A fetch hands over a copy of its own: a path no caller's file has, and one that can be removed. */
  ghost predicate FreshCopies(w: World, files: Files, stuck: set<string>) {
    forall i :: w.fetch(i).Fetched? ==> w.fetch(i).path !in files && w.fetch(i).path !in stuck
  }

  /** The bytes source `index` stands for: the local file if it is there, else the fetched copy. */
  function Resolved(w: World, files: Files, src: Source, index: nat): Option<Bytes> {
    if LocalPath(src) != "" && LocalPath(src) in files then Some(files[LocalPath(src)])
    else if w.fetch(index).Fetched? && w.fetch(index).path != "" then w.fetch(index).content
    else None
  }

  /** The archive so far: which entry each member came from, and what nobody could archive. */
  ghost predicate Accounted(w: World, files: Files, entries: seq<Source>, n: nat, members: seq<Member>,
                            origin: seq<nat>, failed: seq<string>, lost: seq<nat>)
    requires n <= |entries|
  {
    && |origin| == |members| && |lost| == |failed| && |members| + |failed| == n
    && Increasing(origin) && Increasing(lost)
    && (forall i :: 0 <= i < |origin| ==> origin[i] < n && IsMember(w, files, entries[origin[i]], origin[i], members[i]))
    && (forall i :: 0 <= i < |lost| ==> lost[i] < n && IsLost(w, files, entries[lost[i]], lost[i], failed[i]))
  }

  /** Member i is source `at[origin[i]]` and loss i is source `at[lost[i]]`, both in the sources' order; every
      source there is something in is one or the other. */
  ghost predicate FromSources(w: World, files: Files, sources: seq<Source>, at: seq<nat>, members: seq<Member>,
                              origin: seq<nat>, failed: seq<string>, lost: seq<nat>) {
    && |origin| == |members| && |lost| == |failed| && |members| + |failed| == |at|
    && Increasing(at) && Increasing(origin) && Increasing(lost)
    && (forall i :: 0 <= i < |sources| ==> (i in at <==> Truthy(sources[i])))
    && (forall i :: 0 <= i < |at| ==> at[i] < |sources|)
    && (forall i :: 0 <= i < |origin| ==>
      origin[i] < |at| && IsMember(w, files, sources[at[origin[i]]], origin[i], members[i]))
    && (forall i :: 0 <= i < |lost| ==> lost[i] < |at| && IsLost(w, files, sources[at[lost[i]]], lost[i], failed[i]))
  }

  lemma TracedBack(w: World, files: Files, sources: seq<Source>, at: seq<nat>, members: seq<Member>,
                   origin: seq<nat>, failed: seq<string>, lost: seq<nat>)
    requires Selects(at, sources, Truthy, Entries(sources))
    requires Accounted(w, files, Entries(sources), |Entries(sources)|, members, origin, failed, lost)
    ensures FromSources(w, files, sources, at, members, origin, failed, lost)
  {
  }

  ghost predicate IsMember(w: World, files: Files, src: Source, at: nat, m: Member) {
    Resolved(w, files, src, at + 1) == Some(m.content) && !w.writeFails(at + 1)
    && NamedAfter(m.name, AskedName(src, at + 1))
  }

  /** A member bears the name it was asked for under, or that name with a counter. */
  ghost predicate NamedAfter(name: string, asked: string) {
    exists n: nat :: name == Candidate(MemberBase(asked), n)
  }

  predicate IsLost(w: World, files: Files, src: Source, at: nat, name: string) {
    (Resolved(w, files, src, at + 1).None? || w.writeFails(at + 1)) && name == AskedName(src, at + 1)
  }

  ghost predicate DistinctNames(fold: Fold, members: seq<Member>) {
    forall i, j :: 0 <= i < j < |members| ==> Lower(fold, members[i].name) != Lower(fold, members[j].name)
  }

  ghost predicate NamesTaken(fold: Fold, members: seq<Member>, used: set<string>) {
    forall i :: 0 <= i < |members| ==> Lower(fold, members[i].name) in used
  }

  ghost predicate Named(fold: Fold, members: seq<Member>, used: set<string>) {
    DistinctNames(fold, members) && NamesTaken(fold, members, used)
  }

  /** The archive and the names given out after `n` entries. */
  ghost predicate Progress(w: World, files: Files, fold: Fold, entries: seq<Source>, n: nat, members: seq<Member>,
                           origin: seq<nat>, failed: seq<string>, lost: seq<nat>, used: set<string>) {
    n <= |entries| && Accounted(w, files, entries, n, members, origin, failed, lost) && Named(fold, members, used)
  }

  lemma ProgressMember(w: World, files: Files, fold: Fold, entries: seq<Source>, n: nat, members: seq<Member>,
                       origin: seq<nat>, failed: seq<string>, lost: seq<nat>, before: set<string>, after: set<string>, m: Member)
    requires Progress(w, files, fold, entries, n, members, origin, failed, lost, before) && before <= after
    requires n < |entries| && IsMember(w, files, entries[n], n, m)
    requires Lower(fold, m.name) !in before && Lower(fold, m.name) in after
    ensures Progress(w, files, fold, entries, n + 1, members + [m], origin + [n], failed, lost, after)
  {
  }

  lemma ProgressLoss(w: World, files: Files, fold: Fold, entries: seq<Source>, n: nat, members: seq<Member>,
                     origin: seq<nat>, failed: seq<string>, lost: seq<nat>, before: set<string>, after: set<string>, name: string)
    requires Progress(w, files, fold, entries, n, members, origin, failed, lost, before) && before <= after
    requires n < |entries| && IsLost(w, files, entries[n], n, name)
    ensures Progress(w, files, fold, entries, n + 1, members, origin, failed + [name], lost + [n], after)
  {
  }

  /** What one turn comes to, for the archive and for the names. */
  ghost predicate Outcome(w: World, files: Files, fold: Fold, src: Source, at: nat, before: set<string>, after: set<string>,
                          member: Option<Member>, asked: string) {
    && before <= after
    && match member
       case Some(m) => IsMember(w, files, src, at, m) && Lower(fold, m.name) in after - before
       case None => IsLost(w, files, src, at, asked)
  }

  lemma ProgressStep(w: World, files: Files, fold: Fold, entries: seq<Source>, n: nat, members: seq<Member>,
                     origin: seq<nat>, failed: seq<string>, lost: seq<nat>, before: set<string>, after: set<string>,
                     member: Option<Member>, asked: string)
    requires Progress(w, files, fold, entries, n, members, origin, failed, lost, before)
    requires n < |entries| && Outcome(w, files, fold, entries[n], n, before, after, member, asked)
    ensures match member
      case Some(m) => Progress(w, files, fold, entries, n + 1, members + [m], origin + [n], failed, lost, after)
      case None => Progress(w, files, fold, entries, n + 1, members, origin, failed + [asked], lost + [n], after)
  {
    match member
    case Some(m) => ProgressMember(w, files, fold, entries, n, members, origin, failed, lost, before, after, m);
    case None => ProgressLoss(w, files, fold, entries, n, members, origin, failed, lost, before, after, asked);
  }

  /** One source. A path the caller passed in is never removed; a fetched copy always is. */
  method AddSource(disk: Disk, names: UsedNames, w: World, src: Source, index: nat)
    returns (member: Option<Member>, asked: string)
    requires PlainDigits(names.fold) && FreshCopies(w, disk.files, disk.stuck) && index > 0
    modifies disk, names
    ensures disk.files == old(disk.files)
    ensures Outcome(w, disk.files, names.fold, src, index - 1, old(names.used), names.used, member, asked)
  {
    member, asked := None, AskedName(src, index);
    var path, fetched := Locate(disk, w, src, index);
    if path == "" || path !in disk.files {
      return;
    }
    var name := names.UniqueArcname(asked);
    if !w.writeFails(index) {
      member := Some(Member(name, disk.files[path]));
    }
    if fetched != "" {
      disk.Remove(fetched);
    }
  }

  /** Where the bytes of one source are: its own file, or a copy fetched for it. */
  method Locate(disk: Disk, w: World, src: Source, index: nat) returns (path: string, fetched: string)
    requires FreshCopies(w, disk.files, disk.stuck)
    modifies disk
    ensures path != "" && path in disk.files <==> Resolved(w, old(disk.files), src, index).Some?
    ensures path != "" && path in disk.files ==> Resolved(w, old(disk.files), src, index) == Some(disk.files[path])
    ensures path == "" || path !in disk.files || fetched == "" ==> disk.files == old(disk.files)
    ensures fetched != "" ==> fetched !in disk.stuck && disk.files - {fetched} == old(disk.files)
  {
    path, fetched := LocalPath(src), "";
    if !(path != "" && path in disk.files) && !w.fetch(index).NoFetch? {
      match w.fetch(index)
      case FetchRaises => path := "";
      case Fetched(p, content) =>
        path, fetched := p, p;
        if p != "" && content.Some? {
          disk.files := disk.files[p := content.value];
        }
    }
  }

  /** `create_archive`. Every non-empty entry is either written or counted as failed. */
  method CreateArchive(disk: Disk, sources: seq<Source>, w: World, fold: Fold)
    returns (ok: bool, members: seq<Member>, failed: seq<string>,
             ghost at: seq<nat>, ghost origin: seq<nat>, ghost lost: seq<nat>)
    requires PlainDigits(fold) && FreshCopies(w, disk.files, disk.stuck)
    modifies disk
    ensures disk.files == old(disk.files)
    ensures Selects(at, sources, Truthy, Entries(sources))
    ensures Accounted(w, old(disk.files), Entries(sources), |Entries(sources)|, members, origin, failed, lost)
    ensures FromSources(w, old(disk.files), sources, at, members, origin, failed, lost)
    ensures DistinctNames(fold, members)
    ensures ok <==> |members| > 0
  {
    var entries := Entries(sources);
    members, failed, origin, lost := [], [], [], [];
    at := EntriesSelect(sources);
    if entries == [] {
      return false, [], [], at, [], [];
    }
    var names := new UsedNames(fold);
    var written := 0;
    for n := 0 to |entries|
      invariant fresh(names) && names.fold == fold && disk.files == old(disk.files)
      invariant Progress(w, disk.files, fold, entries, n, members, origin, failed, lost, names.used)
      invariant written == |members|
    {
      var wrote;
      wrote, members, failed, origin, lost := ArchiveNext(disk, names, w, entries, n, members, failed, origin, lost);
      written := written + (if wrote then 1 else 0);
    }
    ok := written > 0;
    TracedBack(w, disk.files, sources, at, members, origin, failed, lost);
  }

  /** One turn of the loop: the next entry joins the members or the losses. */
  method ArchiveNext(disk: Disk, names: UsedNames, w: World, entries: seq<Source>, n: nat, members: seq<Member>,
                     failed: seq<string>, ghost origin: seq<nat>, ghost lost: seq<nat>)
    returns (wrote: bool, members': seq<Member>, failed': seq<string>, ghost origin': seq<nat>, ghost lost': seq<nat>)
    requires PlainDigits(names.fold) && FreshCopies(w, disk.files, disk.stuck) && n < |entries|
    requires Progress(w, disk.files, names.fold, entries, n, members, origin, failed, lost, names.used)
    modifies disk, names
    ensures disk.files == old(disk.files)
    ensures Progress(w, disk.files, names.fold, entries, n + 1, members', origin', failed', lost', names.used)
    ensures |members'| == |members| + (if wrote then 1 else 0)
  {
    ghost var taken := names.used;
    var member, asked := AddSource(disk, names, w, entries[n], n + 1);
    ProgressStep(w, disk.files, names.fold, entries, n, members, origin, failed, lost, taken, names.used, member, asked);
    wrote, members', failed', origin', lost' := member.Some?, members, failed, origin, lost;
    if member.Some? {
      members', origin' := members + [member.value], origin + [n];
    } else {
      failed', lost' := failed + [asked], lost + [n];
    }
  }

  // ---------------------------------------------------------------- conservation

  function Below(n: nat): (r: set<nat>)
    ensures forall i: nat :: i in r <==> i < n
  {
    if n == 0 then {} else Below(n - 1) + {n - 1}
  }

  lemma {:induction false} BelowSize(n: nat)
    ensures |Below(n)| == n
  {
    if n > 0 {
      BelowSize(n - 1);
    }
  }

  lemma FullSubset(a: set<nat>, b: set<nat>)
    requires a <= b && |a| == |b|
    ensures a == b
  {
    SubsetSize(b - a, b);
    assert b == a + (b - a);
  }

  /** Conservation: every entry ends up in exactly one of the two lists, and in the archive exactly when it
      could be resolved and written; so nothing is dropped silently and nothing is archived twice. */
  lemma EveryEntryAccountedOnce(w: World, files: Files, entries: seq<Source>, members: seq<Member>,
                                origin: seq<nat>, failed: seq<string>, lost: seq<nat>, i: nat)
    requires Accounted(w, files, entries, |entries|, members, origin, failed, lost) && i < |entries|
    ensures i in origin <==> i !in lost
    ensures i in origin <==> Resolved(w, files, entries[i], i + 1).Some? && !w.writeFails(i + 1)
  {
    forall x | x in origin ensures x < |entries| && Resolved(w, files, entries[x], x + 1).Some? && !w.writeFails(x + 1) {
      var k :| 0 <= k < |origin| && origin[k] == x;
      assert IsMember(w, files, entries[origin[k]], origin[k], members[k]);
    }
    forall x | x in lost ensures x < |entries| && (Resolved(w, files, entries[x], x + 1).None? || w.writeFails(x + 1)) {
      var k :| 0 <= k < |lost| && lost[k] == x;
      assert IsLost(w, files, entries[lost[k]], lost[k], failed[k]);
    }
    SplitCoversAll(origin, lost, |entries|, i);
  }

  /** Two disjoint increasing lists of `n` indexes below `n` hold every one of them. */
  lemma SplitCoversAll(a: seq<nat>, b: seq<nat>, n: nat, i: nat)
    requires Increasing(a) && Increasing(b) && |a| + |b| == n && i < n
    requires (forall x :: x in a ==> x < n && x !in b) && (forall x :: x in b ==> x < n)
    ensures i in a <==> i !in b
  {
    DistinctSize(a);
    DistinctSize(b);
    BelowSize(n);
    assert Elements(a) !! Elements(b) && |Elements(a) + Elements(b)| == n;
    FullSubset(Elements(a) + Elements(b), Below(n));
    assert i in Below(n);
    assert i in Elements(a) <==> i in a;
    assert i in Elements(b) <==> i in b;
  }

  /** A source with a file of its own is in the archive with that file's bytes, unless writing it raised. */
  lemma OwnFilesAreArchived(w: World, files: Files, sources: seq<Source>, at: seq<nat>, members: seq<Member>,
                            origin: seq<nat>, failed: seq<string>, lost: seq<nat>, place: nat)
    requires FromSources(w, files, sources, at, members, origin, failed, lost) && place < |at|
    requires LocalPath(sources[at[place]]) in files && LocalPath(sources[at[place]]) != "" && !w.writeFails(place + 1)
    ensures exists m :: 0 <= m < |members| && origin[m] == place && members[m].content == files[LocalPath(sources[at[place]])]
  {
    var entries := seq(|at|, j requires 0 <= j < |at| => sources[at[j]]);
    EveryEntryAccountedOnce(w, files, entries, members, origin, failed, lost, place);
    var m :| 0 <= m < |origin| && origin[m] == place;
    assert IsMember(w, files, sources[at[origin[m]]], origin[m], members[m]);
  }
}
