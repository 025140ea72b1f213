/**
 The volume splitter (tasks/conversion_tasks.py, `_split_archive_sync`): one archive read
 once, front to back, and cut into volumes of at most `cap` bytes; all or nothing.
 */
module ArchiveVolumes {
  import opened ArchiveNames
  import opened Collections

  newtype Byte = x: int | 0 <= x < 256

  type Bytes = seq<Byte>

  type Files = map<string, Bytes>

  /** The read size of the copy loop. */
  const CHUNK := 8 * 1024 * 1024

  // ---------------------------------------------------------------- the cut

  /** The archive cut every `cap` bytes. */
  function Chunks(data: Bytes, cap: nat): seq<Bytes>
    requires cap > 0
    decreases |data|
  {
    if data == [] then []
    else if |data| <= cap then [data]
    else [data[..cap]] + Chunks(data[cap..], cap)
  }

  function Joined(parts: seq<Bytes>): Bytes {
    if parts == [] then [] else parts[0] + Joined(parts[1..])
  }

  /** Reassembly: the volumes in order are the archive. */
  lemma {:induction false} ChunksRejoin(data: Bytes, cap: nat)
    requires cap > 0
    ensures Joined(Chunks(data, cap)) == data
    decreases |data|
  {
    if data == [] {
    } else if |data| <= cap {
      assert [data][1..] == [];
      assert data + [] == data;
    } else {
      ChunksRejoin(data[cap..], cap);
      assert Chunks(data, cap)[1..] == Chunks(data[cap..], cap);
    }
  }

  /** ceil(total / cap) volumes: all but the last full, the last with 1 to cap bytes, none empty. */
  lemma {:induction false} ChunkSizes(data: Bytes, cap: nat)
    requires cap > 0 && data != []
    ensures var n := |Chunks(data, cap)|; n > 0 && (n - 1) * cap < |data| <= n * cap
    ensures forall i :: 0 <= i < |Chunks(data, cap)| - 1 ==> |Chunks(data, cap)[i]| == cap
    ensures 1 <= |Chunks(data, cap)[|Chunks(data, cap)| - 1]| <= cap
    decreases |data|
  {
    if |data| > cap {
      ChunkSizes(data[cap..], cap);
      var rest := Chunks(data[cap..], cap);
      var m := |rest|;
      assert Chunks(data, cap) == [data[..cap]] + rest;
      assert (m - 1) * cap + cap == m * cap && m * cap + cap == (m + 1) * cap;
    } else {
      assert 0 * cap == 0 && 1 * cap == cap;
    }
  }

  // ---------------------------------------------------------------- the disk

  /** What a call can come to: the paths to deliver, or the exception it re-raised. */
  datatype Outcome = Delivered(paths: seq<string>) | Raised

  /** Files by path; removing one of `stuck` fails, and the code swallows that. */
  class Disk {
    var files: Files
    const stuck: set<string>

    constructor (files: Files, stuck: set<string>)
      ensures this.files == files && this.stuck == stuck
    {
      this.files := files;
      this.stuck := stuck;
    }

    /** `open(path, "wb")`; on a faulty disk it may raise. */
    method OpenTruncated(path: string, faulty: bool) returns (ok: bool)
      modifies this`files
      ensures !faulty ==> ok
      ensures files == if ok then old(files)[path := []] else old(files)
    {
      ok := true;
      if faulty {
        ok := *;
      }
      if ok {
        files := files[path := []];
      }
    }

    /** One read of at most `count` bytes at `pos`; short only at the end of the file. */
    method Read(path: string, pos: nat, count: nat, faulty: bool) returns (ok: bool, chunk: Bytes)
      requires path in files && pos <= |files[path]|
      ensures !faulty ==> ok
      ensures ok ==> chunk == files[path][pos..if pos + count <= |files[path]| then pos + count else |files[path]|]
    {
      ok := true;
      if faulty {
        ok := *;
      }
      var end := if pos + count <= |files[path]| then pos + count else |files[path]|;
      chunk := files[path][pos..end];
    }

    /** One write at the end of an open file; a failing one may leave part of the chunk behind. */
    method Append(path: string, chunk: Bytes, faulty: bool) returns (ok: bool)
      requires path in files
      modifies this`files
      ensures !faulty ==> ok
      ensures path in files && files == old(files)[path := files[path]]
      ensures ok ==> files[path] == old(files[path]) + chunk
    {
      ok := true;
      var kept := |chunk|;
      if faulty {
        ok := *;
        if !ok {
          kept :| 0 <= kept <= |chunk|;
        }
      }
      files := files[path := files[path] + chunk[..kept]];
    }

    /** `os.remove` with its error suppressed. */
    method Remove(path: string)
      modifies this`files
      ensures files == if path in stuck then old(files) else old(files) - {path}
    {
      if path !in stuck {
        files := files - {path};
      }
    }
  }

  // ---------------------------------------------------------------- the splitter

  /** The path of each volume, counted from 1. */
  type Names = nat -> string

  function VolumesOf(path: string, filename: string): Names {
    (index: nat) => VolumePath(path, filename, index)
  }

  ghost predicate DistinctPaths(names: Names) {
    forall i: nat, j: nat :: i < j ==> names(i) != names(j)
  }

  lemma VolumesOfDistinct(path: string, filename: string)
    ensures DistinctPaths(VolumesOf(path, filename))
  {
    forall i: nat, j: nat | i < j ensures VolumePath(path, filename, i) != VolumePath(path, filename, j) {
      VolumePathsDiffer(path, filename, i, j);
    }
  }

  /** The archive is none of the volumes it would be cut into. */
  ghost predicate NotItsOwnVolume(path: string, names: Names) {
    forall index: nat :: names(index) != path
  }

  /** The disk with the first `n` volumes written over whatever was there. */
  function Written(before: Files, names: Names, cs: seq<Bytes>, n: nat): Files
    requires n <= |cs|
  {
    if n == 0 then before else Written(before, names, cs, n - 1)[names(n) := cs[n - 1]]
  }

  /** All volumes written, and the empty one that told the loop to stop. */
  function Probed(before: Files, names: Names, cs: seq<Bytes>): Files {
    Written(before, names, cs, |cs|)[names(|cs| + 1) := []]
  }

  function VolumePaths(names: Names, n: nat): seq<string> {
    seq(n, k requires 0 <= k < n => names(k + 1))
  }

  /** What an `os.remove` with its error suppressed leaves. */
  function RemovedFrom(files: Files, stuck: set<string>, p: string): Files {
    if p in stuck then files else files - {p}
  }

  /** The disk after a finished split: the volumes, the empty probe volume gone again, and the
      archive gone when asked for. */
  function SplitDisk(before: Files, stuck: set<string>, path: string, names: Names, cap: nat, removeSource: bool): Files
    requires path in before && cap > 0
  {
    var cs := Chunks(before[path], cap);
    var probed := RemovedFrom(Probed(before, names, cs), stuck, names(|cs| + 1));
    if removeSource then RemovedFrom(probed, stuck, path) else probed
  }

  lemma {:induction false} WrittenVolume(before: Files, names: Names, cs: seq<Bytes>, n: nat, k: nat)
    requires DistinctPaths(names) && k < n <= |cs|
    ensures names(k + 1) in Written(before, names, cs, n)
    ensures Written(before, names, cs, n)[names(k + 1)] == cs[k]
  {
    if k < n - 1 {
      WrittenVolume(before, names, cs, n - 1, k);
    }
  }

  lemma {:induction false} WrittenOther(before: Files, names: Names, cs: seq<Bytes>, n: nat, p: string)
    requires n <= |cs| && p !in VolumePaths(names, n)
    ensures p in Written(before, names, cs, n) <==> p in before
    ensures p in before ==> Written(before, names, cs, n)[p] == before[p]
  {
    if n > 0 {
      VolumePathsSnoc(names, n - 1);
      WrittenOther(before, names, cs, n - 1, p);
    }
  }

  lemma VolumePathsSnoc(names: Names, n: nat)
    ensures VolumePaths(names, n + 1) == VolumePaths(names, n) + [names(n + 1)]
  {
  }

  ghost predicate SameBut(a: Files, b: Files, target: string) {
    a - {target} == b - {target}
  }

  /** One volume: the target is truncated, then filled chunk by chunk from the archive. */
  method WriteVolume(disk: Disk, path: string, target: string, pos: nat, cap: nat, faulty: bool)
    returns (ok: bool, written: nat)
    requires path in disk.files && target != path && cap > 0 && pos <= |disk.files[path]|
    modifies disk
    ensures !faulty ==> ok
    ensures SameBut(disk.files, old(disk.files), target)
    ensures ok ==>
      var data := old(disk.files)[path];
      var end := if pos + cap <= |data| then pos + cap else |data|;
      written == end - pos && disk.files == old(disk.files)[target := data[pos..end]]
  {
    ghost var data := disk.files[path];
    ghost var before := disk.files;
    var remaining := cap;
    written := 0;
    ok := disk.OpenTruncated(target, faulty);
    if !ok {
      return;
    }
    assert data[pos..pos] == [];
    while remaining > 0
      invariant remaining == cap - written && written <= cap && pos + written <= |data|
      invariant path in disk.files && disk.files[path] == data
      invariant disk.files == before[target := data[pos..pos + written]]
    {
      var size;
      ok, size := CopyChunk(disk, path, target, pos + written, if CHUNK < remaining then CHUNK else remaining, faulty);
      if !ok {
        return;
      }
      ReadOn(data, pos, written, size);
      if size == 0 {
        break;
      }
      written := written + size;
      remaining := remaining - size;
    }
  }

  lemma ReadOn(data: Bytes, pos: nat, written: nat, size: nat)
    requires pos + written + size <= |data|
    ensures data[pos..pos + written] + data[pos + written..pos + written + size] == data[pos..pos + written + size]
  {
  }

  /** One read and, unless the archive is at its end, one write. */
  method CopyChunk(disk: Disk, path: string, target: string, from: nat, count: nat, faulty: bool)
    returns (ok: bool, size: nat)
    requires path in disk.files && target in disk.files && target != path && from <= |disk.files[path]|
    modifies disk
    ensures !faulty ==> ok
    ensures SameBut(disk.files, old(disk.files), target)
    ensures ok ==>
      var data := old(disk.files)[path];
      var end := if from + count <= |data| then from + count else |data|;
      size == end - from && disk.files == old(disk.files)[target := old(disk.files)[target] + data[from..end]]
  {
    var chunk;
    size := 0;
    ok, chunk := disk.Read(path, from, count, faulty);
    if ok && chunk != [] {
      size := |chunk|;
      ok := disk.Append(target, chunk, faulty);
    } else {
      assert disk.files[target] + [] == disk.files[target];
    }
  }

  /** The first `n` volumes are finished, and the next one may be in any state. */
  ghost predicate Interrupted(files: Files, before: Files, path: string, names: Names, cap: nat, n: nat)
    requires path in before && cap > 0
  {
    n <= |Chunks(before[path], cap)|
    && SameBut(files, Written(before, names, Chunks(before[path], cap), n), names(n + 1))
  }

  /** How far a split has come: `n` of the chunks `cs` finished, the archive read up to `pos`. */
  ghost predicate ReadUpTo(data: Bytes, cap: nat, cs: seq<Bytes>, n: nat, pos: nat)
    requires cap > 0
  {
    n <= |cs| && pos <= |data| && cs[n..] == Chunks(data[pos..], cap)
  }

  /** What the archive holds next is the next chunk, and nothing once there is none. */
  lemma NextChunk(data: Bytes, cap: nat, cs: seq<Bytes>, n: nat, pos: nat, end: nat)
    requires cap > 0 && ReadUpTo(data, cap, cs, n, pos)
    requires end == if pos + cap <= |data| then pos + cap else |data|
    ensures end > pos ==> n < |cs| && cs[n] == data[pos..end] && ReadUpTo(data, cap, cs, n + 1, end)
    ensures end == pos ==> n == |cs|
  {
    var left := data[pos..];
    if end > pos {
      assert data[pos..end] == left[..end - pos] && data[end..] == left[end - pos..];
      assert cs[n + 1..] == cs[n..][1..];
    }
  }

  /** One more volume, or the probe that finds nothing left to put into one. */
  method NextVolume(disk: Disk, path: string, names: Names, ghost before: Files, ghost cs: seq<Bytes>, cap: nat,
                    index: nat, pos: nat, faulty: bool)
    returns (ok: bool, written: nat)
    requires index > 0 && path in before && cap > 0 && NotItsOwnVolume(path, names)
    requires ReadUpTo(before[path], cap, cs, index - 1, pos)
    requires disk.files == Written(before, names, cs, index - 1)
    modifies disk
    ensures !faulty ==> ok
    ensures !ok ==> SameBut(disk.files, Written(before, names, cs, index - 1), names(index))
    ensures ok && written > 0 ==> ReadUpTo(before[path], cap, cs, index, pos + written)
    ensures ok && written > 0 ==> disk.files == Written(before, names, cs, index)
    ensures ok && written == 0 ==> index - 1 == |cs| && disk.files == Probed(before, names, cs)
  {
    ghost var n: nat := index - 1;
    ghost var data := before[path];
    ghost var end := if pos + cap <= |data| then pos + cap else |data|;
    WrittenOther(before, names, cs, n, path);
    var target := names(index);
    assert target == names(n + 1);
    NextChunk(data, cap, cs, n, pos, end);
    ok, written := WriteVolume(disk, path, target, pos, cap, faulty);
    if ok && written > 0 {
      WrittenNext(before, names, cs, n, data[pos..end]);
    }
  }

  lemma WrittenNext(before: Files, names: Names, cs: seq<Bytes>, n: nat, one: Bytes)
    requires n < |cs| && cs[n] == one
    ensures Written(before, names, cs, n + 1) == Written(before, names, cs, n)[names(n + 1) := one]
  {
  }

  /** The volume that stayed empty goes again. */
  method RemoveProbe(disk: Disk, path: string, names: Names, ghost before: Files, cap: nat, index: nat)
    requires path in before && cap > 0 && index == |Chunks(before[path], cap)| + 1
    requires disk.files == Probed(before, names, Chunks(before[path], cap))
    modifies disk
    ensures disk.files == SplitDisk(before, disk.stuck, path, names, cap, false)
  {
    disk.Remove(names(index));
  }

  /** The outer loop: volumes until one stays empty. On a fault, `volumes` are the finished ones. */
  method WriteVolumes(disk: Disk, path: string, names: Names, cap: nat, faulty: bool)
    returns (ok: bool, volumes: seq<string>)
    requires path in disk.files && cap > 0 && NotItsOwnVolume(path, names)
    modifies disk
    ensures !faulty ==> ok
    ensures volumes == VolumePaths(names, |volumes|)
    ensures ok ==> |volumes| == |Chunks(old(disk.files)[path], cap)|
    ensures ok ==> disk.files == SplitDisk(old(disk.files), disk.stuck, path, names, cap, false)
    ensures !ok ==> Interrupted(disk.files, old(disk.files), path, names, cap, |volumes|)
  {
    ghost var before := disk.files;
    ghost var cs := Chunks(before[path], cap);
    ghost var n := 0;
    volumes := [];
    var index, pos := 1, 0;
    while true
      invariant index == n + 1 && n == |volumes|
      invariant volumes == VolumePaths(names, n)
      invariant ReadUpTo(before[path], cap, cs, n, pos)
      invariant disk.files == Written(before, names, cs, n)
      decreases |before[path]| - pos
    {
      var written;
      ok, written := NextVolume(disk, path, names, before, cs, cap, index, pos, faulty);
      if !ok {
        return;
      }
      if written == 0 {
        RemoveProbe(disk, path, names, before, cap, index);
        return;
      }
      VolumePathsSnoc(names, n);
      volumes := volumes + [names(index)];
      n := n + 1;
      index := index + 1;
      pos := pos + written;
    }
  }

  /** Every finished volume is removed again, errors suppressed. */
  method RemoveAll(disk: Disk, volumes: seq<string>)
    modifies disk
    ensures forall p :: p !in volumes || p in disk.stuck ==>
      (p in disk.files <==> p in old(disk.files)) && (p in disk.files ==> disk.files[p] == old(disk.files)[p])
    ensures forall p :: p in volumes && p !in disk.stuck ==> p !in disk.files
  {
    for i := 0 to |volumes|
      invariant disk.files == map p | p in old(disk.files) && (p !in volumes[..i] || p in disk.stuck) :: old(disk.files)[p]
    {
      assert volumes[..i + 1] == volumes[..i] + [volumes[i]];
      disk.Remove(volumes[i]);
    }
    assert volumes[..|volumes|] == volumes;
  }

  /** What a failed split leaves: every finished volume gone unless it cannot be removed, the volume in
      progress in whatever state, and every other path, the archive first of all, as it was. */
  ghost predicate RolledBack(files: Files, before: Files, stuck: set<string>, names: Names, n: nat) {
    forall p :: p != names(n + 1) ==>
      if p in VolumePaths(names, n) then p in stuck || p !in files
      else (p in files <==> p in before) && (p in files ==> files[p] == before[p])
  }

  ghost predicate RolledBackSomewhere(files: Files, before: Files, stuck: set<string>, path: string, names: Names, cap: nat)
    requires path in before && cap > 0
  {
    exists n: nat :: n <= |Chunks(before[path], cap)| && RolledBack(files, before, stuck, names, n)
  }

  /** Dropping a half-written set. */
  method RollBack(disk: Disk, volumes: seq<string>, ghost before: Files, path: string, names: Names, cap: nat)
    requires path in before && cap > 0 && NotItsOwnVolume(path, names)
    requires volumes == VolumePaths(names, |volumes|)
    requires Interrupted(disk.files, before, path, names, cap, |volumes|)
    modifies disk
    ensures RolledBack(disk.files, before, disk.stuck, names, |volumes|)
    ensures path in disk.files && disk.files[path] == before[path]
  {
    ghost var n := |volumes|;
    ghost var files := disk.files;
    forall p | p !in volumes && p != names(n + 1)
      ensures (p in files <==> p in before) && (p in files ==> files[p] == before[p])
    {
      WrittenOther(before, names, Chunks(before[path], cap), n, p);
      assert p in files <==> p in files - {names(n + 1)};
    }
    RemoveAll(disk, volumes);
  }

  /** `_split_archive_sync`. */
  method SplitArchive(disk: Disk, path: string, filename: string, maxBytes: int, removeSource: bool, faulty: bool)
    returns (r: Outcome)
    requires NotItsOwnVolume(path, VolumesOf(path, filename))
    modifies disk
    ensures path !in old(disk.files) || maxBytes <= 0 || |old(disk.files)[path]| <= maxBytes ==>
      r == Delivered([path]) && disk.files == old(disk.files)
    ensures path in old(disk.files) && 0 < maxBytes < |old(disk.files)[path]| && r.Delivered? ==>
      r.paths == VolumePaths(VolumesOf(path, filename), |Chunks(old(disk.files)[path], maxBytes)|)
      && disk.files == SplitDisk(old(disk.files), disk.stuck, path, VolumesOf(path, filename), maxBytes, removeSource)
    ensures r.Raised? ==> faulty && path in disk.files && disk.files[path] == old(disk.files)[path]
    ensures r.Raised? ==> maxBytes > 0
    ensures r.Raised? ==> RolledBackSomewhere(disk.files, old(disk.files), disk.stuck, path, VolumesOf(path, filename), maxBytes)
  {
    if path !in disk.files {
      return Delivered([path]);
    }
    var total := |disk.files[path]|;
    if maxBytes <= 0 || total <= maxBytes {
      return Delivered([path]);
    }
    ghost var before := disk.files;
    var names := VolumesOf(path, filename);
    var cap: nat := maxBytes;
    var ok, volumes := WriteVolumes(disk, path, names, cap, faulty);
    if !ok {
      RollBack(disk, volumes, before, path, names, cap);
      return Raised;
    }
    ChunkSizes(before[path], cap);
    if removeSource && volumes != [] {
      disk.Remove(path);
    }
    return Delivered(volumes);
  }

  /** What a delivered split is worth: on disk, in order, under pairwise different names, are volumes that
      rejoin to the archive, and the archive is gone exactly when that was asked for and possible. Otherwise
      only the path of the probe can have changed, and it is as before exactly when nothing lay there (or an
      empty file that cannot be removed). */
  lemma DeliveredSplitRejoins(before: Files, stuck: set<string>, path: string, filename: string, cap: nat, removeSource: bool)
    requires path in before && 0 < cap < |before[path]| && NotItsOwnVolume(path, VolumesOf(path, filename))
    ensures
      var cs := Chunks(before[path], cap);
      var names := VolumesOf(path, filename);
      var after := SplitDisk(before, stuck, path, names, cap, removeSource);
      var touched := Touched(path, names, |cs|);
      && Distinct(VolumePaths(names, |cs|)) && Joined(cs) == before[path]
      && (forall k: nat :: k < |cs| ==> VolumeDelivered(before, stuck, path, names, cap, removeSource, k))
      && (path in after <==> !removeSource || path in stuck)
      && SameOutside(before, after, touched + {names(|cs| + 1)})
      && ProbeGone(after, stuck, names(|cs| + 1))
      && (SameOutside(before, after, touched) <==> ProbeHarmless(before, stuck, names(|cs| + 1)))
  {
    var names := VolumesOf(path, filename);
    VolumesOfDistinct(path, filename);
    ChunksRejoin(before[path], cap);
    DeliveredVolumes(before, stuck, path, names, cap, removeSource);
    DeliveredArchive(before, stuck, path, names, cap, removeSource);
    DeliveredFrame(before, stuck, path, names, cap, removeSource);
    DeliveredProbe(before, stuck, path, names, cap, removeSource);
  }

  /** The archive and the first `n` volumes. */
  function Touched(path: string, names: Names, n: nat): set<string> {
    Elements(VolumePaths(names, n)) + {path}
  }

  predicate SameFile(a: Files, b: Files, p: string) {
    (p in a <==> p in b) && (p in a ==> a[p] == b[p])
  }

  ghost predicate SameOutside(a: Files, b: Files, touched: set<string>) {
    forall p :: p !in touched ==> SameFile(a, b, p)
  }

  /** The probe's path is empty afterwards, or an empty file if it cannot be removed, whatever lay there. */
  predicate ProbeGone(after: Files, stuck: set<string>, probe: string) {
    (probe in after <==> probe in stuck) && (probe in after ==> after[probe] == [])
  }

  /** Nothing is lost at the probe's path when it was that way already. */
  predicate ProbeHarmless(before: Files, stuck: set<string>, probe: string) {
    if probe in stuck then probe in before && before[probe] == [] else probe !in before
  }

  lemma DeliveredProbe(before: Files, stuck: set<string>, path: string, names: Names, cap: nat, removeSource: bool)
    requires path in before && 0 < cap && NotItsOwnVolume(path, names) && DistinctPaths(names)
    requires
      var n := |Chunks(before[path], cap)|;
      SameOutside(before, SplitDisk(before, stuck, path, names, cap, removeSource), Touched(path, names, n) + {names(n + 1)})
    ensures
      var n := |Chunks(before[path], cap)|;
      var after := SplitDisk(before, stuck, path, names, cap, removeSource);
      && ProbeGone(after, stuck, names(n + 1))
      && (SameOutside(before, after, Touched(path, names, n)) <==> ProbeHarmless(before, stuck, names(n + 1)))
  {
    var n := |Chunks(before[path], cap)|;
    var after := SplitDisk(before, stuck, path, names, cap, removeSource);
    assert forall k :: 0 <= k < n ==> VolumePaths(names, n)[k] == names(k + 1) != names(n + 1);
    OneMore(before, after, Touched(path, names, n), names(n + 1));
  }

  lemma OneMore(a: Files, b: Files, touched: set<string>, p: string)
    requires p !in touched && SameOutside(a, b, touched + {p})
    ensures SameOutside(a, b, touched) <==> SameFile(a, b, p)
  {
  }

  lemma DeliveredVolumes(before: Files, stuck: set<string>, path: string, names: Names, cap: nat, removeSource: bool)
    requires path in before && 0 < cap && NotItsOwnVolume(path, names) && DistinctPaths(names)
    ensures forall k: nat :: k < |Chunks(before[path], cap)| ==> VolumeDelivered(before, stuck, path, names, cap, removeSource, k)
    ensures Distinct(VolumePaths(names, |Chunks(before[path], cap)|))
  {
    forall k: nat | k < |Chunks(before[path], cap)| ensures VolumeDelivered(before, stuck, path, names, cap, removeSource, k) {
      DeliveredVolume(before, stuck, path, names, cap, removeSource, k);
    }
  }

  ghost predicate VolumeDelivered(before: Files, stuck: set<string>, path: string, names: Names, cap: nat,
                                  removeSource: bool, k: nat)
    requires path in before && 0 < cap && k < |Chunks(before[path], cap)|
  {
    var after := SplitDisk(before, stuck, path, names, cap, removeSource);
    names(k + 1) in after && after[names(k + 1)] == Chunks(before[path], cap)[k]
  }

  lemma DeliveredVolume(before: Files, stuck: set<string>, path: string, names: Names, cap: nat,
                        removeSource: bool, k: nat)
    requires path in before && 0 < cap && NotItsOwnVolume(path, names) && DistinctPaths(names) && k < |Chunks(before[path], cap)|
    ensures VolumeDelivered(before, stuck, path, names, cap, removeSource, k)
  {
    var cs := Chunks(before[path], cap);
    WrittenVolume(before, names, cs, |cs|, k);
  }

  lemma DeliveredFrame(before: Files, stuck: set<string>, path: string, names: Names, cap: nat, removeSource: bool)
    requires path in before && 0 < cap && NotItsOwnVolume(path, names)
    ensures
      var n := |Chunks(before[path], cap)|;
      SameOutside(before, SplitDisk(before, stuck, path, names, cap, removeSource), Touched(path, names, n) + {names(n + 1)})
  {
    var cs := Chunks(before[path], cap);
    var n := |cs|;
    forall p | p !in Touched(path, names, n) + {names(n + 1)}
      ensures SameFile(before, SplitDisk(before, stuck, path, names, cap, removeSource), p)
    {
      WrittenOther(before, names, cs, n, p);
    }
  }

  lemma DeliveredArchive(before: Files, stuck: set<string>, path: string, names: Names, cap: nat, removeSource: bool)
    requires path in before && 0 < cap && NotItsOwnVolume(path, names)
    ensures path in SplitDisk(before, stuck, path, names, cap, removeSource) <==> !removeSource || path in stuck
  {
    var cs := Chunks(before[path], cap);
    WrittenOther(before, names, cs, |cs|, path);
  }

  /** An archive called `.zip`, or anything else not ending in a digit, is never its own volume. */
  lemma ZipIsNotItsOwnVolume(path: string, filename: string)
    requires path != "" && !('0' <= path[|path| - 1] <= '9')
    ensures NotItsOwnVolume(path, VolumesOf(path, filename))
  {
    forall k: nat ensures VolumePath(path, filename, k) != path {
      VolumePathsMissTheArchive(path, filename, k);
    }
  }

  /** Two bytes to be cut one by one, and a file of somebody else's where a third volume would go. */
  function ForeignThird(): Files {
    map["a.zip" := [1, 2], VolumesOf("a.zip", "a.zip")(3) := [7]]
  }

  lemma ForeignThirdIsLost()
    ensures var before, names := ForeignThird(), VolumesOf("a.zip", "a.zip");
      var after := SplitDisk(before, {}, "a.zip", names, 1, false);
      && NotItsOwnVolume("a.zip", names) && names(3) in before && names(3) !in VolumePaths(names, 2)
      && names(3) !in after
  {
    var before, path := ForeignThird(), "a.zip";
    var names := VolumesOf(path, path);
    ZipIsNotItsOwnVolume(path, path);
    VolumesOfDistinct(path, path);
    assert names(3) != path && before[path] == [1, 2];
    assert Chunks([1, 2], 1) == [[1], [2]] by {
      assert [1, 2][1..] == [2] && [1, 2][..1] == [1];
    }
  }
}
