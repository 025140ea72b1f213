/** Names for archive members and volumes (tasks/conversion_tasks.py). */
module ArchiveNames {
  import opened Collections
  import opened Text

  // ---------------------------------------------------------------- volumes

  function VolumeStem(archiveFilename: string): string {
    (if Basename(archiveFilename) == "" then "archive.zip" else Basename(archiveFilename)) + "."
  }

  /** `myclips.zip` -> `myclips.zip.001`. */
  function VolumeName(archiveFilename: string, index: nat): string {
    VolumeStem(archiveFilename) + Padded(index)
  }

  /** Where volume `index` goes: beside the archive. */
  function VolumePath(archivePath: string, archiveFilename: string, index: nat): string {
    var dir := Dirname(archivePath);
    Join(if dir == "" then "." else dir, VolumeName(archiveFilename, index))
  }

  /** Volumes stand beside the archive and bear its name, a dot and the number: `clips.zip.001`. */
  lemma VolumesKeepTheName(dir: string, name: string, i: nat)
    requires '/' !in name && name != "" && dir != "" && dir[|dir| - 1] != '/'
    ensures VolumePath(dir + "/" + name, name, i) == dir + "/" + name + "." + Padded(i)
    ensures NumeralValue(Padded(i)) == i && (|Padded(i)| == 3 <==> i < 1000)
  {
    PathDivides(dir, name);
    PaddedValue(i);
    PaddedWidth(i);
    NoSlashInNumerals(i);
    PathDivides(dir, VolumeName(name, i));
    assert dir + "/" + (name + "." + Padded(i)) == dir + "/" + name + "." + Padded(i);
  }

  lemma NoSlashInNumerals(i: nat)
    ensures '/' !in Padded(i)
  {
    var d := Decimal(i);
    if |d| < 3 {
      NoSlashInZeros(3 - |d|);
    }
  }

  lemma NoSlashInZeros(k: nat)
    ensures '/' !in Zeros(k)
  {
  }

  lemma StripPrefix(lead: string, a: string)
    ensures (lead + a)[|lead|..] == a
  {
  }

  lemma JoinInjective(dir: string, a: string, b: string)
    requires Join(dir, a) == Join(dir, b)
    ensures a == b
  {
    var lead := if dir == "" || dir[|dir| - 1] == '/' then dir else dir + "/";
    assert Join(dir, a) == lead + a && Join(dir, b) == lead + b;
    StripPrefix(lead, a);
    StripPrefix(lead, b);
  }

  lemma VolumeNamesDiffer(archiveFilename: string, i: nat, j: nat)
    requires VolumeName(archiveFilename, i) == VolumeName(archiveFilename, j)
    ensures i == j
  {
    var stem := VolumeStem(archiveFilename);
    StripPrefix(stem, Padded(i));
    StripPrefix(stem, Padded(j));
    PaddedValue(i);
    PaddedValue(j);
  }

  /** Volume paths never collide, also from the thousandth on, where the numerals get longer. */
  lemma VolumePathsDiffer(archivePath: string, archiveFilename: string, i: nat, j: nat)
    requires i != j
    ensures VolumePath(archivePath, archiveFilename, i) != VolumePath(archivePath, archiveFilename, j)
  {
    if VolumePath(archivePath, archiveFilename, i) == VolumePath(archivePath, archiveFilename, j) {
      var dir := if Dirname(archivePath) == "" then "." else Dirname(archivePath);
      JoinInjective(dir, VolumeName(archiveFilename, i), VolumeName(archiveFilename, j));
      VolumeNamesDiffer(archiveFilename, i, j);
    }
  }

  /** No volume ever lands on an archive whose own name does not end in a digit. */
  lemma VolumePathsMissTheArchive(archivePath: string, archiveFilename: string, i: nat)
    requires archivePath != "" && !('0' <= archivePath[|archivePath| - 1] <= '9')
    ensures VolumePath(archivePath, archiveFilename, i) != archivePath
  {
    var path := VolumePath(archivePath, archiveFilename, i);
    assert path[|path| - 1] == Padded(i)[|Padded(i)| - 1];
    assert Decimal(i)[|Decimal(i)| - 1] in Decimal(i);
  }

  // ---------------------------------------------------------------- members

  /** The base name a member is asked for under. */
  function MemberBase(name: string): string {
    if Basename(name) == "" then "file" else Basename(name)
  }

  /** The candidates in the order they are tried: the name itself, then `_1`, `_2`, ... before the extension. */
  function Candidate(base: string, counter: nat): string {
    if counter == 0 then base
    else
      var (stem, ext) := SplitExt(base);
      stem + "_" + Decimal(counter) + ext
  }

  /** A counter goes between the stem and the extension: `v.mp4`, `v_1.mp4`, `v_2.mp4`. */
  lemma CounterBeforeTheExtension(stem: string, ext: string, n: nat)
    requires '.' !in ext && exists i :: 0 <= i < |stem| && stem[i] != '.'
    ensures Candidate(stem + "." + ext, 0) == stem + "." + ext
    ensures n > 0 ==> Candidate(stem + "." + ext, n) == stem + "_" + Decimal(n) + "." + ext
  {
    NameDivides(stem, ext);
    assert stem + "_" + Decimal(n) + ("." + ext) == stem + "_" + Decimal(n) + "." + ext;
  }

  lemma LoweredCandidate(fold: Fold, base: string, counter: nat)
    requires PlainDigits(fold) && counter > 0
    ensures var (stem, ext) := SplitExt(base);
      Lower(fold, Candidate(base, counter)) == Lower(fold, stem) + "_" + Decimal(counter) + Lower(fold, ext)
  {
    var (stem, ext) := SplitExt(base);
    LowerConcat(fold, stem + "_" + Decimal(counter), ext);
    LowerConcat(fold, stem + "_", Decimal(counter));
    LowerConcat(fold, stem, "_");
    LowerDigits(fold, Decimal(counter));
    assert Lower(fold, "_") == fold('_') + Lower(fold, "");
  }

  /** No two candidates for one name are equal once lowered. */
  lemma CandidatesDiffer(fold: Fold, base: string, i: nat, j: nat)
    requires PlainDigits(fold) && i < j
    ensures Lower(fold, Candidate(base, i)) != Lower(fold, Candidate(base, j))
  {
    var (stem, ext) := SplitExt(base);
    LoweredCandidate(fold, base, j);
    if i == 0 {
      LowerConcat(fold, stem, ext);
    } else {
      LoweredCandidate(fold, base, i);
      var a, b := Lower(fold, Candidate(base, i)), Lower(fold, Candidate(base, j));
      var s, e := Lower(fold, stem) + "_", Lower(fold, ext);
      if a == b {
        assert |Decimal(i)| == |Decimal(j)|;
        assert Decimal(i) == a[|s|..|s| + |Decimal(i)|];
        assert Decimal(j) == b[|s|..|s| + |Decimal(j)|];
        DecimalValue(i);
        DecimalValue(j);
        assert false;
      }
    }
  }

  /** The names one archive has given out, lowered. */
  class UsedNames {
    var used: set<string>
    const fold: Fold

    constructor (fold: Fold)
      ensures used == {} && this.fold == fold
    {
      used := {};
      this.fold := fold;
    }

    /** `_unique_arcname`: the first candidate nobody took, found after at most |used| collisions. */
    method UniqueArcname(name: string) returns (candidate: string)
      requires PlainDigits(fold)
      modifies this`used
      ensures Lower(fold, candidate) !in old(used)
      ensures used == old(used) + {Lower(fold, candidate)}
      ensures exists n :: FirstFree(fold, old(used), MemberBase(name), n) && candidate == Candidate(MemberBase(name), n)
    {
      var base := MemberBase(name);
      var (stem, ext) := SplitExt(base);
      candidate := base;
      var counter := 1;
      TriedSize(fold, base, 0);
      while Lower(fold, candidate) in used
        invariant used == old(used)
        invariant 1 <= counter && candidate == Candidate(base, counter - 1)
        invariant Tried(fold, base, counter - 1) <= used && |Tried(fold, base, counter - 1)| == counter - 1
        decreases |used| - counter
      {
        TriedSize(fold, base, counter);
        SubsetSize(Tried(fold, base, counter), used);
        candidate := stem + "_" + Decimal(counter) + ext;
        counter := counter + 1;
      }
      SubsetSize(Tried(fold, base, counter - 1), used);
      TriedMembers(fold, base, counter - 1);
      assert FirstFree(fold, used, base, counter - 1);
      used := used + {Lower(fold, candidate)};
    }
  }

  /** The lowered candidates before the n-th. */
  function Tried(fold: Fold, base: string, n: nat): set<string> {
    if n == 0 then {} else Tried(fold, base, n - 1) + {Lower(fold, Candidate(base, n - 1))}
  }

  lemma {:induction false} TriedMembers(fold: Fold, base: string, n: nat)
    ensures forall x :: x in Tried(fold, base, n) <==> exists i :: 0 <= i < n && x == Lower(fold, Candidate(base, i))
  {
    if n > 0 {
      TriedMembers(fold, base, n - 1);
    }
  }

  lemma {:induction false} TriedSize(fold: Fold, base: string, n: nat)
    requires PlainDigits(fold)
    ensures |Tried(fold, base, n)| == n
  {
    if n > 0 {
      TriedSize(fold, base, n - 1);
      TriedMembers(fold, base, n - 1);
      forall i | 0 <= i < n - 1 ensures Lower(fold, Candidate(base, i)) != Lower(fold, Candidate(base, n - 1)) {
        CandidatesDiffer(fold, base, i, n - 1);
      }
      assert Lower(fold, Candidate(base, n - 1)) !in Tried(fold, base, n - 1);
    }
  }

  /** `n` is the least counter whose candidate is free, and pigeonholes bound it by the names taken. */
  ghost predicate FirstFree(fold: Fold, used: set<string>, base: string, n: nat) {
    && Lower(fold, Candidate(base, n)) !in used
    && (forall i :: 0 <= i < n ==> Lower(fold, Candidate(base, i)) in used)
    && n <= |used|
  }
}
