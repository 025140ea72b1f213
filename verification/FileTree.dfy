/**
 The two local passes of the cleanup (tasks/cleanup_tasks.py): files past their age go, at any
 depth, and directories left without a file below them follow, bottom up.
 */
module FileTree {
  import opened Collections

  type Path = seq<string>

  /** Files that keep an otherwise empty directory under version control: no age removes them. */
  const PLACEHOLDER_FILES := {"README.md", ".gitkeep", ".gitignore"}

  function Parent(p: Path): Path
    requires p != []
  {
    p[..|p| - 1]
  }

  function Name(p: Path): string
    requires p != []
  {
    p[|p| - 1]
  }

  /** What one pass is told: the age limit, the clock each directory reads, and which removals fail. */
  datatype AgeRule = AgeRule(maxAge: int, clock: Path -> real, stuck: set<Path>)

  predicate Expired(rule: AgeRule, p: Path, mtime: real) {
    p != [] && Name(p) !in PLACEHOLDER_FILES && rule.clock(Parent(p)) - mtime > rule.maxAge as real && p !in rule.stuck
  }

  /** Strictly below `dir`. */
  predicate Under(dir: Path, p: Path) {
    dir < p
  }

  /** The files after an age pass over `dir`: everything below it that expired is gone. */
  function Aged(rule: AgeRule, files: map<Path, real>, dir: Path): map<Path, real> {
    map p | p in files && !(Under(dir, p) && Expired(rule, p, files[p])) :: files[p]
  }

  predicate HoldsFile(files: map<Path, real>, dir: Path) {
    exists f :: f in files && Under(dir, f)
  }

  /** Something a bottom-up pass cannot remove lies below `dir`: a file, or a directory in `stuck`, one
      whose listing or removal fails. */
  predicate HoldsBelow(files: map<Path, real>, dirs: set<Path>, stuck: set<Path>, dir: Path) {
    HoldsFile(files, dir) || exists q :: q in dirs && q in stuck && Under(dir, q)
  }

  predicate Stays(files: map<Path, real>, dirs: set<Path>, stuck: set<Path>, dir: Path) {
    dir in stuck || HoldsBelow(files, dirs, stuck, dir)
  }

  /** The directories after a bottom-up pass over `top`. */
  function Pruned(files: map<Path, real>, dirs: set<Path>, stuck: set<Path>, top: Path): set<Path> {
    set d | d in dirs && (!Under(top, d) || Stays(files, dirs, stuck, d))
  }

  /** After a pass over each root in turn. */
  function PrunedEach(files: map<Path, real>, dirs: set<Path>, stuck: set<Path>, roots: seq<Path>): set<Path> {
    if roots == [] then dirs
    else Pruned(files, PrunedEach(files, dirs, stuck, roots[..|roots| - 1]), stuck, roots[|roots| - 1])
  }

  /** A tree: whatever exists lies in directories that exist, and no path is both. */
  ghost predicate Tree(files: map<Path, real>, dirs: set<Path>) {
    && files.Keys !! dirs
    && (forall p, n :: p in files && 0 <= n < |p| ==> p[..n] in dirs)
    && (forall p, n :: p in dirs && 0 <= n < |p| ==> p[..n] in dirs)
  }

  function ChildrenOf(files: map<Path, real>, dirs: set<Path>, dir: Path): set<Path> {
    (set p | p in files && |p| == |dir| + 1 && dir <= p) + (set p | p in dirs && |p| == |dir| + 1 && dir <= p)
  }

  // ---------------------------------------------------------------- the age pass

  /** The files once the given children of `dir` have been dealt with. */
  function AgedSoFar(rule: AgeRule, files: map<Path, real>, dir: Path, done: seq<Path>): map<Path, real> {
    map p | p in files && !(Under(dir, p) && p[..|dir| + 1] in done && Expired(rule, p, files[p])) :: files[p]
  }

  /** Below a directory everything is in or below one of its children. */
  lemma ChildAbove(files: map<Path, real>, dirs: set<Path>, dir: Path, p: Path)
    requires Tree(files, dirs) && Under(dir, p) && (p in files || p in dirs)
    ensures p[..|dir| + 1] in ChildrenOf(files, dirs, dir)
  {
    var c := p[..|dir| + 1];
    assert |p| > |dir| && dir <= c;
    if |p| == |dir| + 1 {
      assert c == p;
    }
  }

  lemma AgedAll(rule: AgeRule, files: map<Path, real>, dirs: set<Path>, dir: Path, items: seq<Path>)
    requires Tree(files, dirs) && Elements(items) == ChildrenOf(files, dirs, dir)
    ensures AgedSoFar(rule, files, dir, items) == Aged(rule, files, dir)
  {
    forall p | p in files && Under(dir, p) ensures p[..|dir| + 1] in Elements(items) {
      ChildAbove(files, dirs, dir, p);
    }
  }

  lemma AboveIsDir(files: map<Path, real>, dirs: set<Path>, d: Path)
    requires Tree(files, dirs)
    ensures forall p :: p in files && Under(d, p) ==> d in dirs
  {
    forall p | p in files && Under(d, p) ensures d in dirs {
      assert p[..|d|] == d;
    }
  }

  lemma FileIsLeaf(files: map<Path, real>, dirs: set<Path>, c: Path, p: Path)
    requires Tree(files, dirs) && c in files && p in files && c <= p
    ensures p == c
  {
    assert p[..|c|] == c;
    AboveIsDir(files, dirs, c);
  }

  /** Dealing with one more child that is a file. */
  lemma FileStep(rule: AgeRule, files: map<Path, real>, dirs: set<Path>, dir: Path, done: seq<Path>, c: Path)
    requires Tree(files, dirs) && c in files && |c| == |dir| + 1 && dir <= c && c !in done
    ensures AgedSoFar(rule, files, dir, done + [c]) ==
      if Expired(rule, c, files[c]) then AgedSoFar(rule, files, dir, done) - {c} else AgedSoFar(rule, files, dir, done)
    ensures c in AgedSoFar(rule, files, dir, done)
  {
    assert c[..|dir| + 1] == c;
    forall p | p in files && Under(dir, p) && p[..|dir| + 1] == c ensures p == c {
      FileIsLeaf(files, dirs, c, p);
    }
  }

  /** Dealing with one more child that is a directory. */
  lemma DirStep(rule: AgeRule, files: map<Path, real>, dirs: set<Path>, dir: Path, done: seq<Path>, c: Path)
    requires Tree(files, dirs) && c in dirs && |c| == |dir| + 1 && dir <= c && c !in done
    ensures AgedSoFar(rule, files, dir, done + [c]) == Aged(rule, AgedSoFar(rule, files, dir, done), c)
  {
    forall p | p in files
      ensures Under(dir, p) && p[..|dir| + 1] == c <==> Under(c, p)
    {
      if Under(dir, p) && p[..|dir| + 1] == c {
        assert p != c;
        assert c <= p;
      }
    }
  }

  lemma ItemStep(rule: AgeRule, files: map<Path, real>, dirs: set<Path>, dir: Path, done: seq<Path>, c: Path)
    requires Tree(files, dirs) && c in ChildrenOf(files, dirs, dir) && c !in done
    ensures c in files <==> c in AgedSoFar(rule, files, dir, done)
    ensures c in files && Expired(rule, c, files[c]) ==>
      AgedSoFar(rule, files, dir, done + [c]) == AgedSoFar(rule, files, dir, done) - {c}
    ensures c in files && !Expired(rule, c, files[c]) ==>
      AgedSoFar(rule, files, dir, done + [c]) == AgedSoFar(rule, files, dir, done)
    ensures c !in files ==> c in dirs && AgedSoFar(rule, files, dir, done + [c]) == Aged(rule, AgedSoFar(rule, files, dir, done), c)
  {
    if c in files {
      FileStep(rule, files, dirs, dir, done, c);
    } else {
      DirStep(rule, files, dirs, dir, done, c);
    }
  }

  function DirsFrom(dirs: set<Path>, dir: Path): set<Path> {
    set d | d in dirs && dir <= d
  }

  lemma DeeperIsSmaller(dirs: set<Path>, dir: Path, c: Path)
    requires dir in dirs && Under(dir, c)
    ensures DirsFrom(dirs, c) < DirsFrom(dirs, dir)
  {
    assert dir in DirsFrom(dirs, dir) && dir !in DirsFrom(dirs, c);
  }

  class FileSystem {
    var files: map<Path, real>
    var dirs: set<Path>
    const stuck: set<Path>

    constructor (files: map<Path, real>, dirs: set<Path>, stuck: set<Path>)
      ensures this.files == files && this.dirs == dirs && this.stuck == stuck
    {
      this.files := files;
      this.dirs := dirs;
      this.stuck := stuck;
    }

    /** One file of a directory: gone when expired, unless a placeholder or not removable. */
    method CleanupFile(item: Path, dir: Path, rule: AgeRule) returns (removed: nat)
      requires item in files && item != [] && Parent(item) == dir
      modifies this`files
      ensures files == if Expired(rule, item, old(files)[item]) then old(files) - {item} else old(files)
      ensures removed + |files| == |old(files)|
    {
      removed := 0;
      if Name(item) !in PLACEHOLDER_FILES {
        var age := rule.clock(dir) - files[item];
        if age > rule.maxAge as real && item !in rule.stuck {
          files := files - {item};
          removed := 1;
        }
      }
    }

    /** `_cleanup_directory`, at every depth. */
    method CleanupDirectory(dir: Path, rule: AgeRule) returns (removed: nat)
      requires Tree(files, dirs) && dir !in files
      modifies this`files
      ensures files == Aged(rule, old(files), dir)
      ensures removed + |files| == |old(files)|
      decreases DirsFrom(dirs, dir)
    {
      ghost var before := files;
      if dir !in dirs {
        AboveIsDir(files, dirs, dir);
        return 0;
      }
      var items := Enumerate(ChildrenOf(files, dirs, dir));
      removed := 0;
      for i := 0 to |items|
        invariant files == AgedSoFar(rule, before, dir, items[..i])
        invariant removed + |files| == |before|
      {
        var item := items[i];
        assert items[..i + 1] == items[..i] + [item] && item !in items[..i] && item in Elements(items);
        ItemStep(rule, before, dirs, dir, items[..i], item);
        assert item != [] && Parent(item) == dir;
        if item in files {
          var gone := CleanupFile(item, dir, rule);
          removed := removed + gone;
        } else {
          DeeperIsSmaller(dirs, dir, item);
          var below := CleanupDirectory(item, rule);
          removed := removed + below;
        }
      }
      assert items[..|items|] == items;
      AgedAll(rule, before, dirs, dir, items);
    }

    /** `cleanup_empty_directories`: every root that exists, one after the other. */
    method CleanupEmptyDirectories(roots: seq<Path>) returns (removed: nat)
      requires Tree(files, dirs)
      modifies this`dirs
      ensures dirs == PrunedEach(files, old(dirs), stuck, roots)
      ensures removed + |dirs| == |old(dirs)|
    {
      removed := 0;
      for i := 0 to |roots|
        invariant Tree(files, dirs) && dirs == PrunedEach(files, old(dirs), stuck, roots[..i])
        invariant removed + |dirs| == |old(dirs)|
      {
        assert roots[..i + 1][..i] == roots[..i];
        PrunedTree(files, dirs, stuck, roots[i]);
        if roots[i] in dirs {
          var here := RemoveEmptyBelow(roots[i]);
          removed := removed + here;
        }
      }
      assert roots[..|roots|] == roots;
    }

    /** `os.walk(top, topdown=False)` with the removal loop of `cleanup_empty_directories` inside:
        the subdirectories listed first, each walked, then each removed if nothing is left in it. */
    method RemoveEmptyBelow(top: Path) returns (removed: nat)
      requires Tree(files, dirs) && top in dirs
      modifies this`dirs
      ensures dirs == Pruned(files, old(dirs), stuck, top)
      ensures removed + |dirs| == |old(dirs)|
      decreases DirsFrom(dirs, top)
    {
      ghost var before := dirs;
      var subdirs := Enumerate(set d | d in dirs && |d| == |top| + 1 && top <= d);
      assert Subdirs(dirs, top, subdirs);
      removed := 0;
      for i := 0 to |subdirs|
        invariant dirs == PrunedSoFar(files, before, stuck, top, subdirs[..i], [])
        invariant removed + |dirs| == |before|
      {
        assert subdirs[..i + 1] == subdirs[..i] + [subdirs[i]] && subdirs[i] !in subdirs[..i] && subdirs[i] in Elements(subdirs);
        WalkStep(files, before, stuck, top, subdirs[..i], subdirs[i]);
        DeeperIsSmaller(before, top, subdirs[i]);
        var below := RemoveEmptyBelow(subdirs[i]);
        removed := removed + below;
      }
      assert subdirs[..|subdirs|] == subdirs;
      var here := RemoveEmptyAmong(subdirs, top, before);
      removed := removed + here;
    }

    /** The inner loop over one directory's subdirectories, all of them walked already. */
    method RemoveEmptyAmong(subdirs: seq<Path>, top: Path, ghost before: set<Path>) returns (removed: nat)
      requires Tree(files, before) && Subdirs(before, top, subdirs) && Distinct(subdirs)
      requires dirs == PrunedSoFar(files, before, stuck, top, subdirs, [])
      modifies this`dirs
      ensures dirs == Pruned(files, before, stuck, top)
      ensures removed + |dirs| == |old(dirs)|
    {
      removed := 0;
      for i := 0 to |subdirs|
        invariant dirs == PrunedSoFar(files, before, stuck, top, subdirs, subdirs[..i])
        invariant removed + |dirs| == |old(dirs)|
      {
        var d := subdirs[i];
        assert subdirs[..i + 1] == subdirs[..i] + [d] && d !in subdirs[..i] && d in Elements(subdirs);
        EmptyIff(files, before, stuck, top, subdirs, subdirs[..i], d);
        RmdirStep(files, before, stuck, top, subdirs, subdirs[..i], d);
        if d !in stuck && ChildrenOf(files, dirs, d) == {} {
          dirs := dirs - {d};
          removed := removed + 1;
        }
      }
      assert subdirs[..|subdirs|] == subdirs;
      PrunedAll(files, before, stuck, top, subdirs);
    }
  }

  // ---------------------------------------------------------------- the bottom-up pass

  /** The directories once the given subdirectories have been walked, and some of them visited. */
  function PrunedSoFar(files: map<Path, real>, dirs: set<Path>, stuck: set<Path>, top: Path, walked: seq<Path>,
                       visited: seq<Path>): set<Path> {
    set d | d in dirs && (Stays(files, dirs, stuck, d)
      || !((|d| > |top| + 1 && top <= d && d[..|top| + 1] in walked) || d in visited))
  }

  lemma WalkStep(files: map<Path, real>, dirs: set<Path>, stuck: set<Path>, top: Path, walked: seq<Path>, c: Path)
    requires Tree(files, dirs) && c in dirs && |c| == |top| + 1 && top <= c && c !in walked
    ensures var now := PrunedSoFar(files, dirs, stuck, top, walked, []);
      && Tree(files, now) && c in now && DirsFrom(now, c) <= DirsFrom(dirs, c)
      && Pruned(files, now, stuck, c) == PrunedSoFar(files, dirs, stuck, top, walked + [c], [])
  {
    var now := PrunedSoFar(files, dirs, stuck, top, walked, []);
    forall p, n | p in now && 0 <= n < |p| ensures p[..n] in now {
      AncestorStays(files, dirs, stuck, top, walked, p, n);
    }
    forall p, n | p in files && 0 <= n < |p| ensures p[..n] in now {
      assert Under(p[..n], p);
    }
    forall d | d in dirs
      ensures Under(c, d) <==> |d| > |top| + 1 && top <= d && d[..|top| + 1] == c
      ensures Stays(files, now, stuck, d) <==> Stays(files, dirs, stuck, d)
    {
      assert c <= d ==> d[..|top| + 1] == c && top <= d;
    }
  }

  lemma AncestorStays(files: map<Path, real>, dirs: set<Path>, stuck: set<Path>, top: Path, walked: seq<Path>, p: Path, n: nat)
    requires Tree(files, dirs) && p in PrunedSoFar(files, dirs, stuck, top, walked, []) && n < |p|
    ensures p[..n] in PrunedSoFar(files, dirs, stuck, top, walked, [])
  {
    var q := p[..n];
    if Stays(files, dirs, stuck, p) {
    } else if |q| > |top| + 1 && top <= q {
      assert q[..|top| + 1] == p[..|top| + 1] && top <= p;
    }
  }

  /** Every directory directly below `top`. */
  ghost predicate Subdirs(dirs: set<Path>, top: Path, subdirs: seq<Path>) {
    Elements(subdirs) == set d | d in dirs && |d| == |top| + 1 && top <= d
  }

  /** A path below a directory is, or lies below, a child of it. */
  lemma ChildTowards(files: map<Path, real>, dirs: set<Path>, d: Path, f: Path)
    requires Tree(files, dirs) && (f in files || f in dirs) && Under(d, f)
    ensures var e := f[..|d| + 1]; |e| == |d| + 1 && d <= e && (e == f || (e in dirs && Under(e, f)))
  {
    if |f| == |d| + 1 {
      assert f[..|d| + 1] == f;
    }
  }

  /** Once its own subtree has been walked, a directory is empty exactly when nothing irremovable lies below it. */
  lemma EmptyIff(files: map<Path, real>, dirs: set<Path>, stuck: set<Path>, top: Path, walked: seq<Path>,
                 visited: seq<Path>, d: Path)
    requires Tree(files, dirs) && Subdirs(dirs, top, walked) && d in Elements(walked)
    requires Elements(visited) <= Elements(walked)
    ensures ChildrenOf(files, PrunedSoFar(files, dirs, stuck, top, walked, visited), d) == {}
      <==> !HoldsBelow(files, dirs, stuck, d)
  {
    var now := PrunedSoFar(files, dirs, stuck, top, walked, visited);
    var children := ChildrenOf(files, now, d);
    if HoldsFile(files, d) {
      var f :| f in files && Under(d, f);
      ChildTowards(files, dirs, d, f);
      assert f[..|d| + 1] in children;
    } else if HoldsBelow(files, dirs, stuck, d) {
      var q :| q in dirs && q in stuck && Under(d, q);
      ChildTowards(files, dirs, d, q);
      assert q[..|d| + 1] in children;
    }
    if children != {} {
      var e :| e in children;
      if e in now {
        assert e[..|top| + 1] == d && top <= e && |e| > |top| + 1 && d in walked;
        assert e !in Elements(visited);
        assert e[..|d|] == d;
      } else {
        assert Under(d, e);
      }
    }
  }

  lemma RmdirStep(files: map<Path, real>, dirs: set<Path>, stuck: set<Path>, top: Path, walked: seq<Path>,
                  visited: seq<Path>, d: Path)
    requires Subdirs(dirs, top, walked) && d in Elements(walked) && d !in visited
    ensures d in PrunedSoFar(files, dirs, stuck, top, walked, visited)
    ensures PrunedSoFar(files, dirs, stuck, top, walked, visited + [d]) ==
      PrunedSoFar(files, dirs, stuck, top, walked, visited) - (if Stays(files, dirs, stuck, d) then {} else {d})
  {
  }

  lemma PrunedAll(files: map<Path, real>, dirs: set<Path>, stuck: set<Path>, top: Path, subdirs: seq<Path>)
    requires Tree(files, dirs) && Subdirs(dirs, top, subdirs)
    ensures PrunedSoFar(files, dirs, stuck, top, subdirs, subdirs) == Pruned(files, dirs, stuck, top)
  {
    forall d | d in dirs && Under(top, d)
      ensures d in subdirs || (|d| > |top| + 1 && top <= d && d[..|top| + 1] in subdirs)
    {
      assert d[..|d|] == d;
      assert d[..|top| + 1] in Elements(subdirs);
    }
    forall d | d in dirs && !Under(top, d) ensures d !in Elements(subdirs) {
    }
  }

  // ---------------------------------------------------------------- what the passes mean

  /** The age pass leaves below `dir` exactly the placeholders, the files inside their age and those that
      could not be removed, at every depth; outside it nothing changes, and the directories stay a tree. */
  lemma AgePassKeepsTheRest(rule: AgeRule, files: map<Path, real>, dirs: set<Path>, dir: Path, p: Path)
    requires Tree(files, dirs) && p in files
    ensures p in Aged(rule, files, dir) <==>
      !Under(dir, p) || Name(p) == "README.md" || Name(p) == ".gitkeep" || Name(p) == ".gitignore" || p in rule.stuck
        || rule.clock(Parent(p)) - files[p] <= rule.maxAge as real
    ensures Tree(Aged(rule, files, dir), dirs)
  {
  }

  lemma PrunedTree(files: map<Path, real>, dirs: set<Path>, stuck: set<Path>, top: Path)
    requires Tree(files, dirs)
    ensures Tree(files, Pruned(files, dirs, stuck, top))
    ensures top !in dirs ==> Pruned(files, dirs, stuck, top) == dirs
  {
    var left := Pruned(files, dirs, stuck, top);
    forall p, n | p in files && 0 <= n < |p| ensures p[..n] in left {
      assert Under(p[..n], p);
    }
    forall p, n | p in left && 0 <= n < |p| ensures p[..n] in left {
      if Stays(files, dirs, stuck, p) {
      } else {
        assert Under(top, p[..n]) ==> Under(top, p);
      }
    }
    forall d | d in dirs && Under(top, d) ensures top in dirs {
      assert d[..|top|] == top;
    }
  }

  /** After the bottom-up pass every directory strictly below the root holds something, except those that
      could not be removed, and what is left is still a tree: every file lies in directories that exist. */
  lemma NoEmptyDirectoryLeft(files: map<Path, real>, dirs: set<Path>, stuck: set<Path>, top: Path)
    requires Tree(files, dirs)
    ensures Tree(files, Pruned(files, dirs, stuck, top))
    ensures forall d :: d in Pruned(files, dirs, stuck, top) && Under(top, d) && d !in stuck ==>
      ChildrenOf(files, Pruned(files, dirs, stuck, top), d) != {}
  {
    var left := Pruned(files, dirs, stuck, top);
    PrunedTree(files, dirs, stuck, top);
    forall d | d in left && Under(top, d) && d !in stuck ensures ChildrenOf(files, left, d) != {} {
      if HoldsFile(files, d) {
        var f :| f in files && Under(d, f);
        ChildTowards(files, left, d, f);
        assert f[..|d| + 1] in ChildrenOf(files, left, d);
      } else {
        var q :| q in dirs && q in stuck && Under(d, q);
        assert q in left;
        ChildTowards(files, left, d, q);
        assert q[..|d| + 1] in ChildrenOf(files, left, d);
      }
    }
  }

  /** All roots: a directory is left exactly when it lies strictly below none of them, or holds a file or an
      irremovable directory, or cannot be removed itself; the roots may overlap and come in any order. */
  lemma {:induction false} PrunedEachAt(files: map<Path, real>, dirs: set<Path>, stuck: set<Path>, roots: seq<Path>, d: Path)
    requires d in dirs
    ensures d in PrunedEach(files, dirs, stuck, roots) <==>
      Stays(files, dirs, stuck, d) || forall i :: 0 <= i < |roots| ==> !Under(roots[i], d)
    ensures PrunedEach(files, dirs, stuck, roots) <= dirs
    ensures forall q :: q in dirs && q in stuck ==> q in PrunedEach(files, dirs, stuck, roots)
  {
    if roots != [] {
      var init := roots[..|roots| - 1];
      PrunedEachAt(files, dirs, stuck, init, d);
      assert (forall i :: 0 <= i < |roots| ==> !Under(roots[i], d)) <==>
        (forall i :: 0 <= i < |init| ==> !Under(init[i], d)) && !Under(roots[|roots| - 1], d);
    }
  }
}
