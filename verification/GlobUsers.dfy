/**
 What the scanner does with its compiled globs (security/scan_mediabot.py): which files a
 rule sees, which of them are tests, and which findings are suppressed.
 */
module GlobUsers {
  import opened Options
  import opened GlobCompiler

  /** `_compile_glob(pattern).match(rel)`. */
  predicate Accepts(pattern: string, rel: string) {
    Matches(Tokens(pattern), rel)
  }

  predicate AcceptedByAny(globs: seq<string>, rel: string) {
    exists i :: 0 <= i < |globs| && Accepts(globs[i], rel)
  }

  // ---------------------------------------------------------------- suppressions

  /** A suppression of one rule, or of any when it names none; without a glob it defaults to `**`. */
  datatype Suppression = Suppression(rule: Option<string>, glob: Option<string>)

  predicate Covers(sup: Suppression, ruleId: string, rel: string) {
    sup.rule in {None, Some("*"), Some(ruleId)} && Accepts(sup.glob.GetOr("**"), rel)
  }

  method Suppressed(ruleId: string, rel: string, suppressions: seq<Suppression>) returns (b: bool)
    ensures b <==> exists i :: 0 <= i < |suppressions| && Covers(suppressions[i], ruleId, rel)
  {
    for n := 0 to |suppressions|
      invariant forall i :: 0 <= i < n ==> !Covers(suppressions[i], ruleId, rel)
    {
      var sup := suppressions[n];
      if sup.rule !in {None, Some("*"), Some(ruleId)} {
        continue;
      }
      if Accepts(sup.glob.GetOr("**"), rel) {
        return true;
      }
    }
    return false;
  }

  /** The default glob reaches no further than the top level: a suppression without a glob never
      covers a file in a directory. */
  lemma BareSuppressionIsShallow(sup: Suppression, ruleId: string, rel: string)
    requires sup.glob == None && sup.rule in {None, Some("*"), Some(ruleId)} && '\n' !in rel
    ensures Covers(sup, ruleId, rel) <==> '/' !in rel
  {
    BareTokens();
    TwoStars(rel);
  }

  lemma BareTokens()
    ensures Tokens("**") == [Star] + [Star]
  {
    assert "**"[1..] == "*" && "*"[1..] == "";
    assert Tokens("*") == [Star];
  }

  lemma OneStar(s: string)
    requires '\n' !in s
    ensures Matches([Star], s) <==> '/' !in s
  {
    assert [Star][1..] == [];
    if Matches([Star], s) {
      var k :| 0 <= k <= |s| && '/' !in s[..k] && Matches([], s[k..]);
      assert s[k..] != "\n" by {
        assert forall c :: c in s[k..] ==> c in s;
        assert "\n"[0] == '\n';
      }
      assert s[..k] == s;
    } else {
      assert s[..|s|] == s && s[|s|..] == "";
      assert Matches([], s[|s|..]);
    }
  }

  lemma SlashSomewhere(s: string, k: nat)
    requires k <= |s|
    ensures '/' in s <==> '/' in s[..k] || '/' in s[k..]
    ensures '\n' !in s ==> '\n' !in s[k..]
  {
    assert s == s[..k] + s[k..];
  }

  lemma StarThen(ts: seq<Rx>, s: string, k: nat)
    requires k <= |s| && '/' !in s[..k] && Matches(ts, s[k..])
    ensures Matches([Star] + ts, s)
  {
    assert ([Star] + ts)[1..] == ts;
  }

  lemma StarSplits(ts: seq<Rx>, s: string) returns (k: nat)
    requires Matches([Star] + ts, s)
    ensures k <= |s| && '/' !in s[..k] && Matches(ts, s[k..])
  {
    assert ([Star] + ts)[1..] == ts;
    k :| 0 <= k <= |s| && '/' !in s[..k] && Matches(([Star] + ts)[1..], s[k..]);
  }

  lemma TwoStars(s: string)
    requires '\n' !in s
    ensures Matches([Star] + [Star], s) <==> '/' !in s
  {
    if Matches([Star] + [Star], s) {
      var k := StarSplits([Star], s);
      SlashSomewhere(s, k);
      OneStar(s[k..]);
    }
    if '/' !in s {
      OneStar(s);
      assert s[0..] == s;
      StarThen([Star], s, 0);
    }
  }

  // ---------------------------------------------------------------- the walk

  datatype Node = FileNode(name: string) | DirNode(name: string, children: seq<Node>)

  /** The directories and the globs a profile excludes. */
  datatype Profile = Profile(excludeDirs: set<string>, excludeGlobs: seq<string>)

  predicate Named(nodes: seq<Node>)
    decreases nodes
  {
    forall n :: n in nodes ==> n.name != "" && '/' !in n.name && '\n' !in n.name && (n.DirNode? ==> Named(n.children))
  }

  function Below(dir: string, name: string): string {
    if dir == "" then name else dir + "/" + name
  }

  /** Every file of a subtree, by its path relative to the root. */
  function AllFiles(nodes: seq<Node>, dir: string): set<string>
    decreases nodes
  {
    if nodes == [] then {}
    else
      AllFiles(nodes[..|nodes| - 1], dir)
      + match nodes[|nodes| - 1]
        case FileNode(name) => {Below(dir, name)}
        case DirNode(name, children) => AllFiles(children, Below(dir, name))
  }

  predicate ExcludedDir(profile: Profile, rel: string) {
    exists c :: c in Components(rel) && c in profile.excludeDirs
  }

  /** A file a rule with these globs sees. */
  predicate Wanted(profile: Profile, globs: seq<string>, rel: string) {
    !ExcludedDir(profile, rel) && !AcceptedByAny(profile.excludeGlobs, rel) && AcceptedByAny(globs, rel)
  }

  lemma {:induction false} ComponentsJoin(a: string, b: string)
    ensures Components(a + "/" + b) == Components(a) + Components(b)
    decreases |a|
  {
    RestOfJoin(a, b);
    if '/' in a {
      FirstStopsAtSlash(a);
      ComponentsJoin(Rest(a), b);
    }
  }

  lemma RestOfJoin(a: string, b: string)
    ensures var s := a + "/" + b;
      '/' in s && First(s) == First(a) && Rest(s) == if '/' in a then Rest(a) + "/" + b else b
  {
    var s := a + "/" + b;
    assert s[|a|] == '/';
    FirstOfJoin(a, b);
    if '/' in a {
      FirstStopsAtSlash(a);
    } else {
      FirstIsAll(a);
    }
  }

  lemma {:induction false} FirstOfJoin(a: string, b: string)
    ensures First(a + "/" + b) == First(a)
  {
    if a != "" && a[0] != '/' {
      assert (a + "/" + b)[1..] == a[1..] + "/" + b;
      FirstOfJoin(a[1..], b);
    } else if a == "" {
      assert a + "/" + b == "/" + b;
    } else {
      assert (a + "/" + b)[0] == '/';
    }
  }

  /** Everything below a directory carries its name, so pruning an excluded one skips nothing wanted. */
  lemma {:induction false} PrunedFilesAreExcluded(nodes: seq<Node>, dir: string, name: string, rel: string)
    requires Named(nodes) && dir != "" && name in Components(dir) && rel in AllFiles(nodes, dir)
    ensures name in Components(rel)
    decreases nodes
  {
    var n := nodes[|nodes| - 1];
    assert n in nodes;
    if rel in AllFiles(nodes[..|nodes| - 1], dir) {
      PrunedFilesAreExcluded(nodes[..|nodes| - 1], dir, name, rel);
    } else if n.FileNode? {
      ComponentsJoin(dir, n.name);
    } else {
      ComponentsJoin(dir, n.name);
      PrunedFilesAreExcluded(n.children, Below(dir, n.name), name, rel);
    }
  }

  /** The catch-all glob accepts every path, so the flag that skips the pattern test changes nothing. */
  lemma CatchAllAccepts(rel: string)
    requires '\n' !in rel
    ensures Accepts("**/*", rel)
  {
    var n := |Components(rel)| - 1;
    SuffixComponents(rel, n);
    LastComponent(rel, n);
    OneStar(Suffix(rel, n));
    AnyDirsMaySkip([Star], rel, n);
    CatchAllTokens();
  }

  lemma CatchAllTokens()
    ensures Tokens("**/*") == [AnyDirs] + [Star]
  {
    var p := "**/*";
    assert p[3..] == "*" && "*"[1..] == "";
    assert Tokens("*") == [Star];
  }

  lemma LastComponent(s: string, n: nat)
    requires n == |Components(s)| - 1
    ensures '/' !in Suffix(s, n)
  {
    SuffixComponents(s, n);
    assert |Components(Suffix(s, n))| == 1;
  }

  /** `Repo.files`, directory by directory, excluded ones pruned; the caller sorts the result. */
  method Files(nodes: seq<Node>, dir: string, profile: Profile, globs: seq<string>) returns (out: set<string>)
    requires Named(nodes) && '\n' !in dir
    ensures out == set rel | rel in AllFiles(nodes, dir) && Wanted(profile, globs, rel)
    decreases nodes
  {
    var wantsAll := "**/*" in globs;
    out := {};
    for i := 0 to |nodes|
      invariant out == set rel | rel in AllFiles(nodes[..i], dir) && Wanted(profile, globs, rel)
    {
      assert nodes[..i + 1][..i] == nodes[..i];
      assert nodes[i] in nodes;
      match nodes[i]
      case FileNode(name) =>
        var rel := Below(dir, name);
        if wantsAll {
          CatchAllAccepts(rel);
          var g :| 0 <= g < |globs| && globs[g] == "**/*";
        }
        if !ExcludedDir(profile, rel) && !AcceptedByAny(profile.excludeGlobs, rel)
          && (wantsAll || AcceptedByAny(globs, rel))
        {
          out := out + {rel};
        }
      case DirNode(name, children) =>
        var sub := Below(dir, name);
        if name in profile.excludeDirs {
          forall rel | rel in AllFiles(children, sub) ensures !Wanted(profile, globs, rel) {
            SubComponent(dir, name);
            PrunedFilesAreExcluded(children, sub, name, rel);
          }
        } else {
          var below := Files(children, sub, profile, globs);
          out := out + below;
        }
    }
    assert nodes[..|nodes|] == nodes;
  }

  lemma SubComponent(dir: string, name: string)
    requires name != "" && '/' !in name
    ensures Below(dir, name) != "" && name in Components(Below(dir, name))
  {
    FirstIsAll(name);
    if dir != "" {
      ComponentsJoin(dir, name);
    }
  }
}
