/**
 Slashes and components: how many an expression insists on, how many a glob needs, and the
 shortest paths each of them matches.
 */
module GlobCounting {
  import opened GlobCompiler
  import opened GlobUsers

  // ---------------------------------------------------------------- counting slashes

  function Slashes(s: string): nat {
    if s == "" then 0 else (if s[0] == '/' then 1 else 0) + Slashes(s[1..])
  }

  lemma {:induction false} SlashesSplit(a: string, b: string)
    ensures Slashes(a + b) == Slashes(a) + Slashes(b)
  {
    if a == "" {
      assert a + b == b;
    } else {
      assert (a + b)[1..] == a[1..] + b;
      SlashesSplit(a[1..], b);
    }
  }

  lemma {:induction false} ComponentsBySlashes(s: string)
    ensures |Components(s)| == Slashes(s) + 1
    decreases |s|
  {
    if '/' in s {
      FirstStopsAtSlash(s);
      NoSlashesWithout(First(s));
      assert s == First(s) + ("/" + Rest(s));
      SlashesSplit(First(s), "/" + Rest(s));
      assert ("/" + Rest(s))[1..] == Rest(s);
      ComponentsBySlashes(Rest(s));
    } else {
      NoSlashesWithout(s);
    }
  }

  lemma {:induction false} NoSlashesWithout(s: string)
    requires '/' !in s
    ensures Slashes(s) == 0
  {
    if s != "" {
      assert s[0] in s && forall c :: c in s[1..] ==> c in s;
      NoSlashesWithout(s[1..]);
    }
  }

  /** The slashes an expression insists on. */
  function LiteralSlashes(ts: seq<Rx>): nat {
    if ts == [] then 0 else (if ts[0] == Lit('/') then 1 else 0) + LiteralSlashes(ts[1..])
  }

  lemma {:induction false} MatchNeedsSlashes(ts: seq<Rx>, s: string)
    requires Matches(ts, s)
    ensures Slashes(s) >= LiteralSlashes(ts)
    decreases |ts|
  {
    if ts != [] {
      var k := MatchStep(ts, s);
      SlashesSplit(s[..k], s[k..]);
      assert s == s[..k] + s[k..];
      MatchNeedsSlashes(ts[1..], s[k..]);
    }
  }

  /** What one construct takes off a match; a literal slash takes a slash. */
  lemma MatchStep(ts: seq<Rx>, s: string) returns (k: nat)
    requires ts != [] && Matches(ts, s)
    ensures k <= |s| && Matches(ts[1..], s[k..])
    ensures ts[0] == Lit('/') ==> Slashes(s[..k]) == 1
  {
    match ts[0]
    case Lit(c) =>
      k := 1;
      assert s[..1] == [s[0]] && s[..1][1..] == "";
    case NotSlash => k := 1;
    case Star =>
      k :| 0 <= k <= |s| && '/' !in s[..k] && Matches(ts[1..], s[k..]);
    case AnyDirs =>
      if Matches(ts[1..], s) {
        k := 0;
        assert s[0..] == s;
      } else {
        var j :| 0 <= j < |s| && s[j] == '/' && '\n' !in s[..j] && Matches(ts[1..], s[j + 1..]);
        k := j + 1;
      }
  }

  // ---------------------------------------------------------------- the shortest match

  /** A path the expression matches with every optional group left out. */
  function Sample(ts: seq<Rx>): string {
    if ts == [] then ""
    else (match ts[0]
      case AnyDirs => ""
      case Star => "x"
      case NotSlash => "x"
      case Lit(c) => [c]) + Sample(ts[1..])
  }

  lemma {:induction false} SampleMatches(ts: seq<Rx>)
    ensures Matches(ts, Sample(ts)) && Slashes(Sample(ts)) == LiteralSlashes(ts)
  {
    if ts != [] {
      SampleMatches(ts[1..]);
      var s, rest := Sample(ts), Sample(ts[1..]);
      match ts[0]
      case AnyDirs => assert s == rest;
      case Star =>
        assert s[..1] == "x" && s[1..] == rest;
      case NotSlash => assert s[1..] == rest;
      case Lit(c) => assert s[1..] == rest;
    }
  }

  lemma {:induction false} SampleIsOneLine(p: string)
    requires '\n' !in p
    ensures '\n' !in Sample(Tokens(p))
    decreases |p|
  {
    if p != "" {
      var n := if "**/" <= p then 3 else 1;
      assert p[0] in p && forall c :: c in p[n..] ==> c in p;
      SampleIsOneLine(p[n..]);
      var ts := Tokens(p);
      assert ts[1..] == Tokens(p[n..]);
      assert ts[0].Lit? ==> ts[0].c == p[0];
    }
  }

  // ---------------------------------------------------------------- the components' side

  function Plain(ps: seq<string>): nat {
    if ps == [] then 0 else (if ps[0] == "**" then 0 else 1) + Plain(ps[1..])
  }

  lemma {:induction false} GlobNeedsComponents(ps: seq<string>, cs: seq<string>)
    requires GlobMatch(ps, cs)
    ensures |cs| >= Plain(ps)
    decreases |ps|
  {
    if ps != [] {
      if ps[0] == "**" {
        var k :| 0 <= k <= |cs| && GlobMatch(ps[1..], cs[k..]);
        GlobNeedsComponents(ps[1..], cs[k..]);
      } else {
        GlobNeedsComponents(ps[1..], cs[1..]);
      }
    }
  }

  lemma TooFew(ps: seq<string>, cs: seq<string>)
    requires |cs| < Plain(ps)
    ensures !GlobMatch(ps, cs)
  {
    if GlobMatch(ps, cs) {
      GlobNeedsComponents(ps, cs);
    }
  }

  /** The components whose slash disappears into an optional group. */
  function Absorbed(ps: seq<string>): nat {
    if |ps| <= 1 then 0 else (if EndsInDoubleStar(ps[0]) then 1 else 0) + Absorbed(ps[1..])
  }

  function LooseCount(ps: seq<string>): nat {
    if |ps| <= 1 then 0 else (if Loose(ps[0]) then 1 else 0) + LooseCount(ps[1..])
  }

  lemma {:induction false} LooseCountIsZero(ps: seq<string>)
    ensures LooseCount(ps) == 0 <==> NoneLoose(ps)
  {
    if |ps| > 1 {
      LooseCountIsZero(ps[1..]);
      assert NoneLoose(ps) <==> !Loose(ps[0]) && NoneLoose(ps[1..]) by {
        assert forall i :: 0 <= i < |ps| - 1 ==> ps[1..][i] == ps[i + 1];
      }
    }
  }

  /** What is not absorbed are the plain components, less the loose ones, and a last `**`. */
  lemma {:induction false} AbsorbedCount(ps: seq<string>)
    requires ps != []
    ensures |ps| - Absorbed(ps) == Plain(ps) - LooseCount(ps) + (if ps[|ps| - 1] == "**" then 1 else 0)
  {
    if |ps| > 1 {
      assert ps[1..][|ps| - 2] == ps[|ps| - 1];
      AbsorbedCount(ps[1..]);
      assert EndsInDoubleStar("**") by { assert "**"[0] == '*' && "**"[1] == '*'; }
    } else {
      assert ps[1..] == [];
    }
  }

  lemma {:induction false} SlashesOfTokens(p: string)
    ensures LiteralSlashes(Tokens(p)) == |Components(p)| - 1 - Absorbed(Components(p))
    decreases |p|
  {
    var ps := Components(p);
    FirstEmpty(p);
    if p != "" {
      if "**/" <= p {
        DoubleStarFirst(p);
        SlashesOfTokens(p[3..]);
        assert Tokens(p)[1..] == Tokens(p[3..]) && ps[1..] == Components(p[3..]);
        assert EndsInDoubleStar("**") by { assert "**"[0] == '*' && "**"[1] == '*'; }
      } else {
        assert Tokens(p)[1..] == Tokens(p[1..]);
        SlashesOfTokens(p[1..]);
        if p[0] == '/' {
          assert Rest(p) == p[1..] && ps[1..] == Components(p[1..]);
        } else {
          AbsorbedHead(p);
        }
      }
    }
  }

  /** The first character of a component does not decide whether its slash is absorbed. */
  lemma AbsorbedHead(p: string)
    requires p != "" && p[0] != '/' && !("**/" <= p)
    ensures |Components(p)| == |Components(p[1..])| && Absorbed(Components(p)) == Absorbed(Components(p[1..]))
  {
    FirstSuffix(p, 1);
    if '/' in p {
      SameEnd(p);
      assert Components(p)[1..] == Components(Rest(p)) == Components(p[1..])[1..];
    }
  }

  lemma SameEnd(p: string)
    requires p != "" && p[0] != '/' && !("**/" <= p) && '/' in p
    ensures EndsInDoubleStar(First(p)) <==> EndsInDoubleStar(First(p[1..]))
  {
    var f := First(p[1..]);
    assert First(p) == [p[0]] + f;
    DoubleStarBeforeSlash(p);
    assert !(f == "*" && p[0] == '*') by {
      assert First(p) != "**";
      assert "**" == ['*'] + "*";
    }
    assert |f| == 1 && f[0] == '*' ==> f == "*";
  }

  lemma DoubleStarBeforeSlash(p: string)
    ensures '/' in p && First(p) == "**" ==> "**/" <= p
  {
    if '/' in p && First(p) == "**" {
      FirstStopsAtSlash(p);
      assert p[0] == First(p)[0] && p[1] == First(p)[1] && p[2] == '/';
    }
  }

  // ---------------------------------------------------------------- the path of a glob

  /** A name one component of a pattern matches, each `*` filled in the same way. */
  function Instance(p: string, fill: string): string {
    if p == "" then ""
    else (if p[0] == '*' then fill else if p[0] == '?' then "x" else [p[0]]) + Instance(p[1..], fill)
  }

  predicate Filler(fill: string) {
    '/' !in fill && '\n' !in fill
  }

  lemma {:induction false} InstanceMatches(p: string, fill: string)
    requires Filler(fill)
    ensures Wild(p, Instance(p, fill))
    ensures '/' !in p ==> '/' !in Instance(p, fill)
    ensures '\n' !in p ==> '\n' !in Instance(p, fill)
  {
    if p != "" {
      InstanceMatches(p[1..], fill);
      var c, rest := Instance(p, fill), Instance(p[1..], fill);
      assert p[0] in p && forall d :: d in p[1..] ==> d in p;
      if p[0] == '*' {
        assert c[|fill|..] == rest;
      } else {
        assert c[1..] == rest;
      }
    }
  }

  /** A loose component gets its shortest name. */
  function Fill(c: string): string {
    if Loose(c) then "" else "x"
  }

  /** One name per plain component, none for the double stars. */
  function Instances(ps: seq<string>): seq<string> {
    if ps == [] then [] else (if ps[0] == "**" then [] else [Instance(ps[0], Fill(ps[0]))]) + Instances(ps[1..])
  }

  lemma {:induction false} InstancesMatch(ps: seq<string>)
    ensures |Instances(ps)| == Plain(ps) && GlobMatch(ps, Instances(ps))
  {
    if ps != [] {
      InstancesMatch(ps[1..]);
      var cs, rest := Instances(ps), Instances(ps[1..]);
      if ps[0] == "**" {
        assert cs[0..] == rest;
      } else {
        InstanceMatches(ps[0], Fill(ps[0]));
        assert cs[1..] == rest;
      }
    }
  }

  function Joined(cs: seq<string>): string {
    if cs == [] then "" else if |cs| == 1 then cs[0] else cs[0] + "/" + Joined(cs[1..])
  }

  predicate Names(cs: seq<string>) {
    forall i :: 0 <= i < |cs| ==> '/' !in cs[i] && '\n' !in cs[i]
  }

  lemma {:induction false} JoinedComponents(cs: seq<string>)
    requires cs != [] && Names(cs)
    ensures Components(Joined(cs)) == cs && '\n' !in Joined(cs)
  {
    FirstIsAll(cs[0]);
    if |cs| > 1 {
      JoinedComponents(cs[1..]);
      ComponentsJoin(cs[0], Joined(cs[1..]));
    }
  }

  lemma {:induction false} ComponentsAreNames(p: string)
    requires '\n' !in p
    ensures Names(Components(p))
    decreases |p|
  {
    if '/' in p {
      FirstStopsAtSlash(p);
      assert forall c :: c in Rest(p) ==> c in p;
      ComponentsAreNames(Rest(p));
    }
    assert forall c :: c in First(p) ==> c in p;
  }

  lemma {:induction false} InstancesAreNames(ps: seq<string>)
    requires Names(ps)
    ensures Names(Instances(ps))
  {
    if ps != [] {
      InstanceMatches(ps[0], Fill(ps[0]));
      InstancesAreNames(ps[1..]);
    }
  }

  /** The path of those names: the glob matches it. */
  lemma InstancePath(p: string) returns (s: string)
    requires '\n' !in p && Plain(Components(p)) > 0
    ensures s == Joined(Instances(Components(p))) && '\n' !in s
    ensures Components(s) == Instances(Components(p)) && Slashes(s) == Plain(Components(p)) - 1
    ensures GlobMatch(Components(p), Components(s))
  {
    var cs := Instances(Components(p));
    InstancesMatch(Components(p));
    ComponentsAreNames(p);
    InstancesAreNames(Components(p));
    JoinedComponents(cs);
    s := Joined(cs);
    ComponentsBySlashes(s);
  }

  // ---------------------------------------------------------------- blank components

  predicate NoneBlank(ps: seq<string>) {
    forall i :: 0 <= i < |ps| ==> ps[i] != ""
  }

  /** A path a directory walk can produce: one line, and no name is empty. */
  predicate Proper(s: string) {
    '\n' !in s && NoneBlank(Components(s))
  }

  /** No name after the first is empty. */
  predicate TailNamed(s: string) {
    '/' in s ==> NoneBlank(Components(Rest(s)))
  }

  lemma NamedParts(s: string)
    ensures NoneBlank(Components(s)) <==> First(s) != "" && TailNamed(s)
  {
    if '/' in s {
      ConsBlank(First(s), Components(Rest(s)));
    } else {
      FirstIsAll(s);
    }
  }

  lemma ConsBlank(first: string, rest: seq<string>)
    ensures NoneBlank([first] + rest) <==> first != "" && NoneBlank(rest)
  {
    assert ([first] + rest)[0] == first && forall i :: 0 <= i < |rest| ==> ([first] + rest)[i + 1] == rest[i];
  }

  /** The characters a component insists on. */
  function Insists(c: string): nat {
    if c == "" then 0 else (if c[0] == '*' then 0 else 1) + Insists(c[1..])
  }

  lemma {:induction false} InstanceLength(c: string)
    ensures |Instance(c, "")| == Insists(c) && |Instance(c, "x")| == |c|
  {
    if c != "" {
      InstanceLength(c[1..]);
    }
  }

  lemma {:induction false} InstancesNamed(ps: seq<string>)
    requires NoneBlank(ps) && forall i :: 0 <= i < |ps| ==> Loose(ps[i]) ==> Insists(ps[i]) > 0
    ensures NoneBlank(Instances(ps))
  {
    if ps != [] {
      InstancesNamed(ps[1..]);
      InstanceLength(ps[0]);
      ConsBlank(Instance(ps[0], Fill(ps[0])), Instances(ps[1..]));
    }
  }

  /** The path the expression matches has a name wherever the pattern has a component. */
  lemma {:induction false} SampleNamed(p: string)
    requires TailNamed(p)
    ensures TailNamed(Sample(Tokens(p))) && (First(p) != "" ==> First(Sample(Tokens(p))) != "")
    decreases |p|
  {
    var s := Sample(Tokens(p));
    FirstEmpty(p);
    if p != "" {
      if "**/" <= p {
        DoubleStarFirst(p);
        NamedParts(Rest(p));
        SampleNamed(p[3..]);
        assert Tokens(p)[1..] == Tokens(p[3..]);
        assert s == Sample(Tokens(p[3..]));
      } else {
        SampleNamedStep(p);
      }
    }
  }

  lemma {:induction false} SampleNamedStep(p: string)
    requires p != "" && !("**/" <= p) && TailNamed(p)
    ensures TailNamed(Sample(Tokens(p))) && (First(p) != "" ==> First(Sample(Tokens(p))) != "")
    decreases |p|, 0
  {
    var s, t := Sample(Tokens(p)), Sample(Tokens(p[1..]));
    FirstEmpty(p);
    assert Tokens(p)[1..] == Tokens(p[1..]) && s == [s[0]] + t;
    assert s[1..] == t;
    if p[0] == '/' {
      assert Rest(p) == p[1..];
      NamedParts(p[1..]);
      SampleNamed(p[1..]);
      NamedParts(t);
      assert Rest(s) == t by { FirstEmpty(s); }
    } else {
      FirstSuffix(p, 1);
      SampleNamed(p[1..]);
      assert s[0] != '/';
      FirstSuffix(s, 1);
    }
  }
}
