/**
 Patterns with one loose component and a last `**` where what follows the loose one matters: a
 path without empty names on which the expression and the components disagree.
 */
module GlobLate {
  import opened GlobCompiler
  import opened GlobUsers
  import opened GlobCounting
  import opened GlobOpenEnd

  // ---------------------------------------------------------------- what a match leaves no room for

  lemma {:induction false} WildNeeds(p: string, c: string)
    requires Wild(p, c)
    ensures |c| >= Insists(p)
    decreases |p|
  {
    if p != "" {
      if p[0] == '*' {
        var k :| 0 <= k <= |c| && Wild(p[1..], c[k..]);
        WildNeeds(p[1..], c[k..]);
      } else {
        WildNeeds(p[1..], c[1..]);
      }
    }
  }

  /** A component that insists on nothing is a single star, a double star, or loose. */
  lemma StarComponent(c: string)
    requires c != "" && Insists(c) == 0 && !EndsInDoubleStar(c)
    ensures c == "*"
  {
    OnlyStars(c, 0);
    if |c| > 1 {
      OnlyStars(c, |c| - 1);
      OnlyStars(c, |c| - 2);
    }
  }

  /** When a path has no slash to spare, an optional group takes none. */
  lemma SkipsNothing(ts: seq<Rx>, s: string)
    requires Matches([AnyDirs] + ts, s) && '\n' !in s && Slashes(s) == LiteralSlashes(ts)
    ensures Matches(ts, s)
  {
    var n := AnyDirsSkips(ts, s);
    SuffixComponents(s, n);
    ComponentsBySlashes(s);
    ComponentsBySlashes(Suffix(s, n));
    MatchNeedsSlashes(ts, Suffix(s, n));
  }

  lemma JoinedCons(c: string, cs: seq<string>)
    ensures Joined([c] + cs) == if cs == [] then c else c + ("/" + Joined(cs))
  {
    assert ([c] + cs)[1..] == cs;
    assert cs != [] ==> c + "/" + Joined(cs) == c + ("/" + Joined(cs));
  }

  lemma JoinedHead(c: string, cs: seq<string>)
    requires '/' !in c
    ensures First(Joined([c] + cs)) == c
    ensures Joined([c] + cs)[|c|..] == Joined([""] + cs)
    ensures cs != [] ==> '/' in Joined([c] + cs) && Rest(Joined([c] + cs)) == Joined(cs)
  {
    JoinedCons(c, cs);
    JoinedCons("", cs);
    FirstIsAll(c);
    if cs != [] {
      var tail := "/" + Joined(cs);
      assert c + tail == c + "/" + Joined(cs) && (c + tail)[|c|..] == tail && "" + tail == tail;
      RestOfJoin(c, Joined(cs));
    }
  }

  lemma {:induction false} JoinedSlashes(cs: seq<string>)
    requires cs != [] && Names(cs)
    ensures Slashes(Joined(cs)) == |cs| - 1 && '\n' !in Joined(cs)
  {
    JoinedComponents(cs);
    ComponentsBySlashes(Joined(cs));
  }

  /** What a component that ends in `**` takes off the first name before its optional group. */
  lemma {:induction false} LooseTakes(p: string, s: string) returns (k: nat)
    requires '/' in p && EndsInDoubleStar(First(p)) && Matches(Tokens(p), s)
    ensures OpensAt(p, s, k)
    decreases |p|, 1
  {
    if First(p) == "**" {
      k := 0;
      OpensHere(p, s);
    } else {
      LooseTail(p);
      k := LooseTakesMore(p, s);
    }
  }

  lemma {:induction false} LooseTakesMore(p: string, s: string) returns (k: nat)
    requires p != "" && p[0] != '/' && '/' in p && !("**/" <= p) && Matches(Tokens(p), s)
    requires '/' in p[1..] && EndsInDoubleStar(First(p[1..])) && First(p) == [p[0]] + First(p[1..]) && Rest(p[1..]) == Rest(p)
    ensures OpensAt(p, s, k)
    decreases |p|, 0
  {
    var j, left := TakesOne(p, s);
    var i := LooseTakes(p[1..], left);
    k := j + i;
    OpensLater(p, s, left, j, i, k);
  }

  /** After `k` characters of the first name only the optional group and what follows it are left. */
  predicate OpensAt(p: string, s: string, k: nat)
    requires '/' in p
  {
    Insists(First(p)) <= k <= |First(s)| && Matches([AnyDirs] + Tokens(Rest(p)), s[k..])
  }

  lemma OpensHere(p: string, s: string)
    requires '/' in p && First(p) == "**" && Matches(Tokens(p), s)
    ensures OpensAt(p, s, 0)
  {
    DoubleStarTokens(p);
    assert s[0..] == s;
    assert "**"[1..] == "*" && "*"[1..] == "";
  }

  lemma OpensLater(p: string, s: string, left: string, j: nat, i: nat, k: nat)
    requires p != "" && '/' in p && '/' in p[1..] && First(p) == [p[0]] + First(p[1..]) && Rest(p[1..]) == Rest(p)
    requires (if p[0] == '*' then 0 else 1) <= j <= |First(s)| && left == s[j..] && OpensAt(p[1..], left, i) && k == j + i
    ensures OpensAt(p, s, k)
  {
    FirstSuffix(s, j);
  }

  lemma TakesOne(p: string, s: string) returns (j: nat, left: string)
    requires p != "" && p[0] != '/' && !("**/" <= p) && Matches(Tokens(p), s)
    ensures (if p[0] == '*' then 0 else 1) <= j <= |First(s)| && left == s[j..] && Matches(Tokens(p[1..]), left)
  {
    var ts := Tokens(p);
    assert ts[1..] == Tokens(p[1..]);
    if p[0] == '*' {
      j :| 0 <= j <= |s| && '/' !in s[..j] && Matches(ts[1..], s[j..]);
    } else {
      j := 1;
      assert s[..1] == [s[0]];
    }
    NoSlashBefore(s, j);
    left := s[j..];
  }

  // ---------------------------------------------------------------- a first component that is no star

  /** The shortest name for the loose component, one for each other. */
  function TightPath(p: string): string {
    Joined(Instances(Components(p)))
  }

  lemma OpenTailShape(q: string)
    requires '\n' !in q && EndsOpen(Components(q)) && NoneBlank(Components(q)) && |Components(q)| > 1
    ensures '/' in q && |Rest(q)| < |q| && '\n' !in Rest(q) && First(q) != ""
    ensures Components(q) == [First(q)] + Components(Rest(q))
    ensures EndsOpen(Components(Rest(q))) && NoneBlank(Components(Rest(q)))
    ensures NoneLoose(Components(q)) ==> !Loose(First(q)) && NoneLoose(Components(Rest(q)))
    ensures LooseCount(Components(q)) == (if Loose(First(q)) then 1 else 0) + LooseCount(Components(Rest(q)))
  {
    assert '/' in q;
    TailOf(q);
  }

  lemma LateDouble(q: string)
    requires '/' in q && '\n' !in q && First(q) == "**" && EndsOpen(Components(Rest(q))) && NoneLoose(Components(Rest(q)))
    requires Matches(Tokens(q), LatePath(q))
    ensures Matches(Tokens(Rest(q)), LatePath(Rest(q)))
  {
    TailOf(q);
    DoubleStarTokens(q);
    DoubleHead(q);
    LateSlashes(Rest(q));
    SkipsNothing(Tokens(Rest(q)), LatePath(Rest(q)));
  }

  /** A double star has no name of its own. */
  lemma DoubleHead(q: string)
    requires '/' in q && First(q) == "**"
    ensures Instances(Components(q)) == Instances(Components(Rest(q)))
  {
    TailOf(q);
  }

  /** The shortest names, after an empty one. */
  function LatePath(q: string): string {
    Joined([""] + Instances(Components(q)))
  }

  /** A plain component matched against an empty name insists on nothing. */
  lemma LatePlain(q: string)
    requires '/' in q && '\n' !in q && First(q) != "" && First(q) != "**" && !Loose(First(q))
    requires EndsOpen(Components(q)) && NoneLoose(Components(q)) && Matches(Tokens(q), LatePath(q))
    ensures First(q) == "*"
  {
    TailOf(q);
    LateSlashes(q);
    JoinedHead("", Instances(Components(q)));
    ComponentStep(q, LatePath(q));
    WildNeeds(First(q), "");
    StarComponent(First(q));
  }

  lemma LateSlashes(q: string)
    requires '\n' !in q && EndsOpen(Components(q)) && NoneLoose(Components(q))
    ensures Slashes(LatePath(q)) == Plain(Components(q)) == LiteralSlashes(Tokens(q)) && '\n' !in LatePath(q)
  {
    var qs := Components(q);
    InstancesMatch(qs);
    ComponentsAreNames(q);
    InstancesAreNames(qs);
    JoinedSlashes([""] + Instances(qs));
    LooseCountIsZero(qs);
    OpenSlashes(q);
  }

  /** An empty name can only be met by a star. */
  lemma {:induction false} LateIsStar(q: string)
    requires '\n' !in q && EndsOpen(Components(q)) && NoneLoose(Components(q)) && NoneBlank(Components(q))
    requires Matches(Tokens(q), LatePath(q))
    ensures StarFirst(Components(q))
    decreases |q|
  {
    if |Components(q)| > 1 {
      OpenTailShape(q);
      if First(q) == "**" {
        LateDouble(q);
        LateIsStar(Rest(q));
      } else {
        LatePlain(q);
      }
    } else {
      assert Components(q) == ["**"] + [];
    }
  }

  lemma {:induction false} TightIsStar(p: string)
    requires '\n' !in p && OneLoose(Components(p)) && NoneBlank(Components(p)) && Matches(Tokens(p), TightPath(p))
    ensures StarFirst(AfterLoose(Components(p)))
    decreases |p|
  {
    OpenTailShape(p);
    if Loose(First(p)) {
      LooseCountIsZero(Components(Rest(p)));
      TightLoose(p);
      LateIsStar(Rest(p));
    } else {
      if First(p) == "**" {
        TightDouble(p);
      } else {
        TightPlain(p);
      }
      TightIsStar(Rest(p));
    }
  }

  lemma TightDouble(p: string)
    requires '/' in p && '\n' !in p && First(p) == "**" && OneLoose(Components(Rest(p)))
    requires Matches(Tokens(p), TightPath(p))
    ensures Matches(Tokens(Rest(p)), TightPath(Rest(p)))
  {
    TailOf(p);
    DoubleStarTokens(p);
    DoubleHead(p);
    TightSlashes(Rest(p));
    SkipsNothing(Tokens(Rest(p)), TightPath(Rest(p)));
  }

  lemma TightPlain(p: string)
    requires '/' in p && '\n' !in p && First(p) != "**" && !Loose(First(p))
    requires OneLoose(Components(p)) && Matches(Tokens(p), TightPath(p))
    ensures Matches(Tokens(Rest(p)), TightPath(Rest(p)))
  {
    TailOf(p);
    TightSlashes(p);
    TightHead(p);
    LooseIsPlain(Components(Rest(p)));
    InstancesMatch(Components(Rest(p)));
    ComponentStep(p, TightPath(p));
  }

  lemma TightHead(p: string)
    requires '/' in p && First(p) != "**"
    ensures var name := Instance(First(p), Fill(First(p)));
      First(TightPath(p)) == name && TightPath(p)[|name|..] == LatePath(Rest(p))
    ensures Instances(Components(Rest(p))) != [] ==>
      '/' in TightPath(p) && Rest(TightPath(p)) == TightPath(Rest(p))
  {
    var name := Instance(First(p), Fill(First(p)));
    TailOf(p);
    InstanceMatches(First(p), Fill(First(p)));
    JoinedHead(name, Instances(Components(Rest(p))));
    assert Instances(Components(p)) == [name] + Instances(Components(Rest(p)));
  }

  lemma TightLoose(p: string)
    requires '/' in p && '\n' !in p && Loose(First(p)) && EndsOpen(Components(Rest(p))) && NoneLoose(Components(Rest(p)))
    requires Matches(Tokens(p), TightPath(p))
    ensures Matches(Tokens(Rest(p)), LatePath(Rest(p)))
  {
    var name := Instance(First(p), "");
    var k := LooseTakes(p, TightPath(p));
    TailOf(p);
    TightHead(p);
    InstanceLength(First(p));
    assert k == |name| && TightPath(p)[k..] == LatePath(Rest(p));
    LateSlashes(Rest(p));
    SkipsNothing(Tokens(Rest(p)), LatePath(Rest(p)));
  }

  lemma TightSlashes(p: string)
    requires '\n' !in p && OneLoose(Components(p))
    ensures Slashes(TightPath(p)) == LiteralSlashes(Tokens(p)) && '\n' !in TightPath(p)
  {
    LooseIsPlain(Components(p));
    var s := InstancePath(p);
    OpenSlashes(p);
  }

  lemma {:induction false} LooseInsists(ps: seq<string>)
    requires OneLoose(ps) && Insists(FirstLoose(ps)) > 0
    ensures forall i :: 0 <= i < |ps| ==> Loose(ps[i]) ==> Insists(ps[i]) > 0
  {
    assert ps[1..][|ps| - 2] == ps[|ps| - 1];
    assert forall i :: 0 <= i < |ps| - 1 ==> ps[1..][i] == ps[i + 1];
    if Loose(ps[0]) {
      LooseCountIsZero(ps[1..]);
    } else {
      LooseInsists(ps[1..]);
    }
  }

  /** A loose component that insists on something, and no star first after it: on a path that gives the loose
      one its shortest name, the expression comes one component late. */
  lemma LateDisagrees(p: string) returns (s: string)
    requires '\n' !in p && OneLoose(Components(p)) && NoneBlank(Components(p))
    requires !StarFirst(AfterLoose(Components(p))) && Insists(FirstLoose(Components(p))) > 0
    ensures Proper(s) && !Accepts(p, s) && GlobMatch(Components(p), Components(s))
  {
    LooseIsPlain(Components(p));
    LooseInsists(Components(p));
    InstancesNamed(Components(p));
    s := InstancePath(p);
    if Accepts(p, s) {
      TightIsStar(p);
    }
  }

  // ---------------------------------------------------------------- a component that is not universal

  /** The components that are no double stars. */
  function Plains(ps: seq<string>): (r: seq<string>)
    ensures |r| == Plain(ps)
  {
    if ps == [] then [] else (if ps[0] == "**" then [] else [ps[0]]) + Plains(ps[1..])
  }

  /** A name a component that is not universal refuses. */
  function Junk(c: string): string {
    if c == "?" then "xx" else if 'x' in c then "y" else "x"
  }

  lemma {:induction false} WildKeeps(p: string, name: string, d: char)
    requires Wild(p, name) && d in p && d != '*' && d != '?'
    ensures d in name
    decreases |p|
  {
    assert p == [p[0]] + p[1..];
    if p[0] == '*' {
      var k :| 0 <= k <= |name| && Wild(p[1..], name[k..]);
      WildKeeps(p[1..], name[k..], d);
      assert forall e :: e in name[k..] ==> e in name;
    } else if p[0] != d {
      WildKeeps(p[1..], name[1..], d);
      assert forall e :: e in name[1..] ==> e in name;
    }
  }

  lemma {:induction false} LiteralIn(c: string) returns (d: char)
    requires Insists(c) > 0 && '?' !in c
    ensures d in c && d != '*' && d != '?'
  {
    assert c == [c[0]] + c[1..];
    if c[0] == '*' {
      d := LiteralIn(c[1..]);
    } else {
      d := c[0];
    }
  }

  lemma JunkRefused(c: string)
    requires c != "" && !Universal(c) && !EndsInDoubleStar(c)
    ensures !Wild(c, Junk(c))
  {
    if Insists(c) == 0 {
      StarComponent(c);
    } else if c == "?" {
      assert "?"[1..] == "" && "xx"[1..] == "x";
    } else if Insists(c) == 1 {
      LiteralRefused(c);
    } else if Wild(c, Junk(c)) {
      WildNeeds(c, Junk(c));
    }
  }

  lemma LiteralRefused(c: string)
    requires Insists(c) == 1 && '?' !in c
    ensures !Wild(c, Junk(c))
  {
    var d := LiteralIn(c);
    var e := if 'x' in c then 'x' else d;
    assert e !in Junk(c);
    if Wild(c, Junk(c)) {
      WildKeeps(c, Junk(c), e);
    }
  }

  /** Components as they stand before a last `**`: no blanks, no double stars, no slashes. */
  predicate Segments(bs: seq<string>) {
    Names(bs) && NoneBlank(bs) && forall i :: 0 <= i < |bs| ==> !EndsInDoubleStar(bs[i])
  }

  predicate Aligned(bs: seq<string>, names: seq<string>) {
    |bs| <= |names| && forall i :: 0 <= i < |bs| ==> Wild(bs[i], names[i])
  }

  predicate Misaligned(bs: seq<string>, names: seq<string>) {
    exists i :: 0 <= i < |bs| && i < |names| && !Wild(bs[i], names[i])
  }

  predicate EachUniversal(bs: seq<string>) {
    forall i :: 0 <= i < |bs| ==> Universal(bs[i])
  }

  /** Names each component matches, but not once they are moved up by one. */
  predicate Shifted(bs: seq<string>, names: seq<string>) {
    |names| == |bs| + 1 && Names(names) && NoneBlank(names) && Aligned(bs, names) && Misaligned(bs, names[1..])
  }

  lemma {:induction false} ShiftNames(bs: seq<string>) returns (names: seq<string>)
    requires Segments(bs) && !EachUniversal(bs)
    ensures Shifted(bs, names)
  {
    assert bs == [bs[0]] + bs[1..];
    if EachUniversal(bs[1..]) {
      names := ShiftHere(bs[0], bs[1..]);
    } else {
      names := ShiftNames(bs[1..]);
      names := ShiftLater(bs[0], bs[1..], names);
    }
  }

  lemma ShiftLater(b: string, bs: seq<string>, rest: seq<string>) returns (names: seq<string>)
    requires Segments([b] + bs) && Shifted(bs, rest)
    ensures Shifted([b] + bs, names)
  {
    var name := SegmentName(b, bs);
    names := [name] + rest;
    ConsBlank(name, rest);
    MisalignedCons(b, bs, rest[0], rest[1..]);
    assert names[1..] == [rest[0]] + rest[1..];
  }

  lemma SegmentName(b: string, bs: seq<string>) returns (name: string)
    requires Segments([b] + bs)
    ensures name != "" && '/' !in name && '\n' !in name && Wild(b, name)
  {
    assert ([b] + bs)[0] == b;
    InstanceMatches(b, "x");
    InstanceLength(b);
    name := Instance(b, "x");
  }

  /** The last component that is not universal: the name after its own is one it refuses. */
  lemma ShiftHere(b: string, bs: seq<string>) returns (names: seq<string>)
    requires Segments([b] + bs) && EachUniversal(bs) && !EachUniversal([b] + bs)
    ensures Shifted([b] + bs, names)
  {
    var name := SegmentName(b, bs);
    var rest := JunkThenX(b, |bs|);
    JunkAligned(b, bs);
    assert ([b] + bs)[0] == b;
    JunkRefused(b);
    names := [name] + rest;
    ConsBlank(name, rest);
    assert names[1..] == rest && !Wild(([b] + bs)[0], rest[0]);
  }

  function JunkThenX(c: string, n: nat): seq<string> {
    [Junk(c)] + seq(n, _ => "x")
  }

  lemma JunkAligned(b: string, bs: seq<string>)
    requires EachUniversal(bs)
    ensures var names := JunkThenX(b, |bs|); Aligned(bs, names) && Names(names) && NoneBlank(names)
  {
    var names := JunkThenX(b, |bs|);
    forall i | 0 <= i < |bs| ensures Wild(bs[i], names[i]) {
      UniversalMatches(bs[i], names[i]);
    }
  }

  lemma MisalignedCons(b: string, bs: seq<string>, name: string, names: seq<string>)
    requires Misaligned(bs, names)
    ensures Misaligned([b] + bs, [name] + names)
  {
    var i :| 0 <= i < |bs| && i < |names| && !Wild(bs[i], names[i]);
    assert ([b] + bs)[i + 1] == bs[i] && ([name] + names)[i + 1] == names[i];
  }

  /** Names aligned with the plain components, and one more for the last `**`. */
  predicate AlignedTo(qs: seq<string>, names: seq<string>) {
    && EndsOpen(qs) && NoneLoose(qs) && Names(names)
    && |names| == Plain(qs) + 1 && Aligned(Plains(qs), names)
  }

  /** The expression matches them. */
  lemma {:induction false} AlignedMatches(q: string, names: seq<string>)
    requires AlignedTo(Components(q), names)
    ensures Matches(Tokens(q), Joined(names))
    decreases |q|
  {
    if '/' in q {
      if First(q) == "**" {
        AlignedMatches(Rest(q), names);
        AlignedDouble(q, names);
      } else {
        AlignedMatches(Rest(q), names[1..]);
        AlignedPlain(q, names);
      }
    } else {
      FirstIsAll(q);
      AlignedLast(q, names);
    }
  }

  lemma AlignedLast(q: string, names: seq<string>)
    requires '/' !in q && AlignedTo(Components(q), names)
    ensures Matches(Tokens(q), Joined(names))
  {
    FirstIsAll(q);
    assert Components(q) == ["**"] && ["**"][1..] == [];
    NoSlashesWithout(names[0]);
    LastDoubleStar(q, names[0]);
  }

  lemma AlignedPlain(q: string, names: seq<string>)
    requires '/' in q && !EndsInDoubleStar(First(q)) && |names| > 1 && Names(names)
    requires Wild(First(q), names[0]) && Matches(Tokens(Rest(q)), Joined(names[1..]))
    ensures Matches(Tokens(q), Joined(names))
  {
    assert names == [names[0]] + names[1..];
    PlainMatches(q, names[0], names[1..]);
  }

  lemma AlignedDouble(q: string, names: seq<string>)
    requires '/' in q && First(q) == "**" && names != [] && Names(names) && Matches(Tokens(Rest(q)), Joined(names))
    ensures Matches(Tokens(q), Joined(names))
  {
    JoinedNames(names);
    DoubleStarTokens(q);
    AnyDirsMaySkip(Tokens(Rest(q)), Joined(names), 0);
  }

  lemma PlainMatches(p: string, name: string, names: seq<string>)
    requires '/' in p && !EndsInDoubleStar(First(p)) && names != [] && Names([name] + names)
    requires Wild(First(p), name) && Matches(Tokens(Rest(p)), Joined(names))
    ensures Matches(Tokens(p), Joined([name] + names))
  {
    assert ([name] + names)[0] == name;
    JoinedComponents([name] + names);
    JoinedHead(name, names);
    ComponentStep(p, Joined([name] + names));
  }

  /** A name for a loose component up to its double star. */
  function Stem(c: string): string
    requires EndsInDoubleStar(c)
  {
    Instance(c[..|c| - 2], "x")
  }

  lemma {:induction false} LooseGives(p: string, t: string)
    requires '/' in p && EndsInDoubleStar(First(p)) && Matches([AnyDirs] + Tokens(Rest(p)), t)
    ensures Matches(Tokens(p), Stem(First(p)) + t)
    decreases |p|
  {
    if First(p) == "**" {
      DoubleStarTokens(p);
      assert "**"[..0] == "" && "" + t == t;
    } else {
      LooseTail(p);
      LooseGives(p[1..], t);
      StemHead(p[0], First(p[1..]), t);
      OneMoreCharacter(p, Stem(First(p[1..])) + t);
    }
  }

  function One(c: char): string {
    if c == '*' || c == '?' then "x" else [c]
  }

  lemma StemHead(c: char, rest: string, t: string)
    requires EndsInDoubleStar(rest)
    ensures EndsInDoubleStar([c] + rest) && Stem([c] + rest) + t == One(c) + (Stem(rest) + t)
  {
    var u, v := ([c] + rest)[..|rest| - 1], rest[..|rest| - 2];
    assert u == [c] + v && u[1..] == v;
    assert One(c) + (Instance(v, "x") + t) == One(c) + Instance(v, "x") + t;
  }

  lemma OneMoreCharacter(p: string, t: string)
    requires p != "" && p[0] != '/' && !("**/" <= p) && Matches(Tokens(p[1..]), t)
    ensures Matches(Tokens(p), One(p[0]) + t)
  {
    var s := One(p[0]) + t;
    assert Tokens(p)[1..] == Tokens(p[1..]) && s[1..] == t;
    assert p[0] == '*' ==> s[..1] == "x";
  }

  /** Names with which the expression matches, one for each plain component, but not one each. */
  predicate JunkFor(p: string, cs: seq<string>) {
    |cs| == Plain(Components(p)) && Names(cs) && NoneBlank(cs)
    && Matches(Tokens(p), Joined(cs)) && Misaligned(Plains(Components(p)), cs)
  }

  lemma {:induction false} JunkNames(p: string) returns (cs: seq<string>)
    requires '\n' !in p && OneLoose(Components(p)) && NoneBlank(Components(p)) && !AllUniversal(AfterLoose(Components(p)))
    ensures JunkFor(p, cs)
    decreases |p|
  {
    OpenTailShape(p);
    if Loose(First(p)) {
      cs := JunkAfterLoose(p);
    } else {
      LooseIsPlain(Components(Rest(p)));
      cs := JunkNames(Rest(p));
      if First(p) == "**" {
        JunkDouble(p, cs);
      } else {
        cs := JunkPlain(p, cs);
      }
    }
  }

  lemma JunkDouble(p: string, cs: seq<string>)
    requires '/' in p && First(p) == "**" && cs != [] && JunkFor(Rest(p), cs)
    ensures JunkFor(p, cs)
  {
    AlignedDouble(p, cs);
  }

  lemma JunkPlain(p: string, rest: seq<string>) returns (cs: seq<string>)
    requires '/' in p && '\n' !in p && First(p) != "" && First(p) != "**" && !EndsInDoubleStar(First(p))
    requires rest != [] && JunkFor(Rest(p), rest)
    ensures JunkFor(p, cs)
  {
    var name := Instance(First(p), "x");
    ComponentsAreNames(p);
    FirstIsName(p);
    cs := [name] + rest;
    ConsBlank(name, rest);
    PlainMatches(p, name, rest);
    MisalignedCons(First(p), Plains(Components(Rest(p))), name, rest);
  }

  lemma JoinedNames(cs: seq<string>)
    requires cs != [] && Names(cs)
    ensures '\n' !in Joined(cs)
  {
    JoinedComponents(cs);
  }

  lemma FirstIsName(p: string)
    requires Names(Components(p)) && First(p) != ""
    ensures var name := Instance(First(p), "x");
      '/' !in name && '\n' !in name && name != "" && Wild(First(p), name)
  {
    assert Components(p)[0] == First(p);
    InstanceMatches(First(p), "x");
    InstanceLength(First(p));
  }

  lemma JunkAfterLoose(p: string) returns (cs: seq<string>)
    requires '/' in p && '\n' !in p && Loose(First(p)) && OneLoose(Components(p)) && NoneBlank(Components(p))
    requires !AllUniversal(Components(Rest(p)))
    ensures JunkFor(p, cs)
  {
    OpenTailShape(p);
    LooseCountIsZero(Components(Rest(p)));
    RestSegments(p);
    var names := ShiftNames(Plains(Components(Rest(p))));
    AlignedMatches(Rest(p), names);
    JoinedNames(names);
    AnyDirsMaySkip(Tokens(Rest(p)), Joined(names), 0);
    LooseGives(p, Joined(names));
    cs := Stemmed(p, names);
  }

  /** The loose component's stem joins the first of those names. */
  lemma Stemmed(p: string, names: seq<string>) returns (cs: seq<string>)
    requires '/' in p && '\n' !in p && EndsInDoubleStar(First(p)) && First(p) != "**"
    requires |names| == Plain(Components(Rest(p))) + 1 && Names(names) && NoneBlank(names)
    requires Misaligned(Plains(Components(Rest(p))), names[1..]) && Matches(Tokens(p), Stem(First(p)) + Joined(names))
    ensures JunkFor(p, cs)
  {
    var stem := Stem(First(p));
    StemIsName(p);
    JoinedStem(stem, names);
    MisalignedCons(First(p), Plains(Components(Rest(p))), stem + names[0], names[1..]);
    cs := [stem + names[0]] + names[1..];
  }

  lemma JoinedStem(stem: string, names: seq<string>)
    requires names != []
    ensures Joined([stem + names[0]] + names[1..]) == stem + Joined(names)
  {
    var name, rest := names[0], names[1..];
    assert names == [name] + rest;
    JoinedCons(stem + name, rest);
    JoinedCons(name, rest);
  }

  lemma StemIsName(p: string)
    requires '/' in p && '\n' !in p && EndsInDoubleStar(First(p))
    ensures '/' !in Stem(First(p)) && '\n' !in Stem(First(p))
  {
    var c := First(p);
    var u := c[..|c| - 2];
    ComponentsAreNames(p);
    assert Components(p)[0] == c && forall d :: d in u ==> d in c;
    InstanceMatches(u, "x");
  }

  /** The plain components after a loose one are segments, and not all universal. */
  lemma RestSegments(p: string)
    requires '/' in p && '\n' !in p && EndsOpen(Components(Rest(p))) && NoneBlank(Components(Rest(p)))
    requires NoneLoose(Components(Rest(p))) && !AllUniversal(Components(Rest(p)))
    ensures Segments(Plains(Components(Rest(p)))) && !EachUniversal(Plains(Components(Rest(p))))
  {
    ComponentsAreNames(Rest(p));
    var qs := Components(Rest(p));
    forall i | 0 <= i < |qs| ensures qs[i] == "**" || !EndsInDoubleStar(qs[i]) {
      assert i < |qs| - 1 ==> !Loose(qs[i]);
    }
    PlainsSegments(qs);
  }

  lemma {:induction false} PlainsSegments(qs: seq<string>)
    requires Names(qs) && NoneBlank(qs) && forall i :: 0 <= i < |qs| ==> qs[i] == "**" || !EndsInDoubleStar(qs[i])
    ensures Segments(Plains(qs)) && (EachUniversal(Plains(qs)) ==> AllUniversal(qs))
  {
    if qs != [] {
      assert qs == [qs[0]] + qs[1..];
      PlainsSegments(qs[1..]);
      SegmentsHead(qs[0], Plains(qs[1..]), qs[1..]);
      assert [] + Plains(qs[1..]) == Plains(qs[1..]);
    }
  }

  lemma SegmentsHead(b: string, bs: seq<string>, rest: seq<string>)
    requires Names([b]) && b != "" && Segments(bs) && (EachUniversal(bs) ==> AllUniversal(rest))
    ensures !EndsInDoubleStar(b) ==> Segments([b] + bs)
    ensures b == "**" ==> (EachUniversal(bs) ==> AllUniversal([b] + rest))
    ensures EachUniversal([b] + bs) ==> AllUniversal([b] + rest)
  {
    assert [b][0] == b && ([b] + bs)[0] == b;
    assert forall i :: 0 <= i < |bs| ==> ([b] + bs)[i + 1] == bs[i];
  }

  lemma {:induction false} ExactlyAligned(ps: seq<string>, cs: seq<string>)
    requires GlobMatch(ps, cs) && |cs| == Plain(ps)
    ensures Aligned(Plains(ps), cs)
    decreases |ps|
  {
    if ps != [] {
      if ps[0] == "**" {
        var k :| 0 <= k <= |cs| && GlobMatch(ps[1..], cs[k..]);
        GlobNeedsComponents(ps[1..], cs[k..]);
        assert cs[0..] == cs;
        ExactlyAligned(ps[1..], cs);
        assert Plains(ps) == Plains(ps[1..]);
      } else {
        ExactlyAligned(ps[1..], cs[1..]);
        assert cs == [cs[0]] + cs[1..];
      }
    }
  }

  /** A component after the loose one that does not match every name: a path on which the names the
      expression meets there are moved up by one. */
  lemma JunkDisagrees(p: string) returns (s: string)
    requires '\n' !in p && OneLoose(Components(p)) && NoneBlank(Components(p)) && !AllUniversal(AfterLoose(Components(p)))
    ensures Proper(s) && Accepts(p, s) && !GlobMatch(Components(p), Components(s))
  {
    var cs := JunkNames(p);
    LooseIsPlain(Components(p));
    JoinedComponents(cs);
    s := Joined(cs);
    if GlobMatch(Components(p), cs) {
      ExactlyAligned(Components(p), cs);
    }
  }
}
