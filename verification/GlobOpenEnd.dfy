/**
 Patterns whose last component is `**`: nothing but double stars, or one loose component
 besides. What follows the loose one decides.
 */
module GlobOpenEnd {
  import opened GlobCompiler
  import opened GlobUsers
  import opened GlobCounting

  // ---------------------------------------------------------------- nothing but double stars

  lemma {:induction false} PlainIsZero(ps: seq<string>)
    ensures Plain(ps) == 0 <==> forall i :: 0 <= i < |ps| ==> ps[i] == "**"
  {
    if ps != [] {
      PlainIsZero(ps[1..]);
      assert forall i :: 0 <= i < |ps| - 1 ==> ps[1..][i] == ps[i + 1];
    }
  }

  lemma {:induction false} DoubleStarsMatchAll(ps: seq<string>, cs: seq<string>)
    requires ps != [] && Plain(ps) == 0
    ensures GlobMatch(ps, cs)
    decreases |ps|
  {
    assert ps[0] == "**" && cs[|cs|..] == [];
    if |ps| > 1 {
      DoubleStarsMatchAll(ps[1..], []);
    } else {
      assert ps[1..] == [];
    }
  }

  lemma {:induction false} DoubleStarsAcceptAll(p: string, s: string)
    requires |Components(p)| > 1 && Plain(Components(p)) == 0 && '\n' !in s
    ensures Accepts(p, s)
    decreases |p|
  {
    var ps := Components(p);
    assert ps[0] == "**" && '/' in p;
    TailOf(p);
    DoubleStarTokens(p);
    var q := Rest(p);
    if |ps| > 2 {
      DoubleStarsAcceptAll(q, s);
      AnyDirsMaySkip(Tokens(q), s, 0);
    } else {
      var n := |Components(s)| - 1;
      assert q == "**" by { assert Components(q)[0] == "**" && |Components(q)| == 1; }
      SuffixComponents(s, n);
      LastComponent(s, n);
      TwoStars(Suffix(s, n));
      BareTokens();
      AnyDirsMaySkip(Tokens(q), s, n);
    }
  }

  // ---------------------------------------------------------------- one loose component and a last `**`

  /** A component that matches every name: a star, or one `?` beside at least one star. */
  predicate Universal(c: string) {
    c == "*" || (c != "?" && Insists(c) == 1 && '?' in c)
  }

  predicate AllUniversal(ps: seq<string>) {
    forall i :: 0 <= i < |ps| ==> ps[i] == "**" || Universal(ps[i])
  }

  /** The first component that is no double star, if there is one, is a star. */
  predicate StarFirst(ps: seq<string>) {
    ps == [] || (if ps[0] == "**" then StarFirst(ps[1..]) else ps[0] == "*")
  }

  /** What follows the first loose component. */
  function AfterLoose(ps: seq<string>): seq<string> {
    if |ps| <= 1 then [] else if Loose(ps[0]) then ps[1..] else AfterLoose(ps[1..])
  }

  function FirstLoose(ps: seq<string>): string {
    if |ps| <= 1 then "" else if Loose(ps[0]) then ps[0] else FirstLoose(ps[1..])
  }

  /** What follows the first loose component can be met anywhere: every component there matches every name,
      and the first of them also the rest of the name the loose one leaves, which is empty unless the loose
      one is nothing but stars. */
  predicate Harmless(ps: seq<string>) {
    AllUniversal(AfterLoose(ps)) && (StarFirst(AfterLoose(ps)) || Insists(FirstLoose(ps)) == 0)
  }

  predicate EndsOpen(ps: seq<string>) {
    ps != [] && ps[|ps| - 1] == "**"
  }

  lemma AnyName(c: string)
    ensures Wild("*", c) && Wild("**", c)
  {
    assert "*"[1..] == "" && "**"[1..] == "*" && c[|c|..] == "" && c[0..] == c;
    assert Wild("*", c);
  }

  lemma {:induction false} StarsMatch(c: string, name: string)
    requires c != "" && Insists(c) == 0
    ensures Wild(c, name)
  {
    if |c| == 1 {
      assert name[|name|..] == "" && c[1..] == "";
      assert Wild(c[1..], name[|name|..]);
    } else {
      StarsMatch(c[1..], name);
      assert name[0..] == name;
      assert Wild(c[1..], name[0..]);
    }
  }

  lemma {:induction false} QuestionMatches(c: string, name: string)
    requires Insists(c) == 1 && '?' in c && name != "" && ('*' in c || |name| == 1)
    ensures Wild(c, name)
  {
    assert c == [c[0]] + c[1..];
    if c[0] == '?' {
      if c[1..] == "" {
        assert name[1..] == "";
      } else {
        StarsMatch(c[1..], name[1..]);
      }
    } else {
      QuestionInsists(c[1..]);
      var k := if '*' in c[1..] then 0 else |name| - 1;
      assert name[0..] == name && |name[|name| - 1..]| == 1;
      QuestionMatches(c[1..], name[k..]);
    }
  }

  lemma {:induction false} QuestionInsists(c: string)
    ensures '?' in c ==> Insists(c) > 0
  {
    if c != "" {
      QuestionInsists(c[1..]);
      assert c == [c[0]] + c[1..];
    }
  }

  lemma UniversalMatches(c: string, name: string)
    requires Universal(c) && (name != "" || c == "*")
    ensures Wild(c, name)
  {
    if c == "*" {
      AnyName(name);
    } else {
      QuestionMatches(c, name);
    }
  }

  lemma {:induction false} FreeMatches(ps: seq<string>, cs: seq<string>)
    requires AllUniversal(ps) && EndsOpen(ps) && NoneBlank(cs)
    ensures GlobMatch(ps, cs) <==> |cs| >= Plain(ps)
    decreases |ps|
  {
    if GlobMatch(ps, cs) {
      GlobNeedsComponents(ps, cs);
    }
    if |ps| > 1 {
      if |cs| >= Plain(ps) {
        if ps[0] == "**" {
          assert cs[0..] == cs;
          FreeMatches(ps[1..], cs);
        } else {
          FreeMatches(ps[1..], cs[1..]);
          UniversalMatches(ps[0], cs[0]);
        }
      }
    } else {
      assert ps[1..] == [] && cs[|cs|..] == [];
    }
  }

  /** A tail the optional group may end before: universal components, none loose, `**` last. */
  predicate OpenEnd(qs: seq<string>) {
    AllUniversal(qs) && NoneLoose(qs) && EndsOpen(qs)
  }

  /** Text after the point where the group opens: a first name that may be empty if a star is to meet it. */
  predicate MayOpen(qs: seq<string>, s: string) {
    '\n' !in s && TailNamed(s) && (First(s) != "" || StarFirst(qs))
  }

  /** With just enough slashes, the expression of universal components matches. */
  lemma {:induction false} FreeAccepts(q: string, s: string)
    requires OpenEnd(Components(q)) && MayOpen(Components(q), s) && Slashes(s) == Plain(Components(q))
    ensures Matches(Tokens(q), s)
    decreases |q|
  {
    var qs := Components(q);
    if |qs| == 1 {
      LastDoubleStar(q, s);
    } else {
      TailOf(q);
      if qs[0] == "**" {
        DoubleStarTokens(q);
        FreeAccepts(Rest(q), s);
        AnyDirsMaySkip(Tokens(Rest(q)), s, 0);
      } else {
        HasSlash(s);
        NamedParts(Rest(s));
        UniversalMatches(qs[0], First(s));
        FreeAccepts(Rest(q), Rest(s));
        ComponentStep(q, s);
      }
    }
  }

  lemma LastDoubleStar(q: string, s: string)
    requires Components(q) == ["**"] && '\n' !in s && Slashes(s) == 0
    ensures Matches(Tokens(q), s)
  {
    BareTokens();
    ComponentsBySlashes(s);
    TwoStars(s);
  }

  lemma {:induction false} SlashMeansSlashes(s: string)
    ensures '/' in s <==> Slashes(s) > 0
  {
    if s != "" {
      SlashMeansSlashes(s[1..]);
      assert s == [s[0]] + s[1..];
    }
  }

  lemma HasSlash(s: string)
    requires Slashes(s) > 0
    ensures '/' in s && Slashes(Rest(s)) == Slashes(s) - 1 && ('\n' !in s ==> '\n' !in Rest(s))
  {
    SlashMeansSlashes(s);
    FirstStopsAtSlash(s);
    NoSlashesWithout(First(s));
    assert s == First(s) + ("/" + Rest(s));
    SlashesSplit(First(s), "/" + Rest(s));
    assert ("/" + Rest(s))[1..] == Rest(s);
    assert forall c :: c in Rest(s) ==> c in s;
  }

  /** An optional group before universal components: any text with enough slashes. */
  lemma OpenTail(q: string, s: string)
    requires OpenEnd(Components(q)) && MayOpen(Components(q), s)
    ensures Matches([AnyDirs] + Tokens(q), s) <==> Slashes(s) >= Plain(Components(q))
  {
    var qs, all := Components(q), [AnyDirs] + Tokens(q);
    assert all[0] == AnyDirs && all[1..] == Tokens(q);
    OpenSlashes(q);
    LooseCountIsZero(qs);
    if Matches(all, s) {
      MatchNeedsSlashes(all, s);
    }
    if Slashes(s) >= Plain(qs) {
      var n := SpareSlashes(s, Plain(qs));
      SuffixMayOpen(qs, s, n);
      FreeAccepts(q, Suffix(s, n));
      AnyDirsMaySkip(Tokens(q), s, n);
    }
  }

  lemma SuffixMayOpen(qs: seq<string>, s: string, n: nat)
    requires MayOpen(qs, s) && n < |Components(s)|
    ensures MayOpen(qs, Suffix(s, n))
  {
    SuffixComponents(s, n);
    if n > 0 {
      DropOne(First(s), Components(Rest(s)), n);
      NamedParts(Suffix(s, n));
    }
  }

  /** Where to cut a path so that it keeps just so many slashes. */
  lemma SpareSlashes(s: string, wanted: nat) returns (n: nat)
    requires Slashes(s) >= wanted
    ensures n < |Components(s)| && Slashes(Suffix(s, n)) == wanted && ('\n' !in s ==> '\n' !in Suffix(s, n))
  {
    n := Slashes(s) - wanted;
    ComponentsBySlashes(s);
    SuffixComponents(s, n);
    ComponentsBySlashes(Suffix(s, n));
  }

  /** A component that ends in `**` before universal ones, the first of them a star: its wildcards, then any
      text with enough slashes. */
  lemma {:induction false} LooseStep(p: string, s: string)
    requires '/' in p && EndsInDoubleStar(First(p)) && '\n' !in s && TailNamed(s)
    requires OpenEnd(Components(Rest(p))) && StarFirst(Components(Rest(p)))
    ensures Matches(Tokens(p), s) <==> Wild(First(p), First(s)) && Slashes(s) >= Plain(Components(Rest(p)))
    decreases |p|, 1
  {
    if First(p) == "**" {
      DoubleStarTokens(p);
      AnyName(First(s));
      OpenTail(Rest(p), s);
    } else {
      LooseTail(p);
      if p[0] == '*' {
        LooseStar(p, s);
      } else {
        LooseChar(p, s);
      }
    }
  }

  lemma {:induction false} LooseChar(p: string, s: string)
    requires '/' in p && p[0] != '*' && EndsInDoubleStar(First(p)) && First(p) != "**" && '\n' !in s && TailNamed(s)
    requires OpenEnd(Components(Rest(p))) && StarFirst(Components(Rest(p)))
    ensures Matches(Tokens(p), s) <==> Wild(First(p), First(s)) && Slashes(s) >= Plain(Components(Rest(p)))
    decreases |p|, 0
  {
    LooseTail(p);
    OneCharacter(p, s);
    FirstEmpty(s);
    if s != "" && s[0] != '/' {
      FirstSuffix(s, 1);
      SameSlashes(s, 1);
      LooseStep(p[1..], s[1..]);
    }
  }

  /** A character that is no star takes one character off both sides. */
  lemma OneCharacter(p: string, s: string)
    requires p != "" && p[0] != '/' && p[0] != '*' && First(p) == [p[0]] + First(p[1..])
    ensures var fits := s != "" && s[0] != '/' && (p[0] == '?' || s[0] == p[0]);
      && (Matches(Tokens(p), s) <==> fits && Matches(Tokens(p[1..]), s[1..]))
      && (Wild(First(p), First(s)) <==> fits && Wild(First(p[1..]), First(s)[1..]))
  {
    assert Tokens(p)[1..] == Tokens(p[1..]) && First(p)[1..] == First(p[1..]);
    FirstEmpty(s);
  }

  /** Nothing before the first slash counts. */
  lemma SameSlashes(s: string, k: nat)
    requires k <= |First(s)|
    ensures Slashes(s[k..]) == Slashes(s)
  {
    NoSlashBefore(s, k);
    NoSlashesWithout(s[..k]);
    SlashesSplit(s[..k], s[k..]);
    assert s == s[..k] + s[k..];
  }

  lemma LooseTail(p: string)
    requires '/' in p && EndsInDoubleStar(First(p)) && First(p) != "**"
    ensures p != "" && p[0] != '/' && !("**/" <= p) && First(p) == [p[0]] + First(p[1..]) && EndsInDoubleStar(First(p[1..]))
    ensures '/' in p[1..] && Rest(p[1..]) == Rest(p)
  {
    FirstEmpty(p);
    DoubleStarFirst(p);
    FirstSuffix(p, 1);
  }

  lemma {:induction false} LooseStar(p: string, s: string)
    requires '/' in p && p[0] == '*' && EndsInDoubleStar(First(p)) && First(p) != "**" && '\n' !in s && TailNamed(s)
    requires OpenEnd(Components(Rest(p))) && StarFirst(Components(Rest(p)))
    ensures Matches(Tokens(p), s) <==> Wild(First(p), First(s)) && Slashes(s) >= Plain(Components(Rest(p)))
    decreases |p|, 0
  {
    LooseTail(p);
    StarTakes(p, s);
    var c := First(s);
    forall k | 0 <= k <= |c|
      ensures Matches(Tokens(p[1..]), s[k..]) <==>
        Wild(First(p[1..]), c[k..]) && Slashes(s) >= Plain(Components(Rest(p)))
    {
      FirstSuffix(s, k);
      SameSlashes(s, k);
      LooseStep(p[1..], s[k..]);
    }
  }

  /** A star takes a run of characters off both sides. */
  lemma StarTakes(p: string, s: string)
    requires p != "" && p[0] == '*' && !("**/" <= p) && First(p) == [p[0]] + First(p[1..])
    ensures Matches(Tokens(p), s) <==> exists k :: 0 <= k <= |First(s)| && Matches(Tokens(p[1..]), s[k..])
    ensures Wild(First(p), First(s)) <==> exists k :: 0 <= k <= |First(s)| && Wild(First(p[1..]), First(s)[k..])
  {
    assert Tokens(p)[0] == Star && Tokens(p)[1..] == Tokens(p[1..]) && First(p)[1..] == First(p[1..]);
    forall k | 0 <= k <= |s| ensures '/' !in s[..k] <==> k <= |First(s)| {
      NoSlashBefore(s, k);
    }
  }

  /** The same for a component of nothing but stars, whatever the first universal one is. */
  lemma StarsStep(p: string, s: string)
    requires '/' in p && Loose(First(p)) && Insists(First(p)) == 0 && Proper(s) && OpenEnd(Components(Rest(p)))
    ensures Matches(Tokens(p), s) <==> Wild(First(p), First(s)) && Slashes(s) >= Plain(Components(Rest(p)))
  {
    StarsMatch(First(p), First(s));
    TailOf(p);
    LooseCountIsZero(Components(Rest(p)));
    OpenSlashes(p);
    if Matches(Tokens(p), s) {
      MatchNeedsSlashes(Tokens(p), s);
    }
    NamedParts(s);
    OpenTail(Rest(p), s);
    if Slashes(s) >= Plain(Components(Rest(p))) {
      StarsGive(p, s);
    }
  }

  lemma {:induction false} StarsGive(p: string, s: string)
    requires '/' in p && EndsInDoubleStar(First(p)) && Insists(First(p)) == 0
    requires Matches([AnyDirs] + Tokens(Rest(p)), s)
    ensures Matches(Tokens(p), s)
    decreases |p|
  {
    if First(p) == "**" {
      DoubleStarTokens(p);
    } else {
      LooseTail(p);
      OnlyStars(First(p), 0);
      StarsGive(p[1..], s);
      assert s[0..] == s;
      StarTakes(p, s);
    }
  }

  /** One loose component is harmless when everything after it can be met anywhere and the last is `**`. */
  lemma {:induction false} HarmlessIsRight(p: string, s: string)
    requires OneLoose(Components(p)) && Harmless(Components(p)) && Proper(s)
    ensures RightAt(p, s)
    decreases |p|
  {
    assert '/' in p;
    TailOf(p);
    LooseShape(First(p), Components(Rest(p)));
    if Loose(First(p)) {
      LooseFirst(p, s);
    } else {
      LooseIsPlain(Components(Rest(p)));
      NeedsSomething(Components(Rest(p)));
      if First(p) == "**" {
        forall n | 0 <= n < |Components(s)| ensures RightAt(Rest(p), Suffix(s, n)) {
          SuffixComponents(s, n);
          HarmlessIsRight(Rest(p), Suffix(s, n));
        }
        DoubleStarStep(p, s);
      } else {
        if '/' in s {
          TailOf(s);
          NamedParts(s);
          HarmlessIsRight(Rest(p), Rest(s));
        }
        PlainStep(p, s);
      }
    }
  }

  lemma LooseShape(first: string, rest: seq<string>)
    requires rest != [] && OneLoose([first] + rest) && Harmless([first] + rest)
    ensures
      if Loose(first) then OpenEnd(rest) && (StarFirst(rest) || Insists(first) == 0)
      else OneLoose(rest) && Harmless(rest)
  {
    assert ([first] + rest)[1..] == rest;
    LooseCountIsZero(rest);
  }

  /** A last `**` and one loose component besides. */
  predicate OneLoose(ps: seq<string>) {
    EndsOpen(ps) && LooseCount(ps) == 1
  }

  lemma NeedsSomething(ps: seq<string>)
    requires Plain(ps) > 0
    ensures !GlobMatch(ps, [])
  {
    TooFew(ps, []);
  }

  lemma LooseFirst(p: string, s: string)
    requires '/' in p && Loose(First(p)) && Proper(s)
    requires OpenEnd(Components(Rest(p))) && (StarFirst(Components(Rest(p))) || Insists(First(p)) == 0)
    ensures RightAt(p, s)
  {
    var cs := Components(s);
    TailOf(p);
    NamedParts(s);
    if StarFirst(Components(Rest(p))) {
      LooseStep(p, s);
    } else {
      StarsStep(p, s);
    }
    FreeMatches(Components(Rest(p)), cs[1..]);
    ComponentsBySlashes(s);
  }

  lemma {:induction false} LooseIsPlain(ps: seq<string>)
    requires LooseCount(ps) > 0
    ensures Plain(ps) > 0
  {
    if !Loose(ps[0]) {
      LooseIsPlain(ps[1..]);
    }
  }

  lemma {:induction false} OnlyStars(c: string, i: nat)
    requires Insists(c) == 0 && i < |c|
    ensures c[i] == '*'
  {
    if i > 0 {
      OnlyStars(c[1..], i - 1);
    }
  }

  lemma OpenSlashes(q: string)
    requires EndsOpen(Components(q))
    ensures LiteralSlashes(Tokens(q)) == Plain(Components(q)) - LooseCount(Components(q))
  {
    SlashesOfTokens(q);
    AbsorbedCount(Components(q));
  }
}
