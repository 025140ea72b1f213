/**
 Where the glob compiler stops being right: for every pattern outside the exact condition the
 expression and the component-wise reading disagree on some path.
 */
module GlobExactness {
  import opened GlobCompiler
  import opened GlobUsers
  import opened GlobCounting
  import opened GlobOpenEnd
  import opened GlobLate

  /** The expression means what the glob means, on every path a directory walk can produce on one line. */
  ghost predicate RightEverywhere(p: string) {
    forall s :: Proper(s) ==> (Accepts(p, s) <==> GlobMatch(Components(p), Components(s)))
  }

  // ---------------------------------------------------------------- the failing families

  /** Two loose components, or one when the last is not `**`: the shortest path the expression matches has
      too few components for the glob. */
  lemma LooseDisagrees(p: string) returns (s: string)
    requires '\n' !in p && NoneBlank(Components(p))
    requires LooseCount(Components(p)) >= (if EndsOpen(Components(p)) then 2 else 1)
    ensures Proper(s) && Accepts(p, s) && !GlobMatch(Components(p), Components(s))
  {
    s := Sample(Tokens(p));
    SampleIsOneLine(p);
    SampleMatches(Tokens(p));
    NamedParts(p);
    SampleNamed(p);
    NamedParts(s);
    SampleIsShort(p);
    TooFew(Components(p), Components(s));
  }

  lemma SampleIsShort(p: string)
    requires LooseCount(Components(p)) >= (if EndsOpen(Components(p)) then 2 else 1)
    ensures |Components(Sample(Tokens(p)))| < Plain(Components(p))
  {
    SampleComponents(p);
    FewerThanPlain(Components(p));
  }

  lemma FewerThanPlain(ps: seq<string>)
    requires ps != [] && LooseCount(ps) >= (if EndsOpen(ps) then 2 else 1)
    ensures |ps| - Absorbed(ps) < Plain(ps)
  {
    AbsorbedCount(ps);
  }

  lemma SampleComponents(p: string)
    ensures |Components(Sample(Tokens(p)))| == |Components(p)| - Absorbed(Components(p))
  {
    SampleMatches(Tokens(p));
    ComponentsBySlashes(Sample(Tokens(p)));
    SlashesOfTokens(p);
  }

  /** A last `**` asks for one slash more than the glob: a path that leaves it empty is not matched. */
  lemma LastDoubleStarDisagrees(p: string) returns (s: string)
    requires '\n' !in p && NoneBlank(Components(p))
    requires NoneLoose(Components(p)) && EndsOpen(Components(p)) && Plain(Components(p)) > 0
    ensures Proper(s) && !Accepts(p, s) && GlobMatch(Components(p), Components(s))
  {
    var ps := Components(p);
    s := InstancePath(p);
    InstancesNamed(ps);
    SlashesOfTokens(p);
    AbsorbedCount(ps);
    LooseCountIsZero(ps);
    if Accepts(p, s) {
      MatchNeedsSlashes(Tokens(p), s);
    }
  }

  // ---------------------------------------------------------------- the exact condition

  /** What the compiler is right about: no loose component before a slash and a last one that is not `**`;
      nothing but two or more double stars; or one loose component, harmless ones after it, `**` last. */
  predicate CompilesRight(ps: seq<string>) {
    if !EndsOpen(ps) then NoneLoose(ps)
    else if NoneLoose(ps) then |ps| > 1 && forall i :: 0 <= i < |ps| ==> ps[i] == "**"
    else OneLoose(ps) && Harmless(ps)
  }

  /** For every pattern on one line without blank components: the expression means what the glob means on
      every path, exactly when the pattern's components are of that form. */
  lemma CompiledGlobIff(p: string)
    requires '\n' !in p && NoneBlank(Components(p))
    ensures RightEverywhere(p) <==> CompilesRight(Components(p))
  {
    if CompilesRight(Components(p)) {
      forall s | Proper(s) ensures Accepts(p, s) <==> GlobMatch(Components(p), Components(s)) {
        CompilesRightAt(p, s);
      }
    } else {
      var s := Disagreement(p);
    }
  }

  lemma CompilesRightAt(p: string, s: string)
    requires CompilesRight(Components(p)) && Proper(s)
    ensures Accepts(p, s) <==> GlobMatch(Components(p), Components(s))
  {
    var ps := Components(p);
    LooseCountIsZero(ps);
    PlainIsZero(ps);
    if !EndsOpen(ps) {
      CompiledGlobIsRight(p, s);
    } else if NoneLoose(ps) {
      DoubleStarsAcceptAll(p, s);
      DoubleStarsMatchAll(ps, Components(s));
    } else {
      HarmlessIsRight(p, s);
    }
  }

  /** Every other pattern has a path on which the two disagree. */
  lemma Disagreement(p: string) returns (s: string)
    requires '\n' !in p && NoneBlank(Components(p)) && !CompilesRight(Components(p))
    ensures Proper(s) && !(Accepts(p, s) <==> GlobMatch(Components(p), Components(s)))
  {
    var ps := Components(p);
    LooseCountIsZero(ps);
    PlainIsZero(ps);
    if NoneLoose(ps) {
      if Plain(ps) > 0 {
        s := LastDoubleStarDisagrees(p);
      } else {
        s := BareDoubleStarDisagrees(p);
      }
    } else if !OneLoose(ps) {
      s := LooseDisagrees(p);
    } else if AllUniversal(AfterLoose(ps)) {
      s := LateDisagrees(p);
    } else {
      s := JunkDisagrees(p);
    }
  }

  lemma BareDoubleStarDisagrees(p: string) returns (s: string)
    requires Components(p) == ["**"]
    ensures Proper(s) && !Accepts(p, s) && GlobMatch(Components(p), Components(s))
  {
    JoinedComponents(["x", "x"]);
    s := Joined(["x", "x"]);
    ComponentsBySlashes(s);
    SlashMeansSlashes(s);
    BareTokens();
    TwoStars(s);
    DoubleStarsMatchAll(["**"], Components(s));
  }
}
