/**
 The glob compiler of the scanner (security/scan_mediabot.py, `Repo._compile_glob`): the
 regular expression it writes, what Python's `re` makes of it, and the component-wise
 reading of a glob it is meant to have.
 */
module GlobCompiler {
  import opened Options
  import opened RegexReader

  /** The four constructs a compiled glob is made of. */
  datatype Rx = AnyDirs | Star | NotSlash | Lit(c: char)

  /** What the index loop reads off a pattern: `**` only counts with its slash. */
  function Tokens(pattern: string): seq<Rx>
    decreases |pattern|
  {
    if pattern == "" then []
    else if "**/" <= pattern then [AnyDirs] + Tokens(pattern[3..])
    else if pattern[0] == '*' then [Star] + Tokens(pattern[1..])
    else if pattern[0] == '?' then [NotSlash] + Tokens(pattern[1..])
    else [Lit(pattern[0])] + Tokens(pattern[1..])
  }

  // ---------------------------------------------------------------- the regex as text

  /** The characters `re.escape` puts a backslash before. */
  const SPECIAL := "()[]{}?*+-|^$\\.&~# \t\n\r\U{000B}\U{000C}"

  function Escaped(c: char): string {
    if c in SPECIAL then ['\\', c] else [c]
  }

  const ANY_DIRS := "(?:.*/)?"
  const STAR := "[^/]*"
  const NOT_SLASH := "[^/]"

  function Printed(t: Rx): string {
    match t
    case AnyDirs => ANY_DIRS
    case Star => STAR
    case NotSlash => NOT_SLASH
    case Lit(c) => Escaped(c)
  }

  function PrintedAll(ts: seq<Rx>): string {
    if ts == [] then "" else Printed(ts[0]) + PrintedAll(ts[1..])
  }

  /** `_compile_glob`. */
  method CompileGlob(pattern: string) returns (rx: string)
    ensures rx == PrintedAll(Tokens(pattern)) + "$"
    ensures var items := ReadRegex(rx);
      items.Some? && forall s :: Accepts(items.value, s) <==> Matches(Tokens(pattern), s)
  {
    rx := "";
    var i := 0;
    assert pattern[0..] == pattern;
    while i < |pattern|
      invariant 0 <= i <= |pattern|
      invariant PrintedAll(Tokens(pattern)) == rx + PrintedAll(Tokens(pattern[i..]))
    {
      var ch := pattern[i];
      NextPiece(pattern, i, rx);
      if ch == '*' {
        if "**/" <= pattern[i..] {
          rx := rx + "(?:.*/)?";
          i := i + 3;
          continue;
        }
        rx := rx + "[^/]*";
      } else if ch == '?' {
        rx := rx + "[^/]";
      } else {
        rx := rx + Escaped(ch);
      }
      i := i + 1;
    }
    rx := rx + "$";
    ParsesBack(Tokens(pattern));
    forall s ensures Accepts(MeaningAll(Tokens(pattern)), s) <==> Matches(Tokens(pattern), s) {
      MeansTheSame(Tokens(pattern), s);
    }
  }

  // What one character that does not begin a double star with its slash compiles to.
  function Piece(ch: char): string {
    if ch == '*' then STAR else if ch == '?' then NOT_SLASH else Escaped(ch)
  }

  lemma NextPiece(pattern: string, i: nat, rx: string)
    requires i < |pattern|
    ensures "**/" <= pattern[i..] ==>
      rx + PrintedAll(Tokens(pattern[i..])) == rx + ANY_DIRS + PrintedAll(Tokens(pattern[i + 3..]))
    ensures !("**/" <= pattern[i..]) ==>
      rx + PrintedAll(Tokens(pattern[i..])) == rx + Piece(pattern[i]) + PrintedAll(Tokens(pattern[i + 1..]))
  {
    var rest := pattern[i..];
    if "**/" <= rest {
      assert rest[3..] == pattern[i + 3..];
      PrintedHead(AnyDirs, Tokens(rest[3..]));
      Associate(rx, ANY_DIRS, PrintedAll(Tokens(rest[3..])));
    } else {
      assert rest[1..] == pattern[i + 1..] && rest[0] == pattern[i];
      PieceHead(rest);
      Associate(rx, Piece(rest[0]), PrintedAll(Tokens(rest[1..])));
    }
  }

  lemma PieceHead(p: string)
    requires p != "" && !("**/" <= p)
    ensures PrintedAll(Tokens(p)) == Piece(p[0]) + PrintedAll(Tokens(p[1..]))
  {
    PrintedHead(if p[0] == '*' then Star else if p[0] == '?' then NotSlash else Lit(p[0]), Tokens(p[1..]));
  }

  lemma Associate(a: string, b: string, c: string)
    ensures a + (b + c) == (a + b) + c
  {
  }

  lemma PrintedHead(t: Rx, ts: seq<Rx>)
    ensures PrintedAll([t] + ts) == Printed(t) + PrintedAll(ts)
  {
    assert ([t] + ts)[1..] == ts;
  }

  // ---------------------------------------------------------------- what the text means

  /** What each construct is to say to the reader of the expression. */
  function Meaning(t: Rx): Item {
    match t
    case AnyDirs => Maybe([Many(AnyBut('\n')), One(Only('/'))])
    case Star => Many(AnyBut('/'))
    case NotSlash => One(AnyBut('/'))
    case Lit(c) => One(Only(c))
  }

  function MeaningAll(ts: seq<Rx>): seq<Item> {
    if ts == [] then [] else [Meaning(ts[0])] + MeaningAll(ts[1..])
  }

  /** The text is read as what it was written for: no character of the pattern turns into syntax. */
  lemma {:induction false} ParsesBack(ts: seq<Rx>)
    ensures ReadRegex(PrintedAll(ts) + "$") == Some(MeaningAll(ts))
  {
    ReadsBack(ts);
  }

  lemma {:induction false} ReadsBack(ts: seq<Rx>)
    ensures ReadItems(PrintedAll(ts) + "$") == Reading(MeaningAll(ts), "$")
  {
    if ts == [] {
      assert PrintedAll(ts) + "$" == "$";
    } else {
      ReadsBack(ts[1..]);
      NeverStar(ts[1..]);
      Associate(Printed(ts[0]), PrintedAll(ts[1..]), "$");
      ConstructReadsBack(ts[0], PrintedAll(ts[1..]) + "$");
    }
  }

  lemma ConstructReadsBack(t: Rx, rest: string)
    requires rest != "" && rest[0] != '*'
    ensures ReadItems(Printed(t) + rest) == Prepend(Meaning(t), ReadItems(rest))
  {
    match t
    case AnyDirs => GroupReadsBack(rest);
    case Star => StarReadsBack(rest);
    case NotSlash => NotSlashReadsBack(rest);
    case Lit(c) => LiteralReadsBack(c, rest);
  }

  lemma StarReadsBack(rest: string)
    ensures ReadItems(STAR + rest) == Prepend(Meaning(Star), ReadItems(rest))
  {
    var s := STAR + rest;
    assert s[0] == '[' && s[1] == '^' && s[2] == '/' && s[3] == ']' && s[4] == '*' && s[5..] == rest;
    Differ("(?:", s, 0);
  }

  lemma NotSlashReadsBack(rest: string)
    requires rest != "" && rest[0] != '*'
    ensures ReadItems(NOT_SLASH + rest) == Prepend(Meaning(NotSlash), ReadItems(rest))
  {
    var s := NOT_SLASH + rest;
    assert s[0] == '[' && s[1] == '^' && s[2] == '/' && s[3] == ']' && s[4..] == rest;
    Differ("(?:", s, 0);
  }

  lemma LiteralReadsBack(c: char, rest: string)
    requires rest != "" && rest[0] != '*'
    ensures ReadItems(Escaped(c) + rest) == Prepend(Meaning(Lit(c)), ReadItems(rest))
  {
    if IsSyntax(c) {
      SyntaxIsSpecial(c);
    } else if IsAsciiLetterOrDigit(c) {
      NoLetterIsSpecial(c);
    }
    var s := Escaped(c) + rest;
    assert s[|Escaped(c)|..] == rest;
    Differ("(?:", s, 0);
  }

  /** `re.escape` reaches every syntax character, */
  lemma SyntaxIsSpecial(c: char)
    requires IsSyntax(c)
    ensures c in SPECIAL
  {
    assert SPECIAL[0] == '(' && SPECIAL[1] == ')' && SPECIAL[2] == '[' && SPECIAL[3] == ']';
    assert SPECIAL[4] == '{' && SPECIAL[5] == '}' && SPECIAL[6] == '?' && SPECIAL[7] == '*';
    assert SPECIAL[8] == '+' && SPECIAL[10] == '|' && SPECIAL[11] == '^' && SPECIAL[12] == '$';
    assert SPECIAL[13] == '\\' && SPECIAL[14] == '.';
  }

  // and no letter or digit, before which a backslash would mean something else.
  lemma NoLetterIsSpecial(c: char)
    requires IsAsciiLetterOrDigit(c)
    ensures c !in SPECIAL
  {
  }

  lemma GroupReadsBack(rest: string)
    ensures ReadItems(ANY_DIRS + rest) == Prepend(Meaning(AnyDirs), ReadItems(rest))
  {
    var s, after := ANY_DIRS + rest, ")?" + rest;
    assert s[0] == '(' && s[1] == '?' && s[2] == ':' && s[3..] == ".*/" + after;
    assert after[0] == ')' && after[1] == '?' && after[2..] == rest;
    GroupBodyReadsBack(after);
  }

  lemma GroupBodyReadsBack(after: string)
    requires after != "" && after[0] == ')'
    ensures ReadItems(".*/" + after) == Reading([Many(AnyBut('\n')), One(Only('/'))], after)
  {
    var s, t := ".*/" + after, "/" + after;
    assert s[0] == '.' && s[1] == '*' && s[2..] == t && t[0] == '/' && t[1] == ')' && t[1..] == after;
    Differ("(?:", s, 0);
    Differ("(?:", t, 0);
    assert ReadItems(after) == Reading([], after);
    assert ReadItems(t) == Reading([One(Only('/'))], after);
  }

  lemma Differ(p: string, s: string, k: nat)
    requires k < |p| && k < |s| && p[k] != s[k]
    ensures !(p <= s)
  {
  }

  lemma NeverStar(ts: seq<Rx>)
    ensures (PrintedAll(ts) + "$")[0] != '*'
  {
    if ts != [] {
      assert PrintedAll(ts)[0] == Printed(ts[0])[0];
    }
  }

  // ---------------------------------------------------------------- what the regex matches

  /** `pattern.match(s)`: anchored at the start, `.` stops at a newline, `$` allows one at the end. */
  predicate Matches(ts: seq<Rx>, s: string)
    decreases |ts|
  {
    if ts == [] then s == "" || s == "\n"
    else
      match ts[0]
      case Lit(c) => s != "" && s[0] == c && Matches(ts[1..], s[1..])
      case NotSlash => s != "" && s[0] != '/' && Matches(ts[1..], s[1..])
      case Star => exists k :: 0 <= k <= |s| && '/' !in s[..k] && Matches(ts[1..], s[k..])
      case AnyDirs =>
        Matches(ts[1..], s)
        || exists k :: 0 <= k < |s| && s[k] == '/' && '\n' !in s[..k] && Matches(ts[1..], s[k + 1..])
  }

  /** The reader's account of the text and the tokens' own account agree on every path. */
  lemma {:induction false} MeansTheSame(ts: seq<Rx>, s: string)
    ensures Accepts(MeaningAll(ts), s) <==> Matches(ts, s)
    decreases |ts|
  {
    if ts != [] {
      var items, tail := MeaningAll(ts), MeaningAll(ts[1..]);
      assert items[0] == Meaning(ts[0]) && items[1..] == tail;
      match ts[0]
      case Lit(c) => if s != "" { MeansTheSame(ts[1..], s[1..]); }
      case NotSlash => if s != "" { MeansTheSame(ts[1..], s[1..]); }
      case Star => StarMeansTheSame(ts, s);
      case AnyDirs => GroupMeansTheSame(ts, s);
    }
  }

  lemma {:induction false} StarMeansTheSame(ts: seq<Rx>, s: string)
    requires ts != [] && ts[0] == Star
    ensures Accepts(MeaningAll(ts), s) <==> Matches(ts, s)
    decreases |ts|, 0
  {
    var items, tail := MeaningAll(ts), MeaningAll(ts[1..]);
    assert items[0] == Many(AnyBut('/')) && items[1..] == tail;
    forall k | 0 <= k <= |s|
      ensures Accepts(tail, s[k..]) <==> Matches(ts[1..], s[k..])
      ensures (forall x :: x in s[..k] ==> Has(AnyBut('/'), x)) <==> '/' !in s[..k]
    {
      MeansTheSame(ts[1..], s[k..]);
    }
  }

  lemma {:induction false} GroupMeansTheSame(ts: seq<Rx>, s: string)
    requires ts != [] && ts[0] == AnyDirs
    ensures Accepts(MeaningAll(ts), s) <==> Matches(ts, s)
    decreases |ts|, 0
  {
    var tail := MeaningAll(ts[1..]);
    assert MeaningAll(ts) == [Meaning(AnyDirs)] + tail;
    MeansTheSame(ts[1..], s);
    forall k | 0 <= k < |s|
      ensures SkipsTo(tail, s, k) <==> s[k] == '/' && '\n' !in s[..k] && Matches(ts[1..], s[k + 1..])
    {
      MeansTheSame(ts[1..], s[k + 1..]);
    }
    GroupAccepts(tail, s);
  }

  /** The group may take the directories up to the slash at `k`. */
  predicate SkipsTo(tail: seq<Item>, s: string, k: nat) {
    k < |s| && s[k] == '/' && '\n' !in s[..k] && Accepts(tail, s[k + 1..])
  }

  lemma GroupAccepts(tail: seq<Item>, s: string)
    ensures Accepts([Meaning(AnyDirs)] + tail, s) <==> Accepts(tail, s) || exists k :: SkipsTo(tail, s, k)
  {
    var items := [Meaning(AnyDirs)] + tail;
    var slash := [One(Only('/'))] + tail;
    var group := [Many(AnyBut('\n'))] + slash;
    assert items[1..] == tail && group[1..] == slash;
    assert [Many(AnyBut('\n')), One(Only('/'))] + tail == group;
    if Accepts(group, s) {
      var k :| 0 <= k <= |s| && (forall x :: x in s[..k] ==> Has(AnyBut('\n'), x)) && Accepts(slash, s[k..]);
      SlashAccepts(tail, s, k);
      assert SkipsTo(tail, s, k);
    }
    if k :| SkipsTo(tail, s, k) {
      SlashAccepts(tail, s, k);
      assert Accepts(group, s);
    }
  }

  lemma SlashAccepts(tail: seq<Item>, s: string, k: nat)
    requires k <= |s|
    ensures Accepts([One(Only('/'))] + tail, s[k..]) <==> k < |s| && s[k] == '/' && Accepts(tail, s[k + 1..])
  {
    assert ([One(Only('/'))] + tail)[1..] == tail;
    if k < |s| {
      assert s[k..][1..] == s[k + 1..];
    }
  }

  // ---------------------------------------------------------------- what a glob means

  function First(s: string): (r: string)
    ensures '/' !in r && r <= s
  {
    if s == "" || s[0] == '/' then "" else [s[0]] + First(s[1..])
  }

  function Rest(s: string): string
    requires '/' in s
  {
    s[|First(s)| + 1..]
  }

  /** The components of a path or a pattern. */
  function Components(s: string): (r: seq<string>)
    ensures r != [] && r[0] == First(s)
    decreases |s|
  {
    if '/' in s then FirstStopsAtSlash(s); [First(s)] + Components(Rest(s)) else FirstIsAll(s); [s]
  }

  lemma {:induction false} FirstStopsAtSlash(s: string)
    requires '/' in s
    ensures |First(s)| < |s| && s[|First(s)|] == '/'
  {
    if s[0] != '/' {
      assert '/' in s[1..];
      FirstStopsAtSlash(s[1..]);
    }
  }

  lemma {:induction false} FirstIsAll(s: string)
    requires '/' !in s
    ensures First(s) == s
  {
    if s != "" {
      FirstIsAll(s[1..]);
    }
  }

  /** One component: `*` is any run of characters, `?` any one. */
  predicate Wild(p: string, c: string)
    decreases |p|
  {
    if p == "" then c == ""
    else if p[0] == '*' then exists k :: 0 <= k <= |c| && Wild(p[1..], c[k..])
    else if p[0] == '?' then c != "" && Wild(p[1..], c[1..])
    else c != "" && c[0] == p[0] && Wild(p[1..], c[1..])
  }

  /** Component by component; a component that is `**` stands for any number of whole ones. */
  predicate GlobMatch(ps: seq<string>, cs: seq<string>)
    decreases |ps|
  {
    if ps == [] then cs == []
    else if ps[0] == "**" then exists k :: 0 <= k <= |cs| && GlobMatch(ps[1..], cs[k..])
    else cs != [] && Wild(ps[0], cs[0]) && GlobMatch(ps[1..], cs[1..])
  }

  predicate EndsInDoubleStar(c: string) {
    |c| >= 2 && c[|c| - 2] == '*' && c[|c| - 1] == '*'
  }

  /** A longer component whose end, with the slash after it, the index loop takes for a whole `**`. */
  predicate Loose(c: string) {
    c != "**" && EndsInDoubleStar(c)
  }

  /** No such component before a slash. */
  predicate NoneLoose(ps: seq<string>) {
    forall i :: 0 <= i < |ps| - 1 ==> !Loose(ps[i])
  }

  /** The patterns the compiler gets right: none loose, and the last component, which no slash follows, not `**`. */
  predicate Compilable(ps: seq<string>) {
    ps != [] && ps[|ps| - 1] != "**" && NoneLoose(ps)
  }

  // ---------------------------------------------------------------- the compiler is right

  lemma {:induction false} FirstSuffix(s: string, k: nat)
    requires k <= |First(s)|
    ensures First(s[k..]) == First(s)[k..]
    ensures '/' in s[k..] <==> '/' in s
    ensures '/' in s ==> Rest(s[k..]) == Rest(s)
    decreases k
  {
    if k > 0 {
      assert s[0] != '/' && s[k..] == s[1..][k - 1..];
      assert '/' in s[1..] <==> '/' in s;
      FirstSuffix(s[1..], k - 1);
    } else {
      assert s[0..] == s;
    }
  }

  lemma {:induction false} NoSlashBefore(s: string, k: nat)
    requires k <= |s|
    ensures '/' !in s[..k] <==> k <= |First(s)|
  {
    if k > 0 {
      if s[0] != '/' {
        NoSlashBefore(s[1..], k - 1);
        assert s[..k] == [s[0]] + s[1..][..k - 1];
      } else {
        assert s[..k][0] == '/';
      }
    }
  }

  /** What is left to match once a path's first component is used up. */
  ghost predicate RestMatches(p: string, s: string) {
    if '/' in p then '/' in s && Matches(Tokens(Rest(p)), Rest(s)) else '/' !in s
  }

  /** A component that is the last, or does not end in `**`, matches exactly as a wildcard, and never
      reaches across a slash. */
  lemma {:induction false} ComponentStep(p: string, s: string)
    requires ('/' in p ==> !EndsInDoubleStar(First(p))) && '\n' !in s
    ensures Matches(Tokens(p), s) <==> Wild(First(p), First(s)) && RestMatches(p, s)
    decreases |p|
  {
    if p == "" {
      FirstEmpty(s);
    } else if p[0] == '/' {
      FirstEmpty(s);
      assert Tokens(p) == [Lit('/')] + Tokens(p[1..]);
      assert Tokens(p)[1..] == Tokens(p[1..]);
      assert Rest(p) == p[1..];
      if s != "" && s[0] == '/' {
        assert Rest(s) == s[1..];
      }
    } else {
      TailComponent(p);
      if p[0] == '*' {
        StarStep(p, s);
      } else {
        CharStep(p, s);
      }
    }
  }

  lemma FirstEmpty(s: string)
    ensures First(s) == "" <==> s == "" || s[0] == '/'
  {
  }

  lemma TailComponent(p: string)
    requires p != "" && p[0] != '/' && ('/' in p ==> !EndsInDoubleStar(First(p)))
    ensures First(p) == [p[0]] + First(p[1..])
    ensures '/' in p <==> '/' in p[1..]
    ensures '/' in p ==> Rest(p) == Rest(p[1..]) && !EndsInDoubleStar(First(p[1..]))
    ensures !("**/" <= p)
  {
    FirstSuffix(p, 1);
    DoubleStarFirst(p);
  }

  lemma DoubleStarFirst(p: string)
    ensures "**/" <= p ==> '/' in p && First(p) == "**" && Rest(p) == p[3..]
  {
    if "**/" <= p {
      assert p[0] == '*' && p[1] == '*' && p[2] == '/';
      FirstEmpty(p[2..]);
      assert p[1..][1..] == p[2..];
      assert First(p[1..]) == ['*'] + First(p[2..]) && First(p) == ['*'] + First(p[1..]);
    }
  }

  lemma {:induction false} CharStep(p: string, s: string)
    requires p != "" && p[0] != '/' && p[0] != '*' && ('/' in p ==> !EndsInDoubleStar(First(p))) && '\n' !in s
    ensures Matches(Tokens(p), s) <==> Wild(First(p), First(s)) && RestMatches(p, s)
    decreases |p|, 0
  {
    TailComponent(p);
    assert Tokens(p)[1..] == Tokens(p[1..]);
    FirstEmpty(s);
    if s != "" && s[0] != '/' {
      FirstSuffix(s, 1);
      assert First(s)[0] == s[0];
      ComponentStep(p[1..], s[1..]);
    }
  }

  lemma {:induction false} StarStep(p: string, s: string)
    requires p != "" && p[0] == '*' && ('/' in p ==> !EndsInDoubleStar(First(p))) && '\n' !in s
    ensures Matches(Tokens(p), s) <==> Wild(First(p), First(s)) && RestMatches(p, s)
    decreases |p|, 0
  {
    TailComponent(p);
    assert Tokens(p)[0] == Star && Tokens(p)[1..] == Tokens(p[1..]);
    var c := First(s);
    forall k | 0 <= k <= |s|
      ensures '/' !in s[..k] <==> k <= |c|
      ensures k <= |c| ==> (Matches(Tokens(p[1..]), s[k..]) <==> Wild(First(p[1..]), c[k..]) && RestMatches(p, s))
    {
      NoSlashBefore(s, k);
      if k <= |c| {
        FirstSuffix(s, k);
        ComponentStep(p[1..], s[k..]);
      }
    }
    assert First(p)[1..] == First(p[1..]);
  }

  /** The path after its first `n` components, slashes included. */
  function Suffix(s: string, n: nat): string
    requires n < |Components(s)|
    decreases n
  {
    if n == 0 then s else Suffix(Rest(s), n - 1)
  }

  lemma {:induction false} SuffixComponents(s: string, n: nat)
    requires n < |Components(s)|
    ensures Components(Suffix(s, n)) == Components(s)[n..]
    ensures '\n' !in s ==> '\n' !in Suffix(s, n)
    decreases n
  {
    if n > 0 {
      RestInside(s);
      FirstAndRest(s);
      SuffixComponents(Rest(s), n - 1);
      SuffixNext(s, n - 1);
      DropOne(First(s), Components(Rest(s)), n);
    }
  }

  lemma NoSlashInFirst(s: string)
    ensures forall j :: 0 <= j < |First(s)| ==> s[j] != '/'
  {
    assert forall j :: 0 <= j < |First(s)| ==> s[j] == First(s)[j] && First(s)[j] in First(s);
  }

  lemma SuffixNext(s: string, m: nat)
    requires '/' in s && m < |Components(Rest(s))|
    ensures m + 1 < |Components(s)| && Suffix(s, m + 1) == Suffix(Rest(s), m)
  {
  }

  lemma RestFrom(s: string, j: nat)
    requires '/' in s && |First(s)| + j < |s|
    ensures |Rest(s)| == |s| - |First(s)| - 1 && Rest(s)[j..] == s[|First(s)| + j + 1..]
    ensures j < |Rest(s)| ==> Rest(s)[j] == s[|First(s)| + j + 1]
  {
  }

  /** Cutting off `n` components is cutting after the slash at `k`. */
  predicate CutsAt(s: string, n: nat, k: nat) {
    1 <= n < |Components(s)| && k < |s| && s[k] == '/' && Suffix(s, n) == s[k + 1..]
  }

  lemma CutsAtFirst(s: string)
    requires '/' in s
    ensures CutsAt(s, 1, |First(s)|)
  {
    FirstStopsAtSlash(s);
    SuffixNext(s, 0);
    RestFrom(s, 0);
  }

  lemma CutsLater(s: string, n: nat, j: nat)
    requires '/' in s && CutsAt(Rest(s), n, j)
    ensures CutsAt(s, n + 1, |First(s)| + 1 + j)
  {
    FirstStopsAtSlash(s);
    SuffixNext(s, n);
    RestFrom(s, j);
    RestFrom(s, j + 1);
  }

  /** Cutting after some slash is cutting before some later component. */
  lemma {:induction false} AfterASlash(s: string, k: nat) returns (n: nat)
    requires k < |s| && s[k] == '/'
    ensures CutsAt(s, n, k)
    decreases |s|
  {
    FirstStopsAtSlash(s);
    NoSlashInFirst(s);
    var f := |First(s)|;
    if k == f {
      n := 1;
      CutsAtFirst(s);
    } else {
      RestFrom(s, k - f - 1);
      n := AfterASlash(Rest(s), k - f - 1);
      CutsLater(s, n, k - f - 1);
      n := n + 1;
    }
  }

  lemma {:induction false} BeforeAComponent(s: string, n: nat) returns (k: nat)
    requires 1 <= n < |Components(s)|
    ensures CutsAt(s, n, k)
    decreases n
  {
    if n == 1 {
      k := |First(s)|;
      CutsAtFirst(s);
    } else {
      var j := BeforeAComponent(Rest(s), n - 1);
      CutsLater(s, n - 1, j);
      k := |First(s)| + 1 + j;
    }
  }

  // The optional group of a double star skips some number of whole components,
  lemma AnyDirsSkips(ts: seq<Rx>, s: string) returns (n: nat)
    requires '\n' !in s && Matches([AnyDirs] + ts, s)
    ensures n < |Components(s)| && Matches(ts, Suffix(s, n))
  {
    var all := [AnyDirs] + ts;
    assert all[0] == AnyDirs && all[1..] == ts;
    if Matches(ts, s) {
      n := 0;
    } else {
      var k :| 0 <= k < |s| && s[k] == '/' && '\n' !in s[..k] && Matches(all[1..], s[k + 1..]);
      n := AfterASlash(s, k);
    }
  }

  // and can skip any number of them.
  lemma AnyDirsMaySkip(ts: seq<Rx>, s: string, n: nat)
    requires '\n' !in s && n < |Components(s)| && Matches(ts, Suffix(s, n))
    ensures Matches([AnyDirs] + ts, s)
  {
    var all := [AnyDirs] + ts;
    assert all[0] == AnyDirs && all[1..] == ts;
    if n > 0 {
      var k := BeforeAComponent(s, n);
      assert '\n' !in s[..k] && Matches(all[1..], s[k + 1..]);
    }
  }

  lemma {:induction false} NoComponentsLeft(ps: seq<string>)
    requires ps != [] && ps[|ps| - 1] != "**"
    ensures !GlobMatch(ps, [])
  {
    if ps[0] == "**" {
      assert |ps| > 1;
      assert ps[1..][|ps| - 2] == ps[|ps| - 1];
      NoComponentsLeft(ps[1..]);
      var none: seq<string> := [];
      assert forall k :: 0 <= k <= |none| ==> none[k..] == [];
    }
  }

  /** The theorem: for every pattern in which each `**` before a slash is a whole component or does not end
      one, and whose last component is not `**`, and for every newline-free path, the compiled expression
      matches exactly when the components do. */
  lemma {:induction false} CompiledGlobIsRight(p: string, s: string)
    requires Compilable(Components(p)) && '\n' !in s
    ensures Matches(Tokens(p), s) <==> GlobMatch(Components(p), Components(s))
    decreases |p|
  {
    if '/' in p {
      TailOf(p);
      NoComponentsLeft(Components(Rest(p)));
      if First(p) == "**" {
        forall n | 0 <= n < |Components(s)| ensures RightAt(Rest(p), Suffix(s, n)) {
          SuffixComponents(s, n);
          CompiledGlobIsRight(Rest(p), Suffix(s, n));
        }
        DoubleStarStep(p, s);
      } else {
        if '/' in s {
          TailOf(s);
          CompiledGlobIsRight(Rest(p), Rest(s));
        }
        PlainStep(p, s);
      }
    } else {
      ComponentStep(p, s);
      FirstIsAll(p);
      assert Components(p)[1..] == [];
    }
  }

  /** The expression and the components agree on one path. */
  predicate RightAt(p: string, s: string) {
    Matches(Tokens(p), s) <==> GlobMatch(Components(p), Components(s))
  }

  /** What a pattern's or a path's tail inherits. */
  lemma TailOf(p: string)
    requires '/' in p
    ensures |Rest(p)| < |p| && Components(p) == [First(p)] + Components(Rest(p))
    ensures Components(p)[1..] == Components(Rest(p))
    ensures Components(Rest(p))[|Components(Rest(p))| - 1] == Components(p)[|Components(p)| - 1]
    ensures '\n' !in p ==> '\n' !in Rest(p)
    ensures NoneLoose(Components(p)) ==> !Loose(First(p)) && NoneLoose(Components(Rest(p)))
  {
    RestInside(p);
    FirstAndRest(p);
    OneMoreComponent(First(p), Components(Rest(p)));
  }

  lemma DropOne(first: string, rest: seq<string>, n: nat)
    requires 0 < n <= |rest| + 1
    ensures ([first] + rest)[n..] == rest[n - 1..]
  {
  }

  lemma FirstAndRest(p: string)
    requires '/' in p
    ensures Components(p) == [First(p)] + Components(Rest(p))
  {
    FirstStopsAtSlash(p);
  }

  lemma RestInside(p: string)
    requires '/' in p
    ensures |Rest(p)| < |p| && ('\n' !in p ==> '\n' !in Rest(p))
  {
    FirstStopsAtSlash(p);
    assert forall c :: c in Rest(p) ==> c in p;
  }

  lemma OneMoreComponent(first: string, rest: seq<string>)
    requires rest != []
    ensures var ps := [first] + rest;
      && ps[1..] == rest && rest[|rest| - 1] == ps[|ps| - 1]
      && (NoneLoose(ps) ==> !Loose(first) && NoneLoose(rest))
  {
    var ps := [first] + rest;
    assert forall i :: 0 <= i < |rest| ==> rest[i] == ps[i + 1];
    assert ps[0] == first;
  }

  /** A first component that is neither `**` nor loose, given that the tails agree. */
  lemma PlainStep(p: string, s: string)
    requires '/' in p && !EndsInDoubleStar(First(p)) && '\n' !in s && !GlobMatch(Components(Rest(p)), [])
    requires '/' in s ==> RightAt(Rest(p), Rest(s))
    ensures RightAt(p, s)
  {
    var ps, cs := Components(p), Components(s);
    assert First(p) != "**" by { assert "**"[0] == '*' && "**"[1] == '*'; }
    TailOf(p);
    ComponentStep(p, s);
    if '/' in s {
      TailOf(s);
    } else {
      assert cs[1..] == [];
    }
  }

  /** A first component that is `**`, given that the tails agree wherever the double star may end. */
  lemma DoubleStarStep(p: string, s: string)
    requires '/' in p && First(p) == "**" && '\n' !in s && !GlobMatch(Components(Rest(p)), [])
    requires forall n :: 0 <= n < |Components(s)| ==> RightAt(Rest(p), Suffix(s, n))
    ensures RightAt(p, s)
  {
    var ps, cs := Components(p), Components(s);
    TailOf(p);
    DoubleStarTokens(p);
    if Matches(Tokens(p), s) {
      var n := AnyDirsSkips(Tokens(Rest(p)), s);
      SuffixComponents(s, n);
      assert RightAt(Rest(p), Suffix(s, n));
      GlobMaySkip(ps, cs, n);
    }
    if GlobMatch(ps, cs) {
      var n := GlobSkips(ps, cs);
      SuffixComponents(s, n);
      assert RightAt(Rest(p), Suffix(s, n));
      AnyDirsMaySkip(Tokens(Rest(p)), s, n);
    }
  }

  lemma DoubleStarTokens(p: string)
    requires '/' in p && First(p) == "**"
    ensures "**/" <= p && Tokens(p) == [AnyDirs] + Tokens(Rest(p))
  {
    FirstStopsAtSlash(p);
    assert p[0] == First(p)[0] && p[1] == First(p)[1] && p[2] == '/' && Rest(p) == p[3..];
  }

  lemma GlobMaySkip(ps: seq<string>, cs: seq<string>, n: nat)
    requires ps != [] && ps[0] == "**" && n <= |cs| && GlobMatch(ps[1..], cs[n..])
    ensures GlobMatch(ps, cs)
  {
  }

  lemma GlobSkips(ps: seq<string>, cs: seq<string>) returns (n: nat)
    requires |ps| > 1 && ps[0] == "**" && !GlobMatch(ps[1..], []) && GlobMatch(ps, cs)
    ensures n < |cs| && GlobMatch(ps[1..], cs[n..])
  {
    n :| 0 <= n <= |cs| && GlobMatch(ps[1..], cs[n..]);
    assert cs[|cs|..] == [];
  }
}
