/**
 The text side of the lock-file checker: folding a line with backslashes does not change its
 words, and a printed lock parses back to what was printed.
 */
module LockSyncText {
  import opened Options
  import opened LockSync

  // ---------------------------------------------------------------- words

  function WordRun(s: string): (r: string)
    ensures r <= s && (s != "" && !Space(s[0]) ==> r != "")
  {
    if s == "" || Space(s[0]) then "" else [s[0]] + WordRun(s[1..])
  }

  function Words(s: string): seq<string>
    decreases |s|
  {
    if s == "" then []
    else if Space(s[0]) then Words(s[1..])
    else [WordRun(s)] + Words(s[|WordRun(s)|..])
  }

  lemma {:induction false} WordRunBefore(a: string, sp: char, b: string)
    requires Space(sp)
    ensures WordRun(a + [sp] + b) == WordRun(a)
  {
    if a == "" {
      assert (a + [sp] + b)[0] == sp;
    } else if !Space(a[0]) {
      assert (a + [sp] + b)[1..] == a[1..] + [sp] + b;
      WordRunBefore(a[1..], sp, b);
    }
  }

  /** White space between two texts keeps their words apart. */
  lemma {:induction false} WordsAcross(a: string, sp: char, b: string)
    requires Space(sp)
    ensures Words(a + [sp] + b) == Words(a) + Words(b)
    decreases |a|
  {
    var s := a + [sp] + b;
    if a == "" {
      assert s == [sp] + b && s[1..] == b;
    } else if Space(a[0]) {
      assert s[1..] == a[1..] + [sp] + b;
      WordsAcross(a[1..], sp, b);
    } else {
      WordRunBefore(a, sp, b);
      var k := |WordRun(a)|;
      assert s[k..] == a[k..] + [sp] + b;
      WordsAcross(a[k..], sp, b);
    }
  }

  lemma {:induction false} WordsRStrip(s: string)
    ensures Words(RStrip(s)) == Words(s)
    decreases |s|
  {
    if s != "" && Space(s[|s| - 1]) {
      var init := s[..|s| - 1];
      WordsRStrip(init);
      WordsAcross(init, s[|s| - 1], "");
      assert init + [s[|s| - 1]] + "" == s;
      assert Words(init) + [] == Words(init);
    }
  }

  lemma {:induction false} WordsLStrip(s: string)
    ensures Words(LStrip(s)) == Words(s)
  {
    if s != "" && Space(s[0]) {
      WordsLStrip(s[1..]);
    }
  }

  lemma WordsStrip(s: string)
    ensures Words(Strip(s)) == Words(s)
  {
    WordsLStrip(s);
    WordsRStrip(LStrip(s));
  }

  // ---------------------------------------------------------------- folding

  predicate Continues(raw: string) {
    EndsWith(RStrip(raw), '\\')
  }

  /** The physical lines of one logical line: all but the last end in a backslash. */
  predicate OneGroup(g: seq<string>) {
    g != [] && !Continues(g[|g| - 1]) && forall i :: 0 <= i < |g| - 1 ==> Continues(g[i])
  }

  function Body(raw: string): string {
    if Continues(raw) then RStrip(raw)[..|RStrip(raw)| - 1] else RStrip(raw)
  }

  function GroupWords(g: seq<string>): seq<string> {
    if g == [] then [] else Words(Body(g[0])) + GroupWords(g[1..])
  }

  /** The logical line a group joins to. */
  function JoinedLine(g: seq<string>, pending: string): string {
    if g == [] then Strip(pending)
    else if Continues(g[0]) then JoinedLine(g[1..], RStrip(pending + Body(g[0])) + " ")
    else Strip(pending + Body(g[0]))
  }

  /** A continuation read so far never ends in a backslash of its own. */
  predicate IsPending(pending: string) {
    pending == "" || EndsWith(pending, ' ')
  }

  lemma SameEnd(pending: string, raw: string)
    requires IsPending(pending)
    ensures EndsWith(pending + RStrip(raw), '\\') <==> Continues(raw)
    ensures Continues(raw) ==> (pending + RStrip(raw))[..|pending + RStrip(raw)| - 1] == pending + Body(raw)
    ensures !Continues(raw) ==> pending + RStrip(raw) == pending + Body(raw)
  {
    var r := RStrip(raw);
    if r == "" {
      assert pending + r == pending;
    } else {
      assert (pending + r)[|pending + r| - 1] == r[|r| - 1];
    }
  }

  lemma WordsOfJoin(pending: string, raw: string)
    requires IsPending(pending)
    ensures Words(pending + Body(raw)) == Words(pending) + Words(Body(raw))
  {
    if pending == "" {
      assert pending + Body(raw) == Body(raw) && [] + Words(Body(raw)) == Words(Body(raw));
    } else {
      var init := pending[..|pending| - 1];
      assert pending == init + [' '];
      WordsAcross(init, ' ', Body(raw));
      WordsAcross(init, ' ', "");
      assert init + [' '] + "" == pending && Words(init) + [] == Words(init);
    }
  }

  lemma WordsCarried(pending: string, raw: string)
    requires IsPending(pending)
    ensures Words(RStrip(pending + Body(raw)) + " ") == Words(pending) + Words(Body(raw))
    ensures IsPending(RStrip(pending + Body(raw)) + " ")
  {
    WordsOfJoin(pending, raw);
    var body := RStrip(pending + Body(raw));
    WordsRStrip(pending + Body(raw));
    WordsAcross(body, ' ', "");
    assert body + [' '] + "" == body + " " && Words(body) + [] == Words(body);
  }

  lemma Associate(a: seq<string>, b: seq<string>, c: seq<string>)
    ensures a + b + c == a + (b + c) && (c == [] ==> b + c == b)
  {
  }

  /** Joining loses no word and glues none together. */
  lemma {:induction false} JoinedWords(g: seq<string>, pending: string)
    requires OneGroup(g) && IsPending(pending)
    ensures Words(JoinedLine(g, pending)) == Words(pending) + GroupWords(g)
    decreases |g|
  {
    if Continues(g[0]) {
      WordsCarried(pending, g[0]);
      JoinedWords(g[1..], RStrip(pending + Body(g[0])) + " ");
      Associate(Words(pending), Words(Body(g[0])), GroupWords(g[1..]));
    } else {
      WordsOfJoin(pending, g[0]);
      WordsStrip(pending + Body(g[0]));
      assert g[1..] == [];
      Associate(Words(pending), Words(Body(g[0])), []);
    }
  }

  /** One turn of the joiner, in terms of bodies. */
  lemma ReadBody(raw: string, pending: string)
    requires IsPending(pending)
    ensures Read(raw, pending) ==
      if Continues(raw) then Carried(RStrip(pending + Body(raw)) + " ")
      else if Skipped(Strip(pending + Body(raw))) then Dropped
      else Finished(Strip(pending + Body(raw)))
  {
    SameEnd(pending, raw);
  }

  lemma LogicalNext(raw: string, rest: seq<string>, pending: string)
    ensures var turn, lines := Read(raw, pending), Logical([raw] + rest, pending);
      && (turn.Carried? ==> lines == Logical(rest, turn.pending))
      && (turn.Dropped? ==> lines == Logical(rest, ""))
      && (turn.Finished? ==> lines == [turn.line] + Logical(rest, ""))
  {
    assert ([raw] + rest)[1..] == rest;
  }

  /** A group of physical lines comes out as its one logical line, or as nothing if that is a comment. */
  lemma {:induction false} GroupIsOneLine(g: seq<string>, rest: seq<string>, pending: string)
    requires OneGroup(g) && IsPending(pending)
    ensures Logical(g + rest, pending) ==
      (if Skipped(JoinedLine(g, pending)) then [] else [JoinedLine(g, pending)]) + Logical(rest, "")
    decreases |g|
  {
    assert g + rest == [g[0]] + (g[1..] + rest);
    LogicalNext(g[0], g[1..] + rest, pending);
    ReadBody(g[0], pending);
    if Continues(g[0]) {
      WordsCarried(pending, g[0]);
      GroupIsOneLine(g[1..], rest, RStrip(pending + Body(g[0])) + " ");
    } else {
      assert |g| == 1 && g[1..] + rest == rest;
    }
  }

  /** However a requirement is folded over physical lines, the logical line has the same words. */
  lemma FoldingDoesNotMatter(g: seq<string>, h: seq<string>, rest: seq<string>)
    requires OneGroup(g) && OneGroup(h) && GroupWords(g) == GroupWords(h)
    ensures Words(JoinedLine(g, "")) == Words(JoinedLine(h, "")) == GroupWords(g)
    ensures Logical(g + rest, "") == (if Skipped(JoinedLine(g, "")) then [] else [JoinedLine(g, "")]) + Logical(rest, "")
    ensures Logical(h + rest, "") == (if Skipped(JoinedLine(h, "")) then [] else [JoinedLine(h, "")]) + Logical(rest, "")
    ensures Skipped(JoinedLine(g, "")) <==> Skipped(JoinedLine(h, ""))
  {
    JoinedWords(g, "");
    JoinedWords(h, "");
    assert [] + GroupWords(g) == GroupWords(g);
    GroupIsOneLine(g, rest, "");
    GroupIsOneLine(h, rest, "");
    JoinedIsStripped(g, "");
    JoinedIsStripped(h, "");
    SkippedByFirstWord(JoinedLine(g, ""));
    SkippedByFirstWord(JoinedLine(h, ""));
  }

  lemma {:induction false} JoinedIsStripped(g: seq<string>, pending: string)
    ensures exists s :: JoinedLine(g, pending) == Strip(s)
    decreases |g|
  {
    if g == [] {
      assert JoinedLine(g, pending) == Strip(pending);
    } else if Continues(g[0]) {
      JoinedIsStripped(g[1..], RStrip(pending + Body(g[0])) + " ");
    } else {
      assert JoinedLine(g, pending) == Strip(pending + Body(g[0]));
    }
  }

  lemma StrippedStart(s: string)
    ensures Strip(s) != "" ==> !Space(Strip(s)[0])
  {
    LStripStart(s);
    RStripStart(LStrip(s));
  }

  lemma {:induction false} LStripStart(s: string)
    ensures LStrip(s) != "" ==> !Space(LStrip(s)[0])
  {
    if s != "" && Space(s[0]) {
      LStripStart(s[1..]);
    }
  }

  lemma {:induction false} RStripStart(s: string)
    ensures RStrip(s) != "" ==> s != "" && RStrip(s)[0] == s[0]
    decreases |s|
  {
    if s != "" && Space(s[|s| - 1]) {
      RStripStart(s[..|s| - 1]);
    }
  }

  /** Whether a stripped line is skipped shows in its words. */
  lemma SkippedByFirstWord(line: string)
    requires exists s :: line == Strip(s)
    ensures Words(line) != [] ==> Words(line)[0] != ""
    ensures Skipped(line) <==> Words(line) == [] || Words(line)[0][0] == '#'
  {
    var s :| line == Strip(s);
    StrippedStart(s);
    if line != "" {
      assert WordRun(line)[0] == line[0];
    }
  }

  // ---------------------------------------------------------------- a printed lock

  datatype Package = Package(name: string, version: string, hashes: seq<string>)

  predicate Printable(p: Package) {
    && p.name != "" && (forall i :: 0 <= i < |p.name| ==> NameChar(p.name[i]))
    && p.version != "" && (forall i :: 0 <= i < |p.version| ==> VersionChar(p.version[i]))
  }

  function HeaderLine(p: Package): string {
    p.name + "==" + p.version + (if p.hashes == [] then "" else " \\")
  }

  function HashLine(hash: string): string {
    "    --hash=sha256:" + hash + " \\"
  }

  function HashLines(hashes: seq<string>): seq<string> {
    seq(|hashes|, i requires 0 <= i < |hashes| => HashLine(hashes[i]))
  }

  function PrintedEntry(p: Package): Entry {
    Entry(HeaderLine(p), HashLines(p.hashes))
  }

  function PrintedEntries(ps: seq<Package>): seq<Entry> {
    seq(|ps|, i requires 0 <= i < |ps| => PrintedEntry(ps[i]))
  }

  lemma {:induction false} NameRunStops(name: string, rest: string)
    requires forall i :: 0 <= i < |name| ==> NameChar(name[i])
    requires rest == "" || !NameChar(rest[0])
    ensures NameRun(name + rest) == name
  {
    if name == "" {
      assert name + rest == rest;
    } else {
      assert (name + rest)[1..] == name[1..] + rest;
      NameRunStops(name[1..], rest);
    }
  }

  lemma {:induction false} VersionRunStops(version: string, rest: string)
    requires forall i :: 0 <= i < |version| ==> VersionChar(version[i])
    requires rest == "" || !VersionChar(rest[0])
    ensures VersionRun(version + rest) == version
  {
    if version == "" {
      assert version + rest == rest;
    } else {
      assert (version + rest)[1..] == version[1..] + rest;
      VersionRunStops(version[1..], rest);
    }
  }

  lemma HeaderReadsBack(p: Package)
    requires Printable(p)
    ensures Pin(HeaderLine(p)) == Some((p.name, p.version))
  {
    var tail := if p.hashes == [] then "" else " \\";
    var line := HeaderLine(p);
    var afterName := "==" + p.version + tail;
    assert line == p.name + afterName;
    assert !Space(line[0]) by { assert NameChar(p.name[0]) && line[0] == p.name[0]; }
    assert LStrip(line) == line;
    NameRunStops(p.name, afterName);
    assert line[|p.name|..] == afterName && LStrip(afterName) == afterName;
    assert afterName[2..] == p.version + tail;
    assert !Space((p.version + tail)[0]) by { assert VersionChar(p.version[0]); }
    assert LStrip(p.version + tail) == p.version + tail;
    VersionRunStops(p.version, tail);
  }

  predicate AllSpace(s: string) {
    forall i :: 0 <= i < |s| ==> Space(s[i])
  }

  lemma {:induction false} SpaceStrips(a: string, s: string)
    requires AllSpace(a) && s != "" && !Space(s[0])
    ensures LStrip(a + s) == s
  {
    if a == "" {
      assert a + s == s;
    } else {
      assert (a + s)[1..] == a[1..] + s;
      SpaceStrips(a[1..], s);
    }
  }

  predicate NameLetter(c: char) {
    || 'A' <= c <= 'Z' || 'a' <= c <= 'z' || '0' <= c <= '9'
    || c == '.' || c == '_' || c == '-'
  }

  /** White space before the name and around the `==` does not matter, and the version ends at white space,
      a backslash or a comment. */
  lemma {:induction false} PinReads(a: string, name: string, b: string, d: string, version: string, rest: string)
    requires AllSpace(a) && AllSpace(b) && AllSpace(d) && name != "" && version != ""
    requires forall i :: 0 <= i < |name| ==> NameLetter(name[i])
    requires forall i :: 0 <= i < |version| ==> !Space(version[i]) && version[i] != '\\' && version[i] != '#'
    requires rest == "" || Space(rest[0]) || rest[0] == '\\' || rest[0] == '#'
    ensures Pin(a + (name + (b + ("==" + (d + (version + rest)))))) == Some((name, version))
  {
    var tail := d + (version + rest);
    var equals := "==" + tail;
    SpaceStrips(a, name + (b + equals));
    assert b != "" ==> (b + equals)[0] == b[0] && Space(b[0]);
    assert b == "" ==> (b + equals)[0] == '=';
    NameRunStops(name, b + equals);
    assert (name + (b + equals))[|name|..] == b + equals;
    SpaceStrips(b, equals);
    assert equals[2..] == tail;
    assert (version + rest)[0] == version[0];
    SpaceStrips(d, version + rest);
    VersionRunStops(version, rest);
  }

  lemma Indented(s: string)
    requires s != "" && !Space(s[0])
    ensures LStrip("    " + s) == s
  {
    assert ("    " + s)[1..] == "   " + s && ("   " + s)[1..] == "  " + s && ("  " + s)[1..] == " " + s && (" " + s)[1..] == s;
    assert LStrip(" " + s) == LStrip(s);
    assert LStrip("  " + s) == LStrip(" " + s);
    assert LStrip("   " + s) == LStrip("  " + s);
  }

  lemma HashLineIsNoHeader(hash: string)
    ensures Pin(HashLine(hash)).None? && Contains(HashLine(hash), HASH_MARK)
  {
    var rest := "=sha256:" + hash + " \\";
    var text := "--hash" + rest;
    assert HashLine(hash) == "    " + text;
    Indented(text);
    NameRunStops("--hash", rest);
    assert text[6..] == rest && rest[0] == '=' && rest[1] == 's';
    assert LStrip(rest) == rest;
    MarkInside(hash);
  }

  lemma MarkInside(hash: string)
    ensures Contains(HashLine(hash), HASH_MARK)
  {
    var rest := hash + " \\";
    assert "    --hash=sha256:" == "    " + HASH_MARK;
    assert HashLine(hash)[4..] == HASH_MARK + rest;
  }

  /** Printing a lock and parsing it again gives every package its version, and its hash flag exactly when
      it was printed with a hash. */
  lemma PrintedLockParsesBack(ps: seq<Package>, i: nat)
    requires forall j :: 0 <= j < |ps| ==> Printable(ps[j])
    requires i < |ps| && forall j :: i < j < |ps| ==> Normalize(ps[j].name) != Normalize(ps[i].name)
    ensures var lock := Parsed(Layout(PrintedEntries(ps)));
      Normalize(ps[i].name) in lock && lock[Normalize(ps[i].name)] == (ps[i].version, ps[i].hashes != [])
  {
    var es := PrintedEntries(ps);
    forall j | 0 <= j < |es|
      ensures WellLaidOut(es[j]) && NameOf(es[j]) == Normalize(ps[j].name)
      ensures RowOf(es[j]) == (ps[j].version, ps[j].hashes != [])
    {
      HeaderReadsBack(ps[j]);
      forall k | 0 <= k < |es[j].block| ensures Pin(es[j].block[k]).None? && Contains(es[j].block[k], HASH_MARK) {
        HashLineIsNoHeader(ps[j].hashes[k]);
      }
      if ps[j].hashes != [] {
        assert Contains(es[j].block[0], HASH_MARK);
      }
    }
    EachEntryKeepsItsOwnHash(es, i);
  }
}
