/**
 The concat manifest of `merge_videos` (tasks/conversion_tasks.py): one quoted path a line,
 read back under FFmpeg's quoting rules (ffmpeg-utils manual, "Quoting and escaping").
 */
module ConcatManifest {
  import opened Options

  // ---------------------------------------------------------------- what is written

  function Slashed(path: string): (r: string)
    ensures |r| == |path| && forall i :: 0 <= i < |path| ==> r[i] == if path[i] == '\\' then '/' else path[i]
  {
    if path == "" then "" else [if path[0] == '\\' then '/' else path[0]] + Slashed(path[1..])
  }

  /** Every apostrophe closes the quotes, is written escaped, and opens them again. */
  function Escaped(path: string): string {
    if path == "" then ""
    else (if path[0] == '\'' then "'\\''" else [path[0]]) + Escaped(path[1..])
  }

  /** `_concat_quote` on a path already made absolute. */
  function Quoted(path: string): string {
    "file '" + Escaped(Slashed(path)) + "'"
  }

  function Manifest(paths: seq<string>): string {
    if paths == [] then ""
    else if |paths| == 1 then Quoted(paths[0])
    else Quoted(paths[0]) + "\n" + Manifest(paths[1..])
  }

  // ---------------------------------------------------------------- what FFmpeg reads

  function Lines(s: string): (r: seq<string>)
    ensures r != []
  {
    if s == "" then [""]
    else if s[0] == '\n' then [""] + Lines(s[1..])
    else
      var rest := Lines(s[1..]);
      [[s[0]] + rest[0]] + rest[1..]
  }

  predicate Blank(c: char) {
    c == ' ' || c == '\t' || c == '\r' || c == '\n'
  }

  /** One token: outside quotes a backslash takes the next character as it is and white space ends the
      token; inside quotes everything up to the next apostrophe is literal. */
  function Unquote(s: string, quoted: bool): string {
    if s == "" then ""
    else if quoted then if s[0] == '\'' then Unquote(s[1..], false) else [s[0]] + Unquote(s[1..], true)
    else if s[0] == '\\' && |s| > 1 then [s[1]] + Unquote(s[2..], false)
    else if s[0] == '\'' then Unquote(s[1..], true)
    else if Blank(s[0]) then ""
    else [s[0]] + Unquote(s[1..], false)
  }

  /** A `file` directive, or an error. */
  function ReadLine(line: string): Option<string> {
    if "file " <= line then Some(Unquote(line[5..], false)) else None
  }

  /** The paths a manifest names, empty lines skipped; one bad line spoils the whole. */
  function ReadLines(lines: seq<string>): Option<seq<string>> {
    if lines == [] then Some([])
    else if lines[0] == "" then ReadLines(lines[1..])
    else
      match (ReadLine(lines[0]), ReadLines(lines[1..]))
      case (Some(path), Some(rest)) => Some([path] + rest)
      case _ => None
  }

  function ReadManifest(text: string): Option<seq<string>> {
    ReadLines(Lines(text))
  }

  function AllSlashed(paths: seq<string>): seq<string> {
    if paths == [] then [] else [Slashed(paths[0])] + AllSlashed(paths[1..])
  }

  // ---------------------------------------------------------------- one line

  /** Unquoting undoes the quoting, whatever and however many the apostrophes. */
  lemma {:induction false} UnquoteEscaped(path: string)
    ensures Unquote(Escaped(path) + "'", true) == path
  {
    var s := Escaped(path) + "'";
    if path == "" {
      assert s == "'" && Unquote(s[1..], false) == "";
    } else {
      UnquoteEscaped(path[1..]);
      var rest := Escaped(path[1..]) + "'";
      if path[0] == '\'' {
        assert s == "'\\''" + rest;
        ApostropheReads(rest);
      } else {
        assert s == [path[0]] + rest && s[1..] == rest;
      }
    }
  }

  /** Out of the quotes, the escaped apostrophe, and in again. */
  lemma ApostropheReads(rest: string)
    ensures Unquote("'\\''" + rest, true) == ['\''] + Unquote(rest, true)
  {
    var s, t, u := "'\\''" + rest, "\\''" + rest, "'" + rest;
    assert s[1..] == t && t[2..] == u && u[1..] == rest;
    assert Unquote(t, false) == ['\''] + Unquote(u, false);
  }

  lemma QuotedLineReads(path: string)
    ensures ReadLine(Quoted(path)) == Some(Slashed(path))
  {
    var line := Quoted(path);
    var body := Escaped(Slashed(path)) + "'";
    assert line == "file '" + body;
    assert line[5..] == "'" + body && ("'" + body)[1..] == body;
    UnquoteEscaped(Slashed(path));
  }

  // ---------------------------------------------------------------- the whole manifest

  lemma {:induction false} LinesOfJoin(a: string, b: string)
    ensures Lines(a + "\n" + b) == Lines(a) + Lines(b)
  {
    var s := a + "\n" + b;
    if a == "" {
      assert s == "\n" + b && s[1..] == b;
    } else {
      assert s[1..] == a[1..] + "\n" + b;
      LinesOfJoin(a[1..], b);
    }
  }

  lemma {:induction false} OneLine(s: string)
    requires '\n' !in s
    ensures Lines(s) == [s]
  {
    if s != "" {
      assert s[0] in s && forall c :: c in s[1..] ==> c in s;
      OneLine(s[1..]);
      assert [s[0]] + s[1..] == s;
    }
  }

  lemma {:induction false} EscapedKeepsNewlines(path: string)
    ensures '\n' in Escaped(path) <==> '\n' in path
  {
    if path != "" {
      EscapedKeepsNewlines(path[1..]);
      assert path == [path[0]] + path[1..];
      assert "'\\''"[0] == '\'' && "'\\''"[1] == '\\' && "'\\''"[2] == '\'' && "'\\''"[3] == '\'';
      assert '\n' !in "'\\''";
    }
  }

  lemma QuotedKeepsNewlines(path: string)
    ensures '\n' in Quoted(path) <==> '\n' in path
  {
    EscapedKeepsNewlines(Slashed(path));
    assert '\n' !in "file '" && '\n' !in "'";
    forall i | 0 <= i < |path| ensures Slashed(path)[i] == '\n' <==> path[i] == '\n' {}
    assert '\n' in Slashed(path) ==> '\n' in path by {
      if '\n' in Slashed(path) {
        var i :| 0 <= i < |path| && Slashed(path)[i] == '\n';
        assert path[i] == '\n';
      }
    }
    assert '\n' in path ==> '\n' in Slashed(path) by {
      if '\n' in path {
        var i :| 0 <= i < |path| && path[i] == '\n';
        assert Slashed(path)[i] == '\n';
      }
    }
  }

  lemma {:induction false} ReadAppended(a: seq<string>, b: seq<string>)
    ensures ReadLines(a + b) == match (ReadLines(a), ReadLines(b))
      case (Some(x), Some(y)) => Some(x + y)
      case _ => None
  {
    if a == [] {
      assert a + b == b;
      assert ReadLines(b).Some? ==> [] + ReadLines(b).value == ReadLines(b).value;
    } else {
      assert (a + b)[1..] == a[1..] + b;
      ReadAppended(a[1..], b);
      if a[0] != "" && ReadLine(a[0]).Some? && ReadLines(a[1..]).Some? && ReadLines(b).Some? {
        assert [ReadLine(a[0]).value] + (ReadLines(a[1..]).value + ReadLines(b).value)
          == ([ReadLine(a[0]).value] + ReadLines(a[1..]).value) + ReadLines(b).value;
      }
    }
  }

  lemma ReadQuoted(path: string)
    requires '\n' !in path
    ensures ReadLines(Lines(Quoted(path))) == Some([Slashed(path)])
  {
    QuotedKeepsNewlines(path);
    OneLine(Quoted(path));
    QuotedLineReads(path);
    var lines := Lines(Quoted(path));
    assert lines[0] == Quoted(path) && lines[1..] == [] && Quoted(path)[0] == 'f';
    assert [Slashed(path)] + [] == [Slashed(path)];
    assert ReadLines(lines[1..]) == Some([]);
  }

  predicate OneLiners(paths: seq<string>) {
    forall i :: 0 <= i < |paths| ==> '\n' !in paths[i]
  }

  lemma {:induction false} ManifestReadsBack(paths: seq<string>)
    requires OneLiners(paths)
    ensures ReadManifest(Manifest(paths)) == Some(AllSlashed(paths))
  {
    if paths == [] {
      assert Lines("") == [""] && [""][1..] == [];
    } else {
      ReadQuoted(paths[0]);
      if |paths| == 1 {
        assert AllSlashed(paths[1..]) == [] && AllSlashed(paths) == [Slashed(paths[0])];
      } else {
        ManifestReadsBack(paths[1..]);
        LinesOfJoin(Quoted(paths[0]), Manifest(paths[1..]));
        ReadAppended(Lines(Quoted(paths[0])), Lines(Manifest(paths[1..])));
        assert Lines(Manifest(paths)) == Lines(Quoted(paths[0])) + Lines(Manifest(paths[1..]));
      }
    }
  }

  // ---------------------------------------------------------------- and only then

  function NonEmpty(lines: seq<string>): nat {
    if lines == [] then 0 else (if lines[0] == "" then 0 else 1) + NonEmpty(lines[1..])
  }

  lemma {:induction false} ReadCounts(lines: seq<string>)
    ensures ReadLines(lines).Some? ==> |ReadLines(lines).value| == NonEmpty(lines)
  {
    if lines != [] {
      ReadCounts(lines[1..]);
    }
  }

  lemma {:induction false} NonEmptyAppended(a: seq<string>, b: seq<string>)
    ensures NonEmpty(a + b) == NonEmpty(a) + NonEmpty(b)
  {
    if a == [] {
      assert a + b == b;
    } else {
      assert (a + b)[1..] == a[1..] + b;
      NonEmptyAppended(a[1..], b);
    }
  }

  /** A text that neither starts nor ends with a newline has a non-empty line at both ends. */
  lemma {:induction false} LineAtEnd(s: string)
    requires s != "" && s[|s| - 1] != '\n'
    ensures NonEmpty(Lines(s)) >= 1
  {
    if |s| > 1 {
      LineAtEnd(s[1..]);
      var rest := Lines(s[1..]);
      assert NonEmpty(rest) == (if rest[0] == "" then 0 else 1) + NonEmpty(rest[1..]);
      if s[0] == '\n' {
        assert Lines(s)[1..] == rest;
      } else {
        assert Lines(s)[1..] == rest[1..];
      }
    } else {
      assert s[1..] == "";
    }
  }

  lemma {:induction false} LinesAtBothEnds(s: string)
    requires s != "" && s[0] != '\n' && s[|s| - 1] != '\n' && '\n' in s
    ensures NonEmpty(Lines(s)) >= 2
  {
    var i :| 0 <= i < |s| && s[i] == '\n';
    var a, b := s[..i], s[i + 1..];
    assert s == a + "\n" + b;
    LinesOfJoin(a, b);
    NonEmptyAppended(Lines(a), Lines(b));
    LineAtEnd(b);
  }

  /** Every path costs at least one non-empty line, and one with a newline at least two. */
  lemma {:induction false} ManifestLineCount(paths: seq<string>)
    ensures NonEmpty(Lines(Manifest(paths))) >= |paths|
    ensures !OneLiners(paths) ==> NonEmpty(Lines(Manifest(paths))) > |paths|
  {
    if paths != [] {
      var q := Quoted(paths[0]);
      assert q[0] == 'f' && q[|q| - 1] == '\'';
      QuotedKeepsNewlines(paths[0]);
      if '\n' in paths[0] {
        LinesAtBothEnds(q);
      }
      if |paths| > 1 {
        ManifestLineCount(paths[1..]);
        LinesOfJoin(q, Manifest(paths[1..]));
        NonEmptyAppended(Lines(q), Lines(Manifest(paths[1..])));
        assert OneLiners(paths[1..]) && '\n' !in paths[0] ==> OneLiners(paths);
      }
    }
  }

  lemma {:induction false} AllSlashedSize(paths: seq<string>)
    ensures |AllSlashed(paths)| == |paths|
  {
    if paths != [] {
      AllSlashedSize(paths[1..]);
    }
  }

  /** Reading a manifest back gives the slash-normalised paths, in order, exactly when no path holds a
      newline; apostrophes, backslashes and blanks are all safe. */
  lemma ManifestRoundTripIff(paths: seq<string>)
    ensures ReadManifest(Manifest(paths)) == Some(AllSlashed(paths)) <==> OneLiners(paths)
  {
    if OneLiners(paths) {
      ManifestReadsBack(paths);
    } else {
      ManifestLineCount(paths);
      ReadCounts(Lines(Manifest(paths)));
      AllSlashedSize(paths);
    }
  }
}
