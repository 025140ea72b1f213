/**
 The lock-file checker (scripts/check_lock_sync.py): logical lines, the stateful lock parser,
 and a verdict that is empty exactly when the lock covers every requirement.
 */
module LockSync {
  import opened Options

  // ---------------------------------------------------------------- characters and stripping

  predicate Space(c: char) {
    c == ' ' || c == '\t' || c == '\r' || c == '\n' || c == '\U{000B}' || c == '\U{000C}'
  }

  function RStrip(s: string): string {
    if s == "" || !Space(s[|s| - 1]) then s else RStrip(s[..|s| - 1])
  }

  function LStrip(s: string): string {
    if s == "" || !Space(s[0]) then s else LStrip(s[1..])
  }

  function Strip(s: string): string {
    RStrip(LStrip(s))
  }

  predicate EndsWith(s: string, c: char) {
    s != "" && s[|s| - 1] == c
  }

  // ---------------------------------------------------------------- name normalisation

  predicate Separator(c: char) {
    c == '-' || c == '_' || c == '.'
  }

  function LowerChar(c: char): char {
    if 'A' <= c <= 'Z' then (c as int + 32) as char else c
  }

  /** Runs of separators become one dash, letters lower case; `inRun` after a separator. */
  function Folded(s: string, inRun: bool): string {
    if s == "" then ""
    else if Separator(s[0]) then (if inRun then "" else "-") + Folded(s[1..], true)
    else [LowerChar(s[0])] + Folded(s[1..], false)
  }

  /** PEP 503 normalisation. */
  function Normalize(name: string): string {
    Strip(Folded(name, false))
  }

  // ---------------------------------------------------------------- logical lines

  predicate Skipped(line: string) {
    line == "" || line[0] == '#'
  }

  /** What one physical line comes to after the continuation read so far. */
  datatype Turn = Carried(pending: string) | Dropped | Finished(line: string)

  function Read(raw: string, pending: string): Turn {
    var line := pending + RStrip(raw);
    if EndsWith(line, '\\') then Carried(RStrip(line[..|line| - 1]) + " ")
    else if Skipped(Strip(line)) then Dropped
    else Finished(Strip(line))
  }

  /** The logical lines of what is left, given the continuation read so far. */
  function Logical(lines: seq<string>, pending: string): seq<string> {
    if lines == [] then (if Strip(pending) != "" then [Strip(pending)] else [])
    else
      match Read(lines[0], pending)
      case Carried(more) => Logical(lines[1..], more)
      case Dropped => Logical(lines[1..], "")
      case Finished(line) => [line] + Logical(lines[1..], "")
  }

  /** `_logical_lines`, on the physical lines. */
  method LogicalLines(raws: seq<string>) returns (lines: seq<string>)
    ensures lines == Logical(raws, "")
  {
    lines := [];
    var pending := "";
    assert raws[0..] == raws;
    for n := 0 to |raws|
      invariant Logical(raws, "") == lines + Logical(raws[n..], pending)
    {
      var turn := ReadLine(raws[n], pending);
      match turn
      case Carried(more) => pending := more;
      case Dropped => pending := "";
      case Finished(line) => lines, pending := lines + [line], "";
    }
    if Strip(pending) != "" {
      lines := lines + [Strip(pending)];
    }
  }

  /** One turn of that loop. */
  method ReadLine(raw: string, pending: string) returns (turn: Turn)
    ensures turn == Read(raw, pending)
  {
    var line := RStrip(raw);
    if pending != "" {
      line := pending + line;
    } else {
      assert pending + line == line;
    }
    if EndsWith(line, '\\') {
      return Carried(RStrip(line[..|line| - 1]) + " ");
    }
    var stripped := Strip(line);
    if Skipped(stripped) {
      return Dropped;
    }
    return Finished(stripped);
  }

  // ---------------------------------------------------------------- the lock parser

  predicate NameChar(c: char) {
    'A' <= c <= 'Z' || 'a' <= c <= 'z' || '0' <= c <= '9' || Separator(c)
  }

  predicate VersionChar(c: char) {
    !Space(c) && c != '\\' && c != '#'
  }

  function NameRun(s: string): (r: string)
    ensures r <= s
  {
    if s == "" || !NameChar(s[0]) then "" else [s[0]] + NameRun(s[1..])
  }

  function VersionRun(s: string): (r: string)
    ensures r <= s
  {
    if s == "" || !VersionChar(s[0]) then "" else [s[0]] + VersionRun(s[1..])
  }

  /** The header pattern: a name, `==` with white space around it, a version. */
  function Pin(raw: string): Option<(string, string)> {
    var s := LStrip(raw);
    var name := NameRun(s);
    var afterName := LStrip(s[|name|..]);
    if name == "" || !("==" <= afterName) then None
    else
      var version := VersionRun(LStrip(afterName[2..]));
      if version == "" then None else Some((name, version))
  }

  const HASH_MARK := "--hash=sha256:"

  predicate Contains(s: string, part: string) {
    exists i :: 0 <= i <= |s| && part <= s[i..]
  }

  type Lock = map<string, (string, bool)>

  datatype ParserState = ParserState(entries: Lock, current: Option<string>)

  function Fed(st: ParserState, raw: string): ParserState {
    match Pin(raw)
    case Some((name, version)) =>
      ParserState(st.entries[Normalize(name) := (version, false)], Some(Normalize(name)))
    case None =>
      if st.current.Some? && st.current.value in st.entries && Contains(raw, HASH_MARK)
      then st.(entries := st.entries[st.current.value := (st.entries[st.current.value].0, true)])
      else st
  }

  function FedAll(st: ParserState, raws: seq<string>): ParserState
    decreases |raws|
  {
    if raws == [] then st else FedAll(Fed(st, raws[0]), raws[1..])
  }

  function Parsed(raws: seq<string>): Lock {
    FedAll(ParserState(map[], None), raws).entries
  }

  /** `parse_lock`, on the physical lines. */
  method ParseLock(raws: seq<string>) returns (entries: Lock)
    ensures entries == Parsed(raws)
  {
    entries := map[];
    var current: Option<string> := None;
    for n := 0 to |raws|
      invariant current.Some? ==> current.value in entries
      invariant FedAll(ParserState(entries, current), raws[n..]) == FedAll(ParserState(map[], None), raws)
    {
      var raw := raws[n];
      assert raws[n..][0] == raw && raws[n..][1..] == raws[n + 1..];
      var m := Pin(raw);
      if m.Some? {
        current := Some(Normalize(m.value.0));
        entries := entries[current.value := (m.value.1, false)];
        continue;
      }
      if current.Some? && Contains(raw, HASH_MARK) {
        entries := entries[current.value := (entries[current.value].0, true)];
      }
    }
  }

  // ---------------------------------------------------------------- the verdict

  /** A direct requirement; `allows` is its specifier, consulted only when it has one. */
  datatype Requirement = Requirement(name: string, constrained: bool, allows: string -> bool)

  datatype Problem =
    | Missing(name: string)
    | BadPin(name: string, version: string)
    | NoHash(name: string, version: string)

  predicate InSync(r: Requirement, lock: Lock) {
    var name := Normalize(r.name);
    name in lock && (r.constrained ==> r.allows(lock[name].0)) && lock[name].1
  }

  /** `check`: no problem exactly when the lock covers every requirement. */
  method Check(requirements: seq<Requirement>, lock: Lock) returns (problems: seq<Problem>)
    ensures problems == [] <==> forall i :: 0 <= i < |requirements| ==> InSync(requirements[i], lock)
    ensures forall p :: p in problems ==> exists i :: 0 <= i < |requirements| && IsProblem(p, requirements[i], lock)
    ensures forall i, p :: 0 <= i < |requirements| && IsProblem(p, requirements[i], lock) ==> p in problems
  {
    problems := [];
    for n := 0 to |requirements|
      invariant problems == [] <==> forall i :: 0 <= i < n ==> InSync(requirements[i], lock)
      invariant forall p :: p in problems ==> exists i :: 0 <= i < n && IsProblem(p, requirements[i], lock)
      invariant forall i, p :: 0 <= i < n && IsProblem(p, requirements[i], lock) ==> p in problems
    {
      var r := requirements[n];
      var found := ProblemsOf(r, lock);
      ghost var before := problems;
      problems := problems + found;
      forall p | p in problems ensures exists i :: 0 <= i < n + 1 && IsProblem(p, requirements[i], lock) {
        if p in found {
          assert IsProblem(p, requirements[n], lock);
        } else {
          assert p in before;
        }
      }
    }
  }

  predicate IsProblem(p: Problem, r: Requirement, lock: Lock) {
    var name := Normalize(r.name);
    match p
    case Missing(who) => who == r.name && name !in lock
    case BadPin(who, v) => who == r.name && name in lock && v == lock[name].0 && r.constrained && !r.allows(v)
    case NoHash(who, v) => who == r.name && name in lock && v == lock[name].0 && !lock[name].1
  }

  /** One turn of the loop: absent, or wrong in up to two ways at once. */
  method ProblemsOf(r: Requirement, lock: Lock) returns (found: seq<Problem>)
    ensures found == [] <==> InSync(r, lock)
    ensures forall p :: p in found <==> IsProblem(p, r, lock)
  {
    var name := Normalize(r.name);
    if name !in lock {
      return [Missing(r.name)];
    }
    var (version, hasHash) := lock[name];
    found := [];
    if r.constrained && !r.allows(version) {
      found := found + [BadPin(r.name, version)];
    }
    if !hasHash {
      found := found + [NoHash(r.name, version)];
    }
  }

  // ---------------------------------------------------------------- the requirements, and the whole check

  function Before(s: string, c: char): (r: string)
    ensures r <= s && c !in r
  {
    if s == "" || s[0] == c then "" else [s[0]] + Before(s[1..], c)
  }

  /** A logical line without its environment marker. */
  function Unmarked(line: string): string {
    Strip(Before(line, ';'))
  }

  /** Options such as `-r` or `--hash` pin nothing. */
  predicate IsRequirement(line: string) {
    Unmarked(line) != "" && Unmarked(line)[0] != '-'
  }

  function RequirementLines(lines: seq<string>): (r: seq<string>)
    ensures forall x :: x in r <==> exists i :: 0 <= i < |lines| && IsRequirement(lines[i]) && x == Unmarked(lines[i])
  {
    if lines == [] then []
    else
      var last := lines[|lines| - 1];
      assert forall i :: 0 <= i < |lines| - 1 ==> lines[..|lines| - 1][i] == lines[i];
      RequirementLines(lines[..|lines| - 1]) + (if IsRequirement(last) then [Unmarked(last)] else [])
  }

  /** A line that is no requirement raises. */
  function ParsedAll(lines: seq<string>, parse: string -> Option<Requirement>): (r: Option<seq<Requirement>>)
    ensures r == None <==> exists i :: 0 <= i < |lines| && parse(lines[i]) == None
    ensures r.Some? ==> |r.value| == |lines| && forall i :: 0 <= i < |lines| ==> parse(lines[i]) == Some(r.value[i])
  {
    if lines == [] then Some([])
    else
      var init, last := lines[..|lines| - 1], lines[|lines| - 1];
      assert forall i :: 0 <= i < |init| ==> init[i] == lines[i];
      match (ParsedAll(init, parse), parse(last))
      case (Some(earlier), Some(one)) => Some(earlier + [one])
      case _ => None
  }

  /** `parse_requirements`, on the physical lines; None when a line raises. */
  method ParseRequirements(raws: seq<string>, parse: string -> Option<Requirement>) returns (out: Option<seq<Requirement>>)
    ensures out == ParsedAll(RequirementLines(Logical(raws, "")), parse)
  {
    var lines := LogicalLines(raws);
    var sofar: seq<Requirement> := [];
    for n := 0 to |lines|
      invariant ParsedAll(RequirementLines(lines[..n]), parse) == Some(sofar)
    {
      RequirementStep(lines, n);
      var line := Unmarked(lines[n]);
      if line == "" || line[0] == '-' {
        continue;
      }
      var r := parse(line);
      if r == None {
        RaisingLine(lines, parse);
        assert lines[n] in lines;
        return None;
      }
      sofar := sofar + [r.value];
    }
    assert lines[..|lines|] == lines;
    return Some(sofar);
  }

  lemma RequirementStep(lines: seq<string>, n: nat)
    requires n < |lines|
    ensures var before := RequirementLines(lines[..n]);
      RequirementLines(lines[..n + 1]) == if IsRequirement(lines[n]) then before + [Unmarked(lines[n])] else before
  {
    assert lines[..n + 1][..n] == lines[..n];
    assert RequirementLines(lines[..n]) + [] == RequirementLines(lines[..n]);
  }

  lemma RaisingLine(lines: seq<string>, parse: string -> Option<Requirement>)
    ensures ParsedAll(RequirementLines(lines), parse) == None <==>
      exists line :: line in lines && IsRequirement(line) && parse(Unmarked(line)) == None
  {
    var wanted := RequirementLines(lines);
    WantedLines(lines);
    if i :| 0 <= i < |wanted| && parse(wanted[i]) == None {
      assert wanted[i] in wanted;
    }
    if line :| line in lines && IsRequirement(line) && parse(Unmarked(line)) == None {
      var i :| 0 <= i < |wanted| && wanted[i] == Unmarked(line);
    }
  }

  /** `check` on two texts: it raises exactly when some requirement line does, and otherwise reports nothing
      exactly when every requirement is covered by the lock that the other text parses to. */
  method CheckTexts(requirements: seq<string>, lock: seq<string>, parse: string -> Option<Requirement>)
    returns (problems: Option<seq<Problem>>)
    ensures problems == None <==>
      exists line :: line in Logical(requirements, "") && IsRequirement(line) && parse(Unmarked(line)) == None
    ensures problems.Some? ==> (problems.value == [] <==>
      forall line :: line in Logical(requirements, "") && IsRequirement(line) ==>
        parse(Unmarked(line)).Some? && InSync(parse(Unmarked(line)).value, Parsed(lock)))
  {
    ghost var lines := Logical(requirements, "");
    ghost var wanted := RequirementLines(lines);
    var parsed := ParseRequirements(requirements, parse);
    WantedLines(lines);
    RaisingLine(lines, parse);
    if parsed == None {
      return None;
    }
    var entries := ParseLock(lock);
    var found := Check(parsed.value, entries);
    CoveredLines(wanted, parsed.value, entries, parse);
    return Some(found);
  }

  /** A requirement line is wanted, and a wanted one comes from some line. */
  lemma WantedLines(lines: seq<string>)
    ensures forall line :: line in lines && IsRequirement(line) ==> Unmarked(line) in RequirementLines(lines)
    ensures forall w :: w in RequirementLines(lines) ==> exists line :: line in lines && IsRequirement(line) && Unmarked(line) == w
  {
    forall line | line in lines && IsRequirement(line) ensures Unmarked(line) in RequirementLines(lines) {
      var i :| 0 <= i < |lines| && lines[i] == line;
    }
  }

  lemma CoveredLines(wanted: seq<string>, parsed: seq<Requirement>, lock: Lock, parse: string -> Option<Requirement>)
    requires ParsedAll(wanted, parse) == Some(parsed)
    ensures (forall i :: 0 <= i < |parsed| ==> InSync(parsed[i], lock)) <==>
      (forall w :: w in wanted ==> parse(w).Some? && InSync(parse(w).value, lock))
  {
    assert forall i :: 0 <= i < |wanted| ==> wanted[i] in wanted && parse(wanted[i]) == Some(parsed[i]);
  }

  // ---------------------------------------------------------------- normalisation laws

  predicate AllSeparators(s: string) {
    forall i :: 0 <= i < |s| ==> Separator(s[i])
  }

  lemma {:induction false} FoldedRun(s: string, rest: string)
    requires AllSeparators(s)
    ensures Folded(s + rest, true) == Folded(rest, true)
  {
    if s == "" {
      assert s + rest == rest;
    } else {
      assert (s + rest)[0] == s[0] && (s + rest)[1..] == s[1..] + rest;
      FoldedRun(s[1..], rest);
    }
  }

  lemma {:induction false} FoldedAround(a: string, s: string, b: string, inRun: bool)
    requires AllSeparators(s) && s != ""
    ensures Folded(a + s + b, inRun) == Folded(a + "-" + b, inRun)
  {
    if a == "" {
      assert a + s + b == s + b && (s + b)[1..] == s[1..] + b && (s + b)[0] == s[0];
      FoldedRun(s[1..], b);
      assert a + "-" + b == "-" + b && ("-" + b)[1..] == b;
    } else {
      assert (a + s + b)[1..] == a[1..] + s + b && (a + "-" + b)[1..] == a[1..] + "-" + b;
      FoldedAround(a[1..], s, b, if Separator(a[0]) then true else false);
    }
  }

  /** How two parts of a name are separated does not matter: `Flask_Cors`, `flask-cors` and `flask.-.cors` agree. */
  lemma SeparatorsAreOne(a: string, s: string, t: string, b: string)
    requires AllSeparators(s) && AllSeparators(t) && s != "" && t != ""
    ensures Normalize(a + s + b) == Normalize(a + t + b)
  {
    FoldedAround(a, s, b, false);
    FoldedAround(a, t, b, false);
  }

  lemma {:induction false} FoldedTwice(s: string, inRun: bool)
    ensures Folded(Folded(s, inRun), inRun) == Folded(s, inRun)
  {
    if s != "" {
      if Separator(s[0]) {
        FoldedTwice(s[1..], true);
        var rest := Folded(s[1..], true);
        if !inRun {
          assert ("-" + rest)[1..] == rest && Separator('-');
        } else {
          assert "" + rest == rest;
        }
      } else {
        FoldedTwice(s[1..], false);
        var c := LowerChar(s[0]);
        var rest := Folded(s[1..], false);
        assert ([c] + rest)[1..] == rest && LowerChar(c) == c && !Separator(c);
      }
    }
  }

  predicate SameLetter(c: char, d: char) {
    || c == d
    || ('a' <= c <= 'z' && d as int == c as int - 32)
    || ('A' <= c <= 'Z' && d as int == c as int + 32)
  }

  predicate SameButForCase(a: string, b: string) {
    |a| == |b| && forall i :: 0 <= i < |a| ==> SameLetter(a[i], b[i])
  }

  lemma {:induction false} CaseFoldsAway(a: string, b: string, inRun: bool)
    requires SameButForCase(a, b)
    ensures Folded(a, inRun) == Folded(b, inRun)
  {
    if a != "" {
      assert SameLetter(a[0], b[0]);
      CaseFoldsAway(a[1..], b[1..], Separator(a[0]));
    }
  }

  /** `Flask` and `flask` are one package, */
  lemma {:induction false} CaseDoesNotMatter(a: string, b: string)
    requires SameButForCase(a, b)
    ensures Normalize(a) == Normalize(b)
  {
    CaseFoldsAway(a, b, false);
  }

  /** Lower case letters and digits, with single dashes between them. */
  predicate NormalForm(s: string) {
    && (forall i :: 0 <= i < |s| ==> 'a' <= s[i] <= 'z' || '0' <= s[i] <= '9' || s[i] == '-')
    && (forall i :: 0 < i < |s| && s[i] == '-' ==> s[i - 1] != '-')
  }

  /** and a normal name is its own normal form, so two different ones stay apart. */
  lemma {:induction false} NormalFormStands(s: string)
    requires NormalForm(s)
    ensures Normalize(s) == s
  {
    NormalFolds(s, false);
    NothingToStrip(s);
  }

  lemma NothingToStrip(s: string)
    requires s != "" ==> !Space(s[0]) && !Space(s[|s| - 1])
    ensures Strip(s) == s
  {
  }

  lemma {:induction false} NormalFolds(s: string, inRun: bool)
    requires NormalForm(s) && (inRun && s != "" ==> s[0] != '-')
    ensures Folded(s, inRun) == s
  {
    if s != "" {
      assert |s| > 1 && s[0] == '-' ==> s[1] != '-';
      NormalFolds(s[1..], s[0] == '-');
    }
  }

  /** An environment marker is dropped, whatever it says. */
  lemma {:induction false} MarkerIsDropped(requirement: string, marker: string)
    requires ';' !in requirement
    ensures Unmarked(requirement + ";" + marker) == Strip(requirement) == Unmarked(requirement)
  {
    BeforeAll(requirement, ';');
    BeforeFirst(requirement, ';', marker);
    assert requirement + ";" + marker == requirement + [';'] + marker;
  }

  lemma {:induction false} BeforeAll(s: string, c: char)
    requires c !in s
    ensures Before(s, c) == s
  {
    if s != "" {
      BeforeAll(s[1..], c);
    }
  }

  lemma {:induction false} BeforeFirst(s: string, c: char, t: string)
    requires c !in s
    ensures Before(s + [c] + t, c) == s
  {
    if s != "" {
      BeforeFirst(s[1..], c, t);
      assert (s + [c] + t)[1..] == s[1..] + [c] + t;
    }
  }

  // ---------------------------------------------------------------- the parser's meaning

  /** One locked package as it is laid out: the header line, then lines that are no header. */
  datatype Entry = Entry(header: string, block: seq<string>)

  predicate WellLaidOut(e: Entry) {
    Pin(e.header).Some? && forall i :: 0 <= i < |e.block| ==> Pin(e.block[i]).None?
  }

  predicate HasHash(block: seq<string>) {
    exists i :: 0 <= i < |block| && Contains(block[i], HASH_MARK)
  }

  function Layout(es: seq<Entry>): seq<string> {
    if es == [] then [] else [es[0].header] + es[0].block + Layout(es[1..])
  }

  function NameOf(e: Entry): string
    requires WellLaidOut(e)
  {
    Normalize(Pin(e.header).value.0)
  }

  function RowOf(e: Entry): (string, bool)
    requires WellLaidOut(e)
  {
    (Pin(e.header).value.1, HasHash(e.block))
  }

  lemma {:induction false} FedAppended(st: ParserState, a: seq<string>, b: seq<string>)
    ensures FedAll(st, a + b) == FedAll(FedAll(st, a), b)
    decreases |a|
  {
    if a == [] {
      assert a + b == b;
    } else {
      assert (a + b)[1..] == a[1..] + b;
      FedAppended(Fed(st, a[0]), a[1..], b);
    }
  }

  /** A block only ever raises the hash flag of the package it belongs to. */
  lemma {:induction false} FedBlock(st: ParserState, block: seq<string>)
    requires st.current.Some? && st.current.value in st.entries
    requires forall i :: 0 <= i < |block| ==> Pin(block[i]).None?
    ensures var name := st.current.value; var (version, flag) := st.entries[name];
      FedAll(st, block) == st.(entries := st.entries[name := (version, flag || HasHash(block))])
    decreases |block|
  {
    var name := st.current.value;
    var (version, flag) := st.entries[name];
    if block == [] {
      assert st.entries[name := (version, flag || false)] == st.entries;
      assert !HasHash(block);
    } else {
      var next := Fed(st, block[0]);
      assert next == st.(entries := st.entries[name := (version, flag || Contains(block[0], HASH_MARK))]) by {
        assert st.entries[name := (version, flag)] == st.entries;
      }
      FedBlock(next, block[1..]);
      assert st.entries[name := (version, flag || Contains(block[0], HASH_MARK))][name := (version, flag || HasHash(block))]
        == st.entries[name := (version, flag || HasHash(block))];
    }
  }

  /** The lock as a table: later entries of the same name win. */
  function Table(es: seq<Entry>, lock: Lock): Lock
    requires forall i :: 0 <= i < |es| ==> WellLaidOut(es[i])
  {
    if es == [] then lock
    else Table(es[1..], lock[NameOf(es[0]) := RowOf(es[0])])
  }

  lemma FedEntry(e: Entry, st: ParserState)
    requires WellLaidOut(e)
    ensures FedAll(st, [e.header] + e.block).entries == st.entries[NameOf(e) := RowOf(e)]
  {
    var start := Fed(st, e.header);
    FedAppended(st, [e.header], e.block);
    assert FedAll(st, [e.header]) == start by { assert [e.header][1..] == []; }
    FedBlock(start, e.block);
    assert start.entries[NameOf(e) := RowOf(e)] == st.entries[NameOf(e) := RowOf(e)];
  }

  lemma {:induction false} FedLayout(es: seq<Entry>, st: ParserState)
    requires forall i :: 0 <= i < |es| ==> WellLaidOut(es[i])
    ensures FedAll(st, Layout(es)).entries == Table(es, st.entries)
    decreases |es|
  {
    if es != [] {
      var e := es[0];
      FedEntry(e, st);
      FedAppended(st, [e.header] + e.block, Layout(es[1..]));
      FedLayout(es[1..], FedAll(st, [e.header] + e.block));
    }
  }

  lemma {:induction false} TableAt(es: seq<Entry>, lock: Lock, i: nat)
    requires forall j :: 0 <= j < |es| ==> WellLaidOut(es[j])
    requires i < |es| && forall j :: i < j < |es| ==> NameOf(es[j]) != NameOf(es[i])
    ensures NameOf(es[i]) in Table(es, lock)
    ensures Table(es, lock)[NameOf(es[i])] == RowOf(es[i])
    decreases |es|
  {
    var next := lock[NameOf(es[0]) := RowOf(es[0])];
    if i == 0 {
      TableKeeps(es[1..], next, NameOf(es[0]));
    } else {
      assert es[1..][i - 1] == es[i] && forall j :: 0 <= j < |es| - 1 ==> es[1..][j] == es[j + 1];
      TableAt(es[1..], next, i - 1);
    }
  }

  lemma {:induction false} TableKeeps(es: seq<Entry>, lock: Lock, name: string)
    requires forall j :: 0 <= j < |es| ==> WellLaidOut(es[j])
    requires name in lock && forall j :: 0 <= j < |es| ==> NameOf(es[j]) != name
    ensures name in Table(es, lock) && Table(es, lock)[name] == lock[name]
    decreases |es|
  {
    if es != [] {
      TableKeeps(es[1..], lock[NameOf(es[0]) := RowOf(es[0])], name);
    }
  }

  /** Parsing gives every package its own version and its own hash flag, however many lines its block has and
      whatever surrounds it: no hash leaks into a neighbouring package. */
  lemma EachEntryKeepsItsOwnHash(es: seq<Entry>, i: nat)
    requires forall j :: 0 <= j < |es| ==> WellLaidOut(es[j])
    requires i < |es| && forall j :: i < j < |es| ==> NameOf(es[j]) != NameOf(es[i])
    ensures NameOf(es[i]) in Parsed(Layout(es))
    ensures Parsed(Layout(es))[NameOf(es[i])] == RowOf(es[i])
  {
    FedLayout(es, ParserState(map[], None));
    TableAt(es, map[], i);
  }
}
