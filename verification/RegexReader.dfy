/**
 How Python's `re` reads and matches a small part of its own language: literals, `.`, `[^c]`, a
 star after any of these, and `(?:...)?`. The module knows nothing of who writes the expressions.
 */
module RegexReader {
  import opened Options

  /** One character: any but `c`, or `c` alone. */
  datatype Class = AnyBut(c: char) | Only(c: char)

  datatype Item = One(class_: Class) | Many(class_: Class) | Maybe(inner: seq<Item>)

  // ---------------------------------------------------------------- reading

  /** The characters that mean something other than themselves when no backslash stands before them. */
  predicate IsSyntax(c: char) {
    || c == '.' || c == '^' || c == '$' || c == '*' || c == '+' || c == '?' || c == '{' || c == '}'
    || c == '[' || c == ']' || c == '\\' || c == '|' || c == '(' || c == ')'
  }

  /** A backslash before one of these names a class or a group; before any other character it quotes it. */
  predicate IsAsciiLetterOrDigit(c: char) {
    'a' <= c <= 'z' || 'A' <= c <= 'Z' || '0' <= c <= '9'
  }

  datatype Atom = Atom(class_: Class, length: nat) | NoAtom

  /** What stands for one character at the head of an expression. */
  function ReadAtom(s: string): (a: Atom)
    ensures a.Atom? ==> 0 < a.length <= |s|
  {
    if s == "" then NoAtom
    else if s[0] == '\\' then
      if |s| > 1 && !IsAsciiLetterOrDigit(s[1]) then Atom(Only(s[1]), 2) else NoAtom
    else if s[0] == '.' then Atom(AnyBut('\n'), 1)
    else if s[0] == '[' then
      if |s| > 3 && s[1] == '^' && !IsSyntax(s[2]) && s[3] == ']' then Atom(AnyBut(s[2]), 4) else NoAtom
    else if IsSyntax(s[0]) then NoAtom
    else Atom(Only(s[0]), 1)
  }

  datatype Reading = Reading(items: seq<Item>, rest: string) | Refused

  /** The items up to a closing parenthesis, a `$` or the end, and what follows them. */
  function ReadItems(s: string): (r: Reading)
    ensures r.Reading? ==> |r.rest| <= |s|
    decreases |s|
  {
    if s == "" || s[0] == ')' || s[0] == '$' then Reading([], s)
    else if "(?:" <= s then
      var group := ReadItems(s[3..]);
      if group.Reading? && ")?" <= group.rest
      then Prepend(Maybe(group.items), ReadItems(group.rest[2..]))
      else Refused
    else
      match ReadAtom(s)
      case NoAtom => Refused
      case Atom(class_, n) =>
        if n < |s| && s[n] == '*' then Prepend(Many(class_), ReadItems(s[n + 1..]))
        else Prepend(One(class_), ReadItems(s[n..]))
  }

  function Prepend(item: Item, r: Reading): Reading {
    match r
    case Refused => Refused
    case Reading(items, rest) => Reading([item] + items, rest)
  }

  /** A whole expression, closed by its `$`. */
  function ReadRegex(s: string): Option<seq<Item>> {
    var r := ReadItems(s);
    if r.Reading? && r.rest == "$" then Some(r.items) else None
  }

  /** A syntax character is read as itself only behind a backslash. */
  lemma SyntaxNeedsItsBackslash(s: string, c: char)
    requires IsSyntax(c) && ReadItems(s).Reading? && ReadItems(s).items != []
    requires ReadItems(s).items[0] == One(Only(c)) || ReadItems(s).items[0] == Many(Only(c))
    ensures ['\\', c] <= s
  {
  }

  // ---------------------------------------------------------------- matching

  predicate Has(class_: Class, x: char) {
    match class_
    case AnyBut(c) => x != c
    case Only(c) => x == c
  }

  function Size(items: seq<Item>): nat {
    if items == [] then 0
    else (match items[0] case Maybe(inner) => 1 + Size(inner) case _ => 1) + Size(items[1..])
  }

  lemma {:induction false} SizeSum(a: seq<Item>, b: seq<Item>)
    ensures Size(a + b) == Size(a) + Size(b)
  {
    if a == [] {
      assert a + b == b;
    } else {
      SizeSum(a[1..], b);
      assert (a + b)[0] == a[0] && (a + b)[1..] == a[1..] + b;
    }
  }

  /** `pattern.match(s)`: anchored at the start; the `$` holds at the end and before a last newline. */
  predicate Accepts(items: seq<Item>, s: string)
    decreases Size(items)
  {
    if items == [] then s == "" || s == "\n"
    else
      match items[0]
      case One(class_) => s != "" && Has(class_, s[0]) && Accepts(items[1..], s[1..])
      case Many(class_) =>
        exists k :: 0 <= k <= |s| && (forall x :: x in s[..k] ==> Has(class_, x)) && Accepts(items[1..], s[k..])
      case Maybe(inner) =>
        || Accepts(items[1..], s)
        || (SizeSum(inner, items[1..]); Accepts(inner + items[1..], s))
  }
}
