/** Decimal numerals, path pieces and character-wise case folding. */
module Text {
  // ---------------------------------------------------------------- numerals

  function Digit(d: nat): char
    requires d < 10
  {
    ('0' as int + d) as char
  }

  /** A number in decimal, without leading zeros. */
  function Decimal(n: nat): (s: string)
    ensures s != "" && forall c :: c in s ==> '0' <= c <= '9'
  {
    if n < 10 then [Digit(n)] else Decimal(n / 10) + [Digit(n % 10)]
  }

  /** The number a string of digits stands for, leading zeros or not. */
  function NumeralValue(s: string): int {
    if s == "" then 0 else 10 * NumeralValue(s[..|s| - 1]) + (s[|s| - 1] as int - '0' as int)
  }

  lemma {:induction false} DecimalValue(n: nat)
    ensures NumeralValue(Decimal(n)) == n
  {
    if n >= 10 {
      DecimalValue(n / 10);
      var s := Decimal(n);
      assert s[..|s| - 1] == Decimal(n / 10);
    }
  }

  function Zeros(k: nat): string {
    if k == 0 then "" else Zeros(k - 1) + "0"
  }

  /** `{n:03d}`: padded to three digits, longer when the number is. */
  function Padded(n: nat): (s: string)
    ensures |s| >= 3 && s[|s| - 1] == Decimal(n)[|Decimal(n)| - 1]
  {
    ZerosLength(3);
    var d := Decimal(n);
    if |d| >= 3 then d else ZerosLength(3 - |d|); Zeros(3 - |d|) + d
  }

  lemma ZerosLength(k: nat)
    ensures |Zeros(k)| == k
  {
  }

  lemma {:induction false} LeadingZeros(k: nat, s: string)
    ensures NumeralValue(Zeros(k) + s) == NumeralValue(s)
    decreases k + |s|
  {
    if s != "" {
      assert (Zeros(k) + s)[..|Zeros(k) + s| - 1] == Zeros(k) + s[..|s| - 1];
      LeadingZeros(k, s[..|s| - 1]);
    } else if k > 0 {
      assert Zeros(k) + s == Zeros(k - 1) + "0";
      assert (Zeros(k - 1) + "0")[..|Zeros(k - 1)|] == Zeros(k - 1);
      LeadingZeros(k - 1, "");
      assert Zeros(k - 1) + "" == Zeros(k - 1);
    }
  }

  /** Padding loses nothing, whatever the width. */
  lemma PaddedValue(n: nat)
    ensures NumeralValue(Padded(n)) == n
  {
    DecimalValue(n);
    var d := Decimal(n);
    if |d| < 3 {
      LeadingZeros(3 - |d|, d);
    }
  }

  /** Three digits, as long as three are enough. */
  lemma PaddedWidth(n: nat)
    ensures |Padded(n)| == 3 <==> n < 1000
  {
    if n >= 10 {
      assert |Decimal(n)| == |Decimal(n / 10)| + 1;
      if n >= 100 {
        assert |Decimal(n / 10)| == |Decimal(n / 10 / 10)| + 1;
        assert n / 10 / 10 >= 10 <==> n >= 1000;
      }
    }
    if |Decimal(n)| < 3 {
      ZerosLength(3 - |Decimal(n)|);
    }
  }

  // ---------------------------------------------------------------- paths

  /** `os.path.basename`: what follows the last slash. */
  function Basename(path: string): (r: string)
    ensures '/' !in r && |r| <= |path|
  {
    if '/' !in path then path else Basename(path[1..])
  }

  /** Everything up to and including the last slash. */
  function Head(path: string): (r: string)
    ensures r + Basename(path) == path
  {
    if '/' !in path then "" else [path[0]] + Head(path[1..])
  }

  function TrimSlashes(s: string): string {
    if s == "" || s[|s| - 1] != '/' then s else TrimSlashes(s[..|s| - 1])
  }

  /** `os.path.dirname`: the head without trailing slashes, unless it is nothing but slashes. */
  function Dirname(path: string): string {
    var head := Head(path);
    if TrimSlashes(head) == "" then head else TrimSlashes(head)
  }

  /** `os.path.join` with a name that is not absolute. */
  function Join(dir: string, name: string): string {
    if dir == "" || dir[|dir| - 1] == '/' then dir + name else dir + "/" + name
  }

  function LastDot(s: string, n: nat): int
    requires n <= |s|
  {
    if n == 0 then -1 else if s[n - 1] == '.' then n - 1 else LastDot(s, n - 1)
  }

  /** `os.path.splitext` of a name without slashes: leading dots never start an extension. */
  function SplitExt(name: string): (r: (string, string))
    ensures r.0 + r.1 == name
  {
    var dot := LastDot(name, |name|);
    if 0 <= dot < |name| && exists i :: 0 <= i < dot && name[i] != '.' then (name[..dot], name[dot..]) else (name, "")
  }

  lemma {:induction false} PathSplits(dir: string, name: string)
    requires '/' !in name
    ensures Head(dir + "/" + name) == dir + "/" && Basename(dir + "/" + name) == name
  {
    var path := dir + "/" + name;
    assert path[|dir|] == '/';
    if dir == "" {
      assert path[1..] == name;
    } else {
      assert path[1..] == dir[1..] + "/" + name;
      PathSplits(dir[1..], name);
    }
  }

  /** The last slash divides a path; a directory that ends in none is given back as it was. */
  lemma PathDivides(dir: string, name: string)
    requires '/' !in name && dir != "" && dir[|dir| - 1] != '/'
    ensures Basename(dir + "/" + name) == name && Dirname(dir + "/" + name) == dir
    ensures Join(dir, name) == dir + "/" + name
  {
    PathSplits(dir, name);
    assert (dir + "/")[..|dir + "/"| - 1] == dir;
    assert TrimSlashes(dir + "/") == TrimSlashes(dir);
  }

  /** The last dot divides a name that has more than dots before it. */
  lemma NameDivides(stem: string, ext: string)
    requires '.' !in ext && exists i :: 0 <= i < |stem| && stem[i] != '.'
    ensures SplitExt(stem + "." + ext) == (stem, "." + ext)
  {
    var name := stem + "." + ext;
    LastDotAt(name, |stem|, |name|);
    var i :| 0 <= i < |stem| && stem[i] != '.';
    assert name[i] != '.';
    assert name[..|stem|] == stem && name[|stem|..] == "." + ext;
  }

  lemma {:induction false} LastDotAt(s: string, dot: nat, n: nat)
    requires dot < n <= |s| && s[dot] == '.' && forall i :: dot < i < n ==> s[i] != '.'
    ensures LastDot(s, n) == dot
    decreases n
  {
    if dot < n - 1 {
      LastDotAt(s, dot, n - 1);
    }
  }

  // ---------------------------------------------------------------- case folding

  /** Lowering one character may give several. */
  type Fold = char -> string

  function Lower(fold: Fold, s: string): string {
    if s == "" then "" else fold(s[0]) + Lower(fold, s[1..])
  }

  /** Digits and the underscore have no case. */
  ghost predicate PlainDigits(fold: Fold) {
    fold('_') == "_" && forall c :: '0' <= c <= '9' ==> fold(c) == [c]
  }

  lemma {:induction false} LowerConcat(fold: Fold, a: string, b: string)
    ensures Lower(fold, a + b) == Lower(fold, a) + Lower(fold, b)
  {
    if a == "" {
      assert a + b == b;
    } else {
      assert (a + b)[1..] == a[1..] + b;
      LowerConcat(fold, a[1..], b);
      assert fold(a[0]) + (Lower(fold, a[1..]) + Lower(fold, b)) == (fold(a[0]) + Lower(fold, a[1..])) + Lower(fold, b);
    }
  }

  lemma {:induction false} LowerDigits(fold: Fold, s: string)
    requires PlainDigits(fold) && forall c :: c in s ==> '0' <= c <= '9'
    ensures Lower(fold, s) == s
  {
    if s != "" {
      assert s[0] in s && forall c :: c in s[1..] ==> c in s;
      LowerDigits(fold, s[1..]);
    }
  }
}
