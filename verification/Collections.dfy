/** Sets and sequences of anything: what the modules share. */
module Collections {
  function Elements<T>(s: seq<T>): set<T> {
    set x | x in s
  }

  lemma ElementsAppend<T>(s: seq<T>, x: T)
    ensures Elements(s + [x]) == Elements(s) + {x}
  {
  }

  predicate Distinct<T(==)>(s: seq<T>) {
    forall i, j :: 0 <= i < j < |s| ==> s[i] != s[j]
  }

  lemma {:induction false} DistinctSize<T>(s: seq<T>)
    requires Distinct(s)
    ensures |Elements(s)| == |s|
  {
    if s != [] {
      var init := s[..|s| - 1];
      DistinctSize(init);
      assert s == init + [s[|s| - 1]];
      ElementsAppend(init, s[|s| - 1]);
    }
  }

  lemma SubsetSize<T>(a: set<T>, b: set<T>)
    requires a <= b
    ensures |a| <= |b| && |b - a| == |b| - |a|
  {
    assert b == a + (b - a);
  }

  /** The elements of a set, each once, in some order. */
  method Enumerate<T(==)>(s: set<T>) returns (items: seq<T>)
    ensures Elements(items) == s && Distinct(items)
  {
    items := [];
    var todo := s;
    while todo != {}
      invariant todo <= s
      invariant Elements(items) == s - todo && Distinct(items)
    {
      var x :| x in todo;
      ElementsAppend(items, x);
      assert x !in Elements(items);
      items := items + [x];
      todo := todo - {x};
    }
  }

  // ---------------------------------------------------------------- selections

  predicate Increasing(at: seq<nat>) {
    forall i, j :: 0 <= i < j < |at| ==> at[i] < at[j]
  }

  /** `r` is what `s` holds at the places `at`, in that order, and those are all the places `keep` likes. */
  predicate Selects<T(==)>(at: seq<nat>, s: seq<T>, keep: T -> bool, r: seq<T>) {
    && |at| == |r| && Increasing(at)
    && (forall j :: 0 <= j < |at| ==> at[j] < |s| && keep(s[at[j]]) && r[j] == s[at[j]])
    && (forall i :: 0 <= i < |s| && keep(s[i]) ==> i in at)
  }

  lemma SelectsLast<T>(at: seq<nat>, s: seq<T>, keep: T -> bool, r: seq<T>, x: T)
    requires Selects(at, s, keep, r)
    ensures keep(x) ==> Selects(at + [|s|], s + [x], keep, r + [x])
    ensures !keep(x) ==> Selects(at, s + [x], keep, r)
  {
    var all := s + [x];
    assert forall i :: 0 <= i < |s| ==> all[i] == s[i];
    assert all[|s|] == x;
    assert forall i :: i in at ==> i in at + [|s|];
    assert |s| in at + [|s|] by { assert (at + [|s|])[|at|] == |s|; }
  }
}
