/** Sequence operations shared by the table updates: a `WHERE` filter that
    keeps row order, and the keys of an insertion-ordered dictionary. */
module Seqs {

  /** The rows of `s` that `keep` accepts, in their original order. */
  function Filter<T(!new)>(s: seq<T>, keep: T -> bool): (r: seq<T>)
    ensures |r| <= |s|
    ensures forall x :: x in r <==> x in s && keep(x)
  {
    if s == [] then []
    else
      var rest := Filter(s[1..], keep);
      assert s == [s[0]] + s[1..];
      (if keep(s[0]) then [s[0]] else []) + rest
  }

  /** A kept row occurs in the result as often as in the input; a dropped one not at all. */
  lemma {:induction false} FilterCount<T(!new)>(s: seq<T>, keep: T -> bool)
    ensures forall x :: multiset(Filter(s, keep))[x] == if keep(x) then multiset(s)[x] else 0
  {
    if s != [] {
      FilterCount(s[1..], keep);
      assert s == [s[0]] + s[1..];
    }
  }

  /** Filtering distributes over concatenation: the kept rows of a table stay in row order. */
  lemma {:induction false} FilterConcat<T(!new)>(a: seq<T>, b: seq<T>, keep: T -> bool)
    ensures Filter(a + b, keep) == Filter(a, keep) + Filter(b, keep)
  {
    if a == [] {
      assert a + b == b;
    } else {
      assert (a + b)[1..] == a[1..] + b;
      FilterConcat(a[1..], b, keep);
    }
  }

  lemma FilterSingle<T(!new)>(x: T, keep: T -> bool)
    ensures Filter([x], keep) == if keep(x) then [x] else []
  {
    assert [x][1..] == [];
  }

  lemma FilterNone<T(!new)>(s: seq<T>, keep: T -> bool)
    requires forall x :: x in s ==> !keep(x)
    ensures Filter(s, keep) == []
  {
    var r := Filter(s, keep);
    assert forall x :: x !in r;
  }

  lemma {:induction false} FilterAll<T(!new)>(s: seq<T>, keep: T -> bool)
    requires forall x :: x in s ==> keep(x)
    ensures Filter(s, keep) == s
  {
    if s != [] {
      assert forall x :: x in s[1..] ==> x in s;
      FilterAll(s[1..], keep);
      assert s == [s[0]] + s[1..];
    }
  }

  predicate AllDistinct<T(==)>(s: seq<T>) {
    forall i, j :: 0 <= i < j < |s| ==> s[i] != s[j]
  }

  /** The distinct elements of `s` in order of first appearance: the key
      order of a Python dictionary filled from `s`. */
  function FirstAppearances<T(==,!new)>(s: seq<T>): (r: seq<T>)
    ensures forall x :: x in r <==> x in s
    ensures AllDistinct(r)
  {
    if s == [] then []
    else
      var p := FirstAppearances(s[..|s| - 1]);
      var x := s[|s| - 1];
      assert s == s[..|s| - 1] + [x];
      if x in p then p else p + [x]
  }

  lemma FirstAppearancesExtend<T(!new)>(s: seq<T>, x: T)
    ensures FirstAppearances(s + [x])
         == if x in FirstAppearances(s) then FirstAppearances(s) else FirstAppearances(s) + [x]
  {
    assert (s + [x])[..|s|] == s;
  }

  /** The index of the first occurrence of `x` in `s`. */
  function FirstIndex<T(==)>(s: seq<T>, x: T): (i: nat)
    requires x in s
    ensures i < |s| && s[i] == x
    ensures forall m :: 0 <= m < i ==> s[m] != x
  {
    if s[0] == x then 0
    else
      FirstIndex(s[1..], x) + 1
  }

  lemma FirstIndexExtend<T>(s: seq<T>, y: T, x: T)
    requires x in s
    ensures FirstIndex(s + [y], x) == FirstIndex(s, x)
  {
    var i := FirstIndex(s, x);
    var j := FirstIndex(s + [y], x);
    assert (s + [y])[i] == x;
  }

  /** Keys come out in the order in which they first appear. */
  lemma {:induction false} FirstAppearanceOrder<T(!new)>(s: seq<T>, j: nat, k: nat)
    requires j < k < |FirstAppearances(s)|
    ensures FirstIndex(s, FirstAppearances(s)[j]) < FirstIndex(s, FirstAppearances(s)[k])
  {
    var p := s[..|s| - 1];
    var x := s[|s| - 1];
    assert s == p + [x];
    var d := FirstAppearances(p);
    var a, b := FirstAppearances(s)[j], FirstAppearances(s)[k];
    if x in d {
      FirstAppearanceOrder(p, j, k);
      FirstIndexExtend(p, x, a);
      FirstIndexExtend(p, x, b);
    } else if k < |d| {
      FirstAppearanceOrder(p, j, k);
      FirstIndexExtend(p, x, a);
      FirstIndexExtend(p, x, b);
    } else {
      assert b == x && a in p;
      FirstIndexExtend(p, x, a);
      assert x !in p;
      assert FirstIndex(s, b) == |p|;
    }
  }
}
