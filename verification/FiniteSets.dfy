/** Sizes of finite sets, and sequences without repetition. */
module FiniteSets {

  /** A one-to-one image has as many members as its domain. */
  lemma {:induction false} ImageSize<J, K>(xs: set<J>, f: map<J, K>, ys: set<K>)
    requires xs <= f.Keys
    requires forall i, j | i in xs && j in xs && i != j :: f[i] != f[j]
    requires forall x | x in xs :: f[x] in ys
    requires forall y | y in ys :: exists x :: x in xs && f[x] == y
    ensures |ys| == |xs|
  {
    if x :| x in xs {
      ImageSize(xs - {x}, f, ys - {f[x]});
    } else {
      assert xs == {} && ys == {};
    }
  }

  ghost function Range(n: nat): (s: set<int>)
    ensures |s| == n && forall i :: i in s <==> 0 <= i < n
  {
    if n == 0 then {} else Range(n - 1) + {n - 1}
  }

  lemma {:induction false} SubsetCardinality<T>(a: set<T>, b: set<T>)
    requires a <= b
    ensures |a| <= |b|
    ensures |a| == |b| ==> a == b
    decreases a
  {
    if a != {} {
      var x :| x in a;
      SubsetCardinality(a - {x}, b - {x});
    }
  }

  lemma SubsetSize(s: set<int>, n: nat)
    requires forall i | i in s :: 0 <= i < n
    ensures |s| <= n
    ensures |s| == n ==> s == Range(n)
  {
    SubsetCardinality(s, Range(n));
  }

  predicate Distinct<T(==)>(s: seq<T>)
  {
    forall i, j | 0 <= i < j < |s| :: s[i] != s[j]
  }

  lemma {:induction false} DistinctSize<T>(s: seq<T>)
    requires Distinct(s)
    ensures |set x | x in s| == |s|
  {
    if s == [] {
      assert (set x | x in s) == {};
    } else {
      var rest := s[1..];
      DistinctSize(rest);
      assert s == [s[0]] + rest;
      assert (set x | x in s) == (set x | x in rest) + {s[0]};
    }
  }
}
