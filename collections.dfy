/** Unordered containers of the C++ source, seen through Dafny sets:
    their iteration order is unspecified, and their reductions. */
module Collections {
  ghost predicate NoDuplicates<T>(xs: seq<T>)
  {
    forall i, j :: 0 <= i < j < |xs| ==> xs[i] != xs[j]
  }

  /** `xs` lists every element of `s` exactly once, in some order. */
  ghost predicate Enumerates<T>(xs: seq<T>, s: set<T>)
  {
    NoDuplicates(xs) && (forall i :: 0 <= i < |xs| ==> xs[i] in s) && forall x :: x in s ==> x in xs
  }

  /** Copies an unordered set into a sequence in its (unspecified)
      iteration order. */
  method Enumerate<T>(s: set<T>) returns (xs: seq<T>)
    ensures Enumerates(xs, s) && |xs| == |s|
  {
    xs := [];
    var rest := s;
    while rest != {}
      invariant forall i :: 0 <= i < |xs| ==> xs[i] in s && xs[i] !in rest
      invariant forall x :: x in s ==> x in xs || x in rest
      invariant rest <= s
      invariant NoDuplicates(xs)
      invariant |xs| + |rest| == |s|
      decreases |rest|
    {
      var x :| x in rest;
      xs := xs + [x];
      rest := rest - {x};
    }
  }

  /** The largest element of `s`, or 0 when `s` is empty. */
  ghost function MaxOf(s: set<nat>): (m: nat)
    ensures forall x :: x in s ==> x <= m
    ensures s == {} ==> m == 0
    ensures s != {} ==> m in s
    decreases |s|
  {
    if s == {} then 0
    else
      var x :| x in s;
      var r := MaxOf(s - {x});
      assert forall y :: y in s ==> y == x || y in s - {x};
      if x > r then x else r
  }
}
