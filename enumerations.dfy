/** Listing the elements of a set in an unspecified order, as Python's iteration over a set does. */
module Enumerations {
  import opened Text

  /** `order` lists every element of `parts` exactly once. */
  predicate IsOrdering<T(==)>(order: seq<T>, parts: set<T>)
  {
    Distinct(order) && (forall x | x in order :: x in parts) && (forall x | x in parts :: x in order)
  }
  predicate Distinct<T(==)>(s: seq<T>)
  {
    forall i, j | 0 <= i < j < |s| :: s[i] != s[j]
  }

  /** A prefix one element longer. */
  lemma TakeOneMore<T>(s: seq<T>, i: nat)
    requires i < |s|
    ensures s[..i + 1] == s[..i] + [s[i]]
  {
  }

  /** A duplicate-free sequence has as many elements as it has distinct members. */
  lemma {:induction false} DistinctCard<T>(s: seq<T>)
    requires Distinct(s)
    ensures |set x | x in s| == |s|
  {
    if s != [] {
      var p := s[..|s| - 1];
      DistinctCard(p);
      assert (set x | x in s) == (set x | x in p) + {s[|s| - 1]};
      assert s[|s| - 1] !in (set x | x in p);
    }
  }

  /** An ordering of a set is as long as the set is large. */
  lemma OrderingCard<T>(order: seq<T>, parts: set<T>)
    requires IsOrdering(order, parts)
    ensures |order| == |parts|
  {
    DistinctCard(order);
    assert (set x | x in order) == parts;
  }

  /** `list(s)`: every element exactly once, in an order the caller may not rely on. */
  method Enumerate<T(==)>(s: set<T>) returns (r: seq<T>)
    ensures |r| == |s| && Distinct(r)
    ensures forall x :: x in r <==> x in s
  {
    r := [];
    var rest := s;
    while rest != {}
      invariant Distinct(r)
      invariant forall x :: x in r <==> x in s && x !in rest
      invariant rest <= s
      invariant |r| + |rest| == |s|
      decreases |rest|
    {
      var x :| x in rest;
      r := r + [x];
      rest := rest - {x};
    }
  }

  /** `sep.join(parts)` for a set of strings: the parts in an unspecified order. */
  method JoinInSomeOrder(parts: set<string>, sep: string) returns (r: string)
    ensures exists order :: IsOrdering(order, parts) && r == Join(order, sep)
  {
    var order := Enumerate(parts);
    r := Join(order, sep);
  }
}
