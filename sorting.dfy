/**
 * A stable insertion sort over an ordering `le` (“may come before”), standing for Python's
 * `sorted()` / `list.sort(key=...)`, which are stable.
 */
module Sorting {
  ghost predicate TotalPreorder<T(!new)>(le: (T, T) -> bool)
  {
    (forall a, b :: le(a, b) || le(b, a)) &&
    (forall a, b, c :: le(a, b) && le(b, c) ==> le(a, c))
  }

  predicate SortedBy<T>(s: seq<T>, le: (T, T) -> bool)
  {
    forall i, j | 0 <= i < j < |s| :: le(s[i], s[j])
  }

  /** Inserts `x` after every element that may come before it. */
  function Insert<T>(x: T, s: seq<T>, le: (T, T) -> bool): seq<T>
  {
    if s == [] then [x]
    else if le(s[0], x) then [s[0]] + Insert(x, s[1..], le)
    else [x] + s
  }

  /** Sorts by inserting each element, in input order, into the sorted prefix. */
  function Sort<T>(s: seq<T>, le: (T, T) -> bool): seq<T>
  {
    if s == [] then [] else Insert(s[|s| - 1], Sort(s[..|s| - 1], le), le)
  }

  lemma {:induction false} InsertPermutes<T>(x: T, s: seq<T>, le: (T, T) -> bool)
    ensures multiset(Insert(x, s, le)) == multiset(s) + multiset{x}
  {
    if s != [] && le(s[0], x) {
      InsertPermutes(x, s[1..], le);
      assert s == [s[0]] + s[1..];
    }
  }

  lemma {:induction false} InsertSorted<T(!new)>(x: T, s: seq<T>, le: (T, T) -> bool)
    requires TotalPreorder(le) && SortedBy(s, le)
    ensures SortedBy(Insert(x, s, le), le)
  {
    if s != [] && le(s[0], x) {
      InsertSorted(x, s[1..], le);
      var r := Insert(x, s[1..], le);
      InsertPermutes(x, s[1..], le);
      forall k | 0 <= k < |r|
        ensures le(s[0], r[k])
      {
        assert r[k] in multiset(r);
        assert r[k] in multiset(s[1..]) || r[k] == x;
        if r[k] != x {
          var j :| 0 <= j < |s[1..]| && s[1..][j] == r[k];
          assert s[j + 1] == r[k];
        }
      }
    }
  }

  lemma {:induction false} SortCorrect<T(!new)>(s: seq<T>, le: (T, T) -> bool)
    requires TotalPreorder(le)
    ensures SortedBy(Sort(s, le), le)
    ensures multiset(Sort(s, le)) == multiset(s)
  {
    if s != [] {
      SortCorrect(s[..|s| - 1], le);
      InsertSorted(s[|s| - 1], Sort(s[..|s| - 1], le), le);
      InsertPermutes(s[|s| - 1], Sort(s[..|s| - 1], le), le);
      assert s == s[..|s| - 1] + [s[|s| - 1]];
    }
  }

  /** `le` holds both ways: neither element must come before the other. */
  predicate Tied<T>(x: T, y: T, le: (T, T) -> bool) {
    le(x, y) && le(y, x)
  }

  /** `[y]` when y is tied with x, else nothing. */
  function TiedPart<T>(x: T, y: T, le: (T, T) -> bool): seq<T> {
    if Tied(x, y, le) then [y] else []
  }

  /** The elements of `s` tied with `x`, in their order in `s`. */
  function TiedWith<T>(s: seq<T>, x: T, le: (T, T) -> bool): seq<T>
  {
    if s == [] then [] else TiedPart(x, s[0], le) + TiedWith(s[1..], x, le)
  }

  lemma {:induction false} TiedWithConcat<T>(a: seq<T>, b: seq<T>, x: T, le: (T, T) -> bool)
    ensures TiedWith(a + b, x, le) == TiedWith(a, x, le) + TiedWith(b, x, le)
    decreases |a|
  {
    if a == [] {
      assert a + b == b;
    } else {
      var ab := a + b;
      assert ab[0] == a[0] && ab[1..] == a[1..] + b;
      TiedWithConcat(a[1..], b, x, le);
      var p, ta, tb := TiedPart(x, a[0], le), TiedWith(a[1..], x, le), TiedWith(b, x, le);
      assert TiedWith(ab, x, le) == p + (ta + tb);
      assert p + (ta + tb) == (p + ta) + tb;
    }
  }

  /** In a sorted list, nothing after an element that may not come before y is tied with y. */
  lemma {:induction false} NoneTiedAfter<T(!new)>(s: seq<T>, x: T, y: T, le: (T, T) -> bool)
    requires TotalPreorder(le) && SortedBy(s, le) && s != [] && !le(s[0], y) && Tied(x, y, le)
    ensures TiedWith(s, x, le) == []
    decreases |s|
  {
    assert !Tied(x, s[0], le);
    if |s| > 1 {
      assert le(s[0], s[1]);
      NoneTiedAfter(s[1..], x, y, le);
    }
  }

  /** Inserting y into a sorted list puts it after every element tied with it. */
  lemma {:induction false} InsertTiedWith<T(!new)>(y: T, s: seq<T>, x: T, le: (T, T) -> bool)
    requires TotalPreorder(le) && SortedBy(s, le)
    ensures TiedWith(Insert(y, s, le), x, le) == TiedWith(s, x, le) + TiedPart(x, y, le)
    decreases |s|
  {
    if s == [] {
      assert TiedWith([y], x, le) == TiedPart(x, y, le) + TiedWith([y][1..], x, le);
      assert [y][1..] == [];
    } else if le(s[0], y) {
      var r := Insert(y, s[1..], le);
      InsertTiedWith(y, s[1..], x, le);
      assert ([s[0]] + r)[0] == s[0] && ([s[0]] + r)[1..] == r;
      var p, t := TiedPart(x, s[0], le), TiedWith(s[1..], x, le);
      assert TiedWith([s[0]] + r, x, le) == p + (t + TiedPart(x, y, le));
      assert p + (t + TiedPart(x, y, le)) == (p + t) + TiedPart(x, y, le);
    } else {
      assert ([y] + s)[0] == y && ([y] + s)[1..] == s;
      assert TiedWith([y] + s, x, le) == TiedPart(x, y, le) + TiedWith(s, x, le);
      if Tied(x, y, le) {
        NoneTiedAfter(s, x, y, le);
      } else {
        assert TiedPart(x, y, le) == [];
      }
    }
  }

  /**
   * The sort is stable: the elements tied with any x come out of `Sort` in the order they had in
   * the input.
   */
  lemma {:induction false} SortStable<T(!new)>(s: seq<T>, x: T, le: (T, T) -> bool)
    requires TotalPreorder(le)
    ensures TiedWith(Sort(s, le), x, le) == TiedWith(s, x, le)
  {
    if s != [] {
      var init, last := s[..|s| - 1], s[|s| - 1];
      SortStable(init, x, le);
      SortCorrect(init, le);
      InsertTiedWith(last, Sort(init, le), x, le);
      assert s == init + [last];
      TiedWithConcat(init, [last], x, le);
      assert TiedWith([last], x, le) == TiedPart(x, last, le) + TiedWith([last][1..], x, le);
      assert [last][1..] == [];
    }
  }
}
