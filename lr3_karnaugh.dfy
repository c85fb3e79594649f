/**
 * The Karnaugh-map half of `LogicalFunction` in LR_3/logical_function.py: the reflected Gray
 * code, the map from each row to its value, group checking (`_is_valid_group`), the implicant of
 * a group, the prime search over groups of 4, 2 and 1 cells, and the unused
 * `_find_kmap_implicants` search over sub-cubes.
 */
module Lr3Karnaugh {
  import opened BitStrings
  import opened Terms
  import opened Cover
  import opened Enumerations
  import opened Lr3Gluing
  import opened Lr3Groups

  // ---------------------------------------------------------------- Gray code

  /** `[[b] + x for x in s]`. */
  function ConsAll(b: Trit, s: seq<Term>): (r: seq<Term>)
    ensures |r| == |s| && forall i | 0 <= i < |s| :: r[i] == [b] + s[i]
  {
    seq(|s|, i requires 0 <= i < |s| => [b] + s[i])
  }

  /** `reversed(s)`. */
  function Reversed(s: seq<Term>): (r: seq<Term>)
    ensures |r| == |s| && forall i | 0 <= i < |s| :: r[i] == s[|s| - 1 - i]
  {
    seq(|s|, i requires 0 <= i < |s| => s[|s| - 1 - i])
  }

  /** `_gray_code(n)`: the reflected Gray code, the codes of n - 1 bits prefixed by 0, then reversed and prefixed by 1. */
  function GrayCode(n: nat): (r: seq<Term>)
    ensures |r| == Pow2(n)
  {
    if n == 0 then [[]]
    else
      var lower := GrayCode(n - 1);
      ConsAll(Zero, lower) + ConsAll(One, Reversed(lower))
  }

  /** Position `p` is the only one where `a` and `b` differ. */
  predicate OnlyDiffAt(a: Term, b: Term, p: nat)
    requires |a| == |b| && p < |a|
  {
    a[p] != b[p] && forall i | 0 <= i < |a| && i != p :: a[i] == b[i]
  }

  /** `a` and `b` have the same length and differ in exactly one position. */
  predicate OneApart(a: Term, b: Term)
  {
    |a| == |b| && exists p | 0 <= p < |a| :: OnlyDiffAt(a, b, p)
  }

  lemma OneApartCons(x: Trit, a: Term, b: Term)
    requires OneApart(a, b)
    ensures OneApart([x] + a, [x] + b)
  {
    var p :| 0 <= p < |a| && OnlyDiffAt(a, b, p);
    var xa, xb := [x] + a, [x] + b;
    forall i | 0 <= i < |xa| && i != p + 1 ensures xa[i] == xb[i] {
      if i > 0 {
        assert xa[i] == a[i - 1] && xb[i] == b[i - 1];
      }
    }
    assert OnlyDiffAt(xa, xb, p + 1);
  }

  lemma OneApartSymmetric(a: Term, b: Term)
    requires OneApart(a, b)
    ensures OneApart(b, a)
  {
    var p :| 0 <= p < |a| && OnlyDiffAt(a, b, p);
    assert OnlyDiffAt(b, a, p);
  }

  /** The two halves meet where 0 + x becomes 1 + x. */
  lemma OneApartHead(a: Term)
    ensures OneApart([Zero] + a, [One] + a)
  {
    var za, oa := [Zero] + a, [One] + a;
    forall i | 0 <= i < |za| && i != 0 ensures za[i] == oa[i] {
      assert za[i] == a[i - 1] && oa[i] == a[i - 1];
    }
    assert OnlyDiffAt(za, oa, 0);
  }

  /** Every code of n bits is a full term of length n. */
  lemma {:induction false} GrayCodeShape(n: nat)
    ensures forall i | 0 <= i < |GrayCode(n)| :: |GrayCode(n)[i]| == n && IsFull(GrayCode(n)[i])
  {
    if n > 0 {
      GrayCodeShape(n - 1);
    }
  }

  /** Neighbouring codes differ in exactly one bit. */
  lemma {:induction false} GrayCodeAdjacent(n: nat)
    ensures forall i | 0 <= i < |GrayCode(n)| - 1 :: OneApart(GrayCode(n)[i], GrayCode(n)[i + 1])
  {
    if n > 0 {
      var L := Pow2(n - 1);
      GrayCodeAt(n, 0);
      GrayCodeAdjacent(n - 1);
      forall i | 0 <= i < 2 * L - 1 ensures OneApart(GrayCode(n)[i], GrayCode(n)[i + 1]) {
        if i < L - 1 {
          AdjacentLow(n, i);
        } else if i == L - 1 {
          AdjacentMiddle(n);
        } else {
          AdjacentHigh(n, i);
        }
      }
    }
  }

  /** Two neighbours in the first half differ where their codes of n - 1 bits differ. */
  lemma AdjacentLow(n: nat, i: nat)
    requires 1 <= n && i + 1 < Pow2(n - 1) && OneApart(GrayCode(n - 1)[i], GrayCode(n - 1)[i + 1])
    ensures OneApart(GrayCode(n)[i], GrayCode(n)[i + 1])
  {
    GrayCodeAt(n, i);
    GrayCodeAt(n, i + 1);
    OneApartCons(Zero, GrayCode(n - 1)[i], GrayCode(n - 1)[i + 1]);
  }

  /** The halves meet at two codes that differ only in the first bit. */
  lemma AdjacentMiddle(n: nat)
    requires 1 <= n
    ensures OneApart(GrayCode(n)[Pow2(n - 1) - 1], GrayCode(n)[Pow2(n - 1)])
  {
    var L := Pow2(n - 1);
    GrayCodeAt(n, L - 1);
    GrayCodeAt(n, L);
    OneApartHead(GrayCode(n - 1)[L - 1]);
  }

  /** Two neighbours in the second half are a neighbouring pair of n - 1 bits, mirrored. */
  lemma AdjacentHigh(n: nat, i: nat)
    requires 1 <= n && Pow2(n - 1) <= i < 2 * Pow2(n - 1) - 1
    requires OneApart(GrayCode(n - 1)[2 * Pow2(n - 1) - 2 - i], GrayCode(n - 1)[2 * Pow2(n - 1) - 1 - i])
    ensures OneApart(GrayCode(n)[i], GrayCode(n)[i + 1])
  {
    var lower, j := GrayCode(n - 1), 2 * Pow2(n - 1) - 2 - i;
    GrayCodeAt(n, i);
    GrayCodeAt(n, i + 1);
    OneApartSymmetric(lower[j], lower[j + 1]);
    OneApartCons(One, lower[j + 1], lower[j]);
  }

  /** Code i of n bits: 0 and code i of n - 1 bits in the first half, 1 and the mirrored code in the second. */
  lemma GrayCodeAt(n: nat, i: nat)
    requires 1 <= n && i < 2 * Pow2(n - 1)
    ensures |GrayCode(n)| == 2 * Pow2(n - 1)
    ensures i < Pow2(n - 1) ==> GrayCode(n)[i] == [Zero] + GrayCode(n - 1)[i]
    ensures i >= Pow2(n - 1) ==> GrayCode(n)[i] == [One] + GrayCode(n - 1)[2 * Pow2(n - 1) - 1 - i]
  {
    var lower := GrayCode(n - 1);
    assert GrayCode(n) == ConsAll(Zero, lower) + ConsAll(One, Reversed(lower));
  }

  /** The last code is one bit away from the first: the code is cyclic. */
  lemma GrayCodeCyclic(n: nat)
    requires 1 <= n
    ensures OneApart(GrayCode(n)[|GrayCode(n)| - 1], GrayCode(n)[0])
  {
    var lower := GrayCode(n - 1);
    GrayCodeShape(n - 1);
    OneApartHead(lower[0]);
    OneApartSymmetric([Zero] + lower[0], [One] + lower[0]);
  }

  /** No code is listed twice. */
  lemma {:induction false} GrayCodeDistinct(n: nat)
    ensures Distinct(GrayCode(n))
  {
    if n > 0 {
      var L := Pow2(n - 1);
      GrayCodeDistinct(n - 1);
      GrayCodeAt(n, 0);
      forall i, j | 0 <= i < j < 2 * L ensures GrayCode(n)[i] != GrayCode(n)[j] {
        if i < L && L <= j {
          DistinctAcross(n, i, j);
        } else if j < L {
          DistinctLow(n, i, j);
        } else {
          DistinctHigh(n, i, j);
        }
      }
    }
  }

  /** A code of the first half and one of the second differ in the first bit. */
  lemma DistinctAcross(n: nat, i: nat, j: nat)
    requires 1 <= n && i < Pow2(n - 1) <= j < 2 * Pow2(n - 1)
    ensures GrayCode(n)[i] != GrayCode(n)[j]
  {
    GrayCodeAt(n, i);
    GrayCodeAt(n, j);
    assert GrayCode(n)[i][0] != GrayCode(n)[j][0];
  }

  /** Two codes of the first half differ where their codes of n - 1 bits differ. */
  lemma DistinctLow(n: nat, i: nat, j: nat)
    requires 1 <= n && i < Pow2(n - 1) && j < Pow2(n - 1) && GrayCode(n - 1)[i] != GrayCode(n - 1)[j]
    ensures GrayCode(n)[i] != GrayCode(n)[j]
  {
    GrayCodeAt(n, i);
    GrayCodeAt(n, j);
    assert GrayCode(n)[i][1..] == GrayCode(n - 1)[i];
  }

  /** Two codes of the second half differ where their mirrored codes of n - 1 bits differ. */
  lemma DistinctHigh(n: nat, i: nat, j: nat)
    requires 1 <= n && Pow2(n - 1) <= i < 2 * Pow2(n - 1) && Pow2(n - 1) <= j < 2 * Pow2(n - 1)
    requires GrayCode(n - 1)[2 * Pow2(n - 1) - 1 - i] != GrayCode(n - 1)[2 * Pow2(n - 1) - 1 - j]
    ensures GrayCode(n)[i] != GrayCode(n)[j]
  {
    var L := Pow2(n - 1);
    GrayCodeAt(n, i);
    GrayCodeAt(n, j);
    assert GrayCode(n)[i][1..] == GrayCode(n - 1)[2 * L - 1 - i];
  }

  /** Where the codes of n - 1 bits reappear in the codes of n bits. */
  lemma GrayCodeHalves(n: nat, j: nat)
    requires 1 <= n && j < Pow2(n - 1)
    ensures GrayCode(n)[j] == [Zero] + GrayCode(n - 1)[j]
    ensures GrayCode(n)[Pow2(n - 1) + (Pow2(n - 1) - 1 - j)] == [One] + GrayCode(n - 1)[j]
  {
    var lower := GrayCode(n - 1);
    var first, second := ConsAll(Zero, lower), ConsAll(One, Reversed(lower));
    assert GrayCode(n) == first + second;
  }

  /** Every full term of n positions is a code: the Gray code is an ordering of all 2^n rows. */
  lemma {:induction false} GrayCodeComplete(n: nat, t: Term)
    requires |t| == n && IsFull(t)
    ensures t in GrayCode(n)
  {
    if n > 0 {
      var rest := t[1..];
      assert IsFull(rest);
      GrayCodeComplete(n - 1, rest);
      var j :| 0 <= j < Pow2(n - 1) && GrayCode(n - 1)[j] == rest;
      assert t == [t[0]] + rest;
      CodeFromLower(n, j, t[0]);
    }
  }

  /** Both extensions of a code of n - 1 bits are codes of n bits. */
  lemma CodeFromLower(n: nat, j: nat, b: Trit)
    requires 1 <= n && j < Pow2(n - 1) && b != DC
    ensures [b] + GrayCode(n - 1)[j] in GrayCode(n)
  {
    if b == Zero {
      GrayCodeAt(n, j);
    } else {
      GrayCodeAt(n, 2 * Pow2(n - 1) - 1 - j);
    }
  }

  // ---------------------------------------------------------------- the map

  /** The `values` column of a truth table. */
  function Values(table: seq<Row>): (r: seq<Term>)
    ensures |r| == |table| && forall i | 0 <= i < |table| :: r[i] == table[i].values
  {
    seq(|table|, i requires 0 <= i < |table| => table[i].values)
  }

  /** No later row of the table has the key of row `i`, so row `i` is the one a dict keeps. */
  predicate LastWithKey(table: seq<Row>, i: nat)
    requires i < |table|
  {
    forall j | i < j < |table| :: table[j].values != table[i].values
  }

  /** The dict `kmap` after `kmap[tuple(values)] = result` for each row in turn. */
  function MapOf(table: seq<Row>): map<Term, bool>
  {
    if table == [] then map[]
    else
      var last := table[|table| - 1];
      MapOf(table[..|table| - 1])[last.values := last.result]
  }

  /** The insertion order of that dict: a key is appended when it is first stored. */
  function KeysOf(table: seq<Row>): seq<Term>
  {
    if table == [] then []
    else
      var last := table[|table| - 1];
      var init := KeysOf(table[..|table| - 1]);
      if last.values in init then init else init + [last.values]
  }

  /**
   * `_build_karnaugh_map`: `kmap[tuple(values)] = result` for every row of the table. `keys` is
   * the insertion order the Python dict keeps and `kmap.items()` follows. The Gray order the
   * source computes here is never used.
   */
  method BuildKarnaughMap(table: seq<Row>) returns (kmap: map<Term, bool>, keys: seq<Term>)
    ensures kmap == MapOf(table) && keys == KeysOf(table)
  {
    kmap, keys := map[], [];
    for i := 0 to |table|
      invariant kmap == MapOf(table[..i]) && keys == KeysOf(table[..i])
    {
      var key := table[i].values;
      assert table[..i + 1][..i] == table[..i];
      KeysOfMap(table[..i]);
      assert key in keys <==> key in kmap;
      if key !in kmap {
        keys := keys + [key];
      }
      kmap := kmap[key := table[i].result];
    }
    assert table[..|table|] == table;
  }

  /**
   * The map has one key per distinct row, listed once each in insertion order, and every key
   * holds the result of the last row with that key.
   */
  lemma MapOfDomain(table: seq<Row>)
    ensures MapOf(table).Keys == Elements(Values(table))
    ensures Distinct(KeysOf(table)) && forall k :: k in KeysOf(table) <==> k in MapOf(table)
    ensures forall i | 0 <= i < |table| && LastWithKey(table, i) :: MapOf(table)[table[i].values] == table[i].result
  {
    MapOfKeys(table);
    KeysOfMap(table);
    forall i | 0 <= i < |table| && LastWithKey(table, i) ensures MapOf(table)[table[i].values] == table[i].result {
      MapOfLast(table, i);
    }
  }

  /** The map's keys are the table's assignments. */
  lemma {:induction false} MapOfKeys(table: seq<Row>)
    ensures MapOf(table).Keys == Elements(Values(table))
  {
    if table != [] {
      var init := table[..|table| - 1];
      MapOfKeys(init);
      assert Values(table) == Values(init) + [table[|table| - 1].values];
    }
  }

  /** The insertion order lists each key of the map once. */
  lemma {:induction false} KeysOfMap(table: seq<Row>)
    ensures Distinct(KeysOf(table)) && forall k :: k in KeysOf(table) <==> k in MapOf(table)
  {
    if table != [] {
      KeysOfMap(table[..|table| - 1]);
    }
  }

  /** A key holds the result of its last row. */
  lemma {:induction false} MapOfLast(table: seq<Row>, i: nat)
    requires i < |table| && LastWithKey(table, i)
    ensures table[i].values in MapOf(table) && MapOf(table)[table[i].values] == table[i].result
    decreases |table|
  {
    var init := table[..|table| - 1];
    if i < |init| {
      assert LastWithKey(init, i);
      MapOfLast(init, i);
    }
  }

  /** On a table whose rows are distinct (a truth table), the insertion order is the row order. */
  lemma {:induction false} KeysOfDistinct(table: seq<Row>)
    requires Distinct(Values(table))
    ensures KeysOf(table) == Values(table)
  {
    if table != [] {
      var init := table[..|table| - 1];
      assert Values(init) == Values(table)[..|table| - 1];
      KeysOfDistinct(init);
      assert table[|table| - 1].values !in Values(init);
    }
  }

  /** `[k for k, v in kmap.items() if v == target]`. */
  function TargetCells(kmap: map<Term, bool>, keys: seq<Term>, target: bool): (r: seq<Term>)
    requires forall k | k in keys :: k in kmap
  {
    if keys == [] then []
    else
      var last := keys[|keys| - 1];
      TargetCells(kmap, keys[..|keys| - 1], target) + (if kmap[last] == target then [last] else [])
  }

  /** The truth table `_build_truth_table` stores for the result column `truth`. */
  function TableOf(truth: seq<bool>, n: nat): (table: seq<Row>)
    ensures |table| == |truth| && forall i | 0 <= i < |truth| :: table[i] == Row(Encode(i, n), truth[i])
  {
    seq(|truth|, i requires 0 <= i < |truth| => Row(Encode(i, n), truth[i]))
  }

  /**
   * On the map of a full truth table every row is a key holding its result, the keys come in row
   * order, and the cells holding `target` are the minterms (target 1) or the maxterms (target 0).
   */
  lemma KarnaughTargets(truth: seq<bool>, n: nat)
    requires |truth| == Pow2(n)
    ensures KeysOf(TableOf(truth, n)) == Values(TableOf(truth, n))
    ensures forall i | 0 <= i < |truth| ::
              Encode(i, n) in MapOf(TableOf(truth, n)) && MapOf(TableOf(truth, n))[Encode(i, n)] == truth[i]
    ensures forall k | k in KeysOf(TableOf(truth, n)) :: k in MapOf(TableOf(truth, n))
    ensures TargetCells(MapOf(TableOf(truth, n)), KeysOf(TableOf(truth, n)), true) == Minterms(truth, n)
    ensures TargetCells(MapOf(TableOf(truth, n)), KeysOf(TableOf(truth, n)), false) == Maxterms(truth, n)
  {
    var table := TableOf(truth, n);
    TableDistinct(truth, n);
    KeysOfDistinct(table);
    TableMap(truth, n);
    TableTargets(truth, n);
    forall i | 0 <= i < |truth| ensures Encode(i, n) in MapOf(table) && MapOf(table)[Encode(i, n)] == truth[i] {
      assert Values(table)[i] == Encode(i, n);
    }
  }

  /** The cells of the map of a truth table listed in row order, filtered by value. */
  lemma TableTargets(truth: seq<bool>, n: nat)
    requires |truth| == Pow2(n)
    requires forall i | 0 <= i < |truth| ::
               Values(TableOf(truth, n))[i] in MapOf(TableOf(truth, n)) &&
               MapOf(TableOf(truth, n))[Values(TableOf(truth, n))[i]] == truth[i]
    ensures forall k | k in Values(TableOf(truth, n)) :: k in MapOf(TableOf(truth, n))
    ensures TargetCells(MapOf(TableOf(truth, n)), Values(TableOf(truth, n)), true) == Minterms(truth, n)
    ensures TargetCells(MapOf(TableOf(truth, n)), Values(TableOf(truth, n)), false) == Maxterms(truth, n)
  {
    var table := TableOf(truth, n);
    var kmap := MapOf(table);
    TargetsPrefix(kmap, table, |table|);
    assert Values(table)[..|table|] == Values(table) && table[..|table|] == table;
    RowsWhereMinterms(table, n);
    assert Results(table) == truth;
  }

  /** The rows of a truth table are distinct. */
  lemma TableDistinct(truth: seq<bool>, n: nat)
    requires |truth| == Pow2(n)
    ensures Distinct(Values(TableOf(truth, n)))
  {
    TruthTableRows(n, TableOf(truth, n), Encode(0, n));
  }

  /** Every row of a truth table is a key of its map, holding the row's result. */
  lemma TableMap(truth: seq<bool>, n: nat)
    requires |truth| == Pow2(n)
    ensures forall i | 0 <= i < |truth| ::
              Values(TableOf(truth, n))[i] in MapOf(TableOf(truth, n)) &&
              MapOf(TableOf(truth, n))[Values(TableOf(truth, n))[i]] == truth[i]
  {
    var table := TableOf(truth, n);
    TableDistinct(truth, n);
    MapOfDomain(table);
    forall i | 0 <= i < |table| ensures Values(table)[i] in MapOf(table) && MapOf(table)[Values(table)[i]] == truth[i] {
      assert LastWithKey(table, i);
    }
  }

  lemma {:induction false} TargetsPrefix(kmap: map<Term, bool>, table: seq<Row>, m: nat)
    requires m <= |table|
    requires forall i | 0 <= i < |table| :: Values(table)[i] in kmap && kmap[Values(table)[i]] == table[i].result
    ensures forall k | k in Values(table)[..m] :: k in kmap
    ensures TargetCells(kmap, Values(table)[..m], true) == RowsWhere(table[..m], true)
    ensures TargetCells(kmap, Values(table)[..m], false) == RowsWhere(table[..m], false)
  {
    if m > 0 {
      TargetsPrefix(kmap, table, m - 1);
      assert Values(table)[..m][..m - 1] == Values(table)[..m - 1];
      assert table[..m][..m - 1] == table[..m - 1];
    }
  }

  /** The cells holding `target` are the keys whose value is `target`. */
  lemma {:induction false} TargetCellsMembers(kmap: map<Term, bool>, keys: seq<Term>, target: bool)
    requires forall k | k in keys :: k in kmap
    ensures forall t :: t in TargetCells(kmap, keys, target) <==> t in keys && kmap[t] == target
  {
    if keys != [] {
      TargetCellsMembers(kmap, keys[..|keys| - 1], target);
      assert keys == keys[..|keys| - 1] + [keys[|keys| - 1]];
    }
  }

  // ---------------------------------------------------------------- the prime search

  /**
   * What the group search can produce for a list of full target rows: n positions, at most two of
   * them don't-care, covering only targets and at least one of them.
   */
  ghost predicate GroupImplicant(p: Term, targets: seq<Term>, n: nat)
  {
    |p| == n && n <= FixedCount(p) + 2 && ImplicantOf(p, targets) &&
    exists c | c in targets :: |c| <= |p| && Covers(p, c)
  }

  /** A valid group of at most four target cells stands for such an implicant. */
  lemma ValidGroupImplicant(targets: seq<Term>, g: seq<Term>, n: nat)
    requires forall c | c in targets :: |c| == n && IsFull(c)
    requires |g| <= 4 && forall c | c in g :: c in targets
    requires ValidGroup(g, n)
    ensures GroupImplicant(CommonPattern(g, n), targets, n)
  {
    NonFixedCount(g, n);
    Pow2AtLeastEight(|NonFixed(g, n)|);
    ValidGroupImplicantOf(targets, g, n);
    CommonPatternCovers(g, n, g[0]);
    assert g[0] in targets;
  }

  lemma Pow2AtLeastEight(k: nat)
    ensures 3 <= k ==> 8 <= Pow2(k)
  {
    if 3 <= k {
      Pow2Monotone(3, k);
    }
  }

  /** The rows the implicant of a valid group of targets covers are its cells, hence targets. */
  lemma ValidGroupImplicantOf(targets: seq<Term>, g: seq<Term>, n: nat)
    requires forall c | c in targets :: |c| == n && IsFull(c)
    requires forall c | c in g :: c in targets
    requires ValidGroup(g, n)
    ensures ImplicantOf(CommonPattern(g, n), targets)
  {
    var imp := CommonPattern(g, n);
    forall t | |t| == n && IsFull(t) && Covers(imp, t) ensures exists u | u in targets && |u| == n :: Covers(u, t) {
      ValidGroupSubcube(g, n, t);
      assert t in targets && Covers(t, t);
    }
  }

  /** Another implicant in `all` covers `imp` (`any(self._covers(other, imp) for other in all if other != imp)`). */
  predicate CoveredByOther(all: seq<Term>, imp: Term)
  {
    exists other | other in all && other != imp && |imp| <= |other| :: Covers(other, imp)
  }

  /** `[imp for imp in ps if not CoveredByOther(all, imp)]`. */
  function KeepUncovered(all: seq<Term>, ps: seq<Term>): seq<Term>
  {
    if ps == [] then []
    else
      var last := ps[|ps| - 1];
      KeepUncovered(all, ps[..|ps| - 1]) + (if CoveredByOther(all, last) then [] else [last])
  }

  /** The filter keeps exactly the implicants no other one covers, without repeating any. */
  lemma {:induction false} KeepUncoveredMembers(all: seq<Term>, ps: seq<Term>)
    ensures forall x :: x in KeepUncovered(all, ps) <==> x in ps && !CoveredByOther(all, x)
    ensures Distinct(ps) ==> Distinct(KeepUncovered(all, ps))
  {
    if ps != [] {
      var init := ps[..|ps| - 1];
      KeepUncoveredMembers(all, init);
      assert ps == init + [ps[|ps| - 1]];
      if Distinct(ps) {
        assert Distinct(init);
        assert ps[|ps| - 1] !in init;
      }
    }
  }

  /** A covering implicant has no more fixed positions, and fewer unless it is the same term. */
  lemma {:induction false} CoversFixedCount(a: Term, b: Term)
    requires |a| == |b| && Covers(a, b)
    ensures FixedCount(a) <= FixedCount(b)
    ensures a != b ==> FixedCount(a) < FixedCount(b)
  {
    if a != [] {
      var m := |a| - 1;
      CoversFixedCount(a[..m], b[..m]);
      if a[..m] == b[..m] && a[m] == b[m] {
        assert a == a[..m] + [a[m]] && b == b[..m] + [b[m]];
      }
    }
  }

  /** Every implicant in the list is covered by one the filter keeps: the most general above it. */
  lemma {:induction false} CoveredByKept(all: seq<Term>, x: Term, n: nat)
    requires forall p | p in all :: |p| == n
    requires x in all
    ensures exists y | y in KeepUncovered(all, all) :: |x| <= |y| && Covers(y, x)
    decreases FixedCount(x)
  {
    KeepUncoveredMembers(all, all);
    if CoveredByOther(all, x) {
      var other :| other in all && other != x && |x| <= |other| && Covers(other, x);
      CoversFixedCount(other, x);
      CoveredByKept(all, other, n);
      var y :| y in KeepUncovered(all, all) && |other| <= |y| && Covers(y, other);
      CoversTransitive(y, other, x);
    } else {
      assert Covers(x, x);
    }
  }

  /**
   * The inner loop of `_find_prime_implicants` for one group size: each valid group's implicant
   * is appended unless it is already listed.
   */
  method AddValidGroups(primes0: seq<Term>, groups: seq<seq<Term>>, ghost targets: seq<Term>, n: nat)
    returns (primes: seq<Term>)
    requires forall c | c in targets :: |c| == n && IsFull(c)
    requires forall g | g in groups :: |g| <= 4 && forall c | c in g :: c in targets
    requires AllGroupImplicants(primes0, targets, n)
    requires Distinct(primes0)
    ensures forall p | p in primes0 :: p in primes
    ensures AllGroupImplicants(primes, targets, n)
    ensures Distinct(primes)
    ensures Listed(groups, primes, n)
  {
    primes := primes0;
    for gi := 0 to |groups|
      invariant forall p | p in primes0 :: p in primes
      invariant AllGroupImplicants(primes, targets, n)
      invariant Distinct(primes)
      invariant Listed(groups[..gi], primes, n)
    {
      assert groups[gi] in groups;
      var before := primes;
      primes := AddIfValid(primes, groups[gi], targets, n);
      TakeOneMore(groups, gi);
      ListedSnoc(groups[..gi], groups[gi], before, primes, n);
    }
    assert groups[..|groups|] == groups;
  }

  /** Every valid group among `groups` has its implicant in `found`. */
  ghost predicate Listed(groups: seq<seq<Term>>, found: seq<Term>, n: nat)
  {
    forall g | g in groups && ValidCandidate(g, n) :: CommonPattern(g, n) in found
  }

  lemma ListedSnoc(groups: seq<seq<Term>>, g: seq<Term>, found: seq<Term>, found': seq<Term>, n: nat)
    requires Listed(groups, found, n) && forall p | p in found :: p in found'
    requires ValidCandidate(g, n) ==> CommonPattern(g, n) in found'
    ensures Listed(groups + [g], found', n)
  {
  }

  lemma ListedAppend(groups: seq<seq<Term>>, more: seq<seq<Term>>, found: seq<Term>, found': seq<Term>, n: nat)
    requires Listed(groups, found, n) && Listed(more, found', n) && forall p | p in found :: p in found'
    ensures Listed(groups + more, found', n)
  {
  }

  /** One pass of that loop: a valid group's implicant is appended unless it is already listed. */
  method AddIfValid(primes0: seq<Term>, cells: seq<Term>, ghost targets: seq<Term>, n: nat) returns (primes: seq<Term>)
    requires forall c | c in targets :: |c| == n && IsFull(c)
    requires |cells| <= 4 && forall c | c in cells :: c in targets
    requires AllGroupImplicants(primes0, targets, n) && Distinct(primes0)
    ensures forall p | p in primes0 :: p in primes
    ensures forall p | p in primes :: p in primes0 || (ValidGroup(cells, n) && p == CommonPattern(cells, n))
    ensures ValidGroup(cells, n) ==> CommonPattern(cells, n) in primes
    ensures AllGroupImplicants(primes, targets, n) && Distinct(primes)
  {
    primes := primes0;
    var valid := IsValidGroup(cells, n);
    if valid {
      var imp := GroupToImplicant(cells, n);
      ValidGroupImplicant(targets, cells, n);
      if imp !in primes {
        primes := primes + [imp];
      }
    }
  }

  /** The group sizes `_find_prime_implicants` tries, in order. */
  const GroupSizes: seq<nat> := [4, 2, 1]

  /** The groups tried for the first m sizes. */
  function Tried(targets: seq<Term>, m: nat): seq<seq<Term>>
    requires m <= |GroupSizes|
  {
    if m == 0 then [] else Tried(targets, m - 1) + Combinations(targets, GroupSizes[m - 1])
  }

  /** All groups `_find_prime_implicants` tries, in order: the 4-, then 2-, then 1-cell combinations. */
  function Candidates(targets: seq<Term>): seq<seq<Term>>
  {
    Tried(targets, |GroupSizes|)
  }

  /** A candidate group whose cells have n positions and that passes `_is_valid_group`. */
  predicate ValidCandidate(g: seq<Term>, n: nat)
  {
    Wide(g, n) && ValidGroup(g, n)
  }

  /**
   * `_find_prime_implicants(kmap, target)`: the implicants of the valid groups of 4, 2 and 1
   * target cells, each listed once, keeping only those no other listed implicant covers. Each
   * has at most two don't-care positions and covers only target cells; together they cover
   * every target cell and every candidate group; none covers another.
   */
  method FindPrimeImplicants(kmap: map<Term, bool>, keys: seq<Term>, target: bool, n: nat) returns (primes: seq<Term>)
    requires forall k | k in keys :: k in kmap && |k| == n && IsFull(k)
    ensures forall p | p in primes :: GroupImplicant(p, TargetCells(kmap, keys, target), n)
    ensures Distinct(primes)
    ensures forall p, q | p in primes && q in primes && p != q :: |p| == |q| && !Covers(q, p)
    ensures forall c | c in TargetCells(kmap, keys, target) :: exists p | p in primes :: |c| <= |p| && Covers(p, c)
    ensures forall g | g in Candidates(TargetCells(kmap, keys, target)) && ValidCandidate(g, n) ::
      exists p | p in primes :: |p| == n && Covers(p, CommonPattern(g, n))
  {
    var allTargets := TargetCells(kmap, keys, target);
    TargetCellsMembers(kmap, keys, target);
    var found := CollectGroupImplicants(allTargets, n);
    primes := KeepUncovered(found, found);
    KeptSound(allTargets, found, primes, n);
    SingletonsFound(allTargets, found, n);
    KeptCoverAll(allTargets, found, primes, n);
  }

  ghost predicate AllGroupImplicants(found: seq<Term>, targets: seq<Term>, n: nat)
  {
    forall p | p in found :: GroupImplicant(p, targets, n)
  }

  /** The two loops of `_find_prime_implicants` before the filter. */
  method CollectGroupImplicants(targets: seq<Term>, n: nat) returns (found: seq<Term>)
    requires forall c | c in targets :: |c| == n && IsFull(c)
    ensures forall p | p in found :: GroupImplicant(p, targets, n)
    ensures Distinct(found)
    ensures forall g | g in Candidates(targets) && ValidCandidate(g, n) :: CommonPattern(g, n) in found
  {
    found := [];
    for si := 0 to |GroupSizes|
      invariant AllGroupImplicants(found, targets, n)
      invariant Distinct(found)
      invariant Listed(Tried(targets, si), found, n)
    {
      var groupSize := GroupSizes[si];
      CombinationsMembers(targets, groupSize);
      var before := found;
      found := AddValidGroups(found, Combinations(targets, groupSize), targets, n);
      ListedAppend(Tried(targets, si), Combinations(targets, groupSize), before, found, n);
      assert Tried(targets, si + 1) == Tried(targets, si) + Combinations(targets, groupSize);
    }
  }

  /** Every target row is among the found implicants, as the implicant of its own one-cell group. */
  lemma SingletonsFound(targets: seq<Term>, found: seq<Term>, n: nat)
    requires forall c | c in targets :: |c| == n
    requires forall g | g in Candidates(targets) && ValidCandidate(g, n) :: CommonPattern(g, n) in found
    ensures forall c | c in targets :: c in found
  {
    forall c | c in targets ensures c in found {
      SingletonCandidate(targets, c, n);
    }
  }

  /** The filtered list keeps only found implicants, once each, none covered by another kept one. */
  lemma KeptSound(targets: seq<Term>, found: seq<Term>, primes: seq<Term>, n: nat)
    requires forall p | p in found :: GroupImplicant(p, targets, n)
    requires Distinct(found)
    requires primes == KeepUncovered(found, found)
    ensures forall p | p in primes :: GroupImplicant(p, targets, n)
    ensures Distinct(primes)
    ensures forall p, q | p in primes && q in primes && p != q :: |p| == |q| && !Covers(q, p)
  {
    KeepUncoveredMembers(found, found);
  }

  /** Every full target row, as a group of one, is a valid candidate with itself as implicant. */
  lemma SingletonCandidate(targets: seq<Term>, c: Term, n: nat)
    requires c in targets && |c| == n
    ensures [c] in Candidates(targets) && ValidCandidate([c], n) && CommonPattern([c], n) == c
  {
    CombinationsSingletons(targets, c);
    CommonPatternSingle(c);
    NonFixedSingle(c, n);
    assert Fill(c, [], Encode(0, 0)) == c;
  }

  /** A single cell has no non-fixed position. */
  lemma {:induction false} NonFixedSingle(c: Term, m: nat)
    requires m <= |c|
    ensures NonFixed([c], m) == []
  {
    if m > 0 {
      NonFixedSingle(c, m - 1);
      assert AllAgreeAt([c], m - 1);
    }
  }

  /** The kept implicants cover every target and every found implicant. */
  lemma KeptCoverAll(targets: seq<Term>, found: seq<Term>, primes: seq<Term>, n: nat)
    requires forall p | p in found :: |p| == n
    requires forall c | c in targets :: |c| == n && c in found
    requires forall g | g in Candidates(targets) && ValidCandidate(g, n) :: CommonPattern(g, n) in found
    requires primes == KeepUncovered(found, found)
    ensures forall c | c in targets :: exists p | p in primes :: |c| <= |p| && Covers(p, c)
    ensures forall g | g in Candidates(targets) && ValidCandidate(g, n) ::
      exists p | p in primes :: |p| == n && Covers(p, CommonPattern(g, n))
  {
    forall x | x in found ensures exists p | p in primes :: |p| == n && Covers(p, x) {
      CoveredByKept(found, x, n);
      KeepUncoveredMembers(found, found);
    }
  }
}
