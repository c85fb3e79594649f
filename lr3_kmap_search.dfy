/**
 * `_find_kmap_implicants` and `_kmap_imp_covered` in LR_3/logical_function.py: for every number
 * of don't-care positions from n down to 1, every choice of kept positions and every assignment
 * of them, the template is kept when all the rows it spans hold the target value and no earlier
 * result already covers it. Nothing in the source calls this search.
 */
module Lr3KmapSearch {
  import opened BitStrings
  import opened Terms
  import opened Enumerations
  import opened Lr3Groups

  // ---------------------------------------------------------------- positions

  /** `range(a, n)`. */
  function Range(a: nat, n: nat): (r: seq<nat>)
    requires a <= n
    ensures |r| == n - a && forall q | 0 <= q < |r| :: r[q] == a + q
  {
    seq(n - a, q requires 0 <= q < n - a => a + q)
  }

  predicate Increasing(s: seq<nat>)
  {
    forall a, b | 0 <= a < b < |s| :: s[a] < s[b]
  }

  lemma IncreasingDistinct(s: seq<nat>)
    requires Increasing(s)
    ensures Distinct(s)
  {
  }

  /** `keep` has k positions, all below n. */
  predicate Placed(keep: seq<nat>, n: nat, k: nat)
  {
    |keep| == k && forall q | 0 <= q < |keep| :: keep[q] < n
  }

  /** A combination of `range(a, n)` of k positions is an ascending position list within it. */
  lemma RangeCombinationShape(a: nat, n: nat, k: nat, keep: seq<nat>)
    requires a <= n && keep in Combinations(Range(a, n), k)
    ensures |keep| == k && Increasing(keep) && forall q | 0 <= q < |keep| :: a <= keep[q] < n
  {
    var i :| 0 <= i < |Combinations(Range(a, n), k)| && Combinations(Range(a, n), k)[i] == keep;
    RangeCombinationAt(a, n, k, i);
  }

  /** Combination number i of `range(a, n)`, by induction on the range. */
  lemma {:induction false} RangeCombinationAt(a: nat, n: nat, k: nat, i: nat)
    requires a <= n && i < |Combinations(Range(a, n), k)|
    ensures var keep := Combinations(Range(a, n), k)[i];
      |keep| == k && Increasing(keep) && forall q | 0 <= q < |keep| :: a <= keep[q] < n
    decreases n - a
  {
    if k != 0 {
      var s := Range(a, n);
      assert s != [] && s[0] == a && s[1..] == Range(a + 1, n);
      var with, without := Combinations(Range(a + 1, n), k - 1), Combinations(Range(a + 1, n), k);
      assert Combinations(s, k) == Prefixed(a, with) + without;
      var keep := Combinations(s, k)[i];
      if i < |with| {
        RangeCombinationAt(a + 1, n, k - 1, i);
        var rest := with[i];
        assert keep == [a] + rest;
        assert forall q | 1 <= q < |keep| :: keep[q] == rest[q - 1];
      } else {
        RangeCombinationAt(a + 1, n, k, i - |with|);
        assert keep == without[i - |with|];
      }
    }
  }

  /** One combination of `range(n)`, as `RangeCombinationShape` describes it. */
  lemma RangeCombination(n: nat, k: nat, keepSets: seq<seq<nat>>, ci: nat)
    requires keepSets == Combinations(Range(0, n), k) && ci < |keepSets|
    ensures Placed(keepSets[ci], n, k) && Increasing(keepSets[ci])
  {
    assert keepSets[ci] in keepSets;
    RangeCombinationShape(0, n, k, keepSets[ci]);
  }

  /** Every ascending list of k positions within `range(a, n)` is one of its combinations. */
  lemma {:induction false} RangeCombinationsComplete(a: nat, n: nat, keep: seq<nat>)
    requires a <= n && Increasing(keep) && forall q | 0 <= q < |keep| :: a <= keep[q] < n
    ensures keep in Combinations(Range(a, n), |keep|)
    decreases n - a
  {
    if keep != [] {
      assert a <= keep[0] < n;
      var s := Range(a, n);
      assert s[0] == a && s[1..] == Range(a + 1, n);
      if keep[0] == a {
        var rest := keep[1..];
        RangeCombinationsComplete(a + 1, n, rest);
        CombinationsWithHead(s, |rest|, rest);
        assert keep == [a] + rest;
      } else {
        RangeCombinationsComplete(a + 1, n, keep);
        CombinationsWithoutHead(s, |keep|, keep);
      }
    }
  }

  /** A combination of the tail, with the head put in front, is a combination of the whole. */
  lemma CombinationsWithHead<T>(s: seq<T>, k: nat, g: seq<T>)
    requires s != [] && g in Combinations(s[1..], k)
    ensures [s[0]] + g in Combinations(s, k + 1)
  {
    var with := Combinations(s[1..], k);
    var i :| 0 <= i < |with| && with[i] == g;
    assert Prefixed(s[0], with)[i] == [s[0]] + g;
  }

  /** A combination of the tail is a combination of the whole. */
  lemma CombinationsWithoutHead<T>(s: seq<T>, k: nat, g: seq<T>)
    requires s != [] && g in Combinations(s[1..], k)
    ensures g in Combinations(s, k)
  {
    if k == 0 {
      CombinationsOfZero(s[1..], g);
    }
  }

  lemma CombinationsOfZero<T>(s: seq<T>, g: seq<T>)
    requires g in Combinations(s, 0)
    ensures g == []
  {
  }

  /** `[i for i in range(m) if i not in keep]` (`vars_to_change`). */
  function Outside(keep: seq<nat>, m: nat): (r: seq<nat>)
    ensures forall q | 0 <= q < |r| :: r[q] < m
  {
    if m == 0 then [] else Outside(keep, m - 1) + (if m - 1 in keep then [] else [m - 1])
  }

  lemma {:induction false} OutsideMembers(keep: seq<nat>, m: nat)
    ensures forall p: nat :: p in Outside(keep, m) <==> p < m && p !in keep
    ensures Increasing(Outside(keep, m))
  {
    if m > 0 {
      OutsideMembers(keep, m - 1);
      var init := Outside(keep, m - 1);
      assert forall q | 0 <= q < |init| :: init[q] < m - 1;
    }
  }

  /** The positions of `keep` below m. */
  function Below(keep: seq<nat>, m: nat): set<nat>
  {
    set x | x in keep && x < m
  }

  lemma {:induction false} OutsideCount(keep: seq<nat>, m: nat)
    ensures |Outside(keep, m)| + |Below(keep, m)| == m
  {
    if m > 0 {
      OutsideCount(keep, m - 1);
      if m - 1 in keep {
        assert Below(keep, m) == Below(keep, m - 1) + {m - 1};
        assert m - 1 !in Below(keep, m - 1);
      } else {
        assert Below(keep, m) == Below(keep, m - 1);
      }
    }
  }

  /** Keeping k distinct positions of n leaves n - k to change. */
  lemma OutsideSize(keep: seq<nat>, n: nat)
    requires Distinct(keep) && forall q | 0 <= q < |keep| :: keep[q] < n
    ensures |Outside(keep, n)| == n - |keep|
  {
    OutsideCount(keep, n);
    DistinctCard<nat>(keep);
    var members := set x: nat | x in keep;
    assert |members| == |keep|;
    assert Below(keep, n) == members;
  }

  /** The fixed positions of `x` below m, ascending. */
  function FixedPositions(x: Term, m: nat): (r: seq<nat>)
    requires m <= |x|
    ensures forall q | 0 <= q < |r| :: r[q] < m
  {
    if m == 0 then [] else FixedPositions(x, m - 1) + (if x[m - 1] != DC then [m - 1] else [])
  }

  lemma {:induction false} FixedPositionsMembers(x: Term, m: nat)
    requires m <= |x|
    ensures forall p: nat :: p in FixedPositions(x, m) <==> p < m && x[p] != DC
    ensures Increasing(FixedPositions(x, m))
  {
    if m > 0 {
      FixedPositionsMembers(x, m - 1);
      var init := FixedPositions(x, m - 1);
      assert forall q | 0 <= q < |init| :: init[q] < m - 1;
    }
  }

  lemma {:induction false} FixedPositionsCount(x: Term, m: nat)
    requires m <= |x|
    ensures |FixedPositions(x, m)| == FixedCount(x[..m])
  {
    if m > 0 {
      FixedPositionsCount(x, m - 1);
      assert x[..m][..m - 1] == x[..m - 1];
    }
  }

  /** A term with a don't-care position has fewer fixed positions than positions. */
  lemma {:induction false} FixedCountBelow(x: Term, p: nat)
    requires p < |x| && x[p] == DC
    ensures FixedCount(x) < |x|
  {
    var m := |x| - 1;
    if p < m {
      FixedCountBelow(x[..m], p);
    }
  }

  // ---------------------------------------------------------------- what the search keeps

  /** Every full row `x` spans is a key of the map holding `target`. */
  ghost predicate Subcube(kmap: map<Term, bool>, target: bool, x: Term)
  {
    forall t | |t| == |x| && IsFull(t) && Covers(x, t) :: t in kmap && kmap[t] == target
  }

  predicate HasDC(x: Term)
  {
    exists p | 0 <= p < |x| :: x[p] == DC
  }

  /** Some term of `imps` covers `x`. */
  ghost predicate CoveredBy(imps: seq<Term>, x: Term)
  {
    exists e | e in imps :: |e| == |x| && Covers(e, x)
  }

  /**
   * The results so far: n positions with at least one don't-care, spanning only target rows,
   * none covered by an earlier one.
   */
  ghost predicate SearchInv(kmap: map<Term, bool>, target: bool, n: nat, imps: seq<Term>)
  {
    (forall e | e in imps :: |e| == n && HasDC(e) && Subcube(kmap, target, e)) &&
    (forall a, b | 0 <= a < b < |imps| :: |imps[b]| <= |imps[a]| && !Covers(imps[a], imps[b]))
  }

  /** Every template with k kept positions from `keeps` that spans only target rows is covered. */
  ghost predicate CoveredFor(kmap: map<Term, bool>, target: bool, n: nat, k: nat, keeps: seq<seq<nat>>, imps: seq<Term>)
  {
    forall keep, j | keep in keeps && Placed(keep, n, k) && 0 <= j < Pow2(k) &&
                     Subcube(kmap, target, Fill(AllDC(n), keep, Encode(j, k))) ::
      CoveredBy(imps, Fill(AllDC(n), keep, Encode(j, k)))
  }

  lemma CoveredForMonotone(kmap: map<Term, bool>, target: bool, n: nat, k: nat, keeps: seq<seq<nat>>,
                           imps0: seq<Term>, imps: seq<Term>)
    requires CoveredFor(kmap, target, n, k, keeps, imps0)
    requires forall e | e in imps0 :: e in imps
    ensures CoveredFor(kmap, target, n, k, keeps, imps)
  {
  }

  // ---------------------------------------------------------------- `_kmap_imp_covered`

  /**
   * `_kmap_imp_covered(imp1, imp2)`: every fixed position of `imp1` carries imp2's value there;
   * on terms of one length this is `Covers`.
   */
  method KmapImpCovered(imp1: Term, imp2: Term) returns (covered: bool)
    requires |imp1| <= |imp2|
    ensures covered == Covers(imp1, imp2[..|imp1|])
    ensures |imp1| == |imp2| ==> covered == Covers(imp1, imp2)
  {
    for i := 0 to |imp1|
      invariant forall k | 0 <= k < i :: imp1[k] == DC || imp1[k] == imp2[k]
    {
      if imp1[i] != DC && imp1[i] != imp2[i] {
        return false;
      }
    }
    assert imp2[..|imp1|] == imp2 || |imp1| != |imp2|;
    return true;
  }

  // ---------------------------------------------------------------- filling templates

  /** Filling the don't-care positions of `imp` with full values gives a full row it covers. */
  lemma FillRow(imp: Term, change: seq<nat>, v: Term)
    requires |v| == |change| && Distinct(change) && forall q | 0 <= q < |change| :: change[q] < |imp|
    requires forall p | 0 <= p < |imp| :: imp[p] == DC <==> p in change
    requires IsFull(v)
    ensures IsFull(Fill(imp, change, v)) && Covers(imp, Fill(imp, change, v))
  {
    FillAt(imp, change, v);
    var r := Fill(imp, change, v);
    forall p | 0 <= p < |imp| ensures r[p] != DC && (imp[p] == DC || imp[p] == r[p]) {
      if p in change {
        var q :| 0 <= q < |change| && change[q] == p;
      }
    }
  }

  /** A full row that `imp` covers is `imp` filled with the row's values at the don't-care positions. */
  lemma FillRebuilds(imp: Term, change: seq<nat>, t: Term) returns (v: Term)
    requires Distinct(change) && forall q | 0 <= q < |change| :: change[q] < |imp|
    requires forall p | 0 <= p < |imp| :: imp[p] == DC <==> p in change
    requires |t| == |imp| && IsFull(t) && Covers(imp, t)
    ensures |v| == |change| && IsFull(v) && Fill(imp, change, v) == t
  {
    v := seq(|change|, q requires 0 <= q < |change| => t[change[q]]);
    FillAt(imp, change, v);
    var r := Fill(imp, change, v);
    forall p | 0 <= p < |imp| ensures r[p] == t[p] {
      if p in change {
        var q :| 0 <= q < |change| && change[q] == p;
      }
    }
  }

  /** The template of kept positions: fixed where kept, don't-care exactly at `Outside(keep, n)`. */
  lemma TemplateShape(n: nat, keep: seq<nat>, fixedValues: Term)
    requires Placed(keep, n, |fixedValues|) && Increasing(keep) && IsFull(fixedValues)
    ensures Distinct(Outside(keep, n)) && |Outside(keep, n)| == n - |keep|
    ensures forall p | 0 <= p < n :: Fill(AllDC(n), keep, fixedValues)[p] == DC <==> p in Outside(keep, n)
  {
    IncreasingDistinct(keep);
    OutsideMembers(keep, n);
    IncreasingDistinct(Outside(keep, n));
    OutsideSize(keep, n);
    FillAt(AllDC(n), keep, fixedValues);
    forall p | 0 <= p < n ensures Fill(AllDC(n), keep, fixedValues)[p] == DC <==> p !in keep {
      if p in keep {
        var q :| 0 <= q < |keep| && keep[q] == p;
      }
    }
  }

  // ---------------------------------------------------------------- the search

  /**
   * The `for i, var in enumerate(positions)` loops that write `vals[i]` at `positions[i]` of a
   * copy of `base` (the template from `[None] * num_vars`, and `full_values` from `imp`).
   */
  method SetPositions(base: Term, positions: seq<nat>, vals: Term) returns (r: Term)
    requires |vals| == |positions| && forall q | 0 <= q < |positions| :: positions[q] < |base|
    ensures r == Fill(base, positions, vals)
  {
    r := base;
    for i := 0 to |positions|
      invariant |r| == |base| && r == Fill(base, positions[..i], vals[..i])
    {
      assert positions[..i + 1][..i] == positions[..i] && vals[..i + 1][..i] == vals[..i];
      r := r[positions[i] := vals[i]];
    }
    assert positions[..|positions|] == positions && vals[..|positions|] == vals;
  }

  /**
   * The `for changing_values in product([0, 1], repeat=size)` loop: `kmap[full_values]` is the
   * target for every filling of the don't-care positions of `imp`, stopping at the first that
   * is not; `valid` says whether `imp` spans only target rows.
   */
  method CheckSubcube(kmap: map<Term, bool>, target: bool, n: nat, imp: Term, change: seq<nat>, size: nat)
    returns (valid: bool)
    requires forall t | |t| == n && IsFull(t) :: t in kmap
    requires |imp| == n && |change| == size && Distinct(change) && forall q | 0 <= q < size :: change[q] < n
    requires forall p | 0 <= p < n :: imp[p] == DC <==> p in change
    ensures valid == Subcube(kmap, target, imp)
  {
    var j := 0;
    while j < Pow2(size)
      invariant j <= Pow2(size)
      invariant forall j' | 0 <= j' < j :: Fill(imp, change, Encode(j', size)) in kmap &&
                                           kmap[Fill(imp, change, Encode(j', size))] == target
    {
      var changing := Encode(j, size);
      var full := SetPositions(imp, change, changing);
      FillRow(imp, change, changing);
      if kmap[full] != target {
        assert !Subcube(kmap, target, imp);
        return false;
      }
      j := j + 1;
    }
    SubcubeFromChecks(kmap, target, imp, change);
    return true;
  }

  /** Every filling of the don't-care positions holding the target makes `imp` a sub-cube of targets. */
  lemma SubcubeFromChecks(kmap: map<Term, bool>, target: bool, imp: Term, change: seq<nat>)
    requires Distinct(change) && forall q | 0 <= q < |change| :: change[q] < |imp|
    requires forall p | 0 <= p < |imp| :: imp[p] == DC <==> p in change
    requires forall j | 0 <= j < Pow2(|change|) :: Fill(imp, change, Encode(j, |change|)) in kmap &&
                                                   kmap[Fill(imp, change, Encode(j, |change|))] == target
    ensures Subcube(kmap, target, imp)
  {
    forall t | |t| == |imp| && IsFull(t) && Covers(imp, t) ensures t in kmap && kmap[t] == target {
      var v := FillRebuilds(imp, change, t);
      FullTermIsEncoding(v);
      assert Fill(imp, change, Encode(TermValue(v), |change|)) == t;
    }
  }

  /**
   * The `for existing in implicants` loop and the append after it: `imp` joins the results unless
   * one of them covers it.
   */
  method AppendUncovered(ghost kmap: map<Term, bool>, ghost target: bool, n: nat, imp: Term, imps0: seq<Term>)
    returns (imps: seq<Term>)
    requires |imp| == n && HasDC(imp) && Subcube(kmap, target, imp)
    requires SearchInv(kmap, target, n, imps0)
    ensures SearchInv(kmap, target, n, imps)
    ensures forall e | e in imps0 :: e in imps
    ensures CoveredBy(imps, imp)
  {
    imps := imps0;
    var covered := AnyCovers(imps0, imp);
    if covered {
      var a :| 0 <= a < |imps0| && Covers(imps0[a], imp);
      assert imps0[a] in imps0;
    } else {
      imps := imps0 + [imp];
      SearchInvSnoc(kmap, target, n, imps0, imp);
      assert imp in imps && Covers(imp, imp);
    }
  }

  /** The `for e in implicants` loop: does an earlier result cover `imp`? It stops at the first that does. */
  method AnyCovers(imps: seq<Term>, imp: Term) returns (covered: bool)
    requires forall e | e in imps :: |e| == |imp|
    ensures covered <==> exists a | 0 <= a < |imps| :: Covers(imps[a], imp)
  {
    covered := false;
    var e := 0;
    while e < |imps|
      invariant e <= |imps|
      invariant forall a | 0 <= a < e :: !Covers(imps[a], imp)
    {
      assert imps[e] in imps;
      var c := KmapImpCovered(imps[e], imp);
      if c {
        return true;
      }
      e := e + 1;
    }
  }

  /** Appending a result that none of the others covers keeps the invariant of the results. */
  lemma SearchInvSnoc(kmap: map<Term, bool>, target: bool, n: nat, imps: seq<Term>, imp: Term)
    requires |imp| == n && HasDC(imp) && Subcube(kmap, target, imp)
    requires SearchInv(kmap, target, n, imps)
    requires forall a | 0 <= a < |imps| :: !Covers(imps[a], imp)
    ensures SearchInv(kmap, target, n, imps + [imp])
  {
    var s := imps + [imp];
    forall a, b | 0 <= a < b < |s| ensures |s[b]| <= |s[a]| && !Covers(s[a], s[b]) {
      assert s[a] == imps[a] && imps[a] in imps;
      if b < |imps| {
        assert s[b] == imps[b];
      }
    }
  }

  /**
   * The body for one `fixed_values`: build the template, check it, and append it unless an
   * earlier result covers it.
   */
  method TryTemplate(kmap: map<Term, bool>, target: bool, n: nat, size: nat, keep: seq<nat>, change: seq<nat>,
                     fixedValues: Term, imps0: seq<Term>) returns (imps: seq<Term>)
    requires forall t | |t| == n && IsFull(t) :: t in kmap
    requires 1 <= size <= n && Placed(keep, n, n - size) && Increasing(keep) && change == Outside(keep, n)
    requires |fixedValues| == n - size && IsFull(fixedValues)
    requires SearchInv(kmap, target, n, imps0)
    ensures SearchInv(kmap, target, n, imps)
    ensures forall e | e in imps0 :: e in imps
    ensures Subcube(kmap, target, Fill(AllDC(n), keep, fixedValues)) ==> CoveredBy(imps, Fill(AllDC(n), keep, fixedValues))
  {
    var imp := SetPositions(AllDC(n), keep, fixedValues);
    TemplateShape(n, keep, fixedValues);
    assert change[0] in change;
    assert HasDC(imp);
    var valid := CheckSubcube(kmap, target, n, imp, change, size);
    imps := imps0;
    if valid {
      imps := AppendUncovered(kmap, target, n, imp, imps);
    }
  }

  /** The templates with `keep` fixed to the first j value lists that span only target rows are covered. */
  ghost predicate CoveredUpTo(kmap: map<Term, bool>, target: bool, n: nat, keep: seq<nat>, k: nat, j: nat, imps: seq<Term>)
    requires Placed(keep, n, k)
  {
    forall j' | 0 <= j' < j && Subcube(kmap, target, Fill(AllDC(n), keep, Encode(j', k))) ::
      CoveredBy(imps, Fill(AllDC(n), keep, Encode(j', k)))
  }

  /** Covering survives adding results, and the `j`-th template extends the range. */
  lemma CoveredUpToStep(kmap: map<Term, bool>, target: bool, n: nat, keep: seq<nat>, k: nat, j: nat,
                        imps0: seq<Term>, imps: seq<Term>)
    requires Placed(keep, n, k)
    requires CoveredUpTo(kmap, target, n, keep, k, j, imps0)
    requires forall e | e in imps0 :: e in imps
    requires Subcube(kmap, target, Fill(AllDC(n), keep, Encode(j, k))) ==> CoveredBy(imps, Fill(AllDC(n), keep, Encode(j, k)))
    ensures CoveredUpTo(kmap, target, n, keep, k, j + 1, imps)
  {
    forall j' | 0 <= j' < j && Subcube(kmap, target, Fill(AllDC(n), keep, Encode(j', k)))
      ensures CoveredBy(imps, Fill(AllDC(n), keep, Encode(j', k)))
    {
      var x := Fill(AllDC(n), keep, Encode(j', k));
      var e :| e in imps0 && |e| == |x| && Covers(e, x);
      assert e in imps;
    }
  }

  /** All value lists for one `keep`, as a `CoveredFor` over that single choice. */
  lemma CoveredUpToAll(kmap: map<Term, bool>, target: bool, n: nat, keep: seq<nat>, k: nat, imps: seq<Term>)
    requires Placed(keep, n, k)
    requires CoveredUpTo(kmap, target, n, keep, k, Pow2(k), imps)
    ensures CoveredFor(kmap, target, n, k, [keep], imps)
  {
  }

  /** The `for fixed_values in product([0, 1], repeat=num_vars - size)` loop for one choice of kept positions. */
  method SearchKeep(kmap: map<Term, bool>, target: bool, n: nat, size: nat, keep: seq<nat>, change: seq<nat>,
                    imps0: seq<Term>) returns (imps: seq<Term>)
    requires forall t | |t| == n && IsFull(t) :: t in kmap
    requires 1 <= size <= n && Placed(keep, n, n - size) && Increasing(keep) && change == Outside(keep, n)
    requires SearchInv(kmap, target, n, imps0)
    ensures SearchInv(kmap, target, n, imps)
    ensures forall e | e in imps0 :: e in imps
    ensures CoveredFor(kmap, target, n, n - size, [keep], imps)
  {
    var k := n - size;
    imps := imps0;
    var j := 0;
    while j < Pow2(k)
      invariant j <= Pow2(k)
      invariant SearchInv(kmap, target, n, imps)
      invariant forall e | e in imps0 :: e in imps
      invariant CoveredUpTo(kmap, target, n, keep, k, j, imps)
    {
      var fixedValues := Encode(j, k);
      ghost var before := imps;
      imps := TryTemplate(kmap, target, n, size, keep, change, fixedValues, imps);
      CoveredUpToStep(kmap, target, n, keep, k, j, before, imps);
      j := j + 1;
    }
    CoveredUpToAll(kmap, target, n, keep, k, imps);
  }

  /** Covering the templates of `keeps` and then those of `keep` covers those of `keeps + [keep]`. */
  lemma CoveredForAppend(kmap: map<Term, bool>, target: bool, n: nat, k: nat, keeps: seq<seq<nat>>, keep: seq<nat>,
                         imps0: seq<Term>, imps: seq<Term>)
    requires CoveredFor(kmap, target, n, k, keeps, imps0)
    requires forall e | e in imps0 :: e in imps
    requires CoveredFor(kmap, target, n, k, [keep], imps)
    ensures CoveredFor(kmap, target, n, k, keeps + [keep], imps)
  {
    CoveredForMonotone(kmap, target, n, k, keeps, imps0, imps);
  }

  /** One pass of the `for vars_to_keep in combinations(...)` loop, after the passes for `keeps`. */
  method SearchCombination(kmap: map<Term, bool>, target: bool, n: nat, size: nat, keeps: seq<seq<nat>>,
                           varsToKeep: seq<nat>, imps0: seq<Term>) returns (imps: seq<Term>)
    requires forall t | |t| == n && IsFull(t) :: t in kmap
    requires 1 <= size <= n && Placed(varsToKeep, n, n - size) && Increasing(varsToKeep)
    requires SearchInv(kmap, target, n, imps0)
    requires CoveredFor(kmap, target, n, n - size, keeps, imps0)
    ensures SearchInv(kmap, target, n, imps)
    ensures forall e | e in imps0 :: e in imps
    ensures CoveredFor(kmap, target, n, n - size, keeps + [varsToKeep], imps)
  {
    var varsToChange := Outside(varsToKeep, n);
    imps := SearchKeep(kmap, target, n, size, varsToKeep, varsToChange, imps0);
    CoveredForAppend(kmap, target, n, n - size, keeps, varsToKeep, imps0, imps);
  }

  /** The `for vars_to_keep in combinations(range(num_vars), num_vars - size)` loop. */
  method SearchSize(kmap: map<Term, bool>, target: bool, n: nat, size: nat, imps0: seq<Term>) returns (imps: seq<Term>)
    requires forall t | |t| == n && IsFull(t) :: t in kmap
    requires 1 <= size <= n
    requires SearchInv(kmap, target, n, imps0)
    ensures SearchInv(kmap, target, n, imps)
    ensures forall e | e in imps0 :: e in imps
    ensures CoveredFor(kmap, target, n, n - size, Combinations(Range(0, n), n - size), imps)
  {
    var k := n - size;
    var keepSets := Combinations(Range(0, n), k);
    imps := imps0;
    for ci := 0 to |keepSets|
      invariant SearchInv(kmap, target, n, imps)
      invariant forall e | e in imps0 :: e in imps
      invariant CoveredFor(kmap, target, n, k, keepSets[..ci], imps)
    {
      RangeCombination(n, k, keepSets, ci);
      imps := SearchCombination(kmap, target, n, size, keepSets[..ci], keepSets[ci], imps);
      TakeOneMore(keepSets, ci);
    }
    assert keepSets[..|keepSets|] == keepSets;
  }

  /**
   * `_find_kmap_implicants(kmap, target)`: every result has n positions, at least one of them
   * don't-care, spans only rows holding `target`, and is not covered by an earlier result; and
   * every such term is covered by some result.
   */
  method FindKmapImplicants(kmap: map<Term, bool>, target: bool, n: nat) returns (implicants: seq<Term>)
    requires forall t | |t| == n && IsFull(t) :: t in kmap
    ensures forall e | e in implicants :: |e| == n && HasDC(e) && Subcube(kmap, target, e)
    ensures forall a, b | 0 <= a < b < |implicants| :: |implicants[b]| <= |implicants[a]| && !Covers(implicants[a], implicants[b])
    ensures forall x | |x| == n && HasDC(x) && Subcube(kmap, target, x) :: CoveredBy(implicants, x)
  {
    implicants := [];
    var size := n;
    while size > 0
      invariant size <= n
      invariant SearchInv(kmap, target, n, implicants)
      invariant CoveredBelow(kmap, target, n, n - size, implicants)
      decreases size
    {
      implicants := SearchRound(kmap, target, n, size, implicants);
      size := size - 1;
    }
    SearchDone(kmap, target, n, implicants);
  }

  /** One round of the `for size in range(num_vars, 0, -1)` loop and what it adds to the invariant. */
  method SearchRound(kmap: map<Term, bool>, target: bool, n: nat, size: nat, imps0: seq<Term>) returns (imps: seq<Term>)
    requires forall t | |t| == n && IsFull(t) :: t in kmap
    requires 1 <= size <= n
    requires SearchInv(kmap, target, n, imps0) && CoveredBelow(kmap, target, n, n - size, imps0)
    ensures SearchInv(kmap, target, n, imps) && CoveredBelow(kmap, target, n, n - (size - 1), imps)
  {
    imps := SearchSize(kmap, target, n, size, imps0);
    CoveredBelowGrows(kmap, target, n, size, imps0, imps);
  }

  /** What the finished search establishes, read off its invariant. */
  lemma SearchDone(kmap: map<Term, bool>, target: bool, n: nat, imps: seq<Term>)
    requires SearchInv(kmap, target, n, imps) && CoveredBelow(kmap, target, n, n, imps)
    ensures forall e | e in imps :: |e| == n && HasDC(e) && Subcube(kmap, target, e)
    ensures forall a, b | 0 <= a < b < |imps| :: |imps[b]| <= |imps[a]| && !Covers(imps[a], imps[b])
    ensures forall x | |x| == n && HasDC(x) && Subcube(kmap, target, x) :: CoveredBy(imps, x)
  {
    CoveredComplete(kmap, target, n, imps);
  }

  /** Every template with fewer than m kept positions that spans only target rows is covered. */
  ghost predicate CoveredBelow(kmap: map<Term, bool>, target: bool, n: nat, m: nat, imps: seq<Term>)
  {
    forall k | 0 <= k < m :: CoveredFor(kmap, target, n, k, Combinations(Range(0, n), k), imps)
  }

  /** One more round of the search keeps what was covered and covers templates with m kept positions. */
  lemma CoveredBelowGrows(kmap: map<Term, bool>, target: bool, n: nat, size: nat, imps0: seq<Term>, imps: seq<Term>)
    requires 1 <= size <= n
    requires CoveredBelow(kmap, target, n, n - size, imps0) && forall e | e in imps0 :: e in imps
    requires CoveredFor(kmap, target, n, n - size, Combinations(Range(0, n), n - size), imps)
    ensures CoveredBelow(kmap, target, n, n - (size - 1), imps)
  {
    forall k | 0 <= k < n - size ensures CoveredFor(kmap, target, n, k, Combinations(Range(0, n), k), imps) {
      CoveredForMonotone(kmap, target, n, k, Combinations(Range(0, n), k), imps0, imps);
    }
  }

  /** Covering the templates of every size below n covers every sub-cube with a don't-care. */
  lemma CoveredComplete(kmap: map<Term, bool>, target: bool, n: nat, imps: seq<Term>)
    requires CoveredBelow(kmap, target, n, n, imps)
    ensures forall x | |x| == n && HasDC(x) && Subcube(kmap, target, x) :: CoveredBy(imps, x)
  {
    forall x | |x| == n && HasDC(x) && Subcube(kmap, target, x) ensures CoveredBy(imps, x) {
      var keep, j := TemplateOf(x);
      assert x == Fill(AllDC(n), keep, Encode(j, |keep|));
      assert CoveredFor(kmap, target, n, |keep|, Combinations(Range(0, n), |keep|), imps);
    }
  }

  /** Every term with a don't-care is the template of its ascending fixed positions and their values. */
  lemma TemplateOf(x: Term) returns (keep: seq<nat>, j: nat)
    requires HasDC(x)
    ensures |keep| < |x| && Placed(keep, |x|, |keep|) && keep in Combinations(Range(0, |x|), |keep|)
    ensures j < Pow2(|keep|) && x == Fill(AllDC(|x|), keep, Encode(j, |keep|))
  {
    var fixedValues;
    keep, fixedValues := FillKept(x);
    var p :| 0 <= p < |x| && x[p] == DC;
    FixedCountBelow(x, p);
    RangeCombinationsComplete(0, |x|, keep);
    FullTermIsEncoding(fixedValues);
    j := TermValue(fixedValues);
  }

  /** Fixing the fixed positions of `x`, ascending, to its own values rebuilds `x`. */
  lemma FillKept(x: Term) returns (keep: seq<nat>, fixedValues: Term)
    ensures Increasing(keep) && |keep| == FixedCount(x) && Placed(keep, |x|, |keep|)
    ensures |fixedValues| == |keep| && IsFull(fixedValues) && Fill(AllDC(|x|), keep, fixedValues) == x
  {
    var n := |x|;
    keep := FixedPositions(x, n);
    assert |keep| == FixedCount(x) by {
      FixedPositionsCount(x, n);
      assert x[..n] == x;
    }
    FixedPositionsMembers(x, n);
    fixedValues := seq(|keep|, q requires 0 <= q < |keep| => x[keep[q]]);
    assert IsFull(fixedValues) by {
      forall q | 0 <= q < |keep| ensures fixedValues[q] != DC {
        assert keep[q] in keep;
      }
    }
    FillKeptEquals(x, keep, fixedValues);
  }

  lemma FillKeptEquals(x: Term, keep: seq<nat>, fixedValues: Term)
    requires Increasing(keep) && forall p: nat :: p in keep <==> p < |x| && x[p] != DC
    requires |fixedValues| == |keep| && forall q | 0 <= q < |keep| :: keep[q] < |x| && fixedValues[q] == x[keep[q]]
    ensures Fill(AllDC(|x|), keep, fixedValues) == x
  {
    IncreasingDistinct(keep);
    FillAt(AllDC(|x|), keep, fixedValues);
    var filled := Fill(AllDC(|x|), keep, fixedValues);
    forall i | 0 <= i < |x| ensures filled[i] == x[i] {
      if i in keep {
        var q :| 0 <= q < |keep| && keep[q] == i;
      }
    }
  }
}
