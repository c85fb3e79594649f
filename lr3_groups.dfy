/**
 * Groups of Karnaugh-map cells in LR_3/logical_function.py: `itertools.combinations`, the implicant
 * a group stands for (`_group_to_implicant`) and the check that a group is a sub-cube of the map
 * (`_is_valid_group`).
 */
module Lr3Groups {
  import opened BitStrings
  import opened Terms
  import opened Cover
  import opened Enumerations

  // ---------------------------------------------------------------- combinations

  /** `[[x] + g for g in gs]`. */
  function Prefixed<T>(x: T, gs: seq<seq<T>>): (r: seq<seq<T>>)
    ensures |r| == |gs| && forall i | 0 <= i < |gs| :: r[i] == [x] + gs[i]
  {
    seq(|gs|, i requires 0 <= i < |gs| => [x] + gs[i])
  }

  /**
   * `itertools.combinations(s, k)`: the k-element subsequences of `s` in lexicographic order of
   * their positions (those with `s[0]` first).
   */
  function Combinations<T>(s: seq<T>, k: nat): seq<seq<T>>
    decreases |s|
  {
    if k == 0 then [[]]
    else if s == [] then []
    else Prefixed(s[0], Combinations(s[1..], k - 1)) + Combinations(s[1..], k)
  }

  /** Every combination has k elements, each taken from `s`. */
  lemma CombinationsMembers<T>(s: seq<T>, k: nat)
    ensures forall g | g in Combinations(s, k) :: |g| == k && forall x | x in g :: x in s
  {
    forall g | g in Combinations(s, k) ensures |g| == k && forall x | x in g :: x in s {
      var i :| 0 <= i < |Combinations(s, k)| && Combinations(s, k)[i] == g;
      CombinationAt(s, k, i);
      forall x | x in g ensures x in s {
        var j :| 0 <= j < |g| && g[j] == x;
      }
    }
  }

  /** Combination number i has k elements, each taken from `s`. */
  lemma {:induction false} CombinationAt<T>(s: seq<T>, k: nat, i: nat)
    requires i < |Combinations(s, k)|
    ensures |Combinations(s, k)[i]| == k
    ensures forall j | 0 <= j < k :: Combinations(s, k)[i][j] in s
    decreases |s|
  {
    if k != 0 && s != [] {
      var shorter, longer := Combinations(s[1..], k - 1), Combinations(s[1..], k);
      assert Combinations(s, k) == Prefixed(s[0], shorter) + longer;
      if i < |shorter| {
        CombinationAt(s[1..], k - 1, i);
        var g := Combinations(s, k)[i];
        assert g == [s[0]] + shorter[i];
        forall j | 0 <= j < k ensures g[j] in s {
          if j > 0 {
            assert g[j] == shorter[i][j - 1] && shorter[i][j - 1] in s[1..];
          }
        }
      } else {
        CombinationAt(s[1..], k, i - |shorter|);
        var g := Combinations(s, k)[i];
        assert g == longer[i - |shorter|];
        forall j | 0 <= j < k ensures g[j] in s {
          assert g[j] in s[1..];
        }
      }
    }
  }

  /** Each element of `s` is a combination of size 1. */
  lemma {:induction false} CombinationsSingletons<T>(s: seq<T>, x: T)
    requires x in s
    ensures [x] in Combinations(s, 1)
    decreases |s|
  {
    assert Combinations(s, 1) == Prefixed(s[0], [[]]) + Combinations(s[1..], 1);
    if x != s[0] {
      CombinationsSingletons(s[1..], x);
    } else {
      assert Combinations(s, 1)[0] == [x];
    }
  }

  /** There is no combination of more elements than `s` has. */
  lemma {:induction false} CombinationsTooMany<T>(s: seq<T>, k: nat)
    requires |s| < k
    ensures Combinations(s, k) == []
    decreases |s|
  {
    if s != [] {
      CombinationsTooMany(s[1..], k - 1);
      CombinationsTooMany(s[1..], k);
    }
  }

  /** The only combination of all the elements is `s` itself. */
  lemma {:induction false} CombinationsAll<T>(s: seq<T>)
    ensures Combinations(s, |s|) == [s]
    decreases |s|
  {
    if s != [] {
      CombinationsAll(s[1..]);
      CombinationsTooMany(s[1..], |s|);
      assert [s[0]] + s[1..] == s;
    }
  }

  // ---------------------------------------------------------------- the implicant of a group

  /** Every cell has at least n positions, so `cell[i]` is defined for i < n. */
  predicate Wide(cells: seq<Term>, n: nat)
  {
    forall c | c in cells :: n <= |c|
  }

  /** All cells carry the same value at position `i` (`len({cell[i] for cell in cells}) == 1`). */
  predicate AllAgreeAt(cells: seq<Term>, i: nat)
    requires Wide(cells, i + 1)
  {
    cells != [] && forall c | c in cells :: c[i] == cells[0][i]
  }

  /** The set `{cell[i] for cell in cells}`. */
  function ValuesAt(cells: seq<Term>, i: nat): set<Trit>
    requires Wide(cells, i + 1)
  {
    set c | c in cells :: c[i]
  }

  /** The set of values at a position has one element exactly when all cells agree there. */
  lemma ValuesSingleton(cells: seq<Term>, i: nat)
    requires Wide(cells, i + 1)
    ensures |ValuesAt(cells, i)| == 1 <==> AllAgreeAt(cells, i)
    ensures AllAgreeAt(cells, i) ==> ValuesAt(cells, i) == {cells[0][i]}
  {
    var values := ValuesAt(cells, i);
    if AllAgreeAt(cells, i) {
      assert values == {cells[0][i]};
    } else if cells == [] {
      assert values == {};
    } else {
      var c :| c in cells && c[i] != cells[0][i];
      assert cells[0][i] in values && c[i] in values;
      assert |values - {cells[0][i]}| == |values| - 1;
      assert c[i] in values - {cells[0][i]};
    }
  }

  /** The implicant of a group: the agreed value where all cells agree, DC elsewhere. */
  function CommonPattern(cells: seq<Term>, n: nat): (imp: Term)
    requires Wide(cells, n)
    ensures |imp| == n
  {
    seq(n, i requires 0 <= i < n => if AllAgreeAt(cells, i) then cells[0][i] else DC)
  }

  /** `_group_to_implicant`: position by position, the single value of the cells, or None. */
  method GroupToImplicant(cells: seq<Term>, n: nat) returns (imp: Term)
    requires Wide(cells, n)
    ensures imp == CommonPattern(cells, n)
  {
    imp := AllDC(n);
    for i := 0 to n
      invariant |imp| == n
      invariant forall k | 0 <= k < i :: imp[k] == CommonPattern(cells, n)[k]
    {
      var values := ValuesAt(cells, i);
      ValuesSingleton(cells, i);
      if |values| == 1 {
        var v :| v in values;
        imp := imp[i := v];
      } else {
        imp := imp[i := DC];
      }
    }
  }

  /** The implicant of a group covers every cell of the group. */
  lemma CommonPatternCovers(cells: seq<Term>, n: nat, c: Term)
    requires Wide(cells, n) && c in cells && |c| == n
    ensures Covers(CommonPattern(cells, n), c)
  {
  }

  /** It is the most specific such implicant: any implicant covering all the cells covers it. */
  lemma CommonPatternMostSpecific(cells: seq<Term>, n: nat, x: Term)
    requires cells != [] && |x| == n
    requires forall c | c in cells :: |c| == n && Covers(x, c)
    ensures Covers(x, CommonPattern(cells, n))
  {
    forall i | 0 <= i < n && x[i] != DC ensures AllAgreeAt(cells, i) && x[i] == cells[0][i] {
      assert Covers(x, cells[0]);
      forall c | c in cells ensures c[i] == cells[0][i] {
        assert Covers(x, c);
      }
    }
  }

  /** A group of one cell stands for that cell. */
  lemma CommonPatternSingle(c: Term)
    ensures CommonPattern([c], |c|) == c
  {
  }

  // ---------------------------------------------------------------- valid groups

  /** `non_fixed`: the positions below m where the cells disagree, ascending. */
  function NonFixed(cells: seq<Term>, m: nat): (r: seq<nat>)
    requires Wide(cells, m)
    ensures forall k | 0 <= k < |r| :: r[k] < m
  {
    if m == 0 then []
    else NonFixed(cells, m - 1) + (if AllAgreeAt(cells, m - 1) then [] else [m - 1])
  }

  /** The non-fixed positions are ascending and are exactly those where the cells disagree. */
  lemma {:induction false} NonFixedMembers(cells: seq<Term>, m: nat)
    requires Wide(cells, m)
    ensures forall p: nat :: p in NonFixed(cells, m) <==> p < m && !AllAgreeAt(cells, p)
    ensures forall a, b | 0 <= a < b < |NonFixed(cells, m)| :: NonFixed(cells, m)[a] < NonFixed(cells, m)[b]
  {
    if m > 0 {
      NonFixedMembers(cells, m - 1);
      var init := NonFixed(cells, m - 1);
      assert forall k | 0 <= k < |init| :: init[k] < m - 1;
    }
  }

  /** Every position is fixed or not: the non-fixed count and the implicant's fixed count add to n. */
  lemma {:induction false} NonFixedCount(cells: seq<Term>, n: nat)
    requires Wide(cells, n) && forall c | c in cells :: IsFull(c)
    ensures |NonFixed(cells, n)| + FixedCount(CommonPattern(cells, n)) == n
  {
    if n > 0 {
      NonFixedCount(cells, n - 1);
      var cp := CommonPattern(cells, n);
      CommonPatternLast(cells, n);
      assert FixedCount(cp) == FixedCount(cp[..n - 1]) + (if cp[n - 1] != DC then 1 else 0);
    }
  }

  /** The implicant of n positions extends that of n - 1 by a fixed value exactly where the cells agree. */
  lemma CommonPatternLast(cells: seq<Term>, n: nat)
    requires 0 < n && Wide(cells, n) && forall c | c in cells :: IsFull(c)
    ensures CommonPattern(cells, n)[..n - 1] == CommonPattern(cells, n - 1)
    ensures CommonPattern(cells, n)[n - 1] != DC <==> AllAgreeAt(cells, n - 1)
  {
    if AllAgreeAt(cells, n - 1) {
      assert cells[0] in cells;
    }
  }

  /** `cell[var_idx] = combo[i]` for each non-fixed position in turn, starting from `base`. */
  function Fill(base: Term, pos: seq<nat>, vals: Term): (r: Term)
    requires |vals| == |pos| && forall k | 0 <= k < |pos| :: pos[k] < |base|
    ensures |r| == |base|
  {
    if pos == [] then base
    else Fill(base, pos[..|pos| - 1], vals[..|pos| - 1])[pos[|pos| - 1] := vals[|pos| - 1]]
  }

  /** With distinct positions, the filled cell carries `vals` at `pos` and `base` elsewhere. */
  lemma {:induction false} FillAt(base: Term, pos: seq<nat>, vals: Term)
    requires |vals| == |pos| && forall k | 0 <= k < |pos| :: pos[k] < |base|
    requires Distinct(pos)
    ensures forall k | 0 <= k < |pos| :: Fill(base, pos, vals)[pos[k]] == vals[k]
    ensures forall p | 0 <= p < |base| && p !in pos :: Fill(base, pos, vals)[p] == base[p]
  {
    if pos != [] {
      var m := |pos| - 1;
      FillAt(base, pos[..m], vals[..m]);
      forall k | 0 <= k < m ensures pos[k] in pos[..m] && pos[k] != pos[m] {
        assert pos[..m][k] == pos[k];
      }
      forall p | 0 <= p < |base| && p !in pos ensures p !in pos[..m] {
      }
    }
  }

  /**
   * What `_is_valid_group` accepts: a non-empty group of exactly 2^k cells, k the number of
   * positions where they disagree, that contains every cell obtained from the first one by
   * giving those positions any values.
   */
  predicate ValidGroup(cells: seq<Term>, n: nat)
    requires Wide(cells, n)
  {
    var nf := NonFixed(cells, n);
    cells != [] && |cells| == Pow2(|nf|) && HasAllFills(cells, nf)
  }

  /** The three parts of `ValidGroup`, put together. */
  lemma ValidGroupIntro(cells: seq<Term>, n: nat)
    requires Wide(cells, n) && cells != [] && |cells| == Pow2(|NonFixed(cells, n)|)
    requires HasAllFills(cells, NonFixed(cells, n))
    ensures ValidGroup(cells, n)
  {
  }

  /** Every way of giving the positions `pos` of the first cell values, counted in binary, is among the cells. */
  predicate HasAllFills(cells: seq<Term>, pos: seq<nat>)
    requires cells != [] && forall k | 0 <= k < |pos| :: pos[k] < |cells[0]|
  {
    forall j | 0 <= j < Pow2(|pos|) :: Fill(cells[0], pos, Encode(j, |pos|)) in cells
  }

  /**
   * `_is_valid_group`: split the positions into fixed and non-fixed, check the size, then look
   * for every combination of non-fixed values (`product([0, 1], repeat=k)`, which counts in
   * binary) among the cells.
   */
  method IsValidGroup(cells: seq<Term>, n: nat) returns (valid: bool)
    requires Wide(cells, n)
    ensures valid == ValidGroup(cells, n)
  {
    if cells == [] {
      return false;
    }
    var fixed, nonFixed := SplitPositions(cells, n);
    var expectedSize := Pow2(|nonFixed|);
    if |cells| != expectedSize {
      return false;
    }
    valid := AllCombinationsPresent(cells, n, fixed, nonFixed);
  }

  /** The first loop of `_is_valid_group`: each position is fixed (one value, recorded) or non-fixed (listed). */
  method SplitPositions(cells: seq<Term>, n: nat) returns (fixed: map<nat, Trit>, nonFixed: seq<nat>)
    requires Wide(cells, n) && cells != []
    ensures nonFixed == NonFixed(cells, n)
    ensures forall p: nat :: p in fixed <==> p < n && AllAgreeAt(cells, p)
    ensures forall p | p in fixed :: p < |cells[0]| && fixed[p] == cells[0][p]
  {
    fixed, nonFixed := map[], [];
    for i := 0 to n
      invariant nonFixed == NonFixed(cells, i)
      invariant forall p: nat :: p in fixed <==> p < i && AllAgreeAt(cells, p)
      invariant forall p | p in fixed :: fixed[p] == cells[0][p]
    {
      var values := ValuesAt(cells, i);
      ValuesSingleton(cells, i);
      if |values| == 1 {
        var v :| v in values;
        fixed := fixed[i := v];
      } else {
        nonFixed := nonFixed + [i];
      }
    }
    assert cells[0] in cells;
  }

  /** The second loop of `_is_valid_group`: every combination of non-fixed values, counted in binary, is among the cells. */
  method AllCombinationsPresent(cells: seq<Term>, n: nat, fixed: map<nat, Trit>, nonFixed: seq<nat>) returns (ok: bool)
    requires Wide(cells, n) && cells != []
    requires forall p | p in fixed :: p < |cells[0]| && fixed[p] == cells[0][p]
    requires forall k | 0 <= k < |nonFixed| :: nonFixed[k] < n
    ensures ok == HasAllFills(cells, nonFixed)
  {
    var j := 0;
    while j < Pow2(|nonFixed|)
      invariant j <= Pow2(|nonFixed|)
      invariant forall j' | 0 <= j' < j :: Fill(cells[0], nonFixed, Encode(j', |nonFixed|)) in cells
    {
      var combo := Encode(j, |nonFixed|);
      var cell := FilledCell(cells, n, fixed, nonFixed, combo);
      if cell !in cells {
        assert !(Fill(cells[0], nonFixed, Encode(j, |nonFixed|)) in cells);
        return false;
      }
      j := j + 1;
    }
    return true;
  }

  /** Builds one candidate cell: a copy of the first cell, the fixed values, then `combo`. */
  method FilledCell(cells: seq<Term>, n: nat, fixed: map<nat, Trit>, nonFixed: seq<nat>, combo: Term) returns (cell: Term)
    requires Wide(cells, n) && cells != []
    requires forall p | p in fixed :: p < |cells[0]| && fixed[p] == cells[0][p]
    requires |combo| == |nonFixed| && forall k | 0 <= k < |nonFixed| :: nonFixed[k] < n
    ensures cell == Fill(cells[0], nonFixed, combo)
  {
    cell := cells[0];
    for p := 0 to |cell|
      invariant cell == cells[0]
    {
      if p in fixed {
        cell := cell[p := fixed[p]];
      }
    }
    for k := 0 to |nonFixed|
      invariant |cell| == |cells[0]|
      invariant cell == Fill(cells[0], nonFixed[..k], combo[..k])
    {
      assert nonFixed[..k + 1][..k] == nonFixed[..k] && combo[..k + 1][..k] == combo[..k];
      cell := cell[nonFixed[k] := combo[k]];
    }
    assert nonFixed[..|nonFixed|] == nonFixed && combo[..|combo|] == combo;
  }

  /**
   * A valid group of rows is a sub-cube: the rows its implicant covers are exactly its cells,
   * and there are 2^k of them for the k don't-care positions.
   */
  lemma ValidGroupSubcube(cells: seq<Term>, n: nat, t: Term)
    requires forall c | c in cells :: |c| == n && IsFull(c)
    requires ValidGroup(cells, n)
    requires |t| == n && IsFull(t)
    ensures Covers(CommonPattern(cells, n), t) <==> t in cells
    ensures |cells| == Pow2(n - FixedCount(CommonPattern(cells, n)))
  {
    NonFixedCount(cells, n);
    if Covers(CommonPattern(cells, n), t) {
      CoveredRowIsCell(cells, n, t);
    }
  }

  lemma CoveredRowIsCell(cells: seq<Term>, n: nat, t: Term)
    requires forall c | c in cells :: |c| == n && IsFull(c)
    requires ValidGroup(cells, n)
    requires |t| == n && IsFull(t) && Covers(CommonPattern(cells, n), t)
    ensures t in cells
  {
    var nf := NonFixed(cells, n);
    var combo := seq(|nf|, q requires 0 <= q < |nf| => t[nf[q]]);
    assert IsFull(combo);
    GroupHasFill(cells, n, combo);
    FillMatches(cells, n, t, combo);
  }

  /** A valid group holds the first cell with its non-fixed positions given any full values. */
  lemma GroupHasFill(cells: seq<Term>, n: nat, combo: Term)
    requires Wide(cells, n) && ValidGroup(cells, n)
    requires IsFull(combo) && |combo| == |NonFixed(cells, n)|
    ensures Fill(cells[0], NonFixed(cells, n), combo) in cells
  {
    FullTermIsEncoding(combo);
    var j := TermValue(combo);
    assert Encode(j, |combo|) == combo;
    assert Fill(cells[0], NonFixed(cells, n), Encode(j, |NonFixed(cells, n)|)) in cells;
  }

  /** Giving the non-fixed positions the values `t` has there rebuilds `t` from the first cell. */
  lemma FillMatches(cells: seq<Term>, n: nat, t: Term, combo: Term)
    requires cells != [] && forall c | c in cells :: |c| == n && IsFull(c)
    requires |t| == n && Covers(CommonPattern(cells, n), t)
    requires |combo| == |NonFixed(cells, n)|
    requires forall q | 0 <= q < |combo| :: combo[q] == t[NonFixed(cells, n)[q]]
    ensures Fill(cells[0], NonFixed(cells, n), combo) == t
  {
    var nf := NonFixed(cells, n);
    NonFixedMembers(cells, n);
    var filled := Fill(cells[0], nf, combo);
    FillAt(cells[0], nf, combo);
    forall p | 0 <= p < n ensures filled[p] == t[p] {
      if p in nf {
        var q :| 0 <= q < |nf| && nf[q] == p;
      } else {
        assert AllAgreeAt(cells, p);
        assert cells[0] in cells;
      }
    }
  }
}
