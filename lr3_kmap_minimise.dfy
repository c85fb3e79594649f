/**
 * `minimize_sdnf_kmap` and `minimize_sknf_kmap` in LR_3/logical_function.py: build the map, find
 * the group implicants of the target cells, pick a covering with `_select_essential_primes`, and
 * render the picked implicants in the order picked.
 */
module Lr3KmapMinimise {
  import opened Text
  import opened BitStrings
  import opened Terms
  import opened Cover
  import opened Rendering
  import opened Selection
  import opened Enumerations
  import opened Lr3Groups
  import opened Lr3Karnaugh
  import opened Lr3Minimise
  import M4 = Lr4Minimise
  import K4 = Lr4KmapMinimise

  /** `[self._implicant_to_expression(imp) for imp in selected]`. */
  function ProductClauses(vars: seq<string>, selected: seq<Term>): (r: seq<string>)
    requires forall s | s in selected :: |vars| <= |s|
    ensures |r| == |selected|
  {
    seq(|selected|, i requires 0 <= i < |selected| => ImplicantToExpression(vars, selected[i]))
  }

  /** `[self._maxterm_to_expression(imp) for imp in selected]`. */
  function SumClauses(vars: seq<string>, selected: seq<Term>): (r: seq<string>)
    ensures |r| == |selected|
  {
    seq(|selected|, i requires 0 <= i < |selected| => MaxtermToExpression(vars, selected[i]))
  }

  /**
   * The shared part of both methods: the map of the full table, its prime implicants for
   * `target` and the covering picked from them for the target rows (the minterms for 1, the
   * maxterms for 0). The picked implicants are distinct primes with at most two don't-care
   * positions, cover only target rows, and cover every target row.
   */
  method KmapSelection(truth: seq<bool>, n: nat, target: bool) returns (selected: seq<Term>, ghost primes: seq<Term>)
    requires |truth| == Pow2(n)
    ensures Distinct(selected)
    ensures forall s | s in selected :: s in primes
    ensures forall s | s in selected :: |s| == n && n <= FixedCount(s) + 2 && ImplicantOf(s, K4.KmapTerms(truth, n, target))
    ensures forall u | u in K4.KmapTerms(truth, n, target) :: exists s | s in selected :: |u| <= |s| && Covers(s, u)
    ensures K4.KmapTerms(truth, n, target) == [] <==> selected == []
    ensures forall p | p in primes :: |p| == n
    ensures forall p, q | p in primes && q in primes && p != q :: !Covers(q, p)
    ensures forall g | g in Candidates(K4.KmapTerms(truth, n, target)) && ValidCandidate(g, n) ::
              exists p | p in primes :: |p| == n && Covers(p, CommonPattern(g, n))
  {
    var terms := K4.KmapTerms(truth, n, target);
    var found := KmapPrimes(truth, n, target);
    primes := found;
    MintermsShape(truth, n);
    selected := PickCovering(found, terms, n);
    SelectedShape(found, terms, selected, n);
  }

  /** `_select_essential_primes(prime_implicants, terms)` on primes that cover every term. */
  method PickCovering(primes: seq<Term>, terms: seq<Term>, ghost n: nat) returns (selected: seq<Term>)
    requires forall p | p in primes :: |p| == n
    requires forall t | t in terms :: |t| == n
    requires forall c | c in terms :: exists p | p in primes :: |c| <= |p| && Covers(p, c)
    ensures forall s | s in selected :: s in primes
    ensures Distinct(primes) ==> Distinct(selected)
    ensures forall u | u in terms :: exists s | s in selected :: |u| <= |s| && Covers(s, u)
  {
    SelectablePrimes(primes, terms, n);
    selected := SelectEssentialPrimes(primes, terms);
  }

  /** The map of the full table and its prime implicants for `target`, as `_find_prime_implicants` finds them. */
  method KmapPrimes(truth: seq<bool>, n: nat, target: bool) returns (primes: seq<Term>)
    requires |truth| == Pow2(n)
    ensures Distinct(primes)
    ensures forall p | p in primes :: |p| == n && n <= FixedCount(p) + 2 && ImplicantOf(p, K4.KmapTerms(truth, n, target))
    ensures primes != [] ==> K4.KmapTerms(truth, n, target) != []
    ensures forall p, q | p in primes && q in primes && p != q :: !Covers(q, p)
    ensures forall c | c in K4.KmapTerms(truth, n, target) :: exists p | p in primes :: |c| <= |p| && Covers(p, c)
    ensures forall g | g in Candidates(K4.KmapTerms(truth, n, target)) && ValidCandidate(g, n) ::
              exists p | p in primes :: |p| == n && Covers(p, CommonPattern(g, n))
  {
    var table := TableOf(truth, n);
    var kmap, keys := BuildKarnaughMap(table);
    KarnaughTargets(truth, n);
    assert TargetCells(kmap, keys, target) == K4.KmapTerms(truth, n, target);
    primes := FindPrimeImplicants(kmap, keys, target, n);
    GroupImplicantsShape(primes, K4.KmapTerms(truth, n, target), n);
  }

  /** Group implicants have n positions, at most two of them don't-care, and need a target cell. */
  lemma GroupImplicantsShape(primes: seq<Term>, terms: seq<Term>, n: nat)
    requires forall p | p in primes :: GroupImplicant(p, terms, n)
    ensures forall p | p in primes :: |p| == n && n <= FixedCount(p) + 2 && ImplicantOf(p, terms)
    ensures primes != [] ==> terms != []
  {
    if primes != [] {
      assert GroupImplicant(primes[0], terms, n);
    }
  }

  /** What the picked primes inherit, and that a non-empty target list gets a non-empty pick. */
  lemma SelectedShape(primes: seq<Term>, terms: seq<Term>, selected: seq<Term>, n: nat)
    requires forall p | p in primes :: |p| == n && n <= FixedCount(p) + 2 && ImplicantOf(p, terms)
    requires primes != [] ==> terms != []
    requires forall s | s in selected :: s in primes
    requires forall u | u in terms :: exists s | s in selected :: |u| <= |s| && Covers(s, u)
    ensures forall s | s in selected :: |s| == n && n <= FixedCount(s) + 2 && ImplicantOf(s, terms)
    ensures terms != [] <==> selected != []
  {
    if terms != [] {
      assert terms[0] in terms;
    }
    if selected != [] {
      assert selected[0] in primes;
    }
  }

  /** Primes of n positions can be checked against n-position rows, and cover those they contain. */
  lemma SelectablePrimes(primes: seq<Term>, terms: seq<Term>, n: nat)
    requires forall p | p in primes :: |p| == n
    requires forall t | t in terms :: |t| == n
    requires forall c | c in terms :: exists p | p in primes :: |c| <= |p| && Covers(p, c)
    ensures forall i, t | 0 <= i < |primes| && t in terms :: |t| <= |primes[i]|
    ensures forall t | t in terms :: exists i | 0 <= i < |primes| :: CoversAt(primes, i, t)
  {
    forall i, t | 0 <= i < |primes| && t in terms ensures |t| <= |primes[i]| {
      assert primes[i] in primes;
    }
    forall t | t in terms ensures exists i | 0 <= i < |primes| :: CoversAt(primes, i, t) {
      var p :| p in primes && |t| <= |p| && Covers(p, t);
      var i :| 0 <= i < |primes| && primes[i] == p;
      assert CoversAt(primes, i, t);
    }
  }

  /**
   * `minimize_sdnf_kmap`: outside 2..5 variables, `minimize_sdnf_calculus`. Otherwise "0" when
   * nothing is picked, which is exactly when there is no minterm, else the picked products
   * joined by " | " in the order picked; they represent the on-set.
   */
  method MinimizeSdnfKmap(vars: seq<string>, truth: seq<bool>) returns (text: string, selected: seq<Term>)
    requires |truth| == Pow2(|vars|)
    ensures Minterms(truth, |vars|) == [] ==> text == "0" && selected == []
    ensures forall s | s in selected :: |s| == |vars|
    ensures 2 <= |vars| <= 5 ==>
      Distinct(selected) && (forall s | s in selected :: |vars| <= FixedCount(s) + 2) &&
      (Minterms(truth, |vars|) != [] ==>
        selected != [] && text == Join(ProductClauses(vars, selected), " | ") && RepresentsOnSet(truth, |vars|, selected))
    ensures !(2 <= |vars| <= 5) && |Minterms(truth, |vars|)| == Pow2(|vars|) ==> text == "1"
    ensures !(2 <= |vars| <= 5) && 0 < |Minterms(truth, |vars|)| != Pow2(|vars|) ==>
      selected != [] && RepresentsOnSet(truth, |vars|, selected) &&
      exists order :: IsOrdering(order, ProductTexts(vars, selected)) && text == Join(order, " | ")
  {
    var n := |vars|;
    if !(2 <= n <= 5) {
      text, selected := MinimizeSdnfCalculus(vars, truth);
      return;
    }
    ghost var primes;
    selected, primes := KmapSelection(truth, n, true);
    if selected == [] {
      return "0", selected;
    }
    text := Join(ProductClauses(vars, selected), " | ");
    ExactCover(truth, n, selected);
  }

  /**
   * `minimize_sknf_kmap` as written: outside 2..4 variables, `minimize_sknf_calculus`. Otherwise
   * "1" when nothing is picked (no maxterm), else the picked clauses joined by " & " in the
   * order picked; they represent the off-set, and with a true row somewhere every clause is
   * parenthesised. With two variables the always-false function gives "1": its four cells form
   * one group whose clause has no literal.
   */
  method MinimizeSknfKmap(vars: seq<string>, truth: seq<bool>) returns (text: string, selected: seq<Term>)
    requires |truth| == Pow2(|vars|)
    ensures Maxterms(truth, |vars|) == [] ==> text == "1" && selected == []
    ensures forall s | s in selected :: |s| == |vars|
    ensures 2 <= |vars| <= 4 ==>
      Distinct(selected) && (forall s | s in selected :: |vars| <= FixedCount(s) + 2) &&
      (Maxterms(truth, |vars|) != [] ==>
        selected != [] && text == Join(SumClauses(vars, selected), " & ") &&
        RepresentsOnSet(Negate(truth), |vars|, selected))
    ensures 2 <= |vars| <= 4 && Maxterms(truth, |vars|) != [] && (exists i | 0 <= i < |truth| :: truth[i]) ==>
      |text| > 0 && text[0] == '('
    ensures |vars| == 2 && (forall i | 0 <= i < |truth| :: !truth[i]) ==> text == "1"
    ensures !(2 <= |vars| <= 4) && Maxterms(truth, |vars|) != [] ==>
      selected != [] && RepresentsOnSet(Negate(truth), |vars|, selected) &&
      exists order :: IsOrdering(order, SumTexts(vars, selected)) && text == Join(order, " & ")
  {
    var n := |vars|;
    if !(2 <= n <= 4) {
      text, selected := MinimizeSknfCalculus(vars, truth);
      return;
    }
    ghost var primes;
    selected, primes := KmapSelection(truth, n, false);
    if selected == [] {
      return "1", selected;
    }
    text := Join(SumClauses(vars, selected), " & ");
    OffSetCover(truth, n, selected);
    if exists i | 0 <= i < |truth| :: truth[i] {
      M4.ClausesParenthesised(vars, truth, selected);
      assert SumClauses(vars, selected)[0] in SumTexts(vars, selected);
      JoinFirstChar(SumClauses(vars, selected), " & ");
    }
    if n == 2 && forall i | 0 <= i < |truth| :: !truth[i] {
      TwoVariableAllFalseText(vars, truth, selected, primes);
    }
  }

  /** The picked clauses of the always-false function of two variables are the single clause "1". */
  lemma TwoVariableAllFalseText(vars: seq<string>, truth: seq<bool>, selected: seq<Term>, primes: seq<Term>)
    requires |vars| == 2 && |truth| == 4 && forall i | 0 <= i < |truth| :: !truth[i]
    requires selected != [] && Distinct(selected) && forall s | s in selected :: s in primes
    requires forall p | p in primes :: |p| == 2
    requires forall p, q | p in primes && q in primes && p != q :: !Covers(q, p)
    requires forall g | g in Candidates(Maxterms(truth, 2)) && ValidCandidate(g, 2) ::
               exists p | p in primes :: |p| == 2 && Covers(p, CommonPattern(g, 2))
    ensures Join(SumClauses(vars, selected), " & ") == "1"
  {
    TwoVariableAllFalsePrimes(truth, primes);
    DistinctAllEqual(selected, AllDC(2));
    assert selected[0] in selected;
    assert selected == [AllDC(2)];
    AllDCClauses(vars);
    assert SumClauses(vars, selected) == ["1"];
  }

  /** A duplicate-free sequence of copies of `x` has at most one element. */
  lemma DistinctAllEqual(s: seq<Term>, x: Term)
    requires Distinct(s) && forall e | e in s :: e == x
    ensures |s| <= 1
  {
    DistinctCard(s);
    assert (set e | e in s) <= {x};
    K4.SubsetCard(set e | e in s, {x});
  }

  /** Every prime of the always-false function of two variables is the all-don't-care term. */
  lemma TwoVariableAllFalsePrimes(truth: seq<bool>, primes: seq<Term>)
    requires |truth| == 4 && forall i | 0 <= i < |truth| :: !truth[i]
    requires forall p | p in primes :: |p| == 2
    requires forall p, q | p in primes && q in primes && p != q :: !Covers(q, p)
    requires forall g | g in Candidates(Maxterms(truth, 2)) && ValidCandidate(g, 2) ::
               exists p | p in primes :: |p| == 2 && Covers(p, CommonPattern(g, 2))
    ensures forall p | p in primes :: p == AllDC(2)
  {
    var cells := FourCells(truth);
    WholeCandidate(cells);
    FourCellsGroup(cells);
    var whole :| whole in primes && |whole| == 2 && Covers(whole, CommonPattern(cells, 2));
    assert whole == AllDC(2);
    forall p | p in primes ensures p == AllDC(2) {
      if p != whole {
        assert Covers(whole, p);
      }
    }
  }

  /** Four cells are tried together first, as the only combination of four. */
  lemma WholeCandidate(cells: seq<Term>)
    requires |cells| == 4
    ensures cells in Candidates(cells)
  {
    CombinationsAll(cells);
    assert GroupSizes[0] == |cells|;
    assert Tried(cells, 1) == [cells];
    assert cells in Tried(cells, 2);
  }

  /** The maxterms of the always-false function of two variables: all four rows. */
  lemma FourCells(truth: seq<bool>) returns (cells: seq<Term>)
    requires |truth| == 4 && forall i | 0 <= i < |truth| :: !truth[i]
    ensures cells == Maxterms(truth, 2)
    ensures cells == [[Zero, Zero], [Zero, One], [One, Zero], [One, One]]
  {
    cells := Maxterms(truth, 2);
    var off := Negate(truth);
    assert off == [true, true, true, true];
    FourTrueIndices();
    TwoBitRows();
  }

  lemma FourTrueIndices()
    ensures TrueIndices([true, true, true, true]) == [0, 1, 2, 3]
  {
    assert TrueIndices([true]) == [0];
    assert [true, true][..1] == [true];
    assert TrueIndices([true, true]) == [0, 1];
    assert [true, true, true][..2] == [true, true];
    assert TrueIndices([true, true, true]) == [0, 1, 2];
    assert [true, true, true, true][..3] == [true, true, true];
  }

  lemma TwoBitRows()
    ensures Encode(0, 2) == [Zero, Zero] && Encode(1, 2) == [Zero, One]
    ensures Encode(2, 2) == [One, Zero] && Encode(3, 2) == [One, One]
  {
  }

  /** The four rows of two variables form one valid group, whose implicant has no fixed position. */
  lemma FourCellsGroup(cells: seq<Term>)
    requires cells == [[Zero, Zero], [Zero, One], [One, Zero], [One, One]]
    ensures ValidCandidate(cells, 2) && CommonPattern(cells, 2) == AllDC(2)
  {
    FourCellsPattern(cells);
    FourCellsValid(cells);
  }

  lemma FourCellsPattern(cells: seq<Term>)
    requires cells == [[Zero, Zero], [Zero, One], [One, Zero], [One, One]]
    ensures Wide(cells, 2) && CommonPattern(cells, 2) == AllDC(2)
  {
    FourCellsDisagree(cells);
  }

  lemma FourCellsValid(cells: seq<Term>)
    requires cells == [[Zero, Zero], [Zero, One], [One, Zero], [One, One]]
    ensures Wide(cells, 2) && ValidGroup(cells, 2)
  {
    FourCellsDisagree(cells);
    FourCellsFills(cells);
    assert Pow2(2) == 4;
    ValidGroupIntro(cells, 2);
  }

  /** Each of the four ways of filling both positions of the first row is one of the rows. */
  lemma FourCellsFills(cells: seq<Term>)
    requires cells == [[Zero, Zero], [Zero, One], [One, Zero], [One, One]]
    ensures HasAllFills(cells, [0, 1])
  {
    assert Pow2(2) == 4;
    TwoBitRows();
    forall j | 0 <= j < 4 ensures Fill(cells[0], [0, 1], Encode(j, 2)) in cells {
      FillBoth(cells[0], Encode(j, 2));
      assert j == 0 || j == 1 || j == 2 || j == 3;
      assert Encode(j, 2) == cells[j];
    }
  }

  /** The four rows disagree at both positions. */
  lemma FourCellsDisagree(cells: seq<Term>)
    requires cells == [[Zero, Zero], [Zero, One], [One, Zero], [One, One]]
    ensures !AllAgreeAt(cells, 0) && !AllAgreeAt(cells, 1) && NonFixed(cells, 2) == [0, 1]
  {
    assert cells[2][0] != cells[0][0] && cells[1][1] != cells[0][1];
    assert NonFixed(cells, 1) == [0];
  }

  /** Writing both positions of a two-position term gives the values written. */
  lemma FillBoth(base: Term, vals: Term)
    requires |base| == 2 && |vals| == 2
    ensures Fill(base, [0, 1], vals) == vals
  {
    assert [0, 1][..1] == [0] && vals[..1] == [vals[0]];
    assert Fill(base, [0], [vals[0]]) == base[0 := vals[0]];
  }

  /**
   * `minimize_sknf_kmap` with the always-false function answered "0" before the map is built,
   * and the corrected calculus method as the fallback. On every table the texts "0" and "1" then
   * come exactly from the constant functions.
   */
  method MinimizeSknfKmapCorrected(vars: seq<string>, truth: seq<bool>) returns (text: string, selected: seq<Term>)
    requires |truth| == Pow2(|vars|)
    ensures text == "0" <==> forall i | 0 <= i < |truth| :: !truth[i]
    ensures text == "1" <==> forall i | 0 <= i < |truth| :: truth[i]
    ensures forall s | s in selected :: |s| == |vars|
    ensures 2 <= |vars| <= 4 && 0 < |Maxterms(truth, |vars|)| < Pow2(|vars|) ==>
      selected != [] && text == Join(SumClauses(vars, selected), " & ") &&
      RepresentsOnSet(Negate(truth), |vars|, selected)
  {
    var n := |vars|;
    M4.MaxtermsCount(truth, n);
    if !(2 <= n <= 4) {
      text, selected := MinimizeSknfCalculusCorrected(vars, truth);
      return;
    }
    if |Maxterms(truth, n)| == Pow2(n) {
      return "0", [];
    }
    text, selected := MinimizeSknfKmap(vars, truth);
  }
}
