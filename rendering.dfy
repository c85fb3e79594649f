/**
 * Rendering of implicants as clause text. A clause is first computed as a list of literals
 * (variable index and polarity) and then printed with the variable names.
 */
module Rendering {
  import opened Terms
  import opened Text

  /** The literal `v` (positive) or `!v` (negative) over variable number `index`. */
  datatype Literal = Literal(index: nat, positive: bool)

  /** The literal is true on a full row. */
  predicate Holds(l: Literal, row: Term)
    requires l.index < |row|
  {
    (row[l.index] == One) == l.positive
  }

  /** Literals of the product term `imp` over its first `k` positions: `v` for One, `!v` for Zero, DC skipped. */
  function ProductLiterals(imp: Term, k: nat): (r: seq<Literal>)
    requires k <= |imp|
    ensures forall j | 0 <= j < |r| :: r[j].index < k
  {
    if k == 0 then []
    else ProductLiterals(imp, k - 1) + (if imp[k - 1] == DC then [] else [Literal(k - 1, imp[k - 1] == One)])
  }

  /** Literals of the sum term (maxterm clause) of `imp`: the polarities flipped, `!v` for One, `v` for Zero. */
  function SumLiterals(imp: Term, k: nat): (r: seq<Literal>)
    requires k <= |imp|
    ensures forall j | 0 <= j < |r| :: r[j].index < k
  {
    if k == 0 then []
    else SumLiterals(imp, k - 1) + (if imp[k - 1] == DC then [] else [Literal(k - 1, imp[k - 1] == Zero)])
  }

  function LiteralText(vars: seq<string>, l: Literal): string
    requires l.index < |vars|
  {
    if l.positive then vars[l.index] else "!" + vars[l.index]
  }

  function Texts(vars: seq<string>, lits: seq<Literal>): (r: seq<string>)
    requires forall j | 0 <= j < |lits| :: lits[j].index < |vars|
    ensures |r| == |lits|
  {
    seq(|lits|, j requires 0 <= j < |lits| => LiteralText(vars, lits[j]))
  }

  function Min(a: nat, b: nat): nat { if a <= b then a else b }

  /** `_implicant_to_expression`: the product literals joined by " & ", or "1" when there are none. */
  function ImplicantToExpression(vars: seq<string>, imp: Term): string
    requires |vars| <= |imp|
  {
    var lits := ProductLiterals(imp, |vars|);
    if lits == [] then "1" else Join(Texts(vars, lits), " & ")
  }

  /**
   * `_maxterm_to_expression`: the sum literals (variables beyond the term skipped) joined by " | "
   * inside parentheses, or "1" when there are none.
   */
  function MaxtermToExpression(vars: seq<string>, imp: Term): string
  {
    var lits := SumLiterals(imp, Min(|vars|, |imp|));
    if lits == [] then "1" else "(" + Join(Texts(vars, lits), " | ") + ")"
  }

  /**
   * The clause `minimize_with_kmap` prints for one implicant of the Karnaugh path: product literals
   * joined by " & " (DNF) or sum literals joined by " | " (CNF), over `zip(variables, implicant)`,
   * parenthesised, or "1" when there are none.
   */
  function KmapClause(vars: seq<string>, imp: Term, isDnf: bool): string
  {
    var k := Min(|vars|, |imp|);
    var lits := if isDnf then ProductLiterals(imp, k) else SumLiterals(imp, k);
    if lits == [] then "1" else "(" + Join(Texts(vars, lits), if isDnf then " & " else " | ") + ")"
  }

  /** There are as many product literals as fixed positions. */
  lemma {:induction false} ProductLiteralsCount(imp: Term, k: nat)
    requires k <= |imp|
    ensures |ProductLiterals(imp, k)| == FixedCount(imp[..k])
  {
    if k > 0 {
      ProductLiteralsCount(imp, k - 1);
      assert imp[..k][..k - 1] == imp[..k - 1];
    }
  }

  /** Each product literal names a fixed position, positive exactly where the implicant holds One. */
  lemma {:induction false} ProductLiteralsFixed(imp: Term, k: nat)
    requires k <= |imp|
    ensures forall j | 0 <= j < |ProductLiterals(imp, k)| ::
      imp[ProductLiterals(imp, k)[j].index] != DC &&
      ProductLiterals(imp, k)[j].positive == (imp[ProductLiterals(imp, k)[j].index] == One)
  {
    if k > 0 {
      ProductLiteralsFixed(imp, k - 1);
      var p := ProductLiterals(imp, k - 1);
      var r := ProductLiterals(imp, k);
      forall j | 0 <= j < |r|
        ensures imp[r[j].index] != DC && r[j].positive == (imp[r[j].index] == One)
      {
        if j < |p| {
          assert r[j] == p[j];
        }
      }
    }
  }

  /** The product literals come in increasing variable order. */
  lemma {:induction false} ProductLiteralsOrdered(imp: Term, k: nat)
    requires k <= |imp|
    ensures forall a, b | 0 <= a < b < |ProductLiterals(imp, k)| ::
      ProductLiterals(imp, k)[a].index < ProductLiterals(imp, k)[b].index
  {
    if k > 0 {
      ProductLiteralsOrdered(imp, k - 1);
      var p := ProductLiterals(imp, k - 1);
      var r := ProductLiterals(imp, k);
      forall a, b | 0 <= a < b < |r| ensures r[a].index < r[b].index {
        assert r[a] == p[a];
        if b < |p| {
          assert r[b] == p[b];
        } else {
          assert r[b].index == k - 1;
        }
      }
    }
  }

  /** Position `i` has a literal among the product literals of the first `k` positions. */
  predicate ProductLiteralAt(imp: Term, k: nat, i: nat)
    requires k <= |imp|
  {
    exists j | 0 <= j < |ProductLiterals(imp, k)| :: ProductLiterals(imp, k)[j].index == i
  }

  /** Every fixed position has its product literal. */
  lemma {:induction false} ProductLiteralsComplete(imp: Term, k: nat)
    requires k <= |imp|
    ensures forall i | 0 <= i < k && imp[i] != DC :: ProductLiteralAt(imp, k, i)
  {
    if k > 0 {
      ProductLiteralsComplete(imp, k - 1);
      var p := ProductLiterals(imp, k - 1);
      var r := ProductLiterals(imp, k);
      assert r[..|p|] == p;
      forall i | 0 <= i < k && imp[i] != DC
        ensures ProductLiteralAt(imp, k, i)
      {
        if i == k - 1 {
          assert r == p + [Literal(k - 1, imp[k - 1] == One)];
          assert r[|p|].index == i;
        } else {
          assert i < k - 1;
          var j :| 0 <= j < |p| && p[j].index == i;
          assert r[j] == p[j];
        }
      }
    }
  }

  /** On a full row, the product clause of `imp` holds exactly when `imp` covers the row. */
  lemma {:induction false} ProductClauseMeaning(imp: Term, row: Term, k: nat)
    requires k <= |imp| && k <= |row| && IsFull(row)
    ensures (forall j | 0 <= j < |ProductLiterals(imp, k)| :: Holds(ProductLiterals(imp, k)[j], row))
        <==> (forall i | 0 <= i < k :: imp[i] == DC || imp[i] == row[i])
  {
    if k > 0 {
      ProductClauseMeaning(imp, row, k - 1);
      var p := ProductLiterals(imp, k - 1);
      var r := ProductLiterals(imp, k);
      assert r[..|p|] == p;
      if imp[k - 1] != DC {
        assert r[|p|] == Literal(k - 1, imp[k - 1] == One);
        assert Holds(r[|p|], row) <==> imp[k - 1] == row[k - 1];
      }
    }
  }

  /** On a full row, the sum clause of `imp` is false exactly when `imp` covers the row. */
  lemma {:induction false} SumClauseMeaning(imp: Term, row: Term, k: nat)
    requires k <= |imp| && k <= |row| && IsFull(row)
    ensures (exists j | 0 <= j < |SumLiterals(imp, k)| :: Holds(SumLiterals(imp, k)[j], row))
        <==> !(forall i | 0 <= i < k :: imp[i] == DC || imp[i] == row[i])
  {
    if k > 0 {
      SumClauseMeaning(imp, row, k - 1);
      var p := SumLiterals(imp, k - 1);
      var r := SumLiterals(imp, k);
      assert r[..|p|] == p;
      if imp[k - 1] != DC {
        assert r[|p|] == Literal(k - 1, imp[k - 1] == Zero);
        assert Holds(r[|p|], row) <==> imp[k - 1] != row[k - 1];
      }
    }
  }

  /** The product clause of `imp` (the conjunction of its literals) is true on the row. */
  predicate ProductHolds(imp: Term, row: Term)
    requires |row| == |imp|
  {
    forall j | 0 <= j < |ProductLiterals(imp, |imp|)| :: Holds(ProductLiterals(imp, |imp|)[j], row)
  }

  /** The sum clause of `imp` (the disjunction of its flipped literals) is true on the row. */
  predicate SumHolds(imp: Term, row: Term)
    requires |row| == |imp|
  {
    exists j | 0 <= j < |SumLiterals(imp, |imp|)| :: Holds(SumLiterals(imp, |imp|)[j], row)
  }

  /** The clause of a full-width implicant over n variables means "imp covers the row" (product) or its negation (sum). */
  lemma ClauseMeaning(imp: Term, row: Term)
    requires |row| == |imp| && IsFull(row)
    ensures ProductHolds(imp, row) <==> Covers(imp, row)
    ensures SumHolds(imp, row) <==> !Covers(imp, row)
  {
    ProductClauseMeaning(imp, row, |imp|);
    SumClauseMeaning(imp, row, |imp|);
  }

  /** The sum literals are empty exactly when the first k positions are all don't-care. */
  lemma {:induction false} SumLiteralsEmpty(imp: Term, k: nat)
    requires k <= |imp|
    ensures SumLiterals(imp, k) == [] <==> forall i | 0 <= i < k :: imp[i] == DC
  {
    if k > 0 {
      SumLiteralsEmpty(imp, k - 1);
    }
  }

  /** The product literals are empty exactly when the first k positions are all don't-care. */
  lemma {:induction false} ProductLiteralsEmpty(imp: Term, k: nat)
    requires k <= |imp|
    ensures ProductLiterals(imp, k) == [] <==> forall i | 0 <= i < k :: imp[i] == DC
  {
    if k > 0 {
      ProductLiteralsEmpty(imp, k - 1);
    }
  }

  /** Every renderer prints the all-don't-care implicant as the constant "1". */
  lemma AllDCClauses(vars: seq<string>)
    ensures ImplicantToExpression(vars, AllDC(|vars|)) == "1"
    ensures MaxtermToExpression(vars, AllDC(|vars|)) == "1"
    ensures KmapClause(vars, AllDC(|vars|), true) == "1" && KmapClause(vars, AllDC(|vars|), false) == "1"
  {
    var n := |vars|;
    ProductLiteralsEmpty(AllDC(n), n);
    SumLiteralsEmpty(AllDC(n), n);
    assert Min(n, |AllDC(n)|) == n;
  }

  /** The distinct texts `_implicant_to_expression` gives for the selected implicants. */
  function ProductTexts(vars: seq<string>, selected: seq<Term>): set<string>
    requires forall s | s in selected :: |vars| <= |s|
  {
    set s | s in selected :: ImplicantToExpression(vars, s)
  }

  /** The distinct texts `_maxterm_to_expression` gives for the selected implicants. */
  function SumTexts(vars: seq<string>, selected: seq<Term>): set<string>
  {
    set s | s in selected :: MaxtermToExpression(vars, s)
  }
}
