/**
 * The calculus and table minimisers of `LogicalFunction` in LR_4/logical_function.py. The
 * function is given by its variables and its truth values (row i is the assignment whose bits,
 * most significant first, are the variables' values). Clause texts are joined in the iteration
 * order of a Python set, so a result is specified as a join of some ordering of the set of
 * rendered clauses.
 */
module Lr4Minimise {
  import opened Text
  import opened BitStrings
  import opened Terms
  import opened Cover
  import opened Rendering
  import opened Selection
  import opened Enumerations
  import opened Lr4Gluing

  /**
   * The step shared by every minimiser: `_get_prime_implicants` on the terms, then
   * `_select_essential_primes` on the primes. The chosen implicants cover exactly the terms.
   */
  method PrimesThenSelect(terms: seq<Term>, ghost n: nat) returns (selected: seq<Term>, ghost primes: seq<Term>)
    requires forall t | t in terms :: |t| == n
    ensures forall s | s in selected :: |s| == n && ImplicantOf(s, terms)
    ensures forall u | u in terms :: exists s | s in selected :: |u| <= |s| && Covers(s, u)
    ensures terms != [] ==> selected != []
    ensures forall s | s in selected :: s in primes
    ensures AllRows(terms, n) ==> primes == [AllDC(n)]
  {
    var found := GetPrimeImplicants(terms, n);
    selected := SelectEssentialPrimes(found, terms);
    primes := found;
    forall u | u in terms ensures exists s | s in selected :: |u| <= |s| && Covers(s, u) {
      var p :| p in found && |u| <= |p| && Covers(p, u);
      var i :| 0 <= i < |found| && found[i] == p;
      assert CoversAt(found, i, u);
    }
    if terms != [] {
      assert terms[0] in terms;
    }
  }

  /**
   * `minimize_sdnf_calculus`: "0" without minterms, "1" when all 2^n rows are minterms, otherwise
   * the rendered selected implicants joined by " | ". On a full table the selection is the
   * function's on-set.
   */
  method MinimizeSdnfCalculus(vars: seq<string>, truth: seq<bool>) returns (text: string, selected: seq<Term>)
    ensures Minterms(truth, |vars|) == [] ==> text == "0" && selected == []
    ensures |Minterms(truth, |vars|)| == Pow2(|vars|) ==> text == "1" && selected == []
    ensures forall s | s in selected :: |s| == |vars|
    ensures 0 < |Minterms(truth, |vars|)| != Pow2(|vars|) ==>
      selected != [] &&
      exists order :: IsOrdering(order, ProductTexts(vars, selected)) && text == Join(order, " | ")
    ensures 0 < |Minterms(truth, |vars|)| != Pow2(|vars|) && |truth| == Pow2(|vars|) ==>
      RepresentsOnSet(truth, |vars|, selected)
  {
    var n := |vars|;
    var minterms := Minterms(truth, n);
    MintermsShape(truth, n);
    if |minterms| == 0 {
      return "0", [];
    }
    if |minterms| == Pow2(n) {
      return "1", [];
    }
    ghost var primes;
    selected, primes := PrimesThenSelect(minterms, n);
    text := JoinInSomeOrder(ProductTexts(vars, selected), " | ");
    if |truth| == Pow2(n) {
      ExactCover(truth, n, selected);
    }
  }

  /**
   * `minimize_sknf_calculus`: "1" without maxterms, otherwise the rendered selected implicants of
   * the maxterms joined by " & ". On a full table the selection is the function's off-set.
   */
  method MinimizeSknfCalculus(vars: seq<string>, truth: seq<bool>) returns (text: string, selected: seq<Term>)
    ensures Maxterms(truth, |vars|) == [] ==> text == "1" && selected == []
    ensures forall s | s in selected :: |s| == |vars|
    ensures Maxterms(truth, |vars|) != [] ==>
      selected != [] &&
      exists order :: IsOrdering(order, SumTexts(vars, selected)) && text == Join(order, " & ")
    ensures Maxterms(truth, |vars|) != [] && |truth| == Pow2(|vars|) ==>
      RepresentsOnSet(Negate(truth), |vars|, selected)
    ensures |truth| == Pow2(|vars|) && (forall i | 0 <= i < |truth| :: !truth[i]) ==> text == "1"
  {
    var n := |vars|;
    var maxterms := Maxterms(truth, n);
    MintermsShape(truth, n);
    if |maxterms| == 0 {
      return "1", [];
    }
    ghost var primes;
    selected, primes := PrimesThenSelect(maxterms, n);
    text := JoinInSomeOrder(SumTexts(vars, selected), " & ");
    if |truth| == Pow2(n) {
      OffSetCover(truth, n, selected);
    }
    ConstantSumText(vars, truth, selected, primes, text);
  }

  /**
   * `minimize_sknf_calculus` with the guard the DNF side has: a function false on all 2^n rows
   * gives "0". On a full table the constant texts then come exactly from the constant functions.
   */
  method MinimizeSknfCalculusCorrected(vars: seq<string>, truth: seq<bool>) returns (text: string, selected: seq<Term>)
    ensures |truth| == Pow2(|vars|) ==> (text == "0" <==> forall i | 0 <= i < |truth| :: !truth[i])
    ensures |truth| == Pow2(|vars|) ==> (text == "1" <==> forall i | 0 <= i < |truth| :: truth[i])
    ensures forall s | s in selected :: |s| == |vars|
    ensures 0 < |Maxterms(truth, |vars|)| != Pow2(|vars|) ==>
      selected != [] &&
      exists order :: IsOrdering(order, SumTexts(vars, selected)) && text == Join(order, " & ")
    ensures 0 < |Maxterms(truth, |vars|)| != Pow2(|vars|) && |truth| == Pow2(|vars|) ==>
      RepresentsOnSet(Negate(truth), |vars|, selected)
  {
    var n := |vars|;
    MaxtermsCount(truth, n);
    if |Maxterms(truth, n)| == Pow2(n) {
      return "0", [];
    }
    text, selected := MinimizeSknfCalculus(vars, truth);
    if |truth| == Pow2(n) && Maxterms(truth, n) != [] {
      NonConstantText(vars, truth, selected, text);
    }
  }

  /** No maxterms means every row is true; 2^n maxterms of a full table means every row is false. */
  lemma MaxtermsCount(truth: seq<bool>, n: nat)
    ensures |Maxterms(truth, n)| == 0 <==> forall i | 0 <= i < |truth| :: truth[i]
    ensures |truth| == Pow2(n) ==> (|Maxterms(truth, n)| == Pow2(n) <==> forall i | 0 <= i < |truth| :: !truth[i])
  {
    var off := Negate(truth);
    TrueIndicesNone(off);
    TrueIndicesAll(off);
  }

  /** The CNF text of a selection that represents the off-set of a nonconstant table is neither "0" nor "1". */
  lemma NonConstantText(vars: seq<string>, truth: seq<bool>, selected: seq<Term>, text: string)
    requires |truth| == Pow2(|vars|) && (exists i | 0 <= i < |truth| :: truth[i])
    requires forall s | s in selected :: |s| == |vars|
    requires RepresentsOnSet(Negate(truth), |vars|, selected) && selected != []
    requires exists order :: IsOrdering(order, SumTexts(vars, selected)) && text == Join(order, " & ")
    ensures text != "0" && text != "1"
  {
    ClausesParenthesised(vars, truth, selected);
    var order :| IsOrdering(order, SumTexts(vars, selected)) && text == Join(order, " & ");
    assert MaxtermToExpression(vars, selected[0]) in SumTexts(vars, selected);
    assert order != [];
    assert order[0] in SumTexts(vars, selected);
    JoinFirstChar(order, " & ");
  }

  /**
   * When the table has a true row, no implicant of the off-set is all don't-care, so every clause
   * text of the selection is parenthesised.
   */
  lemma ClausesParenthesised(vars: seq<string>, truth: seq<bool>, selected: seq<Term>)
    requires |truth| == Pow2(|vars|) && (exists i | 0 <= i < |truth| :: truth[i])
    requires forall s | s in selected :: |s| == |vars|
    requires RepresentsOnSet(Negate(truth), |vars|, selected)
    ensures forall c | c in SumTexts(vars, selected) :: |c| > 0 && c[0] == '('
  {
    var n := |vars|;
    var i :| 0 <= i < |truth| && truth[i];
    forall s | s in selected ensures SumLiterals(s, n) != [] {
      SumLiteralsEmpty(s, n);
    }
  }

  /**
   * The value `minimize_sdnf_table` returns: as the calculus method, but without the check for
   * a function that is always true.
   */
  method MinimizeSdnfTable(vars: seq<string>, truth: seq<bool>) returns (text: string, selected: seq<Term>)
    ensures Minterms(truth, |vars|) == [] ==> text == "0" && selected == []
    ensures forall s | s in selected :: |s| == |vars|
    ensures Minterms(truth, |vars|) != [] ==>
      selected != [] &&
      exists order :: IsOrdering(order, ProductTexts(vars, selected)) && text == Join(order, " | ")
    ensures Minterms(truth, |vars|) != [] && |truth| == Pow2(|vars|) ==>
      RepresentsOnSet(truth, |vars|, selected)
    ensures |truth| == Pow2(|vars|) && (forall i | 0 <= i < |truth| :: truth[i]) ==> text == "1"
  {
    var n := |vars|;
    var minterms := Minterms(truth, n);
    MintermsShape(truth, n);
    if |minterms| == 0 {
      if |truth| == Pow2(n) {
        TrueIndicesNone(truth);
        assert !truth[0];
      }
      return "0", [];
    }
    ghost var primes;
    selected, primes := PrimesThenSelect(minterms, n);
    text := JoinInSomeOrder(ProductTexts(vars, selected), " | ");
    if |truth| == Pow2(n) {
      ExactCover(truth, n, selected);
    }
    ConstantProductText(vars, truth, selected, primes, text);
  }

  /**
   * The value `minimize_sknf_table` returns: "1" without maxterms, and "1" again when no clause is
   * left (which cannot happen: a nonempty set of maxterms always selects an implicant), otherwise
   * the clauses joined by " & ".
   */
  method MinimizeSknfTable(vars: seq<string>, truth: seq<bool>) returns (text: string, selected: seq<Term>)
    ensures Maxterms(truth, |vars|) == [] ==> text == "1" && selected == []
    ensures forall s | s in selected :: |s| == |vars|
    ensures Maxterms(truth, |vars|) != [] ==>
      selected != [] &&
      exists order :: IsOrdering(order, SumTexts(vars, selected)) && text == Join(order, " & ")
    ensures Maxterms(truth, |vars|) != [] && |truth| == Pow2(|vars|) ==>
      RepresentsOnSet(Negate(truth), |vars|, selected)
    ensures |truth| == Pow2(|vars|) && (forall i | 0 <= i < |truth| :: !truth[i]) ==> text == "1"
  {
    var n := |vars|;
    var maxterms := Maxterms(truth, n);
    MintermsShape(truth, n);
    if |maxterms| == 0 {
      return "1", [];
    }
    ghost var primes;
    selected, primes := PrimesThenSelect(maxterms, n);
    var texts := SumTexts(vars, selected);
    assert MaxtermToExpression(vars, selected[0]) in texts;
    if texts == {} {
      text := "1";
    } else {
      text := JoinInSomeOrder(texts, " & ");
    }
    if |truth| == Pow2(n) {
      OffSetCover(truth, n, selected);
    }
    ConstantSumText(vars, truth, selected, primes, text);
  }

  /**
   * Read as a disjunction of product terms, a selection representing the on-set evaluates to the
   * table's value on every row.
   */
  lemma SdnfRowMeaning(truth: seq<bool>, n: nat, selected: seq<Term>, i: nat)
    requires forall s | s in selected :: |s| == n
    requires RepresentsOnSet(truth, n, selected) && i < |truth|
    ensures truth[i] <==> exists s | s in selected :: ProductHolds(s, Encode(i, n))
  {
    var row := Encode(i, n);
    forall s | s in selected ensures ProductHolds(s, row) <==> Covers(s, row) {
      ClauseMeaning(s, row);
    }
  }

  /**
   * Read as a conjunction of sum clauses, a selection representing the off-set evaluates to the
   * table's value on every row.
   */
  lemma SknfRowMeaning(truth: seq<bool>, n: nat, selected: seq<Term>, i: nat)
    requires forall s | s in selected :: |s| == n
    requires RepresentsOnSet(Negate(truth), n, selected) && i < |truth|
    ensures truth[i] <==> forall s | s in selected :: SumHolds(s, Encode(i, n))
  {
    var row := Encode(i, n);
    forall s | s in selected ensures SumHolds(s, row) <==> !Covers(s, row) {
      ClauseMeaning(s, row);
    }
    assert !truth[i] <==> Negate(truth)[i];
  }

  /** The table of a function that is false on every one of its 2^n rows. */
  function AllFalse(n: nat): (r: seq<bool>)
    ensures |r| == Pow2(n) && forall i | 0 <= i < |r| :: !r[i]
  {
    seq(Pow2(n), i => false)
  }

  /**
   * As written, the CNF minimisers render an implicant without fixed positions as the clause "1".
   * For the always-false function that implicant (all don't-care) implies every maxterm and
   * covers all of them, so it is a valid selection; its clause holds on no row, yet its text is
   * the constant true.
   */
  lemma SknfAllFalseAsWritten(vars: seq<string>)
    ensures ImplicantOf(AllDC(|vars|), Maxterms(AllFalse(|vars|), |vars|))
    ensures forall u | u in Maxterms(AllFalse(|vars|), |vars|) :: Covers(AllDC(|vars|), u)
    ensures SumLiterals(AllDC(|vars|), |vars|) == []
    ensures MaxtermToExpression(vars, AllDC(|vars|)) == "1"
    ensures SumTexts(vars, [AllDC(|vars|)]) == {"1"}
  {
    var n := |vars|;
    AllDCImplicantOfAllFalse(n);
    AllDCClauseText(vars);
  }

  /** The all-don't-care term has no sum literals and renders as "1". */
  lemma AllDCClauseText(vars: seq<string>)
    ensures SumLiterals(AllDC(|vars|), |vars|) == []
    ensures MaxtermToExpression(vars, AllDC(|vars|)) == "1"
    ensures SumTexts(vars, [AllDC(|vars|)]) == {"1"}
  {
    SumLiteralsEmpty(AllDC(|vars|), |vars|);
    AllDCClauses(vars);
    AllDCTexts(vars, [AllDC(|vars|)]);
  }

  /**
   * For a function false on all 2^n rows, the CNF minimisers glue the maxterms down to the single
   * all-don't-care prime, whose clause is "1": the text is "1".
   */
  lemma ConstantSumText(vars: seq<string>, truth: seq<bool>, selected: seq<Term>, primes: seq<Term>, text: string)
    requires selected != [] && forall s | s in selected :: |s| == |vars| && s in primes
    requires AllRows(Maxterms(truth, |vars|), |vars|) ==> primes == [AllDC(|vars|)]
    requires exists order :: IsOrdering(order, SumTexts(vars, selected)) && text == Join(order, " & ")
    ensures |truth| == Pow2(|vars|) && (forall i | 0 <= i < |truth| :: !truth[i]) ==> text == "1"
  {
    if |truth| == Pow2(|vars|) && forall i | 0 <= i < |truth| :: !truth[i] {
      AllFalseRows(truth, |vars|);
      OnlyAllDC(selected, primes, AllDC(|vars|));
      AllDCTexts(vars, selected);
      JoinOfOne(SumTexts(vars, selected), text, " & ");
    }
  }

  /** For a function true on all 2^n rows, the DNF table minimiser's text is "1". */
  lemma ConstantProductText(vars: seq<string>, truth: seq<bool>, selected: seq<Term>, primes: seq<Term>, text: string)
    requires selected != [] && forall s | s in selected :: |s| == |vars| && s in primes
    requires AllRows(Minterms(truth, |vars|), |vars|) ==> primes == [AllDC(|vars|)]
    requires exists order :: IsOrdering(order, ProductTexts(vars, selected)) && text == Join(order, " | ")
    ensures |truth| == Pow2(|vars|) && (forall i | 0 <= i < |truth| :: truth[i]) ==> text == "1"
  {
    if |truth| == Pow2(|vars|) && forall i | 0 <= i < |truth| :: truth[i] {
      AllTrueRows(truth, |vars|);
      OnlyAllDC(selected, primes, AllDC(|vars|));
      AllDCTexts(vars, selected);
      JoinOfOne(ProductTexts(vars, selected), text, " | ");
    }
  }

  /** Every member of a selection from a single prime is that prime. */
  lemma OnlyAllDC(selected: seq<Term>, primes: seq<Term>, x: Term)
    requires primes == [x] && forall s | s in selected :: s in primes
    ensures forall s | s in selected :: s == x
  {
  }

  /** A non-empty selection of nothing but the all-don't-care term renders as the single text "1". */
  lemma AllDCTexts(vars: seq<string>, selected: seq<Term>)
    requires selected != [] && forall s | s in selected :: s == AllDC(|vars|) && |s| == |vars|
    ensures ProductTexts(vars, selected) == {"1"} && SumTexts(vars, selected) == {"1"}
  {
    AllDCClauses(vars);
    assert selected[0] in selected;
  }

  /** A join of the texts in some order, when the only text is "1", is "1". */
  lemma JoinOfOne(texts: set<string>, text: string, sep: string)
    requires texts == {"1"} && exists order :: IsOrdering(order, texts) && text == Join(order, sep)
    ensures text == "1"
  {
    var order :| IsOrdering(order, texts) && text == Join(order, sep);
    OrderingCard(order, texts);
    assert order[0] in texts;
  }

  /** A table of 2^n rows that is true everywhere lists every n-bit row among its minterms. */
  lemma AllTrueRows(truth: seq<bool>, n: nat)
    requires |truth| == Pow2(n) && forall i | 0 <= i < |truth| :: truth[i]
    ensures AllRows(Minterms(truth, n), n)
  {
    MintermsShape(truth, n);
    forall t: Term ensures t in Minterms(truth, n) <==> IsRow(t, n) {
      if IsRow(t, n) {
        FullTermIsEncoding(t);
        MintermsExact(truth, n, TermValue(t));
      }
    }
  }

  /** A table of 2^n rows that is false everywhere lists every n-bit row among its maxterms. */
  lemma AllFalseRows(truth: seq<bool>, n: nat)
    requires |truth| == Pow2(n) && forall i | 0 <= i < |truth| :: !truth[i]
    ensures AllRows(Maxterms(truth, n), n)
  {
    AllTrueRows(Negate(truth), n);
  }

  /** Every n-bit row is a maxterm of the always-false function, so the all-don't-care term implies them. */
  lemma AllDCImplicantOfAllFalse(n: nat)
    ensures ImplicantOf(AllDC(n), Maxterms(AllFalse(n), n))
    ensures forall u | u in Maxterms(AllFalse(n), n) :: Covers(AllDC(n), u)
  {
    MintermsShape(AllFalse(n), n);
    var truth := AllFalse(n);
    var x := AllDC(n);
    forall t: Term | |t| == |x| && IsFull(t) && Covers(x, t)
      ensures exists u | u in Maxterms(truth, n) && |u| == |x| :: Covers(u, t)
    {
      FullTermIsEncoding(t);
      MintermsExact(truth, n, TermValue(t));
      assert Covers(t, t);
    }
  }
}
