/**
 * The calculus and table minimisers of `LogicalFunction` in LR_3/logical_function.py. They take
 * the stored (sorted) variables and the result column of the truth table; clause texts are joined
 * in the iteration order of a Python set, so a result is specified as a join of some ordering of
 * the set of rendered clauses.
 */
module Lr3Minimise {
  import opened Text
  import opened BitStrings
  import opened Terms
  import opened Cover
  import opened Rendering
  import opened Selection
  import opened Enumerations
  import opened Lr3Gluing
  import M4 = Lr4Minimise
  import G = Lr4Gluing

  /**
   * `_get_prime_implicants` on the terms, then `_select_essential_primes`: the chosen implicants
   * imply and cover the terms and each has at least n - 1 fixed positions.
   */
  method PrimesThenSelect(terms: seq<Term>, ghost n: nat) returns (selected: seq<Term>, ghost primes: seq<Term>)
    requires FullTerms(terms, n)
    ensures forall s | s in selected :: |s| == n && n - 1 <= FixedCount(s) && ImplicantOf(s, terms)
    ensures forall u | u in terms :: exists s | s in selected :: |u| <= |s| && Covers(s, u)
    ensures terms != [] ==> selected != []
    ensures forall s | s in selected :: s in primes
    ensures forall p | p in primes :: p in PrimeSetLr3(terms)
  {
    var found := GetPrimeImplicants(terms, n);
    selected := SelectCovering(found, terms, n);
    primes := found;
  }

  /**
   * `_select_essential_primes` on primes that cover every term: the selection is drawn from them
   * and covers every term too.
   */
  method SelectCovering(found: seq<Term>, terms: seq<Term>, ghost n: nat) returns (selected: seq<Term>)
    requires forall p | p in found :: |p| == n
    requires forall t | t in terms :: |t| == n
    requires forall u | u in terms :: exists p | p in found :: |u| <= |p| && Covers(p, u)
    ensures forall s | s in selected :: s in found
    ensures forall u | u in terms :: exists s | s in selected :: |u| <= |s| && Covers(s, u)
    ensures terms != [] ==> selected != []
  {
    selected := SelectEssentialPrimes(found, terms);
    forall u | u in terms ensures exists s | s in selected :: |u| <= |s| && Covers(s, u) {
      var p :| p in found && |u| <= |p| && Covers(p, u);
      var i :| 0 <= i < |found| && found[i] == p;
      assert CoversAt(found, i, u);
    }
    if terms != [] {
      assert terms[0] in terms;
    }
  }

  /**
   * With two or more variables every chosen implicant has a fixed position, so every clause of
   * the sum text is parenthesised and the joined text starts with '('.
   */
  lemma SumTextParenthesised(vars: seq<string>, selected: seq<Term>, text: string)
    requires 2 <= |vars| && selected != []
    requires forall s | s in selected :: |s| == |vars| && |vars| - 1 <= FixedCount(s)
    requires exists order :: IsOrdering(order, SumTexts(vars, selected)) && text == Join(order, " & ")
    ensures |text| > 0 && text[0] == '('
  {
    var n := |vars|;
    forall s | s in selected ensures SumLiterals(s, n) != [] {
      SumLiteralsEmpty(s, n);
      G.FixedCountNone(s);
    }
    var order :| IsOrdering(order, SumTexts(vars, selected)) && text == Join(order, " & ");
    assert MaxtermToExpression(vars, selected[0]) in SumTexts(vars, selected);
    assert order != [] && order[0] in SumTexts(vars, selected);
    JoinFirstChar(order, " & ");
  }

  /**
   * `minimize_sdnf_calculus`: "0" without minterms, "1" when all 2^n rows are minterms, otherwise
   * the rendered chosen implicants joined by " | "; on a full table they are the on-set.
   */
  method MinimizeSdnfCalculus(vars: seq<string>, truth: seq<bool>) returns (text: string, selected: seq<Term>)
    ensures Minterms(truth, |vars|) == [] ==> text == "0" && selected == []
    ensures |Minterms(truth, |vars|)| == Pow2(|vars|) ==> text == "1" && selected == []
    ensures forall s | s in selected :: |s| == |vars| && |vars| - 1 <= FixedCount(s)
    ensures 0 < |Minterms(truth, |vars|)| != Pow2(|vars|) ==>
      selected != [] &&
      exists order :: IsOrdering(order, ProductTexts(vars, selected)) && text == Join(order, " | ")
    ensures 0 < |Minterms(truth, |vars|)| != Pow2(|vars|) && |truth| == Pow2(|vars|) ==>
      RepresentsOnSet(truth, |vars|, selected)
  {
    var n := |vars|;
    var minterms := Minterms(truth, n);
    MintermsShape(truth, n);
    if |minterms| == 0 {
      return "0", [];
    }
    if |minterms| == Pow2(n) {
      return "1", [];
    }
    ghost var primes;
    selected, primes := PrimesThenSelect(minterms, n);
    text := JoinInSomeOrder(ProductTexts(vars, selected), " | ");
    if |truth| == Pow2(n) {
      ExactCover(truth, n, selected);
    }
  }

  /**
   * `minimize_sknf_calculus`: "1" without maxterms, otherwise the rendered chosen implicants of
   * the maxterms joined by " & "; on a full table they are the off-set. With two or more
   * variables every clause is parenthesised; with at most one, the always-false function still
   * gives "1", because its one prime has no fixed position.
   */
  method MinimizeSknfCalculus(vars: seq<string>, truth: seq<bool>) returns (text: string, selected: seq<Term>)
    ensures Maxterms(truth, |vars|) == [] ==> text == "1" && selected == []
    ensures forall s | s in selected :: |s| == |vars| && |vars| - 1 <= FixedCount(s)
    ensures Maxterms(truth, |vars|) != [] ==>
      selected != [] &&
      exists order :: IsOrdering(order, SumTexts(vars, selected)) && text == Join(order, " & ")
    ensures Maxterms(truth, |vars|) != [] && |truth| == Pow2(|vars|) ==>
      RepresentsOnSet(Negate(truth), |vars|, selected)
    ensures 2 <= |vars| && Maxterms(truth, |vars|) != [] ==> |text| > 0 && text[0] == '('
    ensures |vars| <= 1 && |truth| == Pow2(|vars|) && (forall i | 0 <= i < |truth| :: !truth[i]) ==> text == "1"
  {
    var n := |vars|;
    var maxterms := Maxterms(truth, n);
    MintermsShape(truth, n);
    if |maxterms| == 0 {
      return "1", [];
    }
    ghost var primes;
    selected, primes := PrimesThenSelect(maxterms, n);
    text := JoinInSomeOrder(SumTexts(vars, selected), " & ");
    if |truth| == Pow2(n) {
      OffSetCover(truth, n, selected);
    }
    if 2 <= n {
      SumTextParenthesised(vars, selected, text);
    }
    SmallAllFalseText(vars, truth, selected, primes, text);
  }

  /**
   * With at most one variable, the always-false function has the all-don't-care term as its only
   * prime (the two rows glue, or the one empty row is it), so the chosen clauses read "1".
   */
  lemma SmallAllFalseText(vars: seq<string>, truth: seq<bool>, selected: seq<Term>, primes: seq<Term>, text: string)
    requires selected != [] && forall s | s in selected :: |s| == |vars| && s in primes
    requires forall p | p in primes :: p in PrimeSetLr3(Maxterms(truth, |vars|))
    requires exists order :: IsOrdering(order, SumTexts(vars, selected)) && text == Join(order, " & ")
    ensures |vars| <= 1 && |truth| == Pow2(|vars|) && (forall i | 0 <= i < |truth| :: !truth[i]) ==> text == "1"
  {
    var n := |vars|;
    if n <= 1 && |truth| == Pow2(n) && forall i | 0 <= i < |truth| :: !truth[i] {
      SmallAllFalsePrimes(truth, n);
      M4.AllDCTexts(vars, selected);
      M4.JoinOfOne(SumTexts(vars, selected), text, " & ");
    }
  }

  /** On at most one variable, every prime of the always-false function is all don't-care. */
  lemma SmallAllFalsePrimes(truth: seq<bool>, n: nat)
    requires n <= 1 && |truth| == Pow2(n) && forall i | 0 <= i < |truth| :: !truth[i]
    ensures forall p | p in PrimeSetLr3(Maxterms(truth, n)) :: p == AllDC(n)
  {
    var m := Maxterms(truth, n);
    MintermsShape(truth, n);
    PrimeSetShape(m, n);
    if n == 1 {
      OneVariableAllUsed(truth);
      forall p | p in GluedGroups(Elements(m), true) ensures p == AllDC(n) {
        G.FixedCountNone(p);
      }
    }
  }

  /** Both rows of the always-false function of one variable are maxterms, and they glue. */
  lemma OneVariableAllUsed(truth: seq<bool>)
    requires |truth| == 2 && !truth[0] && !truth[1]
    ensures Elements(Maxterms(truth, 1)) - UsedGroups(Elements(Maxterms(truth, 1)), true) == {}
  {
    var e := Elements(Maxterms(truth, 1));
    MintermsShape(truth, 1);
    MintermsExact(truth, 1, 0);
    MintermsExact(truth, 1, 1);
    var z, o := Encode(0, 1), Encode(1, 1);
    assert z == [Zero] && o == [One];
    assert G.DiffCount(z, o, 1) == 1;
    assert Gluable(z, o, true);
    assert z in e && o in e;
    forall u | u in e ensures u in UsedGroups(e, true) {
      assert |u| == 1 && u[0] != DC;
      assert u == [u[0]];
      if u[0] == Zero {
        assert u == z;
      } else {
        assert u == o;
      }
    }
  }

  /**
   * `minimize_sknf_calculus` with the guard the DNF side has: a function false on all 2^n rows
   * gives "0". On a full table the constant texts then come exactly from the constant functions.
   */
  method MinimizeSknfCalculusCorrected(vars: seq<string>, truth: seq<bool>) returns (text: string, selected: seq<Term>)
    ensures |truth| == Pow2(|vars|) ==> (text == "0" <==> forall i | 0 <= i < |truth| :: !truth[i])
    ensures |truth| == Pow2(|vars|) ==> (text == "1" <==> forall i | 0 <= i < |truth| :: truth[i])
    ensures forall s | s in selected :: |s| == |vars|
    ensures 0 < |Maxterms(truth, |vars|)| != Pow2(|vars|) ==>
      selected != [] &&
      exists order :: IsOrdering(order, SumTexts(vars, selected)) && text == Join(order, " & ")
  {
    var n := |vars|;
    M4.MaxtermsCount(truth, n);
    if |Maxterms(truth, n)| == Pow2(n) {
      return "0", [];
    }
    text, selected := MinimizeSknfCalculus(vars, truth);
    if |truth| == Pow2(n) && Maxterms(truth, n) != [] {
      M4.NonConstantText(vars, truth, selected, text);
    }
  }

  /**
   * The value `minimize_sdnf_table` returns: as the calculus method, but without the check for a
   * function that is always true.
   */
  method MinimizeSdnfTable(vars: seq<string>, truth: seq<bool>) returns (text: string, selected: seq<Term>)
    ensures Minterms(truth, |vars|) == [] ==> text == "0" && selected == []
    ensures forall s | s in selected :: |s| == |vars| && |vars| - 1 <= FixedCount(s)
    ensures Minterms(truth, |vars|) != [] ==>
      selected != [] &&
      exists order :: IsOrdering(order, ProductTexts(vars, selected)) && text == Join(order, " | ")
    ensures Minterms(truth, |vars|) != [] && |truth| == Pow2(|vars|) ==>
      RepresentsOnSet(truth, |vars|, selected)
  {
    var n := |vars|;
    var minterms := Minterms(truth, n);
    MintermsShape(truth, n);
    if |minterms| == 0 {
      return "0", [];
    }
    ghost var primes;
    selected, primes := PrimesThenSelect(minterms, n);
    text := JoinInSomeOrder(ProductTexts(vars, selected), " | ");
    if |truth| == Pow2(n) {
      ExactCover(truth, n, selected);
    }
  }

  /**
   * The value `minimize_sknf_table` returns: "1" without maxterms, and "1" again when no clause is
   * left (which cannot happen once there is a maxterm), otherwise the clauses joined by " & ".
   */
  method MinimizeSknfTable(vars: seq<string>, truth: seq<bool>) returns (text: string, selected: seq<Term>)
    ensures Maxterms(truth, |vars|) == [] ==> text == "1" && selected == []
    ensures forall s | s in selected :: |s| == |vars| && |vars| - 1 <= FixedCount(s)
    ensures Maxterms(truth, |vars|) != [] ==>
      selected != [] &&
      exists order :: IsOrdering(order, SumTexts(vars, selected)) && text == Join(order, " & ")
    ensures Maxterms(truth, |vars|) != [] && |truth| == Pow2(|vars|) ==>
      RepresentsOnSet(Negate(truth), |vars|, selected)
    ensures 2 <= |vars| && Maxterms(truth, |vars|) != [] ==> |text| > 0 && text[0] == '('
  {
    var n := |vars|;
    var maxterms := Maxterms(truth, n);
    MintermsShape(truth, n);
    if |maxterms| == 0 {
      return "1", [];
    }
    ghost var primes;
    selected, primes := PrimesThenSelect(maxterms, n);
    var texts := SumTexts(vars, selected);
    assert MaxtermToExpression(vars, selected[0]) in texts;
    if texts == {} {
      text := "1";
    } else {
      text := JoinInSomeOrder(texts, " & ");
    }
    if |truth| == Pow2(n) {
      OffSetCover(truth, n, selected);
    }
    if 2 <= n {
      SumTextParenthesised(vars, selected, text);
    }
  }
}
