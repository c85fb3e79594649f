/**
 * The selector and the driver of the Karnaugh path of `LogicalFunction` in
 * LR_4/logical_function.py: `_is_covering`, `_select_essential_primes_kmap` and
 * `minimize_with_kmap`.
 */
module Lr4KmapMinimise {
  import opened Wrappers
  import opened Text
  import opened BitStrings
  import opened Terms
  import opened Cover
  import opened Rendering
  import opened Enumerations
  import opened Lr4Gluing
  import opened Lr4Minimise
  import opened Lr4Karnaugh

  // ----------------------------------------------------------------- covering

  /** `_is_covering`: along `zip(implicant, minterm)`, every position is '-' or agrees. */
  predicate IsCovering(imp: Term, m: Term)
  {
    forall i | 0 <= i < Min(|imp|, |m|) :: imp[i] == DC || imp[i] == m[i]
  }

  /**
   * On a minterm no longer than the implicant, `_is_covering` is `_covers`; in particular the
   * all-don't-care implicant covers every minterm of its length.
   */
  lemma IsCoveringIsCovers(imp: Term, m: Term)
    requires |m| <= |imp|
    ensures IsCovering(imp, m) <==> Covers(imp, m)
    ensures |imp| == |m| && imp == AllDC(|m|) ==> IsCovering(imp, m)
  {
    assert Min(|imp|, |m|) == |m|;
  }

  // ----------------------------------------------------------------- selection

  /** The primes that cover `m` (the `covering` list, as a set). */
  function Coverers(primes: set<Term>, m: Term): set<Term>
  {
    set p | p in primes && IsCovering(p, m)
  }

  /** `set(coverage_table[p])`: the minterms `p` covers. */
  function CoverageRow(p: Term, minterms: seq<Term>): set<Term>
  {
    set m | m in minterms && IsCovering(p, m)
  }

  /** The minterms covered by some member of `s` (the union of their coverage rows). */
  function CoveredBy(s: set<Term>, minterms: seq<Term>): set<Term>
  {
    set m | m in minterms && exists e | e in s :: IsCovering(e, m)
  }

  /**
   * The index Python's `max(items, key=...)` picks over `keys`: the largest key, and of equal keys
   * the first.
   */
  function ArgMax(keys: seq<nat>): (r: nat)
    requires keys != []
    ensures r < |keys|
    ensures forall j | 0 <= j < |keys| :: keys[j] <= keys[r]
    ensures forall j | 0 <= j < r :: keys[j] < keys[r]
  {
    if |keys| == 1 then 0
    else
      var r := ArgMax(keys[..|keys| - 1]);
      if keys[|keys| - 1] > keys[r] then |keys| - 1 else r
  }

  /** The `max` keys of the coverage table in iteration order: how many remaining minterms each prime covers. */
  function Gains(order: seq<Term>, minterms: seq<Term>, remaining: set<Term>): (r: seq<nat>)
    ensures |r| == |order|
  {
    seq(|order|, j requires 0 <= j < |order| => |CoverageRow(order[j], minterms) * remaining|)
  }

  /** Every minterm is covered by some prime: the condition under which the greedy loop ends. */
  predicate Coverable(primes: set<Term>, minterms: seq<Term>)
  {
    forall m | m in minterms :: exists p | p in primes :: IsCovering(p, m)
  }

  /** Every prime that is the only one covering some minterm is in `essential`. */
  predicate SoleCoverersIn(primes: set<Term>, minterms: seq<Term>, j: nat, essential: set<Term>)
    requires j <= |minterms|
  {
    forall i, p | 0 <= i < j && p in Coverers(primes, minterms[i]) && |Coverers(primes, minterms[i])| == 1 ::
      p in essential
  }

  /**
   * `_select_essential_primes_kmap`: first every prime that alone covers some minterm, then, while
   * minterms are uncovered, the first prime (in the table's iteration order) covering the most of
   * them. The result is a subset of the primes that contains every sole coverer and covers every
   * minterm. The source loops forever when a minterm is covered by no prime, hence the requirement.
   */
  method SelectEssentialPrimesKmap(primes: set<Term>, minterms: seq<Term>) returns (essential: set<Term>)
    requires Coverable(primes, minterms)
    ensures essential <= primes
    ensures SoleCoverersIn(primes, minterms, |minterms|, essential)
    ensures CoveredBy(essential, minterms) == Elements(minterms)
    ensures minterms == [] ==> essential == {}
  {
    var order := Enumerate(primes);
    essential := {};
    var j := 0;
    while j < |minterms|
      invariant j <= |minterms| && essential <= primes
      invariant SoleCoverersIn(primes, minterms, j, essential)
      invariant minterms == [] ==> essential == {}
    {
      var covering := Coverers(primes, minterms[j]);
      if |covering| == 1 {
        var p :| p in covering;
        SoleCoverersStep(primes, minterms, j, essential, p);
        essential := essential + {p};
      } else {
        SoleCoverersStep(primes, minterms, j, essential, minterms[j]);
      }
      j := j + 1;
    }
    var remaining := Elements(minterms) - CoveredBy(essential, minterms);
    ghost var sole := essential;
    while remaining != {}
      invariant sole <= essential <= primes
      invariant remaining == Elements(minterms) - CoveredBy(essential, minterms)
      invariant minterms == [] ==> essential == {}
      decreases |remaining|
    {
      var gains := Gains(order, minterms, remaining);
      GreedyGain(primes, minterms, remaining, order);
      var best := order[ArgMax(gains)];
      RemainingShrinks(essential, minterms, remaining, best);
      essential := essential + {best};
      remaining := remaining - CoverageRow(best, minterms);
    }
    SoleCoverersMono(primes, minterms, sole, essential);
    CoveredByWithin(essential, minterms);
  }

  /** Deciding one more minterm keeps every sole coverer seen so far in the set. */
  lemma SoleCoverersStep(primes: set<Term>, minterms: seq<Term>, j: nat, essential: set<Term>, p: Term)
    requires j < |minterms| && SoleCoverersIn(primes, minterms, j, essential)
    ensures |Coverers(primes, minterms[j])| == 1 && p in Coverers(primes, minterms[j]) ==>
      SoleCoverersIn(primes, minterms, j + 1, essential + {p})
    ensures |Coverers(primes, minterms[j])| != 1 ==> SoleCoverersIn(primes, minterms, j + 1, essential)
  {
    if |Coverers(primes, minterms[j])| == 1 && p in Coverers(primes, minterms[j]) {
      forall q | q in Coverers(primes, minterms[j]) ensures q == p {
        SingletonUnique(Coverers(primes, minterms[j]), p, q);
      }
    }
  }

  lemma SingletonUnique<T>(s: set<T>, a: T, b: T)
    requires |s| == 1 && a in s && b in s
    ensures a == b
  {
    if a != b {
      assert {a, b} <= s;
      assert |{a, b}| == 2;
      SubsetCard({a, b}, s);
    }
  }

  lemma SubsetCard<T>(a: set<T>, b: set<T>)
    requires a <= b
    ensures |a| <= |b|
  {
    assert b == a + (b - a);
  }

  lemma SoleCoverersMono(primes: set<Term>, minterms: seq<Term>, a: set<Term>, b: set<Term>)
    requires a <= b && SoleCoverersIn(primes, minterms, |minterms|, a)
    ensures SoleCoverersIn(primes, minterms, |minterms|, b)
  {
  }

  /** Once nothing remains, every minterm is covered. */
  lemma CoveredByWithin(essential: set<Term>, minterms: seq<Term>)
    requires Elements(minterms) - CoveredBy(essential, minterms) == {}
    ensures CoveredBy(essential, minterms) == Elements(minterms)
  {
    forall m | m in Elements(minterms) ensures m in CoveredBy(essential, minterms) {
      assert m !in Elements(minterms) - CoveredBy(essential, minterms);
    }
  }

  /**
   * While a minterm remains and every minterm is coverable, the prime that `max` picks covers at
   * least one remaining minterm.
   */
  lemma GreedyGain(primes: set<Term>, minterms: seq<Term>, remaining: set<Term>, order: seq<Term>)
    requires Coverable(primes, minterms) && remaining != {} && remaining <= Elements(minterms)
    requires forall x :: x in order <==> x in primes
    ensures order != []
    ensures CoverageRow(order[ArgMax(Gains(order, minterms, remaining))], minterms) * remaining != {}
  {
    var m :| m in remaining;
    var p :| p in primes && IsCovering(p, m);
    var j :| 0 <= j < |order| && order[j] == p;
    var gains := Gains(order, minterms, remaining);
    assert m in CoverageRow(p, minterms) * remaining;
    assert gains[j] >= 1;
  }

  /** Adding a prime that covers a remaining minterm shrinks the remaining set to what it leaves uncovered. */
  lemma RemainingShrinks(essential: set<Term>, minterms: seq<Term>, remaining: set<Term>, best: Term)
    requires remaining == Elements(minterms) - CoveredBy(essential, minterms)
    requires CoverageRow(best, minterms) * remaining != {}
    ensures remaining - CoverageRow(best, minterms) == Elements(minterms) - CoveredBy(essential + {best}, minterms)
    ensures |remaining - CoverageRow(best, minterms)| < |remaining|
  {
    var row := CoverageRow(best, minterms);
    CoveredByAdd(essential, best, minterms);
    SetDifferenceTwice(Elements(minterms), CoveredBy(essential, minterms), row);
    var m :| m in row * remaining;
    assert m !in remaining - row;
    ProperSubsetCard(remaining - CoverageRow(best, minterms), remaining, m);
  }

  /** Adding an implicant adds its coverage row to what is covered. */
  lemma CoveredByAdd(essential: set<Term>, best: Term, minterms: seq<Term>)
    ensures CoveredBy(essential + {best}, minterms) == CoveredBy(essential, minterms) + CoverageRow(best, minterms)
  {
    forall m | m in CoveredBy(essential + {best}, minterms)
      ensures m in CoveredBy(essential, minterms) + CoverageRow(best, minterms)
    {
      var e :| e in essential + {best} && IsCovering(e, m);
      if e != best {
        assert e in essential;
      }
    }
  }

  lemma SetDifferenceTwice<T>(a: set<T>, b: set<T>, c: set<T>)
    ensures a - b - c == a - (b + c)
  {
  }

  lemma ProperSubsetCard<T>(a: set<T>, b: set<T>, x: T)
    requires a <= b && x in b && x !in a
    ensures |a| < |b|
  {
    assert b == a + (b - a);
    assert x in b - a;
  }

  // ------------------------------------------------------------------ driver

  /** `int(''.join(map(str, term)), 2)` for each term, the integers `minimize_with_kmap` starts from. */
  function TermValues(ts: seq<Term>): (r: seq<nat>)
    ensures |r| == |ts|
  {
    seq(|ts|, j requires 0 <= j < |ts| => TermValue(ts[j]))
  }

  /** Converting the integers back to n bits gives the terms back. */
  lemma ConvertTermValues(ts: seq<Term>, n: nat)
    requires forall t | t in ts :: |t| == n && IsFull(t)
    ensures ConvertToBinaryTerms(TermValues(ts), n) == ts
  {
    forall j | 0 <= j < |ts| ensures ConvertToBinaryTerms(TermValues(ts), n)[j] == ts[j] {
      EncodeOfTermValue(ts[j]);
    }
  }

  /** The clause texts for the selected implicants, in the order they are listed. */
  function KmapClauses(vars: seq<string>, selected: seq<Term>, isDnf: bool): (r: seq<string>)
    ensures |r| == |selected|
  {
    seq(|selected|, j requires 0 <= j < |selected| => KmapClause(vars, selected[j], isDnf))
  }

  /** The terms the Karnaugh path minimises: the minterms for DNF, the maxterms for CNF. */
  function KmapTerms(truth: seq<bool>, n: nat, isDnf: bool): seq<Term>
  {
    if isDnf then Minterms(truth, n) else Maxterms(truth, n)
  }

  /**
   * `minimize_with_kmap`. With no variables, a non-empty term list fails in `int('', 2)` with
   * ValueError. Otherwise the selected implicants (listed in set iteration order) each imply the
   * function's on-set (DNF) or off-set (CNF) and together cover it, so on a full table they are
   * exactly that set; the text is their parenthesised clauses joined by " | " (DNF) or " & " (CNF),
   * or "0" / "1" when nothing is selected, which happens exactly when there are no terms.
   */
  method MinimizeWithKmap(vars: seq<string>, truth: seq<bool>, isDnf: bool) returns (r: Result<string>, selected: seq<Term>)
    ensures r.Err? <==> |vars| == 0 && KmapTerms(truth, 0, isDnf) != []
    ensures r.Err? ==> r.error.ValueError?
    ensures r.Ok? ==> Distinct(selected) && forall s | s in selected :: |s| == |vars| && ImplicantOf(s, KmapTerms(truth, |vars|, isDnf))
    ensures r.Ok? ==> (selected == [] <==> KmapTerms(truth, |vars|, isDnf) == [])
    ensures r.Ok? && |truth| == Pow2(|vars|) ==>
      RepresentsOnSet(if isDnf then truth else Negate(truth), |vars|, selected)
    ensures r.Ok? && selected == [] ==> r.value == if isDnf then "0" else "1"
    ensures r.Ok? && selected != [] ==>
      r.value == Join(KmapClauses(vars, selected, isDnf), if isDnf then " | " else " & ")
    ensures |vars| > 0 && |truth| == Pow2(|vars|) && (forall i | 0 <= i < |truth| :: truth[i] == isDnf) ==>
      r == Ok("1")
  {
    var n := |vars|;
    var source := KmapTerms(truth, n, isDnf);
    MintermsShape(truth, n);
    if n == 0 && source != [] {
      return Err(ValueError("invalid literal for int() with base 2: ''")), [];
    }
    var terms := TermValues(source);
    var binaryTerms := ConvertToBinaryTerms(terms, n);
    ConvertTermValues(source, n);
    var primes := FindPrimeImplicantsKmap(binaryTerms, n);
    KmapPrimesCoverable(primes, binaryTerms, n);
    var essential := SelectEssentialPrimesKmap(primes, binaryTerms);
    selected := Enumerate(essential);
    KmapSelectionFacts(primes, essential, selected, source, n);
    KmapConstantSelection(truth, n, isDnf, primes, essential, selected);
    if isDnf {
      ExactCoverIfFull(truth, n, selected);
    } else {
      OffSetCoverIfFull(truth, n, selected);
    }
    var resultTerms := KmapClauses(vars, selected, isDnf);
    if resultTerms == [] {
      r := Ok(if isDnf then "0" else "1");
    } else {
      r := Ok(Join(resultTerms, if isDnf then " | " else " & "));
    }
    KmapAllDCText(vars, selected, isDnf);
  }

  /**
   * On a constant table whose every row is one of the terms (always true for DNF, always false for
   * CNF), the search leaves only the all-don't-care prime, and it is what is selected.
   */
  lemma KmapConstantSelection(truth: seq<bool>, n: nat, isDnf: bool, primes: set<Term>, essential: set<Term>,
                              selected: seq<Term>)
    requires AllRows(KmapTerms(truth, n, isDnf), n) ==> primes == {AllDC(n)}
    requires essential <= primes
    requires CoveredBy(essential, KmapTerms(truth, n, isDnf)) == Elements(KmapTerms(truth, n, isDnf))
    requires |selected| == |essential| && forall x :: x in selected <==> x in essential
    ensures |truth| == Pow2(n) && (forall i | 0 <= i < |truth| :: truth[i] == isDnf) ==> selected == [AllDC(n)]
  {
    if |truth| == Pow2(n) && forall i | 0 <= i < |truth| :: truth[i] == isDnf {
      var terms := KmapTerms(truth, n, isDnf);
      if isDnf {
        AllTrueRows(truth, n);
      } else {
        AllFalseRows(truth, n);
      }
      assert IsRow(Encode(0, n), n);
      assert Encode(0, n) in CoveredBy(essential, terms);
      assert essential == {AllDC(n)};
      assert selected[0] in essential;
    }
  }

  /** A selection of the all-don't-care term alone renders as "1". */
  lemma KmapAllDCText(vars: seq<string>, selected: seq<Term>, isDnf: bool)
    ensures selected == [AllDC(|vars|)] ==> Join(KmapClauses(vars, selected, isDnf), if isDnf then " | " else " & ") == "1"
  {
    AllDCClauses(vars);
  }

  /**
   * `minimize_with_kmap` with the guard `minimize_sdnf_calculus` has on the other side: when every
   * row is a maxterm the CNF is "0". On a full table over at least one variable the constant texts
   * then come exactly from the constant functions, for both forms.
   */
  method MinimizeWithKmapCorrected(vars: seq<string>, truth: seq<bool>, isDnf: bool) returns (r: Result<string>, selected: seq<Term>)
    ensures |vars| > 0 && |truth| == Pow2(|vars|) ==>
      r.Ok? && (r.value == "0" <==> forall i | 0 <= i < |truth| :: !truth[i])
    ensures |vars| > 0 && |truth| == Pow2(|vars|) ==>
      r.Ok? && (r.value == "1" <==> forall i | 0 <= i < |truth| :: truth[i])
    ensures r.Ok? && 0 < |KmapTerms(truth, |vars|, isDnf)| != Pow2(|vars|) ==>
      selected != [] && r.value == Join(KmapClauses(vars, selected, isDnf), if isDnf then " | " else " & ")
  {
    var n := |vars|;
    MaxtermsCount(truth, n);
    if !isDnf && |Maxterms(truth, n)| == Pow2(n) {
      return Ok("0"), [];
    }
    r, selected := MinimizeWithKmap(vars, truth, isDnf);
    if n > 0 && |truth| == Pow2(n) {
      KmapConstantTexts(vars, truth, isDnf, selected, r.value);
    }
  }

  /**
   * On a full table over at least one variable, the text of a selection that represents the
   * terms' set is "0" or "1" only for the constant functions.
   */
  lemma KmapConstantTexts(vars: seq<string>, truth: seq<bool>, isDnf: bool, selected: seq<Term>, text: string)
    requires |vars| > 0 && |truth| == Pow2(|vars|)
    requires forall s | s in selected :: |s| == |vars|
    requires selected == [] <==> KmapTerms(truth, |vars|, isDnf) == []
    requires RepresentsOnSet(if isDnf then truth else Negate(truth), |vars|, selected)
    requires selected == [] ==> text == if isDnf then "0" else "1"
    requires selected != [] ==> text == Join(KmapClauses(vars, selected, isDnf), if isDnf then " | " else " & ")
    requires (forall i | 0 <= i < |truth| :: truth[i] == isDnf) ==> text == "1"
    requires !isDnf ==> exists i | 0 <= i < |truth| :: truth[i]
    ensures text == "0" <==> forall i | 0 <= i < |truth| :: !truth[i]
    ensures text == "1" <==> forall i | 0 <= i < |truth| :: truth[i]
  {
    TrueIndicesNone(truth);
    MaxtermsCount(truth, |vars|);
    var table := if isDnf then truth else Negate(truth);
    KmapTextShape(vars, table, isDnf, selected, text);
    if isDnf {
      DnfConstantTexts(truth, selected != [], text);
    } else {
      assert forall i | 0 <= i < |truth| :: table[i] == !truth[i];
      CnfConstantTexts(truth, selected != [], text);
    }
  }

  /** The text of a non-empty selection missing some row of its table opens with a parenthesis. */
  lemma KmapTextShape(vars: seq<string>, table: seq<bool>, isDnf: bool, selected: seq<Term>, text: string)
    requires |table| == Pow2(|vars|)
    requires forall s | s in selected :: |s| == |vars|
    requires RepresentsOnSet(table, |vars|, selected)
    requires selected != [] ==> text == Join(KmapClauses(vars, selected, isDnf), if isDnf then " | " else " & ")
    ensures selected != [] && (exists i | 0 <= i < |table| :: !table[i]) ==> |text| > 0 && text[0] == '('
  {
    if selected != [] && exists i | 0 <= i < |table| :: !table[i] {
      KmapClausesParenthesised(vars, table, isDnf, selected);
      JoinFirstChar(KmapClauses(vars, selected, isDnf), if isDnf then " | " else " & ");
    }
  }

  /** The DNF half of `KmapConstantTexts`, given the shape of the text. */
  lemma DnfConstantTexts(truth: seq<bool>, selectedAny: bool, text: string)
    requires |truth| > 0
    requires selectedAny <==> exists i | 0 <= i < |truth| :: truth[i]
    requires !selectedAny ==> text == "0"
    requires selectedAny && (exists i | 0 <= i < |truth| :: !truth[i]) ==> |text| > 0 && text[0] == '('
    requires (forall i | 0 <= i < |truth| :: truth[i]) ==> text == "1"
    ensures text == "0" <==> forall i | 0 <= i < |truth| :: !truth[i]
    ensures text == "1" <==> forall i | 0 <= i < |truth| :: truth[i]
  {
    assert truth[0] in truth;
  }

  /** The CNF half of `KmapConstantTexts`, for a table with a true row, given the shape of the text. */
  lemma CnfConstantTexts(truth: seq<bool>, selectedAny: bool, text: string)
    requires selectedAny <==> exists i | 0 <= i < |truth| :: !truth[i]
    requires !selectedAny ==> text == "1"
    requires selectedAny && (exists i | 0 <= i < |truth| :: truth[i]) ==> |text| > 0 && text[0] == '('
    requires exists i | 0 <= i < |truth| :: truth[i]
    ensures text == "0" <==> forall i | 0 <= i < |truth| :: !truth[i]
    ensures text == "1" <==> forall i | 0 <= i < |truth| :: truth[i]
  {
  }

  /**
   * When the represented set misses a row, no selected implicant is all don't-care, so every
   * clause is parenthesised.
   */
  lemma KmapClausesParenthesised(vars: seq<string>, table: seq<bool>, isDnf: bool, selected: seq<Term>)
    requires |table| == Pow2(|vars|) && (exists i | 0 <= i < |table| :: !table[i])
    requires forall s | s in selected :: |s| == |vars|
    requires RepresentsOnSet(table, |vars|, selected)
    ensures forall c | c in KmapClauses(vars, selected, isDnf) :: |c| > 0 && c[0] == '('
  {
    var n := |vars|;
    var i :| 0 <= i < |table| && !table[i];
    var row := Encode(i, n);
    forall j | 0 <= j < |selected|
      ensures |KmapClauses(vars, selected, isDnf)[j]| > 0 && KmapClauses(vars, selected, isDnf)[j][0] == '('
    {
      assert selected[j] in selected;
      assert !Covers(selected[j], row);
      ParenthesisedClause(vars, selected[j], isDnf, row);
    }
  }

  /** An implicant that misses some row has a fixed position, so its clause is parenthesised. */
  lemma ParenthesisedClause(vars: seq<string>, s: Term, isDnf: bool, row: Term)
    requires |s| == |vars| == |row| && !Covers(s, row)
    ensures |KmapClause(vars, s, isDnf)| > 0 && KmapClause(vars, s, isDnf)[0] == '('
  {
    var n := |vars|;
    var p :| 0 <= p < n && s[p] != DC && s[p] != row[p];
    assert Min(n, |s|) == n;
    ProductLiteralsEmpty(s, n);
    SumLiteralsEmpty(s, n);
  }


  /** The primes found by the Karnaugh search cover every minterm in the sense of `_is_covering`. */
  lemma KmapPrimesCoverable(primes: set<Term>, minterms: seq<Term>, n: nat)
    requires forall t | t in minterms :: |t| == n
    requires CoversAll(primes, minterms)
    ensures Coverable(primes, minterms)
  {
    forall m | m in minterms ensures exists p | p in primes :: IsCovering(p, m) {
      var p :| p in primes && |m| <= |p| && Covers(p, m);
      IsCoveringIsCovers(p, m);
    }
  }

  /** The listed selection implies and covers the terms, and is empty exactly when the terms are. */
  lemma KmapSelectionFacts(primes: set<Term>, essential: set<Term>, selected: seq<Term>, terms: seq<Term>, n: nat)
    requires forall t | t in terms :: |t| == n
    requires AllImplicants(primes, terms, n) && essential <= primes
    requires CoveredBy(essential, terms) == Elements(terms)
    requires terms == [] ==> essential == {}
    requires |selected| == |essential| && forall x :: x in selected <==> x in essential
    ensures forall s | s in selected :: |s| == n && ImplicantOf(s, terms)
    ensures forall u | u in terms :: exists s | s in selected :: |u| <= |s| && Covers(s, u)
    ensures selected == [] <==> terms == []
  {
    forall u | u in terms ensures exists s | s in selected :: |u| <= |s| && Covers(s, u) {
      assert u in CoveredBy(essential, terms);
      var e :| e in essential && IsCovering(e, u);
      IsCoveringIsCovers(e, u);
    }
    if terms != [] {
      assert terms[0] in terms;
    }
  }

  lemma ExactCoverIfFull(truth: seq<bool>, n: nat, selected: seq<Term>)
    requires forall s | s in selected :: |s| == n && ImplicantOf(s, Minterms(truth, n))
    requires forall u | u in Minterms(truth, n) :: exists s | s in selected :: |u| <= |s| && Covers(s, u)
    ensures |truth| == Pow2(n) ==> RepresentsOnSet(truth, n, selected)
  {
    if |truth| == Pow2(n) {
      ExactCover(truth, n, selected);
    }
  }

  lemma OffSetCoverIfFull(truth: seq<bool>, n: nat, selected: seq<Term>)
    requires forall s | s in selected :: |s| == n && ImplicantOf(s, Maxterms(truth, n))
    requires forall u | u in Maxterms(truth, n) :: exists s | s in selected :: |u| <= |s| && Covers(s, u)
    ensures |truth| == Pow2(n) ==> RepresentsOnSet(Negate(truth), n, selected)
  {
    if |truth| == Pow2(n) {
      OffSetCover(truth, n, selected);
    }
  }
}
