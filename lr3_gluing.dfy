/**
 * The gluing half of `LogicalFunction` in LR_3/logical_function.py: the sorted variables, the
 * truth table in binary counting order, the minterm/maxterm split and `_get_prime_implicants`,
 * which groups terms by weight and glues neighbouring groups.
 */
module Lr3Gluing {
  import opened Wrappers
  import opened Text
  import opened BitStrings
  import opened Terms
  import opened Cover
  import opened Sorting
  import opened Enumerations
  import G = Lr4Gluing

  // ---------------------------------------------------- sorted variables

  /** String order is a total preorder, so Python's `sorted` is well defined on variable names. */
  lemma StrLeIsPreorder()
    ensures TotalPreorder(StrLe)
  {
    forall a: string, b: string ensures StrLe(a, b) || StrLe(b, a) {
      StrLeTotal(a, b);
    }
    forall a: string, b: string, c: string | StrLe(a, b) && StrLe(b, c) ensures StrLe(a, c) {
      StrLeTransitive(a, b, c);
    }
  }

  /** `sorted(variables)`, which the constructor stores as the variable order. */
  function SortedVariables(vars: seq<string>): seq<string>
  {
    Sort(vars, StrLe)
  }

  /** The stored variables are the given ones, rearranged into ascending string order. */
  lemma SortedVariablesCorrect(vars: seq<string>)
    ensures SortedBy(SortedVariables(vars), StrLe)
    ensures multiset(SortedVariables(vars)) == multiset(vars)
    ensures |SortedVariables(vars)| == |vars|
  {
    StrLeIsPreorder();
    SortCorrect(vars, StrLe);
    assert |multiset(SortedVariables(vars))| == |multiset(vars)|;
  }

  // ---------------------------------------------------- truth table

  /** One entry `(values, result)` of the truth table. */
  datatype Row = Row(values: Term, result: bool)

  /**
   * `_build_truth_table`: one row per assignment of `product([0, 1], repeat=n)`, which counts in
   * binary with the first variable most significant. The value of the expression on an
   * assignment is the parameter `eval`.
   */
  method BuildTruthTable(n: nat, eval: Term -> bool) returns (table: seq<Row>)
    ensures |table| == Pow2(n)
    ensures forall i | 0 <= i < |table| :: table[i] == Row(Encode(i, n), eval(Encode(i, n)))
  {
    table := [];
    var i := 0;
    while i < Pow2(n)
      invariant i <= Pow2(n) && |table| == i
      invariant forall k | 0 <= k < i :: table[k] == Row(Encode(k, n), eval(Encode(k, n)))
    {
      table := table + [Row(Encode(i, n), eval(Encode(i, n)))];
      i := i + 1;
    }
  }

  /** The truth table lists every assignment of n values exactly once. */
  lemma TruthTableRows(n: nat, table: seq<Row>, t: Term)
    requires |table| == Pow2(n)
    requires forall i | 0 <= i < |table| :: table[i].values == Encode(i, n)
    requires |t| == n && IsFull(t)
    ensures exists i | 0 <= i < |table| :: table[i].values == t
    ensures forall i, j | 0 <= i < j < |table| :: table[i].values != table[j].values
  {
    FullTermIsEncoding(t);
    assert table[TermValue(t)].values == t;
    forall i, j | 0 <= i < j < |table| ensures table[i].values != table[j].values {
      if table[i].values == table[j].values {
        EncodeInjective(i, j, n);
      }
    }
  }

  /** The result column of a truth table. */
  function Results(table: seq<Row>): (r: seq<bool>)
    ensures |r| == |table| && forall i | 0 <= i < |table| :: r[i] == table[i].result
  {
    seq(|table|, i requires 0 <= i < |table| => table[i].result)
  }

  /** `[values for values, result in self.truth_table if result == target]`. */
  function RowsWhere(table: seq<Row>, target: bool): seq<Term>
  {
    if table == [] then []
    else
      var last := table[|table| - 1];
      RowsWhere(table[..|table| - 1], target) + (if last.result == target then [last.values] else [])
  }

  /**
   * On a table in binary counting order, the rows with result 1 (`_get_minterms`) are the
   * minterms of its result column and the rows with result 0 (`_get_maxterms`) its maxterms.
   */
  lemma RowsWhereMinterms(table: seq<Row>, n: nat)
    requires forall i | 0 <= i < |table| :: table[i].values == Encode(i, n)
    ensures RowsWhere(table, true) == Minterms(Results(table), n)
    ensures RowsWhere(table, false) == Maxterms(Results(table), n)
  {
    RowsWhereMatching(table, n, true, Results(table));
    RowsWhereMatching(table, n, false, Negate(Results(table)));
  }

  /** The rows whose result is `target` are the minterms of the column marking exactly those rows. */
  lemma {:induction false} RowsWhereMatching(table: seq<Row>, n: nat, target: bool, marks: seq<bool>)
    requires forall i | 0 <= i < |table| :: table[i].values == Encode(i, n)
    requires |marks| == |table| && forall i | 0 <= i < |table| :: marks[i] == (table[i].result == target)
    ensures RowsWhere(table, target) == Minterms(marks, n)
  {
    if table != [] {
      var init := table[..|table| - 1];
      RowsWhereMatching(init, n, target, marks[..|marks| - 1]);
      MintermsSnoc(marks, n);
    }
  }

  /** Minterms of a table grow by the last row's encoding when it is true. */
  lemma MintermsSnoc(truth: seq<bool>, n: nat)
    requires truth != []
    ensures Minterms(truth, n) ==
      Minterms(truth[..|truth| - 1], n) + (if truth[|truth| - 1] then [Encode(|truth| - 1, n)] else [])
  {
    var init := truth[..|truth| - 1];
    assert TrueIndices(truth) == TrueIndices(init) + (if truth[|truth| - 1] then [|truth| - 1] else []);
  }

  // ---------------------------------------------------- prime implicants

  /**
   * The key of the groups `_get_prime_implicants` glues: the number of ones (`sum(term)`) in the
   * first round, the number of fixed positions in every later one.
   */
  function GroupKey(t: Term, firstRound: bool): nat
  {
    if firstRound then OnesCount(t) else FixedCount(t)
  }

  /**
   * `a` from group k and `b` from group k + 1 differ in exactly one position, so the round glues
   * them into `Merged(a, b)`: `a` with that position made DC.
   */
  predicate Gluable(a: Term, b: Term, firstRound: bool)
  {
    |a| == |b| && GroupKey(b, firstRound) == GroupKey(a, firstRound) + 1 && G.DiffCount(a, b, |a|) == 1
  }

  /** The terms a round puts into `new_groups`. */
  function GluedGroups(groups: set<Term>, firstRound: bool): set<Term>
  {
    set a, b | a in groups && b in groups && Gluable(a, b, firstRound) :: G.Merged(a, b)
  }

  /** The terms a round adds to `used`. */
  function UsedGroups(groups: set<Term>, firstRound: bool): set<Term>
  {
    set a | a in groups && exists b | b in groups :: Gluable(a, b, firstRound) || Gluable(b, a, firstRound)
  }

  /**
   * The primes `_get_prime_implicants` returns, in closed form: the terms of the first round that
   * glued with nothing, and every term the first round glued.
   */
  function PrimeSetLr3(terms: seq<Term>): set<Term>
  {
    var e := Elements(terms);
    (e - UsedGroups(e, true)) + GluedGroups(e, true)
  }

  /** Every n-position row among the terms. */
  predicate FullTerms(terms: seq<Term>, n: nat)
  {
    forall t | t in terms :: |t| == n && IsFull(t)
  }

  /**
   * The loop of `_get_prime_implicants`, as written: it runs while a round glued something; the
   * unused terms of each round become prime, and the terms left in `groups` at the end are added.
   */
  method GluePrimeSetLr3(terms: seq<Term>, ghost n: nat) returns (primeSet: set<Term>)
    requires FullTerms(terms, n)
    ensures primeSet == PrimeSetLr3(terms)
  {
    ghost var e := Elements(terms);
    var groups := Elements(terms);
    var firstRound := true;
    primeSet := {};
    var changed := true;
    while changed
      invariant firstRound ==> changed && groups == e && primeSet == {}
      invariant !firstRound && changed ==> groups == GluedGroups(e, true) && primeSet == e - UsedGroups(e, true)
      invariant !changed ==> !firstRound && groups == {} && primeSet == PrimeSetLr3(terms)
      decreases (if changed then 1 else 0) + (if firstRound then 1 else 0)
    {
      if firstRound {
        UsedNeedsGlued(groups, true);
      } else {
        SecondRoundGluesNothing(terms, n);
      }
      var glued := GluedGroups(groups, firstRound);
      var used := UsedGroups(groups, firstRound);
      changed := glued != {};
      primeSet := primeSet + (groups - used);
      groups := glued;
      firstRound := false;
    }
    primeSet := primeSet + groups;
  }

  /** A term is used only when the round glued something. */
  lemma UsedNeedsGlued(groups: set<Term>, firstRound: bool)
    ensures GluedGroups(groups, firstRound) == {} ==> UsedGroups(groups, firstRound) == {}
  {
    if a :| a in UsedGroups(groups, firstRound) {
      var b :| b in groups && (Gluable(a, b, firstRound) || Gluable(b, a, firstRound));
      if Gluable(a, b, firstRound) {
        assert G.Merged(a, b) in GluedGroups(groups, firstRound);
      } else {
        assert G.Merged(b, a) in GluedGroups(groups, firstRound);
      }
    }
  }

  /** Two full terms differing in one position glue, in the sense of `_glue_terms`, to `Merged`. */
  lemma FullGlue(a: Term, b: Term)
    requires |a| == |b| && IsFull(a) && IsFull(b) && G.DiffCount(a, b, |a|) == 1
    ensures G.Glue(a, b) == Some(G.Merged(a, b))
  {
    assert G.DcAligned(a, b, |a|);
  }

  /** A term glued in the first round has one fixed position fewer than the full terms. */
  lemma FirstRoundFacts(e: set<Term>, n: nat, g: Term) returns (a: Term, b: Term)
    requires forall t | t in e :: |t| == n && IsFull(t)
    requires g in GluedGroups(e, true)
    ensures a in e && b in e && G.Glue(a, b) == Some(g)
    ensures |g| == n && FixedCount(g) + 1 == n
  {
    a, b :| a in e && b in e && Gluable(a, b, true) && G.Merged(a, b) == g;
    FullGlue(a, b);
    G.GlueFacts(a, b);
    G.FixedCountFull(a);
  }

  /**
   * From the second round on the groups are keyed by fixed positions, and every term glued in the
   * first round has n - 1 of them: there is no group k + 1, so nothing glues and nothing is used.
   */
  lemma SecondRoundGluesNothing(terms: seq<Term>, n: nat)
    requires FullTerms(terms, n)
    ensures GluedGroups(GluedGroups(Elements(terms), true), false) == {}
    ensures UsedGroups(GluedGroups(Elements(terms), true), false) == {}
  {
    var g1 := GluedGroups(Elements(terms), true);
    forall x | x in g1 ensures FixedCount(x) + 1 == n {
      var a, b := FirstRoundFacts(Elements(terms), n, x);
    }
    assert forall x, y | x in g1 && y in g1 :: !Gluable(x, y, false);
  }

  /**
   * Gluing stops after one round: every prime has length n and at least n - 1 fixed positions, so
   * with two or more variables the all-don't-care term is never a prime.
   */
  lemma PrimeSetShape(terms: seq<Term>, n: nat)
    requires FullTerms(terms, n)
    ensures forall p | p in PrimeSetLr3(terms) :: |p| == n && n - 1 <= FixedCount(p)
    ensures 2 <= n ==> AllDC(n) !in PrimeSetLr3(terms)
  {
    var e := Elements(terms);
    forall p | p in PrimeSetLr3(terms) ensures |p| == n && n - 1 <= FixedCount(p) {
      if p in GluedGroups(e, true) {
        var a, b := FirstRoundFacts(e, n, p);
      } else {
        G.FixedCountFull(p);
      }
    }
    if 2 <= n && AllDC(n) in PrimeSetLr3(terms) {
      G.FixedCountNone(AllDC(n));
    }
  }

  /** Every prime implies the terms: the full rows it covers are among them. */
  lemma PrimeSetImplicants(terms: seq<Term>, n: nat)
    requires FullTerms(terms, n)
    ensures forall p | p in PrimeSetLr3(terms) :: ImplicantOf(p, terms)
  {
    var e := Elements(terms);
    forall p | p in PrimeSetLr3(terms) ensures ImplicantOf(p, terms) {
      if p in GluedGroups(e, true) {
        var a, b := FirstRoundFacts(e, n, p);
        forall t: Term | |t| == |p| && IsFull(t) && Covers(p, t)
          ensures exists u | u in terms && |u| == |p| :: Covers(u, t)
        {
          G.GlueSound(a, b, t);
        }
      } else {
        forall t: Term | |t| == |p| && IsFull(t) && Covers(p, t)
          ensures exists u | u in terms && |u| == |p| :: Covers(u, t)
        {
          assert p in terms;
        }
      }
    }
  }

  /** Every term is covered by a prime: itself when it glued with nothing, its gluing otherwise. */
  lemma PrimeSetCovers(terms: seq<Term>, n: nat)
    requires FullTerms(terms, n)
    ensures forall u | u in terms :: exists p | p in PrimeSetLr3(terms) :: |u| <= |p| && Covers(p, u)
  {
    var e := Elements(terms);
    forall u | u in terms ensures exists p | p in PrimeSetLr3(terms) :: |u| <= |p| && Covers(p, u) {
      if u in UsedGroups(e, true) {
        var b :| b in e && (Gluable(u, b, true) || Gluable(b, u, true));
        var x, y := if Gluable(u, b, true) then u else b, if Gluable(u, b, true) then b else u;
        FullGlue(x, y);
        G.GlueFacts(x, y);
        assert G.Merged(x, y) in GluedGroups(e, true);
      } else {
        assert Covers(u, u);
      }
    }
  }

  /** A lone term glues with nothing and is its own only prime. */
  lemma PrimeSetSingleton(terms: seq<Term>)
    requires |terms| == 1
    ensures PrimeSetLr3(terms) == {terms[0]}
  {
    assert Elements(terms) == {terms[0]};
    assert !Gluable(terms[0], terms[0], true) by {
      G.DiffCountZero(terms[0], terms[0], |terms[0]|);
    }
  }

  /**
   * `_get_prime_implicants`: the primes as a list without duplicates, in the iteration order of
   * the set; they have at least n - 1 fixed positions, imply the terms and cover each of them.
   */
  method GetPrimeImplicants(terms: seq<Term>, ghost n: nat) returns (primes: seq<Term>)
    requires FullTerms(terms, n)
    ensures Distinct(primes) && forall p :: p in primes <==> p in PrimeSetLr3(terms)
    ensures forall p | p in primes :: |p| == n && n - 1 <= FixedCount(p) && ImplicantOf(p, terms)
    ensures forall u | u in terms :: exists p | p in primes :: |u| <= |p| && Covers(p, u)
    ensures |terms| == 1 ==> primes == [terms[0]]
  {
    var primeSet := GluePrimeSetLr3(terms, n);
    primes := Enumerate(primeSet);
    PrimeSetShape(terms, n);
    PrimeSetImplicants(terms, n);
    PrimeSetCovers(terms, n);
    if |terms| == 1 {
      PrimeSetSingleton(terms);
      G.SingletonEnumeration(primes, primeSet, terms[0]);
    }
  }
}
