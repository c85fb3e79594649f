/**
 * The gluing (Quine–McCluskey) half of `LogicalFunction` in LR_4/logical_function.py:
 * minterm encoding, `_glue_terms`, `_get_prime_implicants` and the calculus and table minimisers.
 */
module Lr4Gluing {
  import opened Wrappers
  import opened Text
  import opened BitStrings
  import opened Terms
  import opened Cover
  import opened Rendering
  import opened Selection
  import opened Enumerations

  /** `_minterm_to_binary`: appends `(index >> (n - i - 1)) & 1` for i = 0 .. n-1. */
  method MintermToBinary(index: nat, n: nat) returns (binary: Term)
    ensures binary == Encode(index, n)
    ensures forall k | 0 <= k < n :: binary[k] == BitAt(index, n - 1 - k)
  {
    binary := [];
    var i := 0;
    while i < n
      invariant i <= n && |binary| == i
      invariant forall k | 0 <= k < i :: binary[k] == BitAt(index, n - 1 - k)
    {
      binary := binary + [if (index / Pow2(n - i - 1)) % 2 == 1 then One else Zero];
      i := i + 1;
    }
    forall k | 0 <= k < n ensures binary[k] == Encode(index, n)[k] {
      EncodeBit(index, n, k);
    }
  }

  /** Number of positions below `m` where the terms differ. */
  function DiffCount(a: Term, b: Term, m: nat): nat
    requires m <= |a| && m <= |b|
  {
    if m == 0 then 0 else DiffCount(a, b, m - 1) + (if a[m - 1] != b[m - 1] then 1 else 0)
  }

  /** Over the first `m` positions, wherever the terms differ both are fixed (no DC against a value). */
  predicate DcAligned(a: Term, b: Term, m: nat)
    requires m <= |a| && m <= |b|
  {
    forall i | 0 <= i < m :: a[i] == b[i] || (a[i] != DC && b[i] != DC)
  }

  /** The term that keeps the common values and has DC where the terms differ, over `zip(a, b)`. */
  function Merged(a: Term, b: Term): (g: Term)
    ensures |g| == Min(|a|, |b|)
  {
    seq(Min(|a|, |b|), i requires 0 <= i < Min(|a|, |b|) => if a[i] == b[i] then a[i] else DC)
  }

  /**
   * Reference definition of `_glue_terms`: defined exactly when, over the common length, DC meets DC
   * and the terms differ in exactly one position; the result marks that position DC.
   */
  function Glue(a: Term, b: Term): Option<Term>
  {
    var m := Min(|a|, |b|);
    if DcAligned(a, b, m) && DiffCount(a, b, m) == 1 then Some(Merged(a, b)) else None
  }

  /** `_glue_terms`: one pass over `zip(term1, term2)` counting differences, abandoning on DC against a value. */
  method GlueTerms(a: Term, b: Term) returns (r: Option<Term>)
    ensures r == Glue(a, b)
  {
    var m := Min(|a|, |b|);
    var diff := 0;
    var glued: Term := [];
    var i := 0;
    while i < m
      invariant i <= m
      invariant glued == Merged(a, b)[..i]
      invariant diff == DiffCount(a, b, i)
      invariant DcAligned(a, b, i)
    {
      if a[i] == b[i] {
        glued := glued + [a[i]];
      } else if a[i] == DC || b[i] == DC {
        return None;
      } else {
        diff := diff + 1;
        glued := glued + [DC];
      }
      i := i + 1;
    }
    assert glued == Merged(a, b);
    r := if diff == 1 then Some(glued) else None;
  }

  /** Exactly one difference below `m` means one position `p` where they differ and agreement elsewhere. */
  lemma {:induction false} DiffCountZero(a: Term, b: Term, m: nat)
    requires m <= |a| && m <= |b|
    ensures DiffCount(a, b, m) == 0 <==> forall i | 0 <= i < m :: a[i] == b[i]
  {
    if m > 0 {
      DiffCountZero(a, b, m - 1);
    }
  }

  /** With a single difference at `p`, the count is 1 once `p` is in range and 0 before. */
  lemma {:induction false} DiffCountSingle(a: Term, b: Term, m: nat, p: nat)
    requires m <= |a| && m <= |b| && p < |a| && p < |b| && a[p] != b[p]
    requires forall i | 0 <= i < m && i != p :: a[i] == b[i]
    ensures DiffCount(a, b, m) == if p < m then 1 else 0
  {
    if m > 0 {
      DiffCountSingle(a, b, m - 1, p);
    }
  }

  /** A count of one names the position where the terms differ; they agree everywhere else. */
  lemma {:induction false} DiffCountWitness(a: Term, b: Term, m: nat) returns (p: nat)
    requires m <= |a| && m <= |b| && DiffCount(a, b, m) == 1
    ensures p < m && a[p] != b[p]
    ensures forall i | 0 <= i < m && i != p :: a[i] == b[i]
  {
    if a[m - 1] != b[m - 1] {
      DiffCountZero(a, b, m - 1);
      p := m - 1;
    } else {
      p := DiffCountWitness(a, b, m - 1);
    }
  }

  /**
   * `_glue_terms` on terms of one length that agree except at one position `p`, where both are
   * fixed: the first term with `p` made DC.
   */
  lemma GlueAt(a: Term, b: Term, p: nat)
    requires |a| == |b| && p < |a| && a[p] != DC && b[p] != DC && a[p] != b[p]
    requires forall i | 0 <= i < |a| && i != p :: a[i] == b[i]
    ensures Glue(a, b) == Some(a[p := DC])
  {
    DiffCountSingle(a, b, |a|, p);
    assert Merged(a, b) == a[p := DC];
  }

  /**
   * Conversely, when `_glue_terms` returns a term, the inputs agree except at one position where
   * both are fixed, and the result is the first input with that position made DC.
   */
  lemma GlueDifference(a: Term, b: Term) returns (p: nat)
    requires |a| == |b| && Glue(a, b).Some?
    ensures p < |a| && a[p] != DC && b[p] != DC && a[p] != b[p]
    ensures forall i | 0 <= i < |a| && i != p :: a[i] == b[i]
    ensures Glue(a, b).value == a[p := DC]
  {
    p := DiffCountWitness(a, b, |a|);
    assert Merged(a, b) == a[p := DC];
  }

  /** A DC against a value anywhere in the common length makes `_glue_terms` fail. */
  lemma GlueRejectsMisalignedDC(a: Term, b: Term, i: nat)
    requires i < |a| && i < |b| && a[i] != b[i] && (a[i] == DC || b[i] == DC)
    ensures Glue(a, b) == None
  {
  }

  lemma {:induction false} FixedCountClear(a: Term, p: nat)
    requires p < |a| && a[p] != DC
    ensures FixedCount(a[p := DC]) + 1 == FixedCount(a)
  {
    var q := a[p := DC];
    if p < |a| - 1 {
      assert q[..|q| - 1] == a[..|a| - 1][p := DC];
      FixedCountClear(a[..|a| - 1], p);
    } else {
      assert q[..|q| - 1] == a[..|a| - 1];
    }
  }

  /** A glued term is as long as its inputs, covers both, and has one fixed position fewer. */
  lemma GlueFacts(a: Term, b: Term)
    requires |a| == |b| && Glue(a, b).Some?
    ensures |Glue(a, b).value| == |a|
    ensures Covers(Glue(a, b).value, a) && Covers(Glue(a, b).value, b)
    ensures FixedCount(Glue(a, b).value) + 1 == FixedCount(a)
  {
    var p := GlueDifference(a, b);
    FixedCountClear(a, p);
  }

  /** A full row covered by a glued term is covered by one of the two inputs. */
  lemma GlueSound(a: Term, b: Term, t: Term)
    requires |a| == |b| == |t| && IsFull(t) && Glue(a, b).Some? && Covers(Glue(a, b).value, t)
    ensures Covers(a, t) || Covers(b, t)
  {
    var p := GlueDifference(a, b);
    if t[p] != a[p] {
      assert t[p] == b[p];
    }
  }

  /** Some member of `s` covers `u`. */
  predicate CoveredByAny(s: set<Term>, u: Term)
  {
    exists x | x in s :: |u| <= |x| && Covers(x, u)
  }

  /** Every member of `s` has length `n` and is an implicant of `terms`. */
  ghost predicate AllImplicants(s: set<Term>, terms: seq<Term>, n: nat)
  {
    forall x | x in s :: |x| == n && ImplicantOf(x, terms)
  }

  /** Every one of `terms` is covered by some member of `s`. */
  predicate CoversAll(s: set<Term>, terms: seq<Term>)
  {
    forall u | u in terms :: CoveredByAny(s, u)
  }

  // ---------------------------------------------------- constant functions

  /** A row of the truth table over n variables: n fixed positions. */
  ghost predicate IsRow(t: Term, n: nat)
  {
    |t| == n && IsFull(t)
  }

  /**
   * `terms` lists every n-position row and nothing else (the function is true on every row). The
   * quantifier is instantiated only where a proof names `IsRow(t, n)`.
   */
  ghost predicate AllRows(terms: seq<Term>, n: nat)
  {
    forall t: Term {:trigger IsRow(t, n)} :: t in terms <==> IsRow(t, n)
  }

  /** `s` holds exactly the n-position terms with `k` fixed positions. */
  ghost predicate Layer(s: set<Term>, n: nat, k: nat)
  {
    forall t: Term :: t in s <==> |t| == n && FixedCount(t) == k
  }

  /** A term of length `n` with exactly `k` fixed positions. */
  function LayerWitness(n: nat, k: nat): (t: Term)
    requires k <= n
    ensures |t| == n && FixedCount(t) == k
  {
    if n == 0 then []
    else if k == n then LayerWitness(n - 1, k - 1) + [Zero]
    else LayerWitness(n - 1, k) + [DC]
  }

  /** Every position is fixed exactly when the count of fixed positions is the length. */
  lemma {:induction false} FixedCountFull(t: Term)
    ensures FixedCount(t) == |t| <==> IsFull(t)
  {
    if t != [] {
      var p := t[..|t| - 1];
      FixedCountFull(p);
      assert IsFull(t) <==> IsFull(p) && t[|t| - 1] != DC by {
        assert forall i | 0 <= i < |p| :: p[i] == t[i];
      }
    }
  }

  /** No position is fixed exactly when the term is all don't-care. */
  lemma {:induction false} FixedCountNone(t: Term)
    ensures FixedCount(t) == 0 <==> t == AllDC(|t|)
  {
    if t != [] {
      var p := t[..|t| - 1];
      FixedCountNone(p);
      assert AllDC(|t|) == AllDC(|p|) + [DC];
      assert t == p + [t[|t| - 1]];
    }
  }

  /** A term with fewer fixed positions than its length has a DC position. */
  lemma DcPosition(t: Term) returns (p: nat)
    requires FixedCount(t) < |t|
    ensures p < |t| && t[p] == DC
  {
    FixedCountFull(t);
    p :| 0 <= p < |t| && t[p] == DC;
  }

  /** A term with a fixed position has one. */
  lemma FixedPosition(t: Term) returns (p: nat)
    requires FixedCount(t) > 0
    ensures p < |t| && t[p] != DC
  {
    FixedCountNone(t);
    assert t != AllDC(|t|);
    p :| 0 <= p < |t| && t[p] != AllDC(|t|)[p];
  }

  /** The two terms obtained by fixing a DC position of `t` to 0 and to 1 glue back to `t`. */
  lemma SplitAt(t: Term, p: nat)
    requires p < |t| && t[p] == DC
    ensures FixedCount(t[p := Zero]) == FixedCount(t) + 1 && FixedCount(t[p := One]) == FixedCount(t) + 1
    ensures Glue(t[p := Zero], t[p := One]) == Some(t)
  {
    FixedCountClear(t[p := Zero], p);
    FixedCountClear(t[p := One], p);
    assert t[p := Zero][p := DC] == t && t[p := One][p := DC] == t;
    GlueAt(t[p := Zero], t[p := One], p);
  }

  /** Flipping a fixed position keeps the number of fixed positions, and the two terms glue. */
  lemma FlipAt(a: Term, p: nat)
    requires p < |a| && a[p] != DC
    ensures FixedCount(a[p := if a[p] == Zero then One else Zero]) == FixedCount(a)
    ensures Glue(a, a[p := if a[p] == Zero then One else Zero]).Some?
  {
    var b := a[p := if a[p] == Zero then One else Zero];
    FixedCountClear(a, p);
    FixedCountClear(b, p);
    assert a[p := DC] == b[p := DC];
    GlueAt(a, b, p);
  }

  /** The rows of an always-true function are the terms with every position fixed. */
  lemma AllRowsLayer(terms: seq<Term>, n: nat)
    requires AllRows(terms, n)
    ensures Layer(Elements(terms), n, n)
  {
    forall t: Term ensures t in Elements(terms) <==> |t| == n && FixedCount(t) == n {
      FixedCountFull(t);
      assert t in terms <==> IsRow(t, n);
    }
  }

  /** The only term without a fixed position is the all-don't-care one. */
  lemma LayerZero(s: set<Term>, n: nat)
    requires Layer(s, n, 0)
    ensures s == {AllDC(n)}
  {
    forall t: Term ensures t in s <==> t == AllDC(n) {
      FixedCountNone(t);
    }
  }

  /**
   * On the complete layer of terms with `k >= 1` fixed positions, a round of `_get_prime_implicants`
   * produces the complete layer with `k - 1` and uses every term.
   */
  lemma GluedLayer(current: set<Term>, n: nat, k: nat)
    requires Layer(current, n, k) && 1 <= k <= n
    ensures Layer(GluedRound(current), n, k - 1)
    ensures UsedRound(current) == current
  {
    forall t | t in GluedRound(current) ensures |t| == n && FixedCount(t) == k - 1 {
      var a, b :| a in current && b in current && a != b && Glue(a, b).Some? && Glue(a, b).value == t;
      GlueFacts(a, b);
    }
    forall t: Term | |t| == n && FixedCount(t) == k - 1 ensures t in GluedRound(current) {
      var p := DcPosition(t);
      SplitAt(t, p);
      assert t[p := Zero] != t[p := One] by { assert t[p := Zero][p] != t[p := One][p]; }
      assert t[p := Zero] in current && t[p := One] in current;
    }
    forall a | a in current ensures a in UsedRound(current) {
      var p := FixedPosition(a);
      FlipAt(a, p);
      var b := a[p := if a[p] == Zero then One else Zero];
      assert b in current && a != b by { assert a[p] != b[p]; }
    }
  }

  /**
   * One round of `_get_prime_implicants` on a complete layer: with fixed positions left, the next
   * complete layer and no new prime; without, no gluing and the all-don't-care term as the prime.
   */
  lemma AllRowsRound(current: set<Term>, n: nat, k: nat)
    requires Layer(current, n, k) && k <= n
    ensures 1 <= k ==> Layer(GluedRound(current), n, k - 1) && GluedRound(current) != {}
    ensures 1 <= k ==> current - UsedRound(current) == {}
    ensures k == 0 ==> GluedRound(current) == {} && current - UsedRound(current) == {AllDC(n)}
  {
    if 1 <= k {
      GluedLayer(current, n, k);
      assert LayerWitness(n, k - 1) in GluedRound(current);
    } else {
      GluedLayerZero(current, n);
    }
  }

  /** The all-don't-care term alone glues with nothing. */
  lemma GluedLayerZero(current: set<Term>, n: nat)
    requires Layer(current, n, 0)
    ensures current == {AllDC(n)} && GluedRound(current) == {} && UsedRound(current) == {}
  {
    LayerZero(current, n);
  }

  /** The terms `_get_prime_implicants` produces from `current` in one round. */
  function GluedRound(current: set<Term>): set<Term>
  {
    set a, b | a in current && b in current && a != b && Glue(a, b).Some? :: Glue(a, b).value
  }

  /** The terms of `current` that took part in some gluing of the round. */
  function UsedRound(current: set<Term>): set<Term>
  {
    set a | a in current && exists b | b in current && a != b :: Glue(a, b).Some? || Glue(b, a).Some?
  }

  /**
   * The loop of `_get_prime_implicants`: glues all pairs of distinct current implicants until a round
   * glues nothing; a term that glues with nothing in its round is prime.
   */
  method GluePrimeSet(terms: seq<Term>, ghost n: nat) returns (primeSet: set<Term>)
    requires forall t | t in terms :: |t| == n
    ensures AllImplicants(primeSet, terms, n)
    ensures CoversAll(primeSet, terms)
    ensures |terms| == 1 ==> primeSet == {terms[0]}
    ensures AllRows(terms, n) ==> primeSet == {AllDC(n)}
  {
    var current: set<Term> := Elements(terms);
    primeSet := {};
    var changed := true;
    ghost var k: nat := n;
    GlueSearchStart(terms, n);
    while changed
      invariant GlueSearchState(current, primeSet, changed, terms, n, k)
      decreases if changed then k + 1 else 0
    {
      GlueStep(current, primeSet, terms, n, k);
      var glued := GluedRound(current);
      var used := UsedRound(current);
      changed := glued != {};
      primeSet := primeSet + (current - used);
      k := if changed then k - 1 else k;
      current := glued;
    }
    GlueSearchDone(primeSet, terms, n, k);
  }

  /** What holds between rounds of `_get_prime_implicants`; `current` is the round about to run. */
  ghost predicate GlueSearchState(current: set<Term>, primeSet: set<Term>, changed: bool, terms: seq<Term>, n: nat, k: nat)
  {
    && AllImplicants(current, terms, n) && AllImplicants(primeSet, terms, n)
    && (forall x | x in current :: FixedCount(x) <= k)
    && CoversAll(current + primeSet, terms)
    && (!changed ==> current == {})
    && (|terms| == 1 ==>
         (changed && current == {terms[0]} && primeSet == {}) || (current == {} && primeSet == {terms[0]}))
    && k <= n
    && (AllRows(terms, n) ==>
         (changed && Layer(current, n, k) && primeSet == {}) || (!changed && current == {} && primeSet == {AllDC(n)}))
  }

  /** The search starts from the distinct terms with nothing prime yet. */
  lemma GlueSearchStart(terms: seq<Term>, n: nat)
    requires forall t | t in terms :: |t| == n
    ensures GlueSearchState(Elements(terms), {}, true, terms, n, n)
  {
    var s := Elements(terms);
    forall x | x in s ensures |x| == n && ImplicantOf(x, terms) && Covers(x, x) && FixedCount(x) <= n {
    }
    assert s + {} == s;
    if |terms| == 1 {
      SingletonRound(terms);
    }
    if AllRows(terms, n) {
      AllRowsLayer(terms, n);
    }
  }

  /** Once a round glued nothing, the primes alone imply and cover the terms. */
  lemma GlueSearchDone(primeSet: set<Term>, terms: seq<Term>, n: nat, k: nat)
    requires GlueSearchState({}, primeSet, false, terms, n, k)
    ensures AllImplicants(primeSet, terms, n) && CoversAll(primeSet, terms)
    ensures |terms| == 1 ==> primeSet == {terms[0]}
    ensures AllRows(terms, n) ==> primeSet == {AllDC(n)}
  {
    assert {} + primeSet == primeSet;
  }

  /** One round keeps the between-rounds facts, with one fixed position fewer when something glued. */
  lemma GlueStep(current: set<Term>, primeSet: set<Term>, terms: seq<Term>, n: nat, k: nat)
    requires forall t | t in terms :: |t| == n
    requires GlueSearchState(current, primeSet, true, terms, n, k)
    ensures GluedRound(current) != {} ==> 1 <= k
    ensures GlueSearchState(GluedRound(current), primeSet + (current - UsedRound(current)), GluedRound(current) != {},
                            terms, n, if GluedRound(current) != {} then k - 1 else k)
  {
    var glued, next := GluedRound(current), primeSet + (current - UsedRound(current));
    var k' := if glued != {} then k - 1 else k;
    RoundPreservesImplicants(current, terms, n);
    RoundPreservesCoverage(current, primeSet, terms, n);
    GlueStepFixed(current, n, k);
    GlueStepSingleton(current, primeSet, terms);
    GlueStepAllRows(current, primeSet, terms, n, k);
    assert AllImplicants(glued, terms, n) && AllImplicants(next, terms, n);
    assert forall x | x in glued :: FixedCount(x) <= k';
    assert CoversAll(glued + next, terms);
  }

  /** Glued terms have fewer fixed positions; something glues only while a fixed position is left. */
  lemma GlueStepFixed(current: set<Term>, n: nat, k: nat)
    requires forall x | x in current :: |x| == n && FixedCount(x) <= k
    ensures GluedRound(current) != {} ==> 1 <= k
    ensures forall x | x in GluedRound(current) :: FixedCount(x) <= if GluedRound(current) != {} then k - 1 else k
  {
    RoundFixedCount(current, n, k);
    if GluedRound(current) != {} {
      var g :| g in GluedRound(current);
    }
  }

  /** A lone term glues with nothing and becomes the prime. */
  lemma GlueStepSingleton(current: set<Term>, primeSet: set<Term>, terms: seq<Term>)
    requires |terms| == 1 ==>
      (current == {terms[0]} && primeSet == {}) || (current == {} && primeSet == {terms[0]})
    ensures |terms| == 1 ==> GluedRound(current) == {} && primeSet + (current - UsedRound(current)) == {terms[0]}
  {
    if |terms| == 1 {
      SingletonRound(terms);
    }
  }

  /** On the rows of an always-true function the rounds walk down the complete layers to all don't-care. */
  lemma GlueStepAllRows(current: set<Term>, primeSet: set<Term>, terms: seq<Term>, n: nat, k: nat)
    requires k <= n
    requires AllRows(terms, n) ==> Layer(current, n, k) && primeSet == {}
    ensures AllRows(terms, n) && GluedRound(current) != {} ==>
      1 <= k && Layer(GluedRound(current), n, k - 1) && primeSet + (current - UsedRound(current)) == {}
    ensures AllRows(terms, n) && GluedRound(current) == {} ==>
      primeSet + (current - UsedRound(current)) == {AllDC(n)}
  {
    if AllRows(terms, n) {
      AllRowsRound(current, n, k);
    }
  }

  /**
   * `_get_prime_implicants`: the primes of the gluing loop as a list without duplicates, in an
   * unspecified order.
   */
  method GetPrimeImplicants(terms: seq<Term>, ghost n: nat) returns (primes: seq<Term>)
    requires forall t | t in terms :: |t| == n
    ensures Distinct(primes)
    ensures forall p | p in primes :: |p| == n && ImplicantOf(p, terms)
    ensures forall u | u in terms :: exists p | p in primes :: |u| <= |p| && Covers(p, u)
    ensures |terms| == 1 ==> primes == [terms[0]]
    ensures AllRows(terms, n) ==> primes == [AllDC(n)]
  {
    var primeSet := GluePrimeSet(terms, n);
    primes := Enumerate(primeSet);
    assert forall u | u in terms :: CoveredByAny(primeSet, u);
    if |terms| == 1 {
      SingletonEnumeration(primes, primeSet, terms[0]);
    }
    if AllRows(terms, n) {
      SingletonEnumeration(primes, primeSet, AllDC(n));
    }
  }

  /** With a single term the first round glues nothing and marks nothing used. */
  lemma SingletonRound(terms: seq<Term>)
    requires |terms| == 1
    ensures Elements(terms) == {terms[0]}
    ensures GluedRound({terms[0]}) == {} && UsedRound({terms[0]}) == {}
  {
    assert forall t | t in terms :: t == terms[0];
  }

  /** A duplicate-free sequence with exactly the members of a singleton is that one element. */
  lemma SingletonEnumeration(r: seq<Term>, s: set<Term>, x: Term)
    requires s == {x} && |r| == |s| && forall y :: y in r <==> y in s
    ensures r == [x]
  {
    assert |r| == 1;
    assert r[0] in r;
  }

  /** Every term glued in a round has fewer fixed positions than any bound on the round's input. */
  lemma RoundFixedCount(current: set<Term>, n: nat, k: nat)
    requires forall x | x in current :: |x| == n && FixedCount(x) <= k
    ensures forall g | g in GluedRound(current) :: FixedCount(g) + 1 <= k
  {
    forall g | g in GluedRound(current) ensures FixedCount(g) + 1 <= k {
      var a, b :| a in current && b in current && a != b && Glue(a, b).Some? && Glue(a, b).value == g;
      GlueFacts(a, b);
    }
  }

  /** Glued terms keep the length and imply the terms, as their inputs did. */
  lemma RoundPreservesImplicants(current: set<Term>, terms: seq<Term>, n: nat)
    requires AllImplicants(current, terms, n)
    ensures AllImplicants(GluedRound(current), terms, n)
  {
    forall g | g in GluedRound(current) ensures |g| == n && ImplicantOf(g, terms) {
      var a, b :| a in current && b in current && a != b && Glue(a, b).Some? && Glue(a, b).value == g;
      GlueFacts(a, b);
      forall t: Term | |t| == |g| && IsFull(t) && Covers(g, t)
        ensures exists u | u in terms && |u| == |g| :: Covers(u, t)
      {
        GlueSound(a, b, t);
      }
    }
  }

  /** A round loses no coverage: an implicant that glued is covered by its glued result. */
  lemma RoundPreservesCoverage(current: set<Term>, primeSet: set<Term>, terms: seq<Term>, n: nat)
    requires forall x | x in current :: |x| == n
    requires forall u | u in terms :: |u| == n
    requires CoversAll(current + primeSet, terms)
    ensures CoversAll(GluedRound(current) + (primeSet + (current - UsedRound(current))), terms)
  {
    var glued := GluedRound(current);
    var next := glued + (primeSet + (current - UsedRound(current)));
    forall u | u in terms ensures CoveredByAny(next, u) {
      var x :| x in current + primeSet && |u| <= |x| && Covers(x, u);
      if x in current && x in UsedRound(current) {
        var b :| b in current && x != b && (Glue(x, b).Some? || Glue(b, x).Some?);
        var g;
        if Glue(x, b).Some? {
          GlueFacts(x, b);
          g := Glue(x, b).value;
        } else {
          GlueFacts(b, x);
          g := Glue(b, x).value;
        }
        assert g in glued;
        CoversTransitive(g, x, u);
      }
    }
  }
}
