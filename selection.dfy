/**
 * `_select_essential_primes`: the coverage-table selection shared by both minimiser variants
 * (the two source files hold the same code).
 */
module Selection {
  import opened Terms
  import opened Sorting
  import opened Enumerations

  /** `_covers(primes[i], t)`, defined only where the source does not index out of range. */
  predicate CoversAt(primes: seq<Term>, i: nat, t: Term)
  {
    i < |primes| && |t| <= |primes[i]| && Covers(primes[i], t)
  }

  /** `primes[i]` is the only prime that covers `t`. */
  predicate SoleCoverer(primes: seq<Term>, t: Term, i: nat)
  {
    CoversAt(primes, i, t) && forall j | 0 <= j < |primes| && j != i :: !CoversAt(primes, j, t)
  }

  /** Some prime with an index in `idx` covers `t`. */
  predicate CoveredByIndices(primes: seq<Term>, idx: set<nat>, t: Term)
  {
    exists i | i in idx :: CoversAt(primes, i, t)
  }

  /** Occurrences of `t` in `terms`. */
  function Count(terms: seq<Term>, t: Term): nat
  {
    if terms == [] then 0 else Count(terms[..|terms| - 1], t) + (if terms[|terms| - 1] == t then 1 else 0)
  }

  function RepeatIndex(i: nat, c: nat): (r: seq<nat>)
    ensures |r| == c && forall k | 0 <= k < c :: r[k] == i
  {
    seq(c, _ => i)
  }

  /** `coverage[t]` after the first `k` primes: each covering index, once per occurrence of `t` in `terms`. */
  function CoverageEntry(primes: seq<Term>, terms: seq<Term>, t: Term, k: nat): seq<nat>
    requires k <= |primes|
  {
    if k == 0 then []
    else CoverageEntry(primes, terms, t, k - 1)
         + (if CoversAt(primes, k - 1, t) then RepeatIndex(k - 1, Count(terms, t)) else [])
  }

  /** Every index in a coverage entry names a prime covering the term. */
  lemma {:induction false} CoverageEntrySound(primes: seq<Term>, terms: seq<Term>, t: Term, k: nat)
    requires k <= |primes|
    ensures forall x | x in CoverageEntry(primes, terms, t, k) :: CoversAt(primes, x, t)
  {
    if k > 0 {
      CoverageEntrySound(primes, terms, t, k - 1);
    }
  }

  /** A term listed once with a sole covering prime has the one-element entry naming that prime. */
  lemma {:induction false} CoverageEntrySole(primes: seq<Term>, terms: seq<Term>, t: Term, i: nat, k: nat)
    requires k <= |primes| && Count(terms, t) == 1 && SoleCoverer(primes, t, i)
    ensures CoverageEntry(primes, terms, t, k) == if k <= i then [] else [i]
  {
    if k > 0 {
      CoverageEntrySole(primes, terms, t, i, k - 1);
    }
  }

  lemma CountSnoc(terms: seq<Term>, j: nat, t: Term)
    requires j < |terms|
    ensures Count(terms[..j + 1], t) == Count(terms[..j], t) + (if terms[j] == t then 1 else 0)
  {
    assert terms[..j + 1][..j] == terms[..j];
  }

  lemma CountPositive(terms: seq<Term>, t: Term)
    requires t in terms
    ensures Count(terms, t) >= 1
  {
    var k :| 0 <= k < |terms| && terms[k] == t;
    CountAtLeast(terms, k);
  }

  lemma {:induction false} CountAtLeast(terms: seq<Term>, k: nat)
    requires k < |terms|
    ensures Count(terms, terms[k]) >= 1
  {
    if k < |terms| - 1 {
      CountAtLeast(terms[..|terms| - 1], k);
    }
  }

  /** `coverage[t]` inside the inner loop: the first `i` primes done, prime `i` seen against `terms[..j]`. */
  function PartialEntry(primes: seq<Term>, terms: seq<Term>, t: Term, i: nat, j: nat): seq<nat>
    requires i < |primes| && j <= |terms|
  {
    CoverageEntry(primes, terms, t, i) + (if CoversAt(primes, i, t) then RepeatIndex(i, Count(terms[..j], t)) else [])
  }

  /** Seeing `terms[j]` appends `i` to the entry of that term if prime `i` covers it, and changes no other entry. */
  lemma PartialEntryStep(primes: seq<Term>, terms: seq<Term>, t: Term, i: nat, j: nat)
    requires i < |primes| && j < |terms|
    ensures PartialEntry(primes, terms, t, i, j + 1)
         == PartialEntry(primes, terms, t, i, j) + (if terms[j] == t && CoversAt(primes, i, t) then [i] else [])
  {
    CountSnoc(terms, j, t);
  }

  /** Before the inner pass, the entry is that of the first `i` primes. */
  lemma PartialEntryStart(primes: seq<Term>, terms: seq<Term>, t: Term, i: nat)
    requires i < |primes|
    ensures PartialEntry(primes, terms, t, i, 0) == CoverageEntry(primes, terms, t, i)
  {
    assert terms[..0] == [];
    assert RepeatIndex(i, 0) == [];
  }

  /** An inner pass over all of `terms` completes the entry for the first `i + 1` primes. */
  lemma PartialEntryDone(primes: seq<Term>, terms: seq<Term>, t: Term, i: nat)
    requires i < |primes|
    ensures PartialEntry(primes, terms, t, i, |terms|) == CoverageEntry(primes, terms, t, i + 1)
  {
    assert terms[..|terms|] == terms;
  }

  /** `coverage` holds the entries of every listed term for the first `k` primes. */
  predicate CoverageUpTo(coverage: map<Term, seq<nat>>, primes: seq<Term>, terms: seq<Term>, k: nat)
    requires k <= |primes|
  {
    coverage.Keys == Elements(terms) && forall t | t in terms :: t in coverage && coverage[t] == CoverageEntry(primes, terms, t, k)
  }

  /** `dict` of coverage lists, built by the two nested loops of the source. */
  method BuildCoverage(primes: seq<Term>, terms: seq<Term>) returns (coverage: map<Term, seq<nat>>)
    requires forall i, t | 0 <= i < |primes| && t in terms :: |t| <= |primes[i]|
    ensures coverage.Keys == Elements(terms)
    ensures forall t | t in terms :: coverage[t] == CoverageEntry(primes, terms, t, |primes|)
  {
    coverage := map t | t in Elements(terms) :: [];
    forall t | t in terms ensures coverage[t] == CoverageEntry(primes, terms, t, 0) {
      assert t in Elements(terms);
    }
    var i := 0;
    while i < |primes|
      invariant i <= |primes|
      invariant CoverageUpTo(coverage, primes, terms, i)
    {
      coverage := AddCoverageColumn(primes, terms, i, coverage);
      i := i + 1;
    }
  }

  /** The inner `for term in terms` loop for prime `i`: appends `i` to the entry of each term it covers. */
  method AddCoverageColumn(primes: seq<Term>, terms: seq<Term>, i: nat, coverage0: map<Term, seq<nat>>)
    returns (coverage: map<Term, seq<nat>>)
    requires i < |primes| && forall t | t in terms :: |t| <= |primes[i]|
    requires CoverageUpTo(coverage0, primes, terms, i)
    ensures CoverageUpTo(coverage, primes, terms, i + 1)
  {
    coverage := coverage0;
    ColumnStart(coverage, primes, terms, i);
    var j := 0;
    while j < |terms|
      invariant j <= |terms|
      invariant ColumnUpTo(coverage, primes, terms, i, j)
    {
      var term := terms[j];
      ghost var before := coverage;
      assert term in Elements(terms);
      if Covers(primes[i], term) {
        coverage := coverage[term := coverage[term] + [i]];
      }
      ColumnStep(before, coverage, primes, terms, i, j);
      j := j + 1;
    }
    ColumnDone(coverage, primes, terms, i);
  }

  /** `coverage` inside the inner loop: every listed term has its partial entry. */
  predicate ColumnUpTo(coverage: map<Term, seq<nat>>, primes: seq<Term>, terms: seq<Term>, i: nat, j: nat)
    requires i < |primes| && j <= |terms|
  {
    coverage.Keys == Elements(terms) && forall t | t in terms :: t in coverage && coverage[t] == PartialEntry(primes, terms, t, i, j)
  }

  lemma ColumnStart(coverage: map<Term, seq<nat>>, primes: seq<Term>, terms: seq<Term>, i: nat)
    requires i < |primes| && CoverageUpTo(coverage, primes, terms, i)
    ensures ColumnUpTo(coverage, primes, terms, i, 0)
  {
    forall t | t in terms ensures coverage[t] == PartialEntry(primes, terms, t, i, 0) {
      PartialEntryStart(primes, terms, t, i);
    }
  }

  lemma ColumnStep(before: map<Term, seq<nat>>, after: map<Term, seq<nat>>, primes: seq<Term>, terms: seq<Term>, i: nat, j: nat)
    requires i < |primes| && j < |terms| && |terms[j]| <= |primes[i]|
    requires ColumnUpTo(before, primes, terms, i, j)
    requires terms[j] in before
    requires after == if Covers(primes[i], terms[j]) then before[terms[j] := before[terms[j]] + [i]] else before
    ensures ColumnUpTo(after, primes, terms, i, j + 1)
  {
    forall t | t in terms ensures t in after && after[t] == PartialEntry(primes, terms, t, i, j + 1) {
      PartialEntryStep(primes, terms, t, i, j);
    }
  }

  lemma ColumnDone(coverage: map<Term, seq<nat>>, primes: seq<Term>, terms: seq<Term>, i: nat)
    requires i < |primes| && ColumnUpTo(coverage, primes, terms, i, |terms|)
    ensures CoverageUpTo(coverage, primes, terms, i + 1)
  {
    forall t | t in terms ensures coverage[t] == CoverageEntry(primes, terms, t, i + 1) {
      PartialEntryDone(primes, terms, t, i);
    }
  }

  /** Orders indices by descending key, keeping input order among equal keys. */
  function ByDescendingKey(key: seq<nat>): (nat, nat) -> bool
  {
    (a: nat, b: nat) => (if a < |key| then key[a] else 0) >= (if b < |key| then key[b] else 0)
  }

  lemma ByDescendingKeyIsPreorder(key: seq<nat>)
    ensures TotalPreorder(ByDescendingKey(key))
  {
  }

  /** `[i for i in range(len(primes)) if i not in essential]`. */
  function IndicesOutside(k: nat, essential: set<nat>): (r: seq<nat>)
    ensures forall i: nat :: i in r <==> i < k && i !in essential
  {
    if k == 0 then [] else IndicesOutside(k - 1, essential) + (if k - 1 in essential then [] else [k - 1])
  }

  lemma ProperSubsetSmaller<T>(a: set<T>, b: set<T>, x: T)
    requires a <= b && x in b && x !in a
    ensures |a| < |b|
  {
    var d := b - a;
    assert x in d;
    assert a * d == {};
    assert a + d == b;
  }

  /** The terms of `terms` that no prime with an index in `essential` covers. */
  function Uncovered(primes: seq<Term>, terms: seq<Term>, essential: set<nat>): set<Term>
  {
    set t | t in terms && !CoveredByIndices(primes, essential, t)
  }

  /** Taking one more prime removes exactly the terms it covers. */
  lemma UncoveredAdd(primes: seq<Term>, terms: seq<Term>, essential: set<nat>, i: nat)
    requires i < |primes|
    ensures Uncovered(primes, terms, essential + {i})
         == set t | t in Uncovered(primes, terms, essential) && !(|t| <= |primes[i]| && Covers(primes[i], t))
  {
  }

  /** Every term of `ts` whose coverage entry has one element has that prime among `essential`. */
  predicate SoleEntriesTaken(coverage: map<Term, seq<nat>>, ts: set<Term>, essential: set<nat>)
  {
    forall t | t in ts && t in coverage && |coverage[t]| == 1 :: coverage[t][0] in essential
  }

  /**
   * The `while True` passes of `_select_essential_primes`: each pass takes, for every remaining term
   * whose coverage entry has one element, that prime, and drops every remaining term it covers; the
   * passes stop when one finds nothing.
   */
  method EssentialPasses(primes: seq<Term>, terms: seq<Term>, coverage: map<Term, seq<nat>>)
    returns (essential: set<nat>, remaining: set<Term>)
    requires forall i, t | 0 <= i < |primes| && t in terms :: |t| <= |primes[i]|
    requires CoverageUpTo(coverage, primes, terms, |primes|)
    ensures forall i | i in essential :: i < |primes|
    ensures remaining == Uncovered(primes, terms, essential)
    ensures forall t | t in terms && |coverage[t]| == 1 :: coverage[t][0] in essential
  {
    essential := {};
    remaining := Elements(terms);
    ghost var firstPassDone := false;

    while true
      invariant forall i | i in essential :: i < |primes|
      invariant remaining == Uncovered(primes, terms, essential)
      invariant firstPassDone ==> SoleEntriesTaken(coverage, Elements(terms), essential)
      decreases |remaining|
    {
      ghost var before := remaining;
      var changed;
      essential, remaining, changed := EssentialPass(primes, terms, coverage, essential, remaining);
      firstPassDone := true;
      if !changed {
        break;
      }
    }
    forall t | t in terms && |coverage[t]| == 1 ensures coverage[t][0] in essential {
      assert t in Elements(terms);
    }
  }

  /**
   * One pass of the `for term in list(remaining_terms)` loop over a snapshot of the remaining terms.
   * Afterwards the sole coverer of every term listed in the coverage table is taken (a term already
   * covered before the pass had its sole coverer taken then); `changed` reports that a term was dropped.
   */
  method EssentialPass(primes: seq<Term>, terms: seq<Term>, coverage: map<Term, seq<nat>>,
                       essential0: set<nat>, remaining0: set<Term>)
    returns (essential: set<nat>, remaining: set<Term>, changed: bool)
    requires CoverageUpTo(coverage, primes, terms, |primes|)
    requires forall i | i in essential0 :: i < |primes|
    requires remaining0 == Uncovered(primes, terms, essential0)
    ensures essential0 <= essential
    ensures forall i | i in essential :: i < |primes|
    ensures remaining == Uncovered(primes, terms, essential)
    ensures SoleEntriesTaken(coverage, Elements(terms), essential)
    ensures changed ==> |remaining| < |remaining0|
  {
    essential, remaining, changed := essential0, remaining0, false;
    var snapshot := Enumerate(remaining0);
    assert forall k | 0 <= k < |snapshot| :: snapshot[k] in remaining0;
    var j := 0;
    while j < |snapshot|
      invariant j <= |snapshot|
      invariant essential0 <= essential
      invariant forall i | i in essential :: i < |primes|
      invariant remaining == Uncovered(primes, terms, essential)
      invariant remaining <= remaining0
      invariant changed ==> exists t | t in remaining0 :: t !in remaining
      invariant PrefixTaken(coverage, snapshot, j, essential)
    {
      var term := snapshot[j];
      ghost var essentialBefore := essential;
      if |coverage[term]| == 1 {
        var impIndex := coverage[term][0];
        CoverageEntrySound(primes, terms, term, |primes|);
        assert CoversAt(primes, impIndex, term);
        UncoveredAdd(primes, terms, essential, impIndex);
        essential := essential + {impIndex};
        changed := true;
        remaining := set t | t in remaining && !(|t| <= |primes[impIndex]| && Covers(primes[impIndex], t));
        assert term !in remaining;
      }
      PrefixTakenStep(coverage, snapshot, j, essentialBefore, essential);
      j := j + 1;
    }
    SoleEntriesAfterPass(primes, terms, coverage, essential0, essential, remaining0, snapshot);
    if changed {
      ghost var x :| x in remaining0 && x !in remaining;
      ProperSubsetSmaller(remaining, remaining0, x);
    }
  }

  /** The sole coverer of each of the first `j` snapshot terms with a one-element entry is taken. */
  predicate PrefixTaken(coverage: map<Term, seq<nat>>, snapshot: seq<Term>, j: nat, essential: set<nat>)
  {
    forall k | 0 <= k < j && k < |snapshot| && snapshot[k] in coverage && |coverage[snapshot[k]]| == 1 ::
      coverage[snapshot[k]][0] in essential
  }

  /** Looking at snapshot term `j` (taking its sole coverer if it has one) extends the prefix. */
  lemma PrefixTakenStep(coverage: map<Term, seq<nat>>, snapshot: seq<Term>, j: nat,
                        essentialBefore: set<nat>, essential: set<nat>)
    requires PrefixTaken(coverage, snapshot, j, essentialBefore) && essentialBefore <= essential
    requires j < |snapshot| && snapshot[j] in coverage && |coverage[snapshot[j]]| == 1 ==>
      coverage[snapshot[j]][0] in essential
    ensures PrefixTaken(coverage, snapshot, j + 1, essential)
  {
  }

  /**
   * After a pass over a snapshot of the remaining terms, the sole coverer of every listed term is taken:
   * a snapshot term had it taken in the pass, and a term covered before the pass is covered by a prime
   * already taken, which must then be its only coverer.
   */
  lemma SoleEntriesAfterPass(primes: seq<Term>, terms: seq<Term>, coverage: map<Term, seq<nat>>,
                             essential0: set<nat>, essential: set<nat>, remaining0: set<Term>, snapshot: seq<Term>)
    requires CoverageUpTo(coverage, primes, terms, |primes|)
    requires essential0 <= essential
    requires remaining0 == Uncovered(primes, terms, essential0)
    requires forall t | t in remaining0 :: t in snapshot
    requires PrefixTaken(coverage, snapshot, |snapshot|, essential)
    ensures SoleEntriesTaken(coverage, Elements(terms), essential)
  {
    forall t | t in Elements(terms) && t in coverage && |coverage[t]| == 1
      ensures coverage[t][0] in essential
    {
      if t in remaining0 {
        var k :| 0 <= k < |snapshot| && snapshot[k] == t;
      } else {
        assert CoveredByIndices(primes, essential0, t);
        var i :| i in essential0 && CoversAt(primes, i, t);
        CoverageUnique(primes, terms, t, coverage[t], i);
      }
    }
  }

  /** `sum(1 for t in remaining_terms if self._covers(primes[i], t))` for every prime. */
  function CoverCounts(primes: seq<Term>, remaining: set<Term>): (r: seq<nat>)
    ensures |r| == |primes|
  {
    seq(|primes|, i requires 0 <= i < |primes| =>
      |set t | t in remaining && |t| <= |primes[i]| && Covers(primes[i], t)|)
  }

  /**
   * The greedy completion of `_select_essential_primes`: the primes outside `essential`, sorted by
   * descending number of remaining terms they cover (stable), are taken in that order while they
   * cover a remaining term, until no term remains.
   */
  method GreedyCompletion(primes: seq<Term>, terms: seq<Term>, essential0: set<nat>, remaining0: set<Term>)
    returns (essential: set<nat>, remaining: set<Term>)
    requires forall i, t | 0 <= i < |primes| && t in terms :: |t| <= |primes[i]|
    requires forall i | i in essential0 :: i < |primes|
    requires remaining0 == Uncovered(primes, terms, essential0)
    ensures essential0 <= essential
    ensures forall i | i in essential :: i < |primes|
    ensures remaining == Uncovered(primes, terms, essential)
    ensures forall t | t in remaining :: forall i | 0 <= i < |primes| :: !CoversAt(primes, i, t)
  {
    var remainingImp := IndicesOutside(|primes|, essential0);
    var counts := CoverCounts(primes, remaining0);
    ByDescendingKeyIsPreorder(counts);
    var order := Sort(remainingImp, ByDescendingKey(counts));
    SortCorrect(remainingImp, ByDescendingKey(counts));
    forall i: nat ensures i in multiset(order) <==> i < |primes| && i !in essential0 {
      assert i in multiset(order) <==> i in remainingImp;
    }
    essential, remaining := TakeWhileCovering(primes, terms, essential0, remaining0, order);
  }

  /** The `for i in remaining_imp` loop of the greedy completion. */
  method TakeWhileCovering(primes: seq<Term>, terms: seq<Term>, essential0: set<nat>, remaining0: set<Term>, order: seq<nat>)
    returns (essential: set<nat>, remaining: set<Term>)
    requires forall i | i in essential0 :: i < |primes|
    requires remaining0 == Uncovered(primes, terms, essential0)
    requires forall i: nat :: i in multiset(order) <==> i < |primes| && i !in essential0
    ensures essential0 <= essential
    ensures forall i | i in essential :: i < |primes|
    ensures remaining == Uncovered(primes, terms, essential)
    ensures forall t | t in remaining :: forall i | 0 <= i < |primes| :: !CoversAt(primes, i, t)
  {
    essential, remaining := essential0, remaining0;
    var j := 0;
    while j < |order|
      invariant j <= |order|
      invariant essential0 <= essential
      invariant forall i | i in essential :: i < |primes|
      invariant remaining == Uncovered(primes, terms, essential)
      invariant forall k | 0 <= k < j :: order[k] in essential || forall t | t in remaining :: !CoversAt(primes, order[k], t)
    {
      var i := order[j];
      assert i in multiset(order);
      var covered := exists t | t in remaining :: |t| <= |primes[i]| && Covers(primes[i], t);
      if covered {
        UncoveredAdd(primes, terms, essential, i);
        essential := essential + {i};
        remaining := set t | t in remaining && !(|t| <= |primes[i]| && Covers(primes[i], t));
        if remaining == {} {
          break;
        }
      }
      j := j + 1;
    }
    if remaining != {} {
      NoCovererLeft(primes, terms, essential0, essential, order);
    }
  }

  lemma NoCovererLeft(primes: seq<Term>, terms: seq<Term>, essential0: set<nat>, essential: set<nat>, order: seq<nat>)
    requires forall i: nat :: i in multiset(order) <==> i < |primes| && i !in essential0
    requires essential0 <= essential
    requires forall k | 0 <= k < |order| ::
      order[k] in essential || forall t | t in Uncovered(primes, terms, essential) :: !CoversAt(primes, order[k], t)
    ensures forall t | t in Uncovered(primes, terms, essential) :: forall i | 0 <= i < |primes| :: !CoversAt(primes, i, t)
  {
    forall t, i | t in Uncovered(primes, terms, essential) && 0 <= i < |primes|
      ensures !CoversAt(primes, i, t)
    {
      if i !in essential {
        assert i in multiset(order);
        var k :| 0 <= k < |order| && order[k] == i;
      }
    }
  }

  /**
   * `_select_essential_primes`: the essential passes, then (if terms remain) the greedy completion;
   * returns the chosen primes, in an unspecified order.
   */
  method SelectEssentialPrimes(primes: seq<Term>, terms: seq<Term>) returns (selected: seq<Term>)
    requires forall i, t | 0 <= i < |primes| && t in terms :: |t| <= |primes[i]|
    ensures forall s | s in selected :: s in primes
    ensures forall t, i: nat | t in terms && Count(terms, t) == 1 && SoleCoverer(primes, t, i) :: primes[i] in selected
    ensures forall t | t in terms && (exists i | 0 <= i < |primes| :: CoversAt(primes, i, t)) ::
      exists s | s in selected :: |t| <= |s| && Covers(s, t)
    ensures Distinct(primes) ==> Distinct(selected)
  {
    var coverage := BuildCoverage(primes, terms);
    var essential, remaining := EssentialPasses(primes, terms, coverage);
    ghost var essential0 := essential;
    if remaining != {} {
      essential, remaining := GreedyCompletion(primes, terms, essential, remaining);
    }
    ghost var chosen;
    selected, chosen := PrimesOf(primes, essential);
    SelectedSole(primes, terms, coverage, essential0, essential, chosen, selected);
    SelectedCovering(primes, terms, essential, remaining, chosen, selected);
  }

  /** `[primes[i] for i in essential]`, in the iteration order of the set. */
  method PrimesOf(primes: seq<Term>, essential: set<nat>) returns (selected: seq<Term>, ghost chosen: seq<nat>)
    requires forall i | i in essential :: i < |primes|
    ensures forall i :: i in chosen <==> i in essential
    ensures |selected| == |chosen| && forall k | 0 <= k < |chosen| :: chosen[k] < |primes| && selected[k] == primes[chosen[k]]
    ensures forall s | s in selected :: s in primes
    ensures Distinct(primes) ==> Distinct(selected)
  {
    var order := Enumerate(essential);
    assert forall k | 0 <= k < |order| :: order[k] in essential;
    selected := seq(|order|, k requires 0 <= k < |order| => primes[order[k]]);
    chosen := order;
  }

  /** Every sole coverer of a term listed once ends up selected. */
  lemma SelectedSole(primes: seq<Term>, terms: seq<Term>, coverage: map<Term, seq<nat>>,
                     essential0: set<nat>, essential: set<nat>, chosen: seq<nat>, selected: seq<Term>)
    requires CoverageUpTo(coverage, primes, terms, |primes|)
    requires forall t | t in terms && |coverage[t]| == 1 :: coverage[t][0] in essential0
    requires essential0 <= essential && forall i | i in essential :: i < |primes|
    requires forall i :: i in chosen <==> i in essential
    requires |selected| == |chosen| && forall k | 0 <= k < |chosen| :: chosen[k] < |primes| && selected[k] == primes[chosen[k]]
    ensures forall t, i: nat | t in terms && Count(terms, t) == 1 && SoleCoverer(primes, t, i) :: primes[i] in selected
  {
    forall t, i: nat | t in terms && Count(terms, t) == 1 && SoleCoverer(primes, t, i)
      ensures primes[i] in selected
    {
      CoverageEntrySole(primes, terms, t, i, |primes|);
      assert coverage[t] == [i];
      assert i in chosen;
      var k :| 0 <= k < |chosen| && chosen[k] == i;
      assert selected[k] == primes[i];
    }
  }

  /** Every term some prime covers is covered by a selected prime. */
  lemma SelectedCovering(primes: seq<Term>, terms: seq<Term>, essential: set<nat>, remaining: set<Term>,
                         chosen: seq<nat>, selected: seq<Term>)
    requires forall i | i in essential :: i < |primes|
    requires remaining == Uncovered(primes, terms, essential)
    requires forall t | t in remaining :: forall i | 0 <= i < |primes| :: !CoversAt(primes, i, t)
    requires forall i :: i in chosen <==> i in essential
    requires |selected| == |chosen| && forall k | 0 <= k < |chosen| :: chosen[k] < |primes| && selected[k] == primes[chosen[k]]
    ensures forall t | t in terms && (exists i | 0 <= i < |primes| :: CoversAt(primes, i, t)) ::
      exists s | s in selected :: |t| <= |s| && Covers(s, t)
  {
    forall t | t in terms && (exists i | 0 <= i < |primes| :: CoversAt(primes, i, t))
      ensures exists s | s in selected :: |t| <= |s| && Covers(s, t)
    {
      assert t !in remaining;
      var i :| i in essential && CoversAt(primes, i, t);
      var k :| 0 <= k < |chosen| && chosen[k] == i;
      assert selected[k] == primes[i];
    }
  }

  /** A one-element coverage entry names the only prime covering the term. */
  lemma CoverageUnique(primes: seq<Term>, terms: seq<Term>, t: Term, entry: seq<nat>, i: nat)
    requires t in terms && entry == CoverageEntry(primes, terms, t, |primes|) && |entry| == 1
    requires CoversAt(primes, i, t)
    ensures entry[0] == i
  {
    CountPositive(terms, t);
    CoverageEntryContains(primes, terms, t, i, |primes|);
    assert entry == [entry[0]];
  }

  /** Every covering index below k appears in the coverage entry of a listed term. */
  lemma {:induction false} CoverageEntryContains(primes: seq<Term>, terms: seq<Term>, t: Term, i: nat, k: nat)
    requires k <= |primes| && i < k && CoversAt(primes, i, t) && Count(terms, t) >= 1
    ensures i in CoverageEntry(primes, terms, t, k)
  {
    if i < k - 1 {
      CoverageEntryContains(primes, terms, t, i, k - 1);
    } else {
      assert RepeatIndex(i, Count(terms, t))[0] == i;
    }
  }
}
