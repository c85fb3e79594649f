/**
 * The Karnaugh-map half of `LogicalFunction` in LR_4/logical_function.py: Gray codes, the
 * integer-to-term conversion, `_try_merge_implicants`, the weight-grouped prime search, the
 * greedy selector and `minimize_with_kmap`. Terms use `DC` for the source's '-' marker.
 */
module Lr4Karnaugh {
  import opened Wrappers
  import opened Text
  import opened BitStrings
  import opened Terms
  import opened Cover
  import opened Rendering
  import opened Enumerations
  import opened Lr4Gluing
  import opened Lr4Minimise

  // ---------------------------------------------------------------- Gray codes

  /** Bitwise exclusive or of two naturals (Python `^` on non-negative ints). */
  function Xor(a: nat, b: nat): nat
    decreases a + b
  {
    if a == 0 && b == 0 then 0 else 2 * Xor(a / 2, b / 2) + (if a % 2 != b % 2 then 1 else 0)
  }

  /** Number of one bits. */
  function BitCount(x: nat): nat
  {
    if x == 0 then 0 else BitCount(x / 2) + x % 2
  }

  /** `num ^ (num >> 1)`. */
  function GrayCode(num: nat): nat
  {
    Xor(num, num / 2)
  }

  /** `_generate_gray_codes(num_bits)`: the Gray code of every number below 2^num_bits, in order. */
  function GenerateGrayCodes(numBits: nat): (r: seq<nat>)
    ensures |r| == Pow2(numBits)
  {
    seq(Pow2(numBits), (i: int) requires 0 <= i => GrayCode(i))
  }

  /** The number whose Gray code is `g`: each bit is the xor of the bits of `g` above and at it. */
  function GrayInverse(g: nat): nat
  {
    if g == 0 then 0
    else
      var q := GrayInverse(g / 2);
      2 * q + (if g % 2 != q % 2 then 1 else 0)
  }

  lemma XorStep(a: nat, b: nat)
    ensures Xor(a, b) == 2 * Xor(a / 2, b / 2) + (if a % 2 != b % 2 then 1 else 0)
  {
  }

  lemma {:induction false} XorSelf(a: nat)
    ensures Xor(a, a) == 0
    decreases a
  {
    if a != 0 {
      XorSelf(a / 2);
    }
  }

  /** The Gray code of `i` is the code of `i / 2` shifted, with low bit "bit 0 xor bit 1" of `i`. */
  lemma GrayStep(i: nat)
    ensures GrayCode(i) == 2 * GrayCode(i / 2) + (if i % 2 != (i / 2) % 2 then 1 else 0)
  {
    XorStep(i, i / 2);
  }

  /** The differing bits of `a` and `b`: the low one plus those of the halves. */
  lemma XorCountStep(a: nat, b: nat)
    ensures BitCount(Xor(a, b)) == (if a % 2 != b % 2 then 1 else 0) + BitCount(Xor(a / 2, b / 2))
  {
    var r := if a % 2 != b % 2 then 1 else 0;
    XorStep(a, b);
    HalfOf(Xor(a / 2, b / 2), r);
  }

  lemma {:induction false} GrayBound(i: nat, k: nat)
    requires i < Pow2(k)
    ensures GrayCode(i) < Pow2(k)
  {
    GrayStep(i);
    if k > 0 {
      GrayBound(i / 2, k - 1);
    }
  }

  lemma {:induction false} GrayInverseBound(g: nat, k: nat)
    requires g < Pow2(k)
    ensures GrayInverse(g) < Pow2(k)
  {
    if g != 0 && k > 0 {
      GrayInverseBound(g / 2, k - 1);
    }
  }

  /** `GrayInverse` undoes the Gray code: every number is the code of exactly one number. */
  lemma {:induction false} GrayOfInverse(g: nat)
    ensures GrayCode(GrayInverse(g)) == g
    decreases g
  {
    if g != 0 {
      var q := GrayInverse(g / 2);
      var r := if g % 2 != q % 2 then 1 else 0;
      var i := 2 * q + r;
      GrayOfInverse(g / 2);
      HalfOf(q, r);
      GrayStep(i);
    }
  }

  lemma {:induction false} GrayInjective(a: nat, b: nat)
    requires GrayCode(a) == GrayCode(b)
    ensures a == b
    decreases a + b
  {
    if a != 0 || b != 0 {
      GrayStep(a);
      GrayStep(b);
      var ra := if a % 2 != (a / 2) % 2 then 1 else 0;
      var rb := if b % 2 != (b / 2) % 2 then 1 else 0;
      HalfOf(GrayCode(a / 2), ra);
      HalfOf(GrayCode(b / 2), rb);
      GrayInjective(a / 2, b / 2);
    }
  }

  /** The codes of consecutive numbers differ in exactly one bit. */
  lemma {:induction false} GrayNeighbours(i: nat)
    ensures BitCount(Xor(GrayCode(i), GrayCode(i + 1))) == 1
    decreases i
  {
    var q := i / 2;
    if i % 2 == 0 {
      GrayNeighboursFromEven(i, q);
    } else {
      GrayNeighbours(q);
      GrayNeighboursFromOdd(i, q);
    }
  }

  /** From `2q` to `2q + 1` only the low bit of the code changes. */
  lemma GrayNeighboursFromEven(i: nat, q: nat)
    requires i == 2 * q
    ensures BitCount(Xor(GrayCode(i), GrayCode(i + 1))) == 1
  {
    GrayEven(q);
    GrayOdd(q);
    assert i + 1 == 2 * q + 1;
    XorLowBitOnly(GrayCode(i), GrayCode(i + 1), GrayCode(q), q % 2, 1 - q % 2);
  }

  /** From `2q + 1` to `2q + 2` the low bit of the code stays and the rest steps from `q` to `q + 1`. */
  lemma GrayNeighboursFromOdd(i: nat, q: nat)
    requires i == 2 * q + 1
    requires BitCount(Xor(GrayCode(q), GrayCode(q + 1))) == 1
    ensures BitCount(Xor(GrayCode(i), GrayCode(i + 1))) == 1
  {
    GrayOdd(q);
    GrayEven(q + 1);
    ParityStep(q);
    assert i + 1 == 2 * (q + 1);
    XorSameLowBit(GrayCode(i), GrayCode(i + 1), GrayCode(q), GrayCode(q + 1), 1 - q % 2);
  }

  lemma ParityStep(q: nat)
    ensures (q + 1) % 2 == 1 - q % 2
  {
    if q % 2 == 0 {
      HalfOf(q / 2, 1);
    } else {
      HalfOf(q / 2 + 1, 0);
    }
  }

  /** The code of `2q`: the code of `q` shifted, low bit the low bit of `q`. */
  lemma GrayEven(q: nat)
    ensures GrayCode(2 * q) == 2 * GrayCode(q) + q % 2
  {
    HalfOf(q, 0);
    GrayStep(2 * q);
  }

  /** The code of `2q + 1`: the code of `q` shifted, low bit the complement of the low bit of `q`. */
  lemma GrayOdd(q: nat)
    ensures GrayCode(2 * q + 1) == 2 * GrayCode(q) + (1 - q % 2)
  {
    HalfOf(q, 1);
    GrayStep(2 * q + 1);
  }

  /** `2x + ra` and `2x + rb` with different low bits differ in that bit alone. */
  lemma XorLowBitOnly(a: nat, b: nat, x: nat, ra: nat, rb: nat)
    requires ra < 2 && rb < 2 && ra != rb && a == 2 * x + ra && b == 2 * x + rb
    ensures BitCount(Xor(a, b)) == 1
  {
    XorLowBits(x, x, ra, rb);
    XorSelf(x);
  }

  /** `2x + r` and `2y + r` differ in the bits where `x` and `y` do. */
  lemma XorSameLowBit(a: nat, b: nat, x: nat, y: nat, r: nat)
    requires r < 2 && a == 2 * x + r && b == 2 * y + r
    ensures BitCount(Xor(a, b)) == BitCount(Xor(x, y))
  {
    XorLowBits(x, y, r, r);
  }

  /** Bits that differ between `2x + ra` and `2y + rb`: the low one if `ra != rb`, plus those of `x` and `y`. */
  lemma XorLowBits(x: nat, y: nat, ra: nat, rb: nat)
    requires ra < 2 && rb < 2
    ensures BitCount(Xor(2 * x + ra, 2 * y + rb)) == (if ra != rb then 1 else 0) + BitCount(Xor(x, y))
  {
    HalfOf(x, ra);
    HalfOf(y, rb);
    XorCountStep(2 * x + ra, 2 * y + rb);
  }

  /**
   * `_generate_gray_codes(k)` lists every number below 2^k exactly once (a permutation: each value
   * in range sits at the index `GrayInverse` names), and neighbouring codes differ in one bit.
   */
  lemma GrayCodesPermutation(k: nat)
    ensures forall i | 0 <= i < Pow2(k) :: GenerateGrayCodes(k)[i] < Pow2(k)
    ensures forall i, j | 0 <= i < j < Pow2(k) :: GenerateGrayCodes(k)[i] != GenerateGrayCodes(k)[j]
    ensures forall v: nat | v < Pow2(k) :: GrayInverse(v) < Pow2(k) && GenerateGrayCodes(k)[GrayInverse(v)] == v
    ensures forall i | 0 <= i < Pow2(k) - 1 ::
      BitCount(Xor(GenerateGrayCodes(k)[i], GenerateGrayCodes(k)[i + 1])) == 1
  {
    var r := GenerateGrayCodes(k);
    forall i | 0 <= i < Pow2(k) ensures r[i] < Pow2(k) {
      GrayBound(i, k);
    }
    forall i, j | 0 <= i < j < Pow2(k) ensures r[i] != r[j] {
      if r[i] == r[j] {
        GrayInjective(i, j);
      }
    }
    forall v: nat | v < Pow2(k) ensures GrayInverse(v) < Pow2(k) && r[GrayInverse(v)] == v {
      GrayInverseBound(v, k);
      GrayOfInverse(v);
    }
    forall i | 0 <= i < Pow2(k) - 1 ensures BitCount(Xor(r[i], r[i + 1])) == 1 {
      GrayNeighbours(i);
    }
  }

  /** The two-bit codes are 0, 1, 3, 2. */
  lemma GrayCodesTwoBits()
    ensures GenerateGrayCodes(2) == [0, 1, 3, 2]
  {
    assert Pow2(2) == 4;
    assert Xor(1, 0) == 1;
    assert GrayCode(2) == 3 by { assert Xor(2, 1) == 2 * Xor(1, 0) + 1; }
    assert GrayCode(3) == 2 by { assert Xor(3, 1) == 2 * Xor(1, 0); }
  }

  // ------------------------------------------------------- terms from integers

  /** `_convert_to_binary_terms`: each integer as `variable_count` bits, most significant first. */
  function ConvertToBinaryTerms(terms: seq<nat>, variableCount: nat): (r: seq<Term>)
    ensures |r| == |terms|
  {
    seq(|terms|, j requires 0 <= j < |terms| => Encode(terms[j], variableCount))
  }

  /**
   * The conversion inverts `int(''.join(map(str, term)), 2)` both ways: a number below 2^n comes
   * back from its term, and a full n-position term comes back from its number.
   */
  lemma ConvertRoundTrip(terms: seq<nat>, n: nat)
    ensures forall j | 0 <= j < |terms| :: |ConvertToBinaryTerms(terms, n)[j]| == n && IsFull(ConvertToBinaryTerms(terms, n)[j])
    ensures forall j | 0 <= j < |terms| && terms[j] < Pow2(n) :: TermValue(ConvertToBinaryTerms(terms, n)[j]) == terms[j]
    ensures forall t: Term | |t| == n && IsFull(t) :: ConvertToBinaryTerms([TermValue(t)], n) == [t]
  {
    forall j | 0 <= j < |terms| && terms[j] < Pow2(n)
      ensures TermValue(ConvertToBinaryTerms(terms, n)[j]) == terms[j]
    {
      TermValueOfEncode(terms[j], n);
      ModUnique(terms[j], Pow2(n), 0, terms[j]);
    }
    forall t: Term | |t| == n && IsFull(t) ensures ConvertToBinaryTerms([TermValue(t)], n) == [t] {
      EncodeOfTermValue(t);
    }
  }

  // ---------------------------------------------------------------- merging

  /**
   * Reference definition of `_try_merge_implicants`: over `zip(a, b)`, exactly one position
   * differs, where a DC against a value counts as a difference like any other; the result has DC
   * there.
   */
  function Merge(a: Term, b: Term): Option<Term>
  {
    if DiffCount(a, b, Min(|a|, |b|)) == 1 then Some(Merged(a, b)) else None
  }

  /** `_try_merge_implicants`: counts differences along `zip`, giving up as soon as there are two. */
  method TryMergeImplicants(a: Term, b: Term) returns (r: Option<Term>)
    ensures r == Merge(a, b)
  {
    var m := Min(|a|, |b|);
    var differenceCount := 0;
    var merged: Term := [];
    var i := 0;
    while i < m
      invariant i <= m
      invariant merged == Merged(a, b)[..i]
      invariant differenceCount == DiffCount(a, b, i) <= 1
    {
      if a[i] != b[i] {
        differenceCount := differenceCount + 1;
        merged := merged + [DC];
      } else {
        merged := merged + [a[i]];
      }
      if differenceCount > 1 {
        DiffCountMonotone(a, b, i + 1, m);
        return None;
      }
      i := i + 1;
    }
    assert merged == Merged(a, b);
    r := if differenceCount == 1 then Some(merged) else None;
  }

  lemma {:induction false} DiffCountMonotone(a: Term, b: Term, i: nat, m: nat)
    requires i <= m <= |a| && m <= |b|
    ensures DiffCount(a, b, i) <= DiffCount(a, b, m)
    decreases m - i
  {
    if i < m {
      DiffCountMonotone(a, b, i, m - 1);
    }
  }

  /** Where DC never meets a value, merging is gluing; a DC against a value is where they part. */
  lemma MergeIsGlueWhenAligned(a: Term, b: Term)
    requires DcAligned(a, b, Min(|a|, |b|))
    ensures Merge(a, b) == Glue(a, b)
  {
  }

  /**
   * Terms of one length with the same number of fixed positions merge only as `_glue_terms`
   * would: the differing position is fixed in both.
   */
  lemma MergeEqualFixed(a: Term, b: Term)
    requires |a| == |b| && FixedCount(a) == FixedCount(b) && Merge(a, b).Some?
    ensures DcAligned(a, b, |a|) && Glue(a, b) == Merge(a, b)
  {
    var p := DiffCountWitness(a, b, |a|);
    if a[p] == DC {
      FixedMoreWhereDC(a, b, p);
    } else if b[p] == DC {
      FixedMoreWhereDC(b, a, p);
    }
  }

  /** Terms agreeing except at `p`, where only the second is fixed: the second has one more fixed position. */
  lemma FixedMoreWhereDC(a: Term, b: Term, p: nat)
    requires |a| == |b| && p < |a| && a[p] == DC && b[p] != DC
    requires forall i | 0 <= i < |a| && i != p :: a[i] == b[i]
    ensures FixedCount(b) == FixedCount(a) + 1
  {
    assert b[p := DC] == a;
    FixedCountClear(b, p);
  }

  // ------------------------------------------------------- constant functions

  /** Fixing a position to 1 instead of 0 adds one to the weight. */
  lemma {:induction false} OnesCountAt(t: Term, p: nat)
    requires p < |t|
    ensures OnesCount(t[p := One]) == OnesCount(t[p := Zero]) + 1
  {
    var last := |t| - 1;
    if p < last {
      OnesCountAt(t[..last], p);
      assert t[p := One][..last] == t[..last][p := One];
      assert t[p := Zero][..last] == t[..last][p := Zero];
    } else {
      assert t[p := One][..last] == t[..last] == t[p := Zero][..last];
    }
  }

  /**
   * On the complete layer of terms with `k >= 1` fixed positions, a round of
   * `_find_prime_implicants_kmap` produces the complete layer with `k - 1` and uses every term;
   * on the layer without fixed positions, the lone all-don't-care term merges with nothing.
   */
  lemma KmapLayerRound(current: set<Term>, n: nat, k: nat)
    requires Layer(current, n, k) && k <= n
    ensures 1 <= k ==> Layer(KmapRound(current), n, k - 1) && KmapRound(current) != {} && KmapUsed(current) == current
    ensures k == 0 ==> current == {AllDC(n)} && KmapRound(current) == {} && KmapUsed(current) == {}
  {
    if 1 <= k {
      KmapLayerStep(current, n, k);
    } else {
      LayerZero(current, n);
      KmapRoundSingle(AllDC(n));
    }
  }

  lemma KmapLayerStep(current: set<Term>, n: nat, k: nat)
    requires Layer(current, n, k) && 1 <= k <= n
    ensures Layer(KmapRound(current), n, k - 1) && KmapRound(current) != {} && KmapUsed(current) == current
  {
    KmapLayerMerges(current, n, k);
    KmapLayerUsed(current, n, k);
    assert LayerWitness(n, k - 1) in KmapRound(current);
  }

  /** A single term has nothing to merge with. */
  lemma KmapRoundSingle(t: Term)
    ensures KmapRound({t}) == {} && KmapUsed({t}) == {}
  {
  }

  /** Merging the complete layer with `k >= 1` fixed positions gives the complete layer with `k - 1`. */
  lemma KmapLayerMerges(current: set<Term>, n: nat, k: nat)
    requires Layer(current, n, k) && 1 <= k <= n
    ensures Layer(KmapRound(current), n, k - 1)
  {
    KmapRoundFixed(current, n, k);
    forall t: Term | |t| == n && FixedCount(t) == k - 1 ensures t in KmapRound(current) {
      var p := DcPosition(t);
      SplitAt(t, p);
      OnesCountAt(t, p);
      MergeIsGlueWhenAligned(t[p := Zero], t[p := One]);
      assert t[p := Zero] in current && t[p := One] in current;
    }
  }

  /** Every term of the complete layer with `k >= 1` fixed positions merges with its flip at a fixed position. */
  lemma KmapLayerUsed(current: set<Term>, n: nat, k: nat)
    requires Layer(current, n, k) && 1 <= k <= n
    ensures KmapUsed(current) == current
  {
    forall a | a in current ensures a in KmapUsed(current) {
      var p := FixedPosition(a);
      var b := FlipPartner(a, p);
      assert b in current;
    }
  }

  /** Flipping a fixed position gives a term of the same shape one weight away, which merges with it. */
  lemma FlipPartner(a: Term, p: nat) returns (b: Term)
    requires p < |a| && a[p] != DC
    ensures |b| == |a| && FixedCount(b) == FixedCount(a)
    ensures (OnesCount(b) == OnesCount(a) + 1 && Merge(a, b).Some?) ||
            (OnesCount(a) == OnesCount(b) + 1 && Merge(b, a).Some?)
  {
    OnesCountAt(a, p);
    if a[p] == Zero {
      b := a[p := One];
      FlipAt(a, p);
      MergeIsGlueWhenAligned(a, b);
      assert a[p := Zero] == a;
    } else {
      b := a[p := Zero];
      FlipAt(b, p);
      FlipAt(a, p);
      assert b[p := One] == a && a[p := One] == a;
      MergeIsGlueWhenAligned(b, a);
    }
  }

  // ------------------------------------------------------------- prime search

  /** The merges of one round of `_find_prime_implicants_kmap`: a term of weight w with one of weight w + 1. */
  function KmapRound(current: set<Term>): set<Term>
  {
    set a, b | a in current && b in current && OnesCount(b) == OnesCount(a) + 1 && Merge(a, b).Some? ::
      Merge(a, b).value
  }

  /** The terms of the round that took part in a merge. */
  function KmapUsed(current: set<Term>): set<Term>
  {
    set a | a in current && exists b | b in current ::
      (OnesCount(b) == OnesCount(a) + 1 && Merge(a, b).Some?) || (OnesCount(a) == OnesCount(b) + 1 && Merge(b, a).Some?)
  }

  /** Every term of `s` has length `n` and exactly `k` fixed positions. */
  predicate UniformFixed(s: set<Term>, n: nat, k: nat)
  {
    forall x | x in s :: |x| == n && FixedCount(x) == k
  }

  /** A round of terms with `k` fixed positions merges into terms with `k - 1`, each covering its two inputs. */
  lemma KmapRoundFacts(current: set<Term>, n: nat, k: nat)
    requires UniformFixed(current, n, k)
    ensures forall g | g in KmapRound(current) :: |g| == n && FixedCount(g) + 1 == k
    ensures forall a, b | a in current && b in current && Merge(a, b).Some? ::
      Glue(a, b) == Merge(a, b) && Covers(Merge(a, b).value, a) && Covers(Merge(a, b).value, b)
  {
    forall a, b | a in current && b in current && Merge(a, b).Some?
      ensures Glue(a, b) == Merge(a, b) && Covers(Merge(a, b).value, a) && Covers(Merge(a, b).value, b)
      ensures |Merge(a, b).value| == n && FixedCount(Merge(a, b).value) + 1 == k
    {
      MergeEqualFixed(a, b);
      GlueFacts(a, b);
    }
  }

  /** A round of terms with `k` fixed positions merges into terms with `k - 1`. */
  lemma KmapRoundFixed(current: set<Term>, n: nat, k: nat)
    requires UniformFixed(current, n, k)
    ensures forall g | g in KmapRound(current) :: |g| == n && FixedCount(g) + 1 == k
  {
    KmapRoundFacts(current, n, k);
  }

  /** Merged terms keep implying the terms the round's inputs implied. */
  lemma KmapRoundImplicants(current: set<Term>, terms: seq<Term>, n: nat, k: nat)
    requires UniformFixed(current, n, k) && AllImplicants(current, terms, n)
    ensures AllImplicants(KmapRound(current), terms, n)
  {
    forall g | g in KmapRound(current) ensures |g| == n && ImplicantOf(g, terms) {
      var a, b :| a in current && b in current && OnesCount(b) == OnesCount(a) + 1 && Merge(a, b).Some? &&
        Merge(a, b).value == g;
      MergeEqualFixed(a, b);
      GlueFacts(a, b);
      forall t: Term | |t| == |g| && IsFull(t) && Covers(g, t)
        ensures exists u | u in terms && |u| == |g| :: Covers(u, t)
      {
        GlueSound(a, b, t);
      }
    }
  }

  /** A round loses no coverage: a term that merged is covered by its merge. */
  lemma KmapRoundCoverage(current: set<Term>, primes: set<Term>, terms: seq<Term>, n: nat, k: nat)
    requires UniformFixed(current, n, k)
    requires forall u | u in terms :: |u| == n
    requires CoversAll(current + primes, terms)
    ensures CoversAll(KmapRound(current) + (primes + (current - KmapUsed(current))), terms)
  {
    var next := KmapRound(current) + (primes + (current - KmapUsed(current)));
    KmapRoundFacts(current, n, k);
    forall u | u in terms ensures CoveredByAny(next, u) {
      var x :| x in current + primes && |u| <= |x| && Covers(x, u);
      if x in current && x in KmapUsed(current) {
        var b :| b in current &&
          ((OnesCount(b) == OnesCount(x) + 1 && Merge(x, b).Some?) || (OnesCount(x) == OnesCount(b) + 1 && Merge(b, x).Some?));
        var g;
        if OnesCount(b) == OnesCount(x) + 1 && Merge(x, b).Some? {
          g := Merge(x, b).value;
        } else {
          g := Merge(b, x).value;
        }
        assert g in KmapRound(current);
        CoversTransitive(g, x, u);
      }
    }
  }

  /** With a single term nothing merges and nothing is used. */
  lemma KmapSingletonRound(terms: seq<Term>)
    requires |terms| == 1
    ensures Elements(terms) == {terms[0]}
    ensures KmapRound({terms[0]}) == {} && KmapUsed({terms[0]}) == {}
  {
    assert forall t | t in terms :: t == terms[0];
  }

  /**
   * `_find_prime_implicants_kmap`: rounds of merging weight-adjacent terms until nothing is left
   * unmerged; a term that merges with nothing in its round is prime. Every result implies the
   * minterms, every minterm is covered, and a lone minterm comes back unchanged.
   */
  method FindPrimeImplicantsKmap(minterms: seq<Term>, ghost variableCount: nat) returns (primes: set<Term>)
    requires forall t | t in minterms :: |t| == variableCount && IsFull(t)
    ensures AllImplicants(primes, minterms, variableCount)
    ensures CoversAll(primes, minterms)
    ensures |minterms| == 1 ==> primes == {minterms[0]}
    ensures AllRows(minterms, variableCount) ==> primes == {AllDC(variableCount)}
  {
    var unchecked := Elements(minterms);
    primes := {};
    ghost var k: nat := variableCount;
    KmapSearchStart(minterms, variableCount);
    while unchecked != {}
      invariant KmapSearchState(unchecked, primes, minterms, variableCount, k)
      decreases k, |unchecked|
    {
      KmapStep(unchecked, primes, minterms, variableCount, k);
      var merged := KmapRound(unchecked);
      var used := KmapUsed(unchecked);
      primes := primes + (unchecked - used);
      k := if merged == {} then k else k - 1;
      unchecked := merged;
    }
    KmapSearchDone(primes, minterms, variableCount, k);
  }

  /** What holds between rounds of the search: `unchecked` is the round about to run. */
  ghost predicate KmapSearchState(unchecked: set<Term>, primes: set<Term>, minterms: seq<Term>, n: nat, k: nat)
  {
    && UniformFixed(unchecked, n, k)
    && AllImplicants(unchecked, minterms, n)
    && AllImplicants(primes, minterms, n)
    && CoversAll(unchecked + primes, minterms)
    && (|minterms| == 1 ==>
         (unchecked == {minterms[0]} && primes == {}) || (unchecked == {} && primes == {minterms[0]}))
    && (AllRows(minterms, n) ==> AllRowsSearch(unchecked, primes, n, k))
  }

  /**
   * The search on the rows of an always-true function: a complete layer of terms with `k` fixed
   * positions and nothing prime yet, or nothing left and the all-don't-care term as the only prime.
   */
  ghost predicate AllRowsSearch(unchecked: set<Term>, primes: set<Term>, n: nat, k: nat)
  {
    k <= n &&
    ((unchecked != {} && Layer(unchecked, n, k) && primes == {}) || (unchecked == {} && primes == {AllDC(n)}))
  }

  /** Once no round is left, the primes alone imply and cover the minterms. */
  lemma KmapSearchDone(primes: set<Term>, minterms: seq<Term>, n: nat, k: nat)
    requires KmapSearchState({}, primes, minterms, n, k)
    ensures AllImplicants(primes, minterms, n) && CoversAll(primes, minterms)
    ensures |minterms| == 1 ==> primes == {minterms[0]}
    ensures AllRows(minterms, n) ==> primes == {AllDC(n)}
  {
    assert {} + primes == primes;
  }

  /** One round of the search keeps the between-rounds facts, one fixed position fewer when something merged. */
  lemma KmapStep(unchecked: set<Term>, primes: set<Term>, minterms: seq<Term>, n: nat, k: nat)
    requires forall t | t in minterms :: |t| == n && IsFull(t)
    requires unchecked != {} && KmapSearchState(unchecked, primes, minterms, n, k)
    ensures KmapRound(unchecked) != {} ==> k >= 1
    ensures KmapSearchState(KmapRound(unchecked), primes + (unchecked - KmapUsed(unchecked)), minterms, n,
                            if KmapRound(unchecked) == {} then k else k - 1)
  {
    var merged, next := KmapRound(unchecked), primes + (unchecked - KmapUsed(unchecked));
    var k' := if merged == {} then k else k - 1;
    KmapStepFixed(unchecked, n, k);
    KmapStepImplicants(unchecked, primes, minterms, n, k);
    KmapRoundCoverage(unchecked, primes, minterms, n, k);
    KmapStepSingleton(unchecked, primes, minterms);
    if AllRows(minterms, n) {
      KmapStepAllRows(unchecked, primes, n, k);
    }
    assert UniformFixed(merged, n, k');
    assert AllImplicants(merged, minterms, n) && AllImplicants(next, minterms, n);
    assert CoversAll(merged + next, minterms);
  }

  /** A lone minterm goes straight to the primes in the first round. */
  lemma KmapStepSingleton(unchecked: set<Term>, primes: set<Term>, minterms: seq<Term>)
    requires |minterms| == 1 ==> unchecked == {minterms[0]} && primes == {}
    ensures |minterms| == 1 ==>
      KmapRound(unchecked) == {} && primes + (unchecked - KmapUsed(unchecked)) == {minterms[0]}
  {
    if |minterms| == 1 {
      KmapSingletonRound(minterms);
    }
  }

  /** The merged round is uniform with one fixed position fewer, and non-empty only when `k` is positive. */
  lemma KmapStepFixed(unchecked: set<Term>, n: nat, k: nat)
    requires UniformFixed(unchecked, n, k)
    ensures KmapRound(unchecked) != {} ==> k >= 1
    ensures UniformFixed(KmapRound(unchecked), n, if KmapRound(unchecked) == {} then k else k - 1)
  {
    KmapRoundFixed(unchecked, n, k);
    if KmapRound(unchecked) != {} {
      var g :| g in KmapRound(unchecked);
    }
  }

  /** After a round, both the merged terms and the enlarged prime set still imply the minterms. */
  lemma KmapStepImplicants(unchecked: set<Term>, primes: set<Term>, minterms: seq<Term>, n: nat, k: nat)
    requires UniformFixed(unchecked, n, k)
    requires AllImplicants(unchecked, minterms, n) && AllImplicants(primes, minterms, n)
    ensures AllImplicants(KmapRound(unchecked), minterms, n)
    ensures AllImplicants(primes + (unchecked - KmapUsed(unchecked)), minterms, n)
  {
    KmapRoundImplicants(unchecked, minterms, n, k);
  }

  /** On a complete layer a round yields the next complete layer, or, without fixed positions, the all-don't-care prime. */
  lemma KmapStepAllRows(unchecked: set<Term>, primes: set<Term>, n: nat, k: nat)
    requires unchecked != {} && AllRowsSearch(unchecked, primes, n, k)
    ensures KmapRound(unchecked) != {} ==> 1 <= k
    ensures AllRowsSearch(KmapRound(unchecked), primes + (unchecked - KmapUsed(unchecked)), n,
                          if KmapRound(unchecked) == {} then k else k - 1)
  {
    KmapLayerRound(unchecked, n, k);
    if 1 <= k {
      assert primes + (unchecked - KmapUsed(unchecked)) == {};
    } else {
      assert primes + (unchecked - KmapUsed(unchecked)) == {AllDC(n)};
    }
  }

  /** The search starts from the set of minterms with nothing prime yet. */
  lemma KmapSearchStart(minterms: seq<Term>, n: nat)
    requires forall t | t in minterms :: |t| == n && IsFull(t)
    ensures KmapSearchState(Elements(minterms), {}, minterms, n, n)
  {
    var s := Elements(minterms);
    KmapFirstRound(minterms, n);
    assert UniformFixed(s, n, n);
    assert AllImplicants(s, minterms, n);
    assert CoversAll(s, minterms);
    assert s + {} == s;
    assert CoversAll(s + {}, minterms);
    if |minterms| == 1 {
      KmapSingletonRound(minterms);
    }
    KmapStartAllRows(minterms, n);
  }

  /** On the rows of an always-true function the search starts from the complete layer of full terms. */
  lemma KmapStartAllRows(minterms: seq<Term>, n: nat)
    ensures AllRows(minterms, n) ==> AllRowsSearch(Elements(minterms), {}, n, n)
  {
    if AllRows(minterms, n) {
      AllRowsLayer(minterms, n);
      assert LayerWitness(n, n) in Elements(minterms);
    }
  }

  /** The minterms start the search: n fixed positions each, each an implicant covering itself. */
  lemma KmapFirstRound(minterms: seq<Term>, n: nat)
    requires forall t | t in minterms :: |t| == n && IsFull(t)
    ensures UniformFixed(Elements(minterms), n, n)
    ensures AllImplicants(Elements(minterms), minterms, n)
    ensures CoversAll(Elements(minterms), minterms)
  {
    forall x | x in minterms ensures FixedCount(x) == n && ImplicantOf(x, minterms) && Covers(x, x) {
      FullFixedCount(x);
    }
  }

  lemma {:induction false} FullFixedCount(t: Term)
    requires IsFull(t)
    ensures FixedCount(t) == |t|
  {
    if t != [] {
      FullFixedCount(t[..|t| - 1]);
    }
  }
}
