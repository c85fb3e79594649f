/**
 * Terms of a Boolean function of n variables: one Trit per variable, in variable order.
 * `DC` stands for both markers the minimisers use for a glued position (Python `None`
 * in the gluing paths, the character '-' in the Karnaugh path).
 */
module Terms {
  import opened BitStrings

  datatype Trit = Zero | One | DC

  type Term = seq<Trit>

  /** The distinct terms of a sequence (Python `set(terms)`). */
  function Elements(ts: seq<Term>): set<Term>
  {
    set t | t in ts
  }

  /** A row of the truth table: every position fixed. */
  predicate IsFull(t: Term) { forall i | 0 <= i < |t| :: t[i] != DC }

  /**
   * `imp` covers `t`: every fixed position of `imp` (among the first |t|) carries t's value.
   * On full rows this is "t satisfies the product term imp"; on terms with DC it is subsumption.
   */
  predicate Covers(imp: Term, t: Term)
    requires |t| <= |imp|
  {
    forall i | 0 <= i < |t| :: imp[i] == DC || imp[i] == t[i]
  }

  /** Number of fixed positions. */
  function FixedCount(t: Term): (r: nat)
    ensures r <= |t|
  {
    if t == [] then 0 else FixedCount(t[..|t| - 1]) + (if t[|t| - 1] != DC then 1 else 0)
  }

  /** Number of positions equal to One (`term.count(1)`). */
  function OnesCount(t: Term): (r: nat)
    ensures r <= |t|
  {
    if t == [] then 0 else OnesCount(t[..|t| - 1]) + (if t[|t| - 1] == One then 1 else 0)
  }

  function AllDC(n: nat): (t: Term)
    ensures |t| == n && forall i | 0 <= i < n :: t[i] == DC
  {
    seq(n, i => DC)
  }

  /** The all-don't-care implicant covers every term of its length. */
  lemma AllDCCoversEverything(t: Term)
    ensures Covers(AllDC(|t|), t)
  {
  }

  /** Covering is transitive: a more general implicant covers whatever a more specific one covers. */
  lemma CoversTransitive(a: Term, b: Term, c: Term)
    requires |c| <= |b| <= |a|
    requires Covers(a, b) && Covers(b, c)
    ensures Covers(a, c)
  {
  }

  /** Bit `s` (counted from the least significant) of `i`. */
  function BitAt(i: nat, s: nat): Trit
  {
    if (i / Pow2(s)) % 2 == 1 then One else Zero
  }

  /** The n-bit, most-significant-first encoding of row index `i` (higher bits of `i` dropped). */
  function Encode(i: nat, n: nat): (t: Term)
    ensures |t| == n && IsFull(t)
  {
    if n == 0 then [] else Encode(i / 2, n - 1) + [if i % 2 == 1 then One else Zero]
  }

  lemma DivDiv(i: nat, s: nat)
    ensures (i / 2) / Pow2(s) == i / Pow2(s + 1)
  {
    var q := (i / 2) / Pow2(s);
    var r := (i / 2) % Pow2(s);
    assert i / 2 == q * Pow2(s) + r;
    assert i == q * Pow2(s + 1) + (2 * r + i % 2);
    ModUnique(i, Pow2(s + 1), q, 2 * r + i % 2);
  }

  /** Position k of the encoding holds bit n-1-k of the index: `(i >> (n - k - 1)) & 1`. */
  lemma {:induction false} EncodeBit(i: nat, n: nat, k: nat)
    requires k < n
    ensures Encode(i, n)[k] == BitAt(i, n - 1 - k)
  {
    if k < n - 1 {
      EncodeBit(i / 2, n - 1, k);
      DivDiv(i, n - 2 - k);
    }
  }

  /** `int(''.join(map(str, term)), 2)` for a full term. */
  function TermValue(t: Term): nat
  {
    if t == [] then 0 else 2 * TermValue(t[..|t| - 1]) + (if t[|t| - 1] == One then 1 else 0)
  }

  lemma {:induction false} TermValueBound(t: Term)
    ensures TermValue(t) < Pow2(|t|)
  {
    if t != [] {
      TermValueBound(t[..|t| - 1]);
    }
  }

  /** Decoding an encoding gives the index back, reduced to n bits. */
  lemma {:induction false} TermValueOfEncode(i: nat, n: nat)
    ensures TermValue(Encode(i, n)) == i % Pow2(n)
  {
    if n > 0 {
      TermValueOfEncode(i / 2, n - 1);
      assert Encode(i, n)[..n - 1] == Encode(i / 2, n - 1);
      ModHalf(i, Pow2(n - 1));
    }
  }

  /** Encoding the value of a full term gives the term back. */
  lemma {:induction false} EncodeOfTermValue(t: Term)
    requires IsFull(t)
    ensures Encode(TermValue(t), |t|) == t
  {
    if t != [] {
      var p, x := t[..|t| - 1], t[|t| - 1];
      EncodeOfTermValue(p);
      assert t == p + [x];
      var b := if x == One then 1 else 0;
      assert TermValue(t) == 2 * TermValue(p) + b;
      HalfOf(TermValue(p), b);
    }
  }

  /** Distinct row indices below 2^n have distinct encodings. */
  lemma EncodeInjective(i: nat, j: nat, n: nat)
    requires i < Pow2(n) && j < Pow2(n) && Encode(i, n) == Encode(j, n)
    ensures i == j
  {
    TermValueOfEncode(i, n);
    TermValueOfEncode(j, n);
  }

  /** Every full n-position term is the encoding of exactly one row below 2^n. */
  lemma FullTermIsEncoding(t: Term)
    requires IsFull(t)
    ensures TermValue(t) < Pow2(|t|) && Encode(TermValue(t), |t|) == t
  {
    TermValueBound(t);
    EncodeOfTermValue(t);
  }

  /** The indices of the true entries, ascending. */
  function TrueIndices(truth: seq<bool>): (r: seq<nat>)
    ensures forall j | 0 <= j < |r| :: r[j] < |truth|
  {
    if truth == [] then []
    else TrueIndices(truth[..|truth| - 1]) + (if truth[|truth| - 1] then [|truth| - 1] else [])
  }

  function Negate(truth: seq<bool>): (r: seq<bool>)
    ensures |r| == |truth| && forall i | 0 <= i < |truth| :: r[i] == !truth[i]
  {
    seq(|truth|, i requires 0 <= i < |truth| => !truth[i])
  }

  /** The indices of the false entries, ascending. */
  function FalseIndices(truth: seq<bool>): seq<nat>
  {
    TrueIndices(Negate(truth))
  }

  /** TrueIndices lists exactly the true entries, each once, in increasing order. */
  lemma {:induction false} TrueIndicesCorrect(truth: seq<bool>)
    ensures forall k: nat :: k in TrueIndices(truth) <==> k < |truth| && truth[k]
    ensures forall a, b | 0 <= a < b < |TrueIndices(truth)| :: TrueIndices(truth)[a] < TrueIndices(truth)[b]
  {
    if truth != [] {
      var p := truth[..|truth| - 1];
      TrueIndicesCorrect(p);
      forall k: nat | k < |p| ensures p[k] == truth[k] { }
    }
  }

  /** Every row is true exactly when every row index is listed. */
  lemma {:induction false} TrueIndicesAll(truth: seq<bool>)
    ensures |TrueIndices(truth)| <= |truth|
    ensures |TrueIndices(truth)| == |truth| <==> forall i | 0 <= i < |truth| :: truth[i]
  {
    if truth != [] {
      var init := truth[..|truth| - 1];
      TrueIndicesAll(init);
      assert |TrueIndices(truth)| == |TrueIndices(init)| + (if truth[|truth| - 1] then 1 else 0);
      assert forall i | 0 <= i < |init| :: init[i] == truth[i];
    }
  }

  /** No row is true exactly when no row index is listed. */
  lemma {:induction false} TrueIndicesNone(truth: seq<bool>)
    ensures |TrueIndices(truth)| == 0 <==> forall i | 0 <= i < |truth| :: !truth[i]
  {
    if truth != [] {
      var init := truth[..|truth| - 1];
      TrueIndicesNone(init);
      assert |TrueIndices(truth)| == |TrueIndices(init)| + (if truth[|truth| - 1] then 1 else 0);
      assert forall i | 0 <= i < |init| :: init[i] == truth[i];
    }
  }

  /** `_get_minterms`: the encodings of the true rows, in row order. */
  function Minterms(truth: seq<bool>, n: nat): (r: seq<Term>)
    ensures |r| == |TrueIndices(truth)|
  {
    var idx := TrueIndices(truth);
    seq(|idx|, j requires 0 <= j < |idx| => Encode(idx[j], n))
  }

  /** `_get_maxterms`: the encodings of the false rows, in row order. */
  function Maxterms(truth: seq<bool>, n: nat): seq<Term>
  {
    Minterms(Negate(truth), n)
  }

  /**
   * For a table of at most 2^n rows, the n-bit encoding of row i is a minterm exactly when
   * row i is true and a maxterm exactly when it is false; minterms come in increasing row order.
   */
  lemma MintermsExact(truth: seq<bool>, n: nat, i: nat)
    requires |truth| <= Pow2(n) && i < |truth|
    ensures Encode(i, n) in Minterms(truth, n) <==> truth[i]
    ensures Encode(i, n) in Maxterms(truth, n) <==> !truth[i]
  {
    TrueIndicesCorrect(truth);
    TrueIndicesCorrect(Negate(truth));
    var idx := TrueIndices(truth);
    if Encode(i, n) in Minterms(truth, n) {
      var j :| 0 <= j < |idx| && Minterms(truth, n)[j] == Encode(i, n);
      EncodeInjective(idx[j], i, n);
    }
    if truth[i] {
      var j :| 0 <= j < |idx| && idx[j] == i;
      assert Minterms(truth, n)[j] == Encode(i, n);
    }
    var nidx := TrueIndices(Negate(truth));
    if Encode(i, n) in Maxterms(truth, n) {
      var j :| 0 <= j < |nidx| && Maxterms(truth, n)[j] == Encode(i, n);
      EncodeInjective(nidx[j], i, n);
    }
    if !truth[i] {
      var j :| 0 <= j < |nidx| && nidx[j] == i;
      assert Maxterms(truth, n)[j] == Encode(i, n);
    }
  }

  /** Every minterm and maxterm is a full n-position term. */
  lemma MintermsShape(truth: seq<bool>, n: nat)
    ensures forall t | t in Minterms(truth, n) :: |t| == n && IsFull(t)
    ensures forall t | t in Maxterms(truth, n) :: |t| == n && IsFull(t)
  {
  }
}
