/** What it means for a set of implicants to represent a Boolean function given by its on-set. */
module Cover {
  import opened Terms
  import opened BitStrings

  /**
   * `x` implies the disjunction of `terms`: every full row `x` covers is covered by some term.
   * For full terms (minterms) this says that `x` covers only rows listed in `terms`.
   */
  ghost predicate ImplicantOf(x: Term, terms: seq<Term>)
  {
    forall t: Term {:trigger Covers(x, t)} | |t| == |x| && IsFull(t) && Covers(x, t) ::
      exists u | u in terms && |u| == |x| :: Covers(u, t)
  }

  /** A full term covers only itself. */
  lemma FullCoversOnlyItself(u: Term, t: Term)
    requires IsFull(u) && |u| == |t| && Covers(u, t)
    ensures u == t
  {
  }

  /** For full terms, an implicant covers only rows among the terms. */
  lemma ImplicantOfFullTerms(x: Term, terms: seq<Term>, t: Term)
    requires forall u | u in terms :: IsFull(u)
    requires ImplicantOf(x, terms) && |t| == |x| && IsFull(t) && Covers(x, t)
    ensures t in terms
  {
    var u :| u in terms && |u| == |x| && Covers(u, t);
    FullCoversOnlyItself(u, t);
  }

  /**
   * A family of implicants of the minterms that covers every minterm covers exactly the true rows:
   * the disjunction of its product terms is the function.
   */
  lemma ExactCover(truth: seq<bool>, n: nat, selected: seq<Term>)
    requires |truth| == Pow2(n)
    requires forall s | s in selected :: |s| == n && ImplicantOf(s, Minterms(truth, n))
    requires forall u | u in Minterms(truth, n) :: exists s | s in selected :: |u| <= |s| && Covers(s, u)
    ensures forall i | 0 <= i < |truth| :: truth[i] <==> exists s | s in selected :: n <= |s| && Covers(s, Encode(i, n))
  {
    forall i | 0 <= i < |truth|
      ensures truth[i] <==> exists s | s in selected :: n <= |s| && Covers(s, Encode(i, n))
    {
      ExactCoverRow(truth, n, selected, i);
    }
  }

  lemma ExactCoverRow(truth: seq<bool>, n: nat, selected: seq<Term>, i: nat)
    requires |truth| == Pow2(n) && i < |truth|
    requires forall s | s in selected :: |s| == n && ImplicantOf(s, Minterms(truth, n))
    requires forall u | u in Minterms(truth, n) :: exists s | s in selected :: |u| <= |s| && Covers(s, u)
    ensures truth[i] <==> exists s | s in selected :: n <= |s| && Covers(s, Encode(i, n))
  {
    MintermsExact(truth, n, i);
    var m := Minterms(truth, n);
    var e := Encode(i, n);
    if truth[i] {
      assert e in m;
      var s :| s in selected && |e| <= |s| && Covers(s, e);
    } else if s :| s in selected && n <= |s| && Covers(s, e) {
      MintermsShape(truth, n);
      ImplicantOfFullTerms(s, m, e);
    }
  }

  /** Row i of the table is true exactly when a selected implicant covers its encoding. */
  ghost predicate RepresentsOnSet(truth: seq<bool>, n: nat, selected: seq<Term>)
  {
    forall i | 0 <= i < |truth| :: truth[i] <==> exists s | s in selected :: n <= |s| && Covers(s, Encode(i, n))
  }

  /** A selection that implies and covers the maxterms represents the off-set of a full table. */
  lemma OffSetCover(truth: seq<bool>, n: nat, selected: seq<Term>)
    requires |truth| == Pow2(n)
    requires forall s | s in selected :: |s| == n && ImplicantOf(s, Maxterms(truth, n))
    requires forall u | u in Maxterms(truth, n) :: exists s | s in selected :: |u| <= |s| && Covers(s, u)
    ensures RepresentsOnSet(Negate(truth), n, selected)
  {
    ExactCover(Negate(truth), n, selected);
  }
}
