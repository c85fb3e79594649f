/**
 * `compare_dicts` of LR_5/lr_5.py: for every input column `inK` whose output column `outK`
 * exists, the column `hK` marks the rows where the two differ. On the script's counter tables
 * this gives the excitation columns h3, h2 and h1 of a counter built from T flip-flops.
 *
 * Dictionaries are modelled as their entries in insertion order (the OrderedDicts module), so the
 * iteration over `dict1` and the assignment `result[new_key] = compared` keep Python's order.
 */
module Lr5Compare {
  import opened Wrappers
  import opened Text
  import opened Enumerations
  import opened OrderedDicts

  type Dict = seq<Entry<seq<int>>>

  /** `key_in.replace('in', 'out')`. */
  function OutKey(k: string): string
  {
    ReplaceAll(k, "in", "out")
  }

  /** `key_in.replace('in', 'h')`. */
  function HKey(k: string): string
  {
    ReplaceAll(k, "in", "h")
  }

  function Min(a: nat, b: nat): nat
  {
    if a <= b then a else b
  }

  /** `[1 if a != b else 0 for a, b in zip(list1, list2)]`. */
  function Compared(l1: seq<int>, l2: seq<int>): (r: seq<int>)
    ensures |r| == Min(|l1|, |l2|)
  {
    seq(Min(|l1|, |l2|), i requires 0 <= i < Min(|l1|, |l2|) => if l1[i] != l2[i] then 1 else 0)
  }

  /** Each entry is a bit: 1 exactly where the lists differ, 0 exactly where they agree. */
  lemma ComparedBits(l1: seq<int>, l2: seq<int>)
    ensures forall i | 0 <= i < |Compared(l1, l2)| ::
      (Compared(l1, l2)[i] == 1 <==> l1[i] != l2[i]) && (Compared(l1, l2)[i] == 0 <==> l1[i] == l2[i])
  {
  }

  /** Comparing is symmetric, and a list agrees with itself everywhere. */
  lemma ComparedSymmetric(l1: seq<int>, l2: seq<int>)
    ensures Compared(l1, l2) == Compared(l2, l1)
    ensures Compared(l1, l1) == seq(|l1|, i requires 0 <= i < |l1| => 0)
  {
  }

  predicate IsBits(l: seq<int>)
  {
    forall i | 0 <= i < |l| :: l[i] == 0 || l[i] == 1
  }

  /** `next` is `state` xor `h`, row by row. */
  predicate IsXor(state: seq<int>, next: seq<int>, h: seq<int>)
  {
    |h| <= |state| && |h| <= |next| && forall i | 0 <= i < |h| :: next[i] == (state[i] + h[i]) % 2
  }

  /** On bit lists the comparison is the exclusive or: the second list is the first one xor the result. */
  lemma ComparedXor(l1: seq<int>, l2: seq<int>)
    requires IsBits(l1) && IsBits(l2)
    ensures IsBits(Compared(l1, l2))
    ensures IsXor(l1, l2, Compared(l1, l2))
  {
  }

  /** The result once the first `k` entries of `dict1` have been visited. */
  function CompareUpTo(d1: Dict, d2: Dict, k: nat): Dict
    requires k <= |d1|
  {
    if k == 0 then []
    else
      var prev := CompareUpTo(d1, d2, k - 1);
      var e := d1[k - 1];
      match Lookup(d2, OutKey(e.key))
      case None => prev
      case Some(l2) => Put(prev, HKey(e.key), Compared(e.val, l2))
  }

  /** `compare_dicts(dict1, dict2)`. */
  method CompareDicts(dict1: Dict, dict2: Dict) returns (result: Dict)
    ensures result == CompareUpTo(dict1, dict2, |dict1|)
  {
    result := [];
    for j := 0 to |dict1|
      invariant result == CompareUpTo(dict1, dict2, j)
    {
      var keyIn := dict1[j].key;
      var keyOut := ReplaceAll(keyIn, "in", "out");
      LookupSome(dict2, keyOut);
      if keyOut in Keys(dict2) {
        var list1 := dict1[j].val;
        var list2 := Lookup(dict2, keyOut).value;
        var compared := Compared(list1, list2);
        var newKey := ReplaceAll(keyIn, "in", "h");
        result := Put(result, newKey, compared);
      }
    }
  }

  // ---------------------------------------------------------------- what the result holds

  /** Entry `j` of `dict1` is compared and stored under `k`. */
  predicate Stores(d1: Dict, d2: Dict, j: nat, k: string)
    requires j < |d1|
  {
    Lookup(d2, OutKey(d1[j].key)).Some? && HKey(d1[j].key) == k
  }

  /** The result has no key twice. */
  lemma {:induction false} CompareDistinct(d1: Dict, d2: Dict, n: nat)
    requires n <= |d1|
    ensures Distinct(Keys(CompareUpTo(d1, d2, n)))
  {
    if n > 0 {
      CompareDistinct(d1, d2, n - 1);
      var e := d1[n - 1];
      match Lookup(d2, OutKey(e.key))
      case None =>
      case Some(l2) => PutDistinct(CompareUpTo(d1, d2, n - 1), HKey(e.key), Compared(e.val, l2));
    }
  }

  /**
   * A key is in the result exactly when some entry of `dict1` whose 'out' name is a key of
   * `dict2` has it as its 'h' name; every other entry of `dict1` is left out.
   */
  lemma {:induction false} CompareKeys(d1: Dict, d2: Dict, n: nat)
    requires n <= |d1|
    ensures forall k :: k in Keys(CompareUpTo(d1, d2, n)) <==> exists j | 0 <= j < n :: Stores(d1, d2, j, k)
  {
    if n > 0 {
      CompareKeys(d1, d2, n - 1);
      var prev := CompareUpTo(d1, d2, n - 1);
      var e := d1[n - 1];
      LookupSome(d2, OutKey(e.key));
      match Lookup(d2, OutKey(e.key))
      case None =>
        assert !Stores(d1, d2, n - 1, HKey(e.key));
        forall k | k in Keys(CompareUpTo(d1, d2, n)) ensures exists j | 0 <= j < n :: Stores(d1, d2, j, k) {
          var j :| 0 <= j < n - 1 && Stores(d1, d2, j, k);
        }
        forall k | exists j | 0 <= j < n :: Stores(d1, d2, j, k) ensures k in Keys(CompareUpTo(d1, d2, n)) {
          var j :| 0 <= j < n && Stores(d1, d2, j, k);
          assert j < n - 1;
        }
      case Some(l2) =>
        PutFacts(prev, HKey(e.key), Compared(e.val, l2));
        assert Stores(d1, d2, n - 1, HKey(e.key));
        forall k | k in Keys(CompareUpTo(d1, d2, n)) ensures exists j | 0 <= j < n :: Stores(d1, d2, j, k) {
          if k != HKey(e.key) {
            var j :| 0 <= j < n - 1 && Stores(d1, d2, j, k);
          }
        }
        forall k | exists j | 0 <= j < n :: Stores(d1, d2, j, k) ensures k in Keys(CompareUpTo(d1, d2, n)) {
          var j :| 0 <= j < n && Stores(d1, d2, j, k);
          if j < n - 1 {
            assert k in Keys(prev);
          }
        }
    }
  }

  /**
   * The list stored under a key is the comparison of the last entry of `dict1` stored under it
   * (a later entry with the same 'h' name overwrites an earlier one) with its `dict2` column.
   */
  lemma {:induction false} CompareValues(d1: Dict, d2: Dict, n: nat, j: nat)
    requires j < n <= |d1| && Stores(d1, d2, j, HKey(d1[j].key))
    requires forall j' | j < j' < n :: !Stores(d1, d2, j', HKey(d1[j].key))
    ensures Lookup(CompareUpTo(d1, d2, n), HKey(d1[j].key)) ==
      Some(Compared(d1[j].val, Lookup(d2, OutKey(d1[j].key)).value))
  {
    var k := HKey(d1[j].key);
    var prev := CompareUpTo(d1, d2, n - 1);
    var e := d1[n - 1];
    LookupSome(d2, OutKey(e.key));
    LookupSome(d2, OutKey(d1[j].key));
    match Lookup(d2, OutKey(e.key))
    case None =>
      CompareValues(d1, d2, n - 1, j);
    case Some(l2) =>
      PutLookup(prev, HKey(e.key), Compared(e.val, l2), k);
      if j < n - 1 {
        assert !Stores(d1, d2, n - 1, k);
        CompareValues(d1, d2, n - 1, j);
      }
  }

  /** When the 'h' names of the entries of `dict1` are all different, each stored entry keeps its own comparison. */
  lemma ComparedEntry(d1: Dict, d2: Dict, j: nat)
    requires j < |d1| && Lookup(d2, OutKey(d1[j].key)).Some?
    requires forall a, b | 0 <= a < b < |d1| :: HKey(d1[a].key) != HKey(d1[b].key)
    ensures Lookup(CompareUpTo(d1, d2, |d1|), HKey(d1[j].key)) ==
      Some(Compared(d1[j].val, Lookup(d2, OutKey(d1[j].key)).value))
  {
    LookupSome(d2, OutKey(d1[j].key));
    CompareValues(d1, d2, |d1|, j);
  }

  // ---------------------------------------------------------------- the script's tables

  /** `inputs`: the state bits q3 q2 q1 of a four-bit counter, two rows per state. */
  function Inputs(): Dict
  {
    [
      Entry("in3", [0, 0, 0, 0, 0, 0, 0, 0, 1, 1, 1, 1, 1, 1, 1, 1]),
      Entry("in2", [0, 0, 0, 0, 1, 1, 1, 1, 0, 0, 0, 0, 1, 1, 1, 1]),
      Entry("in1", [0, 0, 1, 1, 0, 0, 1, 1, 0, 0, 1, 1, 0, 0, 1, 1])
    ]
  }

  /** `outputs`: the next state of each row. */
  function Outputs(): Dict
  {
    [
      Entry("out3", [0, 1, 0, 0, 0, 0, 0, 0, 1, 0, 1, 1, 1, 1, 1, 1]),
      Entry("out2", [0, 1, 0, 0, 1, 0, 1, 1, 0, 1, 0, 0, 1, 0, 1, 1]),
      Entry("out1", [0, 1, 1, 0, 0, 1, 1, 0, 0, 1, 1, 0, 0, 1, 1, 0])
    ]
  }

  /** The three input names are renamed to the output names and to the 'h' names. */
  lemma InputRenames()
    ensures OutKey("in3") == "out3" && OutKey("in2") == "out2" && OutKey("in1") == "out1"
    ensures HKey("in3") == "h3" && HKey("in2") == "h2" && HKey("in1") == "h1"
  {
    assert "in3"[..2] == "in" && "in3"[2..] == "3";
    assert "in2"[..2] == "in" && "in2"[2..] == "2";
    assert "in1"[..2] == "in" && "in1"[2..] == "1";
  }

  /**
   * `truth_table = compare_dicts(inputs, outputs)` holds h3, h2 and h1 in this order, each the
   * comparison of a state bit with its next value.
   */
  lemma CounterExcitations(d1: Dict, d2: Dict)
    requires d1 == Inputs() && d2 == Outputs()
    ensures CompareUpTo(d1, d2, |d1|) ==
      [Entry("h3", Compared(d1[0].val, d2[0].val)), Entry("h2", Compared(d1[1].val, d2[1].val)),
       Entry("h1", Compared(d1[2].val, d2[2].val))]
  {
    assert Lookup(d2, "out3") == Some(d2[0].val);
    assert Lookup(d2, "out2") == Some(d2[1].val) by {
      assert d2[0].key != "out2";
    }
    assert Lookup(d2, "out1") == Some(d2[2].val) by {
      assert d2[0].key != "out1" && d2[1].key != "out1";
    }
    assert |d1| == 3 && d1[0].key == "in3" && d1[1].key == "in2" && d1[2].key == "in1";
    CompareThree(d1, d2, d2[0].val, d2[1].val, d2[2].val);
  }

  /** The three counter bits, each with its output column present. */
  lemma CompareThree(d1: Dict, d2: Dict, l3: seq<int>, l2: seq<int>, l1: seq<int>)
    requires |d1| == 3 && d1[0].key == "in3" && d1[1].key == "in2" && d1[2].key == "in1"
    requires Lookup(d2, "out3") == Some(l3) && Lookup(d2, "out2") == Some(l2) && Lookup(d2, "out1") == Some(l1)
    ensures CompareUpTo(d1, d2, 3) ==
      [Entry("h3", Compared(d1[0].val, l3)), Entry("h2", Compared(d1[1].val, l2)), Entry("h1", Compared(d1[2].val, l1))]
  {
    InputRenames();
    var c3, c2, c1 := Compared(d1[0].val, l3), Compared(d1[1].val, l2), Compared(d1[2].val, l1);
    assert CompareUpTo(d1, d2, 1) == [Entry("h3", c3)];
    PutNew([Entry("h3", c3)], "h2", c2);
    assert CompareUpTo(d1, d2, 2) == [Entry("h3", c3), Entry("h2", c2)];
    assert "h1" !in Keys([Entry("h3", c3), Entry("h2", c2)]);
    PutNew([Entry("h3", c3), Entry("h2", c2)], "h1", c1);
  }

  /** Every column of the two tables is a list of sixteen bits. */
  lemma CounterBits(d1: Dict, d2: Dict, k: nat)
    requires d1 == Inputs() && d2 == Outputs() && k < 3
    ensures |d1[k].val| == 16 && |d2[k].val| == 16 && IsBits(d1[k].val) && IsBits(d2[k].val)
  {
  }

  /**
   * Each h column has the sixteen rows of its state bit and is the exclusive or of the bit with
   * its next value, so the next state is the state xor h.
   */
  lemma CounterExcitationsXor(d1: Dict, d2: Dict, k: nat)
    requires d1 == Inputs() && d2 == Outputs() && k < 3
    ensures |CompareUpTo(d1, d2, |d1|)| == 3
    ensures var h := CompareUpTo(d1, d2, |d1|)[k].val; |h| == 16 && IsBits(h) && IsXor(d1[k].val, d2[k].val, h)
  {
    CounterExcitations(d1, d2);
    CounterBits(d1, d2, k);
    var l1, l2 := d1[k].val, d2[k].val;
    assert CompareUpTo(d1, d2, |d1|)[k].val == Compared(l1, l2);
    ComparedXor(l1, l2);
  }
}
