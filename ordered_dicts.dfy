/**
 * Python dictionaries as their entries in insertion order: assigning to an existing key keeps
 * its place, a new key goes last, and `update` assigns entry after entry.
 */
module OrderedDicts {
  import opened Wrappers
  import opened Enumerations

  datatype Entry<V> = Entry(key: string, val: V)

  /** The keys of a dictionary, in order. */
  function Keys<V>(d: seq<Entry<V>>): (ks: seq<string>)
    ensures |ks| == |d| && forall i | 0 <= i < |d| :: ks[i] == d[i].key
  {
    seq(|d|, i requires 0 <= i < |d| => d[i].key)
  }

  /** `d.get(k)`: the value of the first entry named `k`. */
  function Lookup<V>(d: seq<Entry<V>>, k: string): Option<V>
  {
    if d == [] then None else if d[0].key == k then Some(d[0].val) else Lookup(d[1..], k)
  }

  /** `d[k] = v`: an existing key keeps its place and gets the new value; a new key goes last. */
  function Put<V>(d: seq<Entry<V>>, k: string, v: V): seq<Entry<V>>
  {
    if d == [] then [Entry(k, v)]
    else if d[0].key == k then [Entry(k, v)] + d[1..]
    else [d[0]] + Put(d[1..], k, v)
  }

  /** `d.update(cs)`: the entries of `cs` put one after the other. */
  function Update<V>(d: seq<Entry<V>>, cs: seq<Entry<V>>): seq<Entry<V>>
    decreases |cs|
  {
    if cs == [] then d else Update(Put(d, cs[0].key, cs[0].val), cs[1..])
  }

  lemma KeysCons<V>(c: Entry<V>, d: seq<Entry<V>>)
    ensures Keys([c] + d) == [c.key] + Keys(d)
  {
  }

  /** After `d[k] = v`, `k` holds `v`, every other key its old value, and a new key comes last. */
  lemma PutFacts<V>(d: seq<Entry<V>>, k: string, v: V)
    ensures Keys(Put(d, k, v)) == if k in Keys(d) then Keys(d) else Keys(d) + [k]
    ensures forall k' :: Lookup(Put(d, k, v), k') == if k' == k then Some(v) else Lookup(d, k')
  {
    PutKeys(d, k, v);
    forall k' ensures Lookup(Put(d, k, v), k') == if k' == k then Some(v) else Lookup(d, k') {
      PutLookup(d, k, v, k');
    }
  }

  lemma {:induction false} PutKeys<V>(d: seq<Entry<V>>, k: string, v: V)
    ensures Keys(Put(d, k, v)) == if k in Keys(d) then Keys(d) else Keys(d) + [k]
  {
    if d != [] {
      var rest := Keys(d[1..]);
      assert Keys(d) == [d[0].key] + rest;
      if d[0].key == k {
        KeysCons(Entry(k, v), d[1..]);
        assert Keys(d)[0] == k;
      } else {
        PutKeys(d[1..], k, v);
        KeysCons(d[0], Put(d[1..], k, v));
        assert k in Keys(d) <==> k in rest;
        if k !in rest {
          assert Keys(d) + [k] == [d[0].key] + (rest + [k]);
        }
      }
    }
  }

  lemma {:induction false} PutLookup<V>(d: seq<Entry<V>>, k: string, v: V, k': string)
    ensures Lookup(Put(d, k, v), k') == if k' == k then Some(v) else Lookup(d, k')
  {
    if d != [] && d[0].key != k {
      PutLookup(d[1..], k, v, k');
      var p := [d[0]] + Put(d[1..], k, v);
      assert p[1..] == Put(d[1..], k, v);
    }
  }

  /** A new key is appended. */
  lemma {:induction false} PutNew<V>(d: seq<Entry<V>>, k: string, v: V)
    requires k !in Keys(d)
    ensures Put(d, k, v) == d + [Entry(k, v)]
  {
    if d != [] {
      KeysCons(d[0], d[1..]);
      assert d == [d[0]] + d[1..];
      PutNew(d[1..], k, v);
    }
  }

  /** Updating with entries under keys that are all new appends them in order. */
  lemma {:induction false} UpdateFresh<V>(d: seq<Entry<V>>, cs: seq<Entry<V>>)
    requires Distinct(Keys(d) + Keys(cs))
    ensures Update(d, cs) == d + cs
    decreases |cs|
  {
    if cs != [] {
      var c := cs[0];
      FirstFresh(d, cs);
      PutNew(d, c.key, c.val);
      UpdateFresh(d + [c], cs[1..]);
      assert d + [c] + cs[1..] == d + cs;
    }
  }

  /** The first new entry's key is not in `d`, and the rest stay new after it is added. */
  lemma FirstFresh<V>(d: seq<Entry<V>>, cs: seq<Entry<V>>)
    requires cs != [] && Distinct(Keys(d) + Keys(cs))
    ensures cs[0].key !in Keys(d)
    ensures Distinct(Keys(d + [cs[0]]) + Keys(cs[1..]))
  {
    var all := Keys(d) + Keys(cs);
    assert all[|d|] == cs[0].key;
    forall j | 0 <= j < |d| ensures Keys(d)[j] != cs[0].key {
      assert all[j] == Keys(d)[j];
    }
    assert Keys(d + [cs[0]]) + Keys(cs[1..]) == all;
  }

  /** In a dictionary without repeated keys, each entry is what its key looks up. */
  lemma {:induction false} LookupAt<V>(d: seq<Entry<V>>, j: nat)
    requires Distinct(Keys(d)) && j < |d|
    ensures Lookup(d, d[j].key) == Some(d[j].val)
  {
    if j > 0 {
      assert Keys(d)[0] != Keys(d)[j];
      assert Distinct(Keys(d[1..])) by {
        forall a, b | 0 <= a < b < |d| - 1 ensures Keys(d[1..])[a] != Keys(d[1..])[b] {
          assert Keys(d)[a + 1] != Keys(d)[b + 1];
        }
      }
      LookupAt(d[1..], j - 1);
    }
  }

  lemma DistinctSnoc(s: seq<string>, x: string)
    requires Distinct(s) && x !in s
    ensures Distinct(s + [x])
  {
  }

  /** `k in d`: a key is present exactly when `d.get(k)` finds a value. */
  lemma {:induction false} LookupSome<V>(d: seq<Entry<V>>, k: string)
    ensures Lookup(d, k).Some? <==> k in Keys(d)
  {
    if d != [] {
      KeysCons(d[0], d[1..]);
      assert d == [d[0]] + d[1..];
      LookupSome(d[1..], k);
    }
  }

  /** Assignment keeps the keys of a dictionary distinct. */
  lemma PutDistinct<V>(d: seq<Entry<V>>, k: string, v: V)
    requires Distinct(Keys(d))
    ensures Distinct(Keys(Put(d, k, v)))
  {
    PutFacts(d, k, v);
    if k !in Keys(d) {
      DistinctSnoc(Keys(d), k);
    }
  }
}
