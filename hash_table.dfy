/**
 * LR_6's open-addressing hash table keyed by Russian words: a key's home slot comes from its
 * first two letters, collisions are resolved by linear probing, and the table doubles its size
 * before an insertion that would find it at least 70% full.
 */
module Lr6HashTable {
  import opened Wrappers
  import BitStrings

  // ---------------------------------------------------------------------------------------------
  // Letters and the hash function

  /** 'А' .. 'Я' are U+0410 .. U+042F, 'а' .. 'я' are U+0430 .. U+044F; 'Ё' is U+0401 and 'ё' U+0451. */
  predicate IsRussianLetter(c: char) {
    0x410 <= c as int <= 0x44F || c as int == 0x401 || c as int == 0x451
  }

  /** The upper-case Russian letters 'Ё' and 'А' .. 'Я'. */
  predicate IsRussianUpper(c: char) {
    c as int == 0x401 || 0x410 <= c as int <= 0x42F
  }

  /**
   * The characters `_char_to_num` numbers: the Russian letters, and the seven letters of Cyrillic
   * Extended-C (U+1C80 .. U+1C86) whose upper case is a Russian letter.
   */
  predicate Numbered(c: char) {
    IsRussianLetter(c) || 0x1C80 <= c as int <= 0x1C86
  }

  /**
   * The characters whose `str.upper()` has more than one character ('ß' gives "SS", 'ﬀ' gives
   * "FF", the Greek letters with a subscript iota and a few others gain a second character).
   */
  predicate UpperIsSeveral(c: char) {
    var n := c as int;
    n == 0xDF || n == 0x149 || n == 0x1F0 || n == 0x390 || n == 0x3B0 || n == 0x587
    || 0x1E96 <= n <= 0x1E9A || n == 0x1F50 || n == 0x1F52 || n == 0x1F54 || n == 0x1F56
    || 0x1F80 <= n <= 0x1FAF || n == 0x1FB2 || n == 0x1FB3 || n == 0x1FB4 || n == 0x1FB6 || n == 0x1FB7
    || n == 0x1FBC || n == 0x1FC2 || n == 0x1FC3 || n == 0x1FC4 || n == 0x1FC6 || n == 0x1FC7 || n == 0x1FCC
    || n == 0x1FD2 || n == 0x1FD3 || n == 0x1FD6 || n == 0x1FD7
    || n == 0x1FE2 || n == 0x1FE3 || n == 0x1FE4 || n == 0x1FE6 || n == 0x1FE7
    || n == 0x1FF2 || n == 0x1FF3 || n == 0x1FF4 || n == 0x1FF6 || n == 0x1FF7 || n == 0x1FFC
    || 0xFB00 <= n <= 0xFB06 || 0xFB13 <= n <= 0xFB17
  }

  /** The upper case of U+1C80 .. U+1C88: 'В', 'Д', 'О', 'С', 'Т', 'Т', 'Ъ', 'Ѣ' and 'Ꙋ'. */
  const ExtendedCUpper: seq<char> :=
    [0x412 as char, 0x414 as char, 0x41E as char, 0x421 as char, 0x422 as char, 0x422 as char,
     0x42A as char, 0x462 as char, 0xA64A as char]

  /**
   * `char.upper()` when it is a single character, None when it has several. The Russian letters,
   * the lower-case letters of Cyrillic
   * Extended-C and the ASCII letters are mapped;
   * every other character stands for itself.
   */
  function Upper(c: char): (u: Option<char>)
    ensures u.None? <==> UpperIsSeveral(c)
    ensures u.Some? ==> (IsRussianUpper(u.value) <==> Numbered(c))
    ensures u.Some? && IsRussianLetter(c) ==> IsRussianUpper(u.value) && (IsRussianUpper(c) ==> u.value == c)
  {
    var n := c as int;
    if UpperIsSeveral(c) then None
    else if 0x430 <= n <= 0x44F || 'a' <= c <= 'z' then Some((n - 0x20) as char)
    else if n == 0x451 then Some(0x401 as char)
    else if 0x1C80 <= n <= 0x1C88 then Some(ExtendedCUpper[n - 0x1C80])
    else Some(c)
  }

  /** What `ord` raises on a string of several characters. */
  const OrdOfString: Error := TypeError("ord() expected a character")

  /**
   * `_char_to_num`: 'Ё' is 6; any other upper-cased character is its offset from 'А', lowered by one
   * above 6, and -1 when that falls outside 0..32. A TypeError when the upper case has several
   * characters.
   */
  function CharToNum(c: char): (r: Result<int>)
    ensures r.Err? <==> UpperIsSeveral(c)
    ensures r.Err? ==> r.error == OrdOfString
    ensures r.Ok? ==> -1 <= r.value <= 30 && (r.value >= 0 <==> Numbered(c))
  {
    match Upper(c)
    case None => Err(OrdOfString)
    case Some(u) =>
      if u as int == 0x401 then Ok(6)
      else
        var code := u as int - 0x410;
        var code' := if code > 6 then code - 1 else code;
        Ok(if 0 <= code' <= 32 then code' else -1)
  }

  /**
   * The numbering the letters get: 'А' 0, 'Е' 5, 'Ё' 6 and 'Я' 30; because only offsets above 6 are
   * lowered, 'Ж' (offset 6) and 'З' (offset 7) share 6 with 'Ё'.
   */
  lemma CharToNumValues()
    ensures CharToNum(0x410 as char) == Ok(0) && CharToNum(0x430 as char) == Ok(0)
    ensures CharToNum(0x415 as char) == Ok(5) && CharToNum(0x435 as char) == Ok(5)
    ensures CharToNum(0x401 as char) == Ok(6) && CharToNum(0x451 as char) == Ok(6)
    ensures CharToNum(0x416 as char) == Ok(6) && CharToNum(0x417 as char) == Ok(6)
    ensures CharToNum(0x42F as char) == Ok(30) && CharToNum(0x44F as char) == Ok(30)
  {
    CharToNumNumbered(0x410 as char);
    CharToNumNumbered(0x430 as char);
    CharToNumNumbered(0x415 as char);
    CharToNumNumbered(0x435 as char);
    CharToNumNumbered(0x401 as char);
    CharToNumNumbered(0x451 as char);
    CharToNumNumbered(0x416 as char);
    CharToNumNumbered(0x417 as char);
    CharToNumNumbered(0x42F as char);
    CharToNumNumbered(0x44F as char);
  }

  /**
   * Characters outside the Russian alphabet: U+1C80 upper-cases to 'В' and gets 2, U+1C86 to 'Ъ'
   * and gets 25; U+1C87 ('Ѣ'), 'Z' and 'z' get -1; 'ß' upper-cases to "SS", a TypeError.
   */
  lemma CharToNumOthers()
    ensures CharToNum(0x1C80 as char) == Ok(2) && CharToNum(0x1C86 as char) == Ok(25)
    ensures CharToNum('Z') == Ok(-1) && CharToNum('z') == Ok(-1) && CharToNum(0x1C87 as char) == Ok(-1)
    ensures CharToNum(0xDF as char) == Err(OrdOfString)
  {
    CharToNumNumbered(0x1C80 as char);
    CharToNumNumbered(0x1C86 as char);
  }

  /** `_char_to_num` ignores case: a character and its upper case get the same number. */
  lemma CharToNumIgnoresCase(c: char)
    requires !UpperIsSeveral(c)
    ensures CharToNum(Upper(c).value) == CharToNum(c)
  {
  }

  /** A key `_hash_function` accepts: at least two characters, the first two numbered. */
  predicate KeyOk(key: string) {
    |key| >= 2 && Numbered(key[0]) && Numbered(key[1])
  }

  /**
   * The number of a numbered character, read off the Russian letter it upper-cases to: 'Ё' is 6, a
   * letter after it one less than its offset from 'А'.
   */
  function LetterCode(c: char): (n: nat)
    requires Numbered(c)
    ensures n <= 30
  {
    var u := if 0x1C80 <= c as int then ExtendedCUpper[c as int - 0x1C80] as int
      else if 0x430 <= c as int <= 0x44F then c as int - 0x20
      else c as int;
    if u == 0x401 || u == 0x451 then 6 else if u - 0x410 > 6 then u - 0x411 else u - 0x410
  }

  /** `_char_to_num` gives every numbered character its `LetterCode`. */
  lemma CharToNumNumbered(c: char)
    requires Numbered(c)
    ensures CharToNum(c) == Ok(LetterCode(c))
  {
  }

  /** `V = v1 * 33 + v2` from the first two letters. */
  function KeyCode(key: string): nat
    requires KeyOk(key)
  {
    LetterCode(key[0]) * 33 + LetterCode(key[1])
  }

  /** The home slot `V % size`, where every probe sequence starts. */
  function Home(key: string, size: nat): (h: nat)
    requires KeyOk(key) && size > 0
    ensures h < size
  {
    KeyCode(key) % size
  }

  /** The ValueErrors `_hash_function` raises. */
  const ShortKey: Error := ValueError("key must have at least two characters")
  const NotRussian: Error := ValueError("key must start with two Russian letters")

  /**
   * `_hash_function(key, B)`: a ValueError for a key shorter than two characters; a TypeError from
   * `_char_to_num` on the first, then the second character; a ValueError when either is numbered -1;
   * otherwise the slot of probe number B.
   */
  function HashFunction(key: string, size: nat, b: nat): (r: Result<nat>)
    requires size > 0
    ensures r.Err? <==> !KeyOk(key)
    ensures r.Err? ==> (r.error == OrdOfString <==> |key| >= 2 && (UpperIsSeveral(key[0]) || UpperIsSeveral(key[1])))
    ensures r.Ok? ==> r.value == (Home(key, size) + b) % size
  {
    if |key| < 2 then Err(ShortKey)
    else
      var v1 := CharToNum(key[0]);
      if v1.Err? then Err(v1.error)
      else
        var v2 := CharToNum(key[1]);
        if v2.Err? then Err(v2.error)
        else if v1.value == -1 || v2.value == -1 then Err(NotRussian)
        else
          CharToNumNumbered(key[0]);
          CharToNumNumbered(key[1]);
          Ok(((v1.value * 33 + v2.value) % size + b) % size)
  }

  /**
   * Keys the hash function accepts beyond Russian words, and one it cannot number: two U+1C80
   * characters hash as "ВВ" (2 * 33 + 2 = 68, slot 8 of 20); a key starting with 'ß' is a TypeError.
   */
  lemma HashFunctionExamples()
    ensures HashFunction([0x1C80 as char, 0x1C80 as char], 20, 0) == Ok(8)
    ensures HashFunction([0x412 as char, 0x412 as char], 20, 0) == Ok(8)
    ensures HashFunction([0xDF as char, 0x410 as char], 20, 0) == Err(OrdOfString)
    ensures HashFunction("AB", 20, 0) == Err(NotRussian)
  {
    CharToNumNumbered(0x1C80 as char);
    CharToNumNumbered(0x412 as char);
  }

  /** `(h + b) % n` for a home slot and a probe number both below n, without the remainder. */
  lemma ProbeIndex(h: nat, b: nat, n: nat)
    requires h < n && b < n
    ensures (h + b) % n == if h + b < n then h + b else h + b - n
  {
    if h + b < n {
      BitStrings.ModUnique(h + b, n, 0, h + b);
    } else {
      BitStrings.ModUnique(h + b, n, 1, h + b - n);
    }
  }

  /** Probe B of a key is its home slot moved on by B places, wrapping round the table. */
  lemma ProbeSequence(key: string, size: nat, b: nat)
    requires KeyOk(key) && size > 0 && b < size
    ensures HashFunction(key, size, b).value == (HashFunction(key, size, 0).value + b) % size
  {
    var h := Home(key, size);
    ProbeIndex(h, 0, size);
  }

  /** The first `size` probes of any valid key visit every slot exactly once. */
  lemma ProbeCoversTable(key: string, size: nat, j: nat)
    requires KeyOk(key) && size > 0 && j < size
    ensures exists b :: 0 <= b < size && HashFunction(key, size, b) == Ok(j)
    ensures forall b1, b2 :: 0 <= b1 < b2 < size ==> HashFunction(key, size, b1) != HashFunction(key, size, b2)
  {
    var h := Home(key, size);
    var b: nat := if j >= h then j - h else j + size - h;
    ProbeIndex(h, b, size);
    assert HashFunction(key, size, b) == Ok(j);
    forall b1, b2 | 0 <= b1 < b2 < size
      ensures HashFunction(key, size, b1) != HashFunction(key, size, b2)
    {
      DistinctProbes(h, b1, b2, size);
    }
  }

  lemma DistinctProbes(h: nat, b1: nat, b2: nat, n: nat)
    requires h < n && b1 < b2 < n
    ensures (h + b1) % n != (h + b2) % n
  {
    ProbeIndex(h, b1, n);
    ProbeIndex(h, b2, n);
  }

  // ---------------------------------------------------------------------------------------------
  // Slots and the probe loop as functions on the table's contents

  /** A stored item: `(key, value, original_index, B)`. */
  datatype Entry = Entry(key: string, value: string, originalIndex: nat, probe: nat)

  type Slots = seq<Option<Entry>>

  /** Where a probe loop for a key stops: an empty slot, the key's slot, or after `size` probes. */
  datatype Probe = Empty(index: nat, b: nat) | Found(index: nat, b: nat) | Exhausted

  /** The probe loop from probe number b on, for a key whose home slot is h. */
  function Search(t: Slots, key: string, h: nat, b: nat): (p: Probe)
    requires h < |t|
    ensures p.Empty? ==> b <= p.b < |t| && p.index == (h + p.b) % |t| && t[p.index].None?
    ensures p.Found? ==> b <= p.b < |t| && p.index == (h + p.b) % |t| && t[p.index].Some? && t[p.index].value.key == key
    decreases |t| - b
  {
    if b >= |t| then Exhausted
    else
      var i := (h + b) % |t|;
      if t[i].None? then Empty(i, b)
      else if t[i].value.key == key then Found(i, b)
      else Search(t, key, h, b + 1)
  }

  /** The loop of `get`: the value in the first slot of the probe sequence holding the key, if it comes before an empty one. */
  function Lookup(t: Slots, key: string): Option<string>
    requires |t| > 0 && KeyOk(key)
  {
    match Search(t, key, Home(key, |t|), 0)
    case Found(i, _) => Some(t[i].value.value)
    case _ => None
  }

  /** The loop of `insert`: the key's entry goes into the first empty slot or over its own slot, whichever comes first. */
  function Placed(t: Slots, key: string, value: string): Slots
    requires |t| > 0 && KeyOk(key)
  {
    var h := Home(key, |t|);
    match Search(t, key, h, 0)
    case Empty(i, b) => t[i := Some(Entry(key, value, h, b))]
    case Found(i, b) => t[i := Some(Entry(key, value, h, b))]
    case Exhausted => t
  }

  /** Number of occupied slots. */
  function Occupied(t: Slots): (n: nat)
    ensures n <= |t|
  {
    if t == [] then 0 else Occupied(t[..|t| - 1]) + (if t[|t| - 1].Some? then 1 else 0)
  }

  /** The keys stored anywhere in the table. */
  function Keys(t: Slots): set<string> {
    set i | 0 <= i < |t| && t[i].Some? :: t[i].value.key
  }

  /** The (key, value) pairs stored anywhere in the table. */
  function Pairs(t: Slots): set<(string, string)> {
    set i | 0 <= i < |t| && t[i].Some? :: (t[i].value.key, t[i].value.value)
  }

  /**
   * An entry sits in the slot `_hash_function` gives its key and its own probe number, and remembers
   * its home slot.
   */
  predicate Slotted(e: Entry, i: nat, size: nat) {
    size > 0 && KeyOk(e.key) && e.originalIndex == Home(e.key, size) && e.probe < size
    && (Home(e.key, size) + e.probe) % size == i
  }

  predicate WellPlaced(t: Slots) {
    forall i :: 0 <= i < |t| && t[i].Some? ==> Slotted(t[i].value, i, |t|)
  }

  lemma {:induction false} OccupiedUpdate(t: Slots, i: nat, x: Option<Entry>)
    requires i < |t|
    ensures Occupied(t[i := x]) == Occupied(t) - (if t[i].Some? then 1 else 0) + (if x.Some? then 1 else 0)
    decreases |t|
  {
    var t' := t[i := x];
    assert t'[..|t'| - 1] == if i == |t| - 1 then t[..|t| - 1] else t[..|t| - 1][i := x];
    if i < |t| - 1 {
      OccupiedUpdate(t[..|t| - 1], i, x);
    }
  }

  /** A table with fewer occupied slots than slots has an empty one. */
  lemma {:induction false} FreeSlot(t: Slots) returns (j: nat)
    requires Occupied(t) < |t|
    ensures j < |t| && t[j].None?
    decreases |t|
  {
    if t[|t| - 1].None? {
      j := |t| - 1;
    } else {
      j := FreeSlot(t[..|t| - 1]);
    }
  }

  /** A probe loop that passes probe b without stopping saw an occupied slot there. */
  lemma {:induction false} SearchPasses(t: Slots, key: string, h: nat, b0: nat, b: nat)
    requires h < |t| && b0 <= b < |t|
    requires Search(t, key, h, b0).Exhausted? || Search(t, key, h, b0).b > b
    ensures t[(h + b) % |t|].Some? && t[(h + b) % |t|].value.key != key
    decreases b - b0
  {
    if b0 < b {
      SearchPasses(t, key, h, b0 + 1, b);
    }
  }

  /** The loop of `insert` never runs out of probes while an empty slot remains. */
  lemma NotExhausted(t: Slots, key: string)
    requires |t| > 0 && KeyOk(key) && Occupied(t) < |t|
    ensures !Search(t, key, Home(key, |t|), 0).Exhausted?
  {
    var j := FreeSlot(t);
    var h := Home(key, |t|);
    var b: nat := if j >= h then j - h else j + |t| - h;
    ProbeIndex(h, b, |t|);
    if Search(t, key, h, 0).Exhausted? {
      SearchPasses(t, key, h, 0, b);
    }
  }

  /** Writing the key's own entry where its probe loop stopped makes that loop find it there. */
  lemma {:induction false} SearchAfterWrite(t: Slots, key: string, h: nat, b0: nat, i: nat, bi: nat, e: Entry)
    requires h < |t| && b0 <= bi < |t| && e.key == key
    requires Search(t, key, h, b0) == Empty(i, bi) || Search(t, key, h, b0) == Found(i, bi)
    ensures Search(t[i := Some(e)], key, h, b0) == Found(i, bi)
    decreases bi - b0
  {
    var t' := t[i := Some(e)];
    if b0 < bi {
      DistinctProbes(h, b0, bi, |t|);
      SearchAfterWrite(t, key, h, b0 + 1, i, bi, e);
    }
  }

  /**
   * Overwriting an empty slot or a slot of key k with an entry of key k keeps every other key
   * that was found where it was found.
   */
  lemma {:induction false} SearchOtherAfterWrite(t: Slots, key: string, h: nat, b0: nat, i: nat, e: Entry)
    requires h < |t| && i < |t| && e.key != key
    requires t[i].None? || t[i].value.key == e.key
    requires Search(t, key, h, b0).Found?
    ensures Search(t[i := Some(e)], key, h, b0) == Search(t, key, h, b0)
    decreases |t| - b0
  {
    var p := (h + b0) % |t|;
    if t[p].Some? && t[p].value.key != key {
      SearchOtherAfterWrite(t, key, h, b0 + 1, i, e);
    }
  }

  /** `get` after `insert`'s loop stored (key, value) returns value. */
  lemma LookupPlaced(t: Slots, key: string, value: string)
    requires |t| > 0 && KeyOk(key) && Occupied(t) < |t|
    ensures Lookup(Placed(t, key, value), key) == Some(value)
  {
    var h := Home(key, |t|);
    NotExhausted(t, key);
    var p := Search(t, key, h, 0);
    SearchAfterWrite(t, key, h, 0, p.index, p.b, Entry(key, value, h, p.b));
  }

  /** `insert` of one key leaves what `get` returns for every other key it found before unchanged. */
  lemma LookupPlacedOther(t: Slots, key: string, value: string, other: string)
    requires |t| > 0 && KeyOk(key) && KeyOk(other) && other != key
    requires Lookup(t, other).Some?
    ensures Lookup(Placed(t, key, value), other) == Lookup(t, other)
  {
    var h := Home(key, |t|);
    var p := Search(t, key, h, 0);
    if !p.Exhausted? {
      var e := Entry(key, value, h, p.b);
      SearchOtherAfterWrite(t, other, Home(other, |t|), 0, p.index, e);
    }
  }

  /**
   * `delete` empties the key's slot without marking it, so a key that had collided and been
   * placed behind it can no longer be reached by `get`: "АА" and "АВ" both start at slot 0 of a
   * two-slot table, and once "АА" is deleted the probe for "АВ" stops at the empty slot 0.
   */
  lemma DeleteHidesCollidingKey()
    ensures var before := [Some(Entry([0x410 as char, 0x410 as char], "x", 0, 0)), Some(Entry([0x410 as char, 0x412 as char], "y", 0, 1))];
            var after := before[0 := None];
            KeyOk([0x410 as char, 0x412 as char]) && WellPlaced(before) && WellPlaced(after)
            && Lookup(before, [0x410 as char, 0x412 as char]) == Some("y")
            && [0x410 as char, 0x412 as char] in Keys(after)
            && Lookup(after, [0x410 as char, 0x412 as char]) == None
  {
    var a: string := [0x410 as char, 0x410 as char];
    var v: string := [0x410 as char, 0x412 as char];
    var before := [Some(Entry(a, "x", 0, 0)), Some(Entry(v, "y", 0, 1))];
    var after := before[0 := None];
    assert CharToNum(a[0]) == Ok(0) && CharToNum(v[1]) == Ok(2);
    assert KeyCode(a) == 0 && KeyCode(v) == 2;
    assert Home(v, 2) == 0 && Home(a, 2) == 0;
    assert WellPlaced(before);
    assert WellPlaced(after);
    assert Search(before, v, 0, 0) == Found(1, 1);
    assert Search(after, v, 0, 0) == Empty(0, 0);
    assert after[1].value.key == v;
  }

  lemma KeysWrite(t: Slots, i: nat, e: Entry)
    requires i < |t| && (t[i].None? || t[i].value.key == e.key)
    ensures Keys(t[i := Some(e)]) == Keys(t) + {e.key}
    ensures Pairs(t[i := Some(e)]) <= Pairs(t) + {(e.key, e.value)}
  {
    var t' := t[i := Some(e)];
    assert e.key in Keys(t') by { assert t'[i] == Some(e); }
    forall k | k in Keys(t)
      ensures k in Keys(t')
    {
      var j :| 0 <= j < |t| && t[j].Some? && t[j].value.key == k;
      if j == i {
        assert k == e.key;
      } else {
        assert t'[j] == t[j];
      }
    }
    forall k | k in Keys(t')
      ensures k in Keys(t) + {e.key}
    {
      var j :| 0 <= j < |t'| && t'[j].Some? && t'[j].value.key == k;
      if j != i {
        assert t'[j] == t[j];
      }
    }
    forall p | p in Pairs(t')
      ensures p in Pairs(t) + {(e.key, e.value)}
    {
      var j :| 0 <= j < |t'| && t'[j].Some? && (t'[j].value.key, t'[j].value.value) == p;
      if j != i {
        assert t'[j] == t[j];
      }
    }
  }

  lemma WellPlacedWrite(t: Slots, i: nat, x: Option<Entry>)
    requires i < |t| && WellPlaced(t)
    requires x.Some? ==> Slotted(x.value, i, |t|)
    ensures WellPlaced(t[i := x])
  {
  }

  /** Probe B ends the search when its slot is free or holds the key. */
  lemma SearchStops(t: Slots, key: string, h: nat, b: nat)
    requires h < |t| && b < |t|
    requires t[(h + b) % |t|].None? || t[(h + b) % |t|].value.key == key
    ensures Search(t, key, h, b) == if t[(h + b) % |t|].None? then Empty((h + b) % |t|, b) else Found((h + b) % |t|, b)
  {
  }

  /** Probe B moves on when its slot holds another key; past the last probe number the search runs out. */
  lemma SearchContinues(t: Slots, key: string, h: nat, b: nat)
    requires h < |t| && b < |t|
    requires t[(h + b) % |t|].Some? && t[(h + b) % |t|].value.key != key
    ensures Search(t, key, h, b) == Search(t, key, h, b + 1)
    ensures b + 1 < |t| || Search(t, key, h, b).Exhausted?
  {
  }

  /** The found slot of a key rewritten with a new value: still well placed, found there, same occupancy. */
  lemma Rewrite(t: Slots, key: string, i: nat, b: nat, e: Entry)
    requires |t| > 0 && KeyOk(key) && WellPlaced(t) && Search(t, key, Home(key, |t|), 0) == Found(i, b)
    requires e.key == key && e.originalIndex == t[i].value.originalIndex && e.probe == b
    ensures WellPlaced(t[i := Some(e)]) && Occupied(t[i := Some(e)]) == Occupied(t)
    ensures Search(t[i := Some(e)], key, Home(key, |t|), 0) == Found(i, b)
  {
    SearchAfterWrite(t, key, Home(key, |t|), 0, i, b, e);
    OccupiedUpdate(t, i, Some(e));
    assert Slotted(t[i].value, i, |t|);
    WellPlacedWrite(t, i, Some(e));
  }

  /** An occupied slot emptied: still well placed, one fewer occupied, no new keys or pairs. */
  lemma Erase(t: Slots, i: nat)
    requires WellPlaced(t) && i < |t| && t[i].Some?
    ensures WellPlaced(t[i := None]) && Occupied(t[i := None]) == Occupied(t) - 1
    ensures Keys(t[i := None]) <= Keys(t)
  {
    OccupiedUpdate(t, i, None);
    KeysErase(t, i);
    WellPlacedWrite(t, i, None);
  }

  /** The slot where the probe loop of `insert` stops, written with the key's entry. */
  lemma PlaceAt(t: Slots, key: string, value: string, index: nat, b: nat)
    requires |t| > 0 && KeyOk(key) && WellPlaced(t) && index < |t| && b < |t|
    requires (Home(key, |t|) + b) % |t| == index
    requires Search(t, key, Home(key, |t|), 0) == if t[index].None? then Empty(index, b) else Found(index, b)
    ensures var t' := t[index := Some(Entry(key, value, Home(key, |t|), b))];
      Placed(t, key, value) == t' && WellPlaced(t') &&
      Occupied(t') == Occupied(t) + (if t[index].None? then 1 else 0) &&
      Keys(t') == Keys(t) + {key} && Pairs(t') <= Pairs(t) + {(key, value)}
  {
    var e := Entry(key, value, Home(key, |t|), b);
    KeysWrite(t, index, e);
    OccupiedUpdate(t, index, Some(e));
    WellPlacedWrite(t, index, Some(e));
  }

  lemma KeysErase(t: Slots, i: nat)
    requires i < |t|
    ensures Keys(t[i := None]) <= Keys(t)
    ensures Pairs(t[i := None]) <= Pairs(t)
  {
  }

  lemma KeysPrefix(t: Slots, j: nat)
    requires j < |t|
    ensures Keys(t[..j + 1]) == Keys(t[..j]) + (if t[j].Some? then {t[j].value.key} else {})
    ensures Pairs(t[..j + 1]) == Pairs(t[..j]) + (if t[j].Some? then {(t[j].value.key, t[j].value.value)} else {})
  {
    var s := t[..j + 1];
    if t[j].Some? {
      assert s[j] == t[j];
    }
  }

  // ---------------------------------------------------------------------------------------------
  // The table

  /** `HashTable`: `size` slots, `count` of them occupied, load threshold 0.7. */
  class HashTable {
    var size: nat
    var count: int
    var table: array<Option<Entry>>

    /** `count` is the number of occupied slots, and every entry sits where its own hash puts it. */
    ghost predicate Valid()
      reads this, table
    {
      table.Length == size && size > 0 && count == Occupied(table[..]) && WellPlaced(table[..])
    }

    /** `__init__(size, initialize_test_data=False)`: `size` empty slots, no items. */
    constructor (initialSize: nat)
      requires initialSize > 0
      ensures Valid() && fresh(table)
      ensures size == initialSize && count == 0
      ensures forall i :: 0 <= i < size ==> table[i].None?
    {
      size := initialSize;
      count := 0;
      table := new Option<Entry>[initialSize](_ => None);
      new;
      NoneOccupied(table[..]);
    }

    /**
     * `self._hash_function(key, B)` at the current size: the error exactly for a key `HashFunction`
     * rejects, otherwise probe B's slot, B places on from the home slot.
     */
    method HashSlot(key: string, b: nat) returns (r: Result<nat>)
      requires size > 0
      ensures r.Err? <==> !KeyOk(key)
      ensures r.Err? ==> r == HashFunction(key, size, b)
      ensures r.Ok? ==> r.value == (Home(key, size) + b) % size
    {
      r := HashFunction(key, size, b);
    }

    static lemma {:induction false} NoneOccupied(t: Slots)
      requires forall i :: 0 <= i < |t| ==> t[i].None?
      ensures Occupied(t) == 0
    {
      if t != [] {
        NoneOccupied(t[..|t| - 1]);
      }
    }

    /**
     * The probe loop of `insert` for a valid key while a slot is free: it stores the entry in the
     * first empty slot of the key's probe sequence or over the key's own slot, and answers True for
     * a new key.
     */
    method Place(key: string, value: string) returns (added: bool)
      requires Valid() && KeyOk(key) && count < size
      modifies this`count, table
      ensures Valid() && size == old(size) && table == old(table)
      ensures table[..] == Placed(old(table[..]), key, value)
      ensures added <==> Search(old(table[..]), key, Home(key, size), 0).Empty?
      ensures count == old(count) + (if added then 1 else 0)
      ensures Lookup(table[..], key) == Some(value)
      ensures Keys(table[..]) == Keys(old(table[..])) + {key}
      ensures Pairs(table[..]) <= Pairs(old(table[..])) + {(key, value)}
    {
      ghost var t := table[..];
      var index, b := ProbeSlot(key);
      var e := Entry(key, value, Home(key, size), b);
      added := table[index].None?;
      PlaceAt(t, key, value, index, b);
      LookupPlaced(t, key, value);
      ghost var t' := t[index := Some(e)];
      ghost var n := Occupied(t) + (if added then 1 else 0);
      assert Occupied(t') == n;
      table[index] := Some(e);
      assert table[..] == t';
      if added {
        count := count + 1;
      }
    }

    /**
     * The probe loop of `insert`: probe numbers B = 0, 1, ... until the slot `_hash_function(key, B)`
     * is free or holds the key; one is reached while a slot is free.
     */
    method ProbeSlot(key: string) returns (index: nat, b: nat)
      requires table.Length == size && size > 0 && KeyOk(key) && Occupied(table[..]) < size
      ensures index < size && b < size && (Home(key, size) + b) % size == index
      ensures Search(table[..], key, Home(key, size), 0) ==
        if table[index].None? then Empty(index, b) else Found(index, b)
    {
      var first := HashSlot(key, 0);
      var originalIndex := first.value;
      assert originalIndex == Home(key, size) by { ProbeIndex(Home(key, size), 0, size); }
      ghost var t := table[..];
      NotExhausted(t, key);
      b := 0;
      while true
        invariant 0 <= b < size
        invariant Search(t, key, originalIndex, 0) == Search(t, key, originalIndex, b)
        decreases size - b
      {
        var slot := HashSlot(key, b);
        index := slot.value;
        if table[index].None? || table[index].value.key == key {
          SearchStops(t, key, originalIndex, b);
          return;
        }
        // B never reaches size here: a free slot lies on every probe sequence.
        SearchContinues(t, key, originalIndex, b);
        b := b + 1;
      }
    }

    /**
     * `_resize`: twice the slots, then every stored item is inserted again in slot order (the load
     * check of `insert` never fires during this, since at most half the new slots fill). A key
     * stored twice keeps the value of its later copy.
     */
    method Resize()
      requires Valid()
      modifies this
      ensures Valid() && fresh(table)
      ensures size == 2 * old(size) && count <= old(count)
      ensures Keys(table[..]) == Keys(old(table[..]))
      ensures Pairs(table[..]) <= Pairs(old(table[..]))
    {
      var oldTable := table;
      size := size * 2;
      table := new Option<Entry>[size](_ => None);
      count := 0;
      NoneOccupied(table[..]);
      for j := 0 to oldTable.Length
        invariant Valid() && fresh(table) && size == 2 * oldTable.Length
        invariant oldTable[..] == old(table[..]) && count <= Occupied(oldTable[..j])
        invariant Keys(table[..]) == Keys(oldTable[..j])
        invariant Pairs(table[..]) <= Pairs(oldTable[..j])
      {
        OccupiedPrefix(oldTable[..], j);
        KeysPrefix(oldTable[..], j);
        if oldTable[j].Some? {
          var e := oldTable[j].value;
          assert 10 * count < 7 * size;
          var _ := Place(e.key, e.value);
        }
      }
      assert oldTable[..oldTable.Length] == oldTable[..];
    }

    static lemma OccupiedPrefix(t: Slots, j: nat)
      requires j < |t|
      ensures Occupied(t[..j + 1]) == Occupied(t[..j]) + (if t[j].Some? then 1 else 0)
      ensures Occupied(t[..j]) <= j
    {
      assert t[..j + 1][..j] == t[..j];
    }

    /**
     * `insert(key, value)`: at a load of 0.7 or more (`10 * count >= 7 * size`) the table first
     * doubles; then a ValueError for an invalid key, or the key's probe loop stores the item and
     * answers True for a new key (count grows by one) and False for a replaced value.
     */
    method Insert(key: string, value: string) returns (r: Result<bool>)
      requires Valid()
      modifies this, table
      ensures Valid()
      ensures old(10 * count >= 7 * size) ==> size == 2 * old(size) && fresh(table)
      ensures old(10 * count < 7 * size) ==> size == old(size) && table == old(table)
      ensures r.Err? <==> !KeyOk(key)
      ensures r.Err? ==> Keys(table[..]) == Keys(old(table[..])) && Pairs(table[..]) <= Pairs(old(table[..]))
      ensures r.Ok? ==> Keys(table[..]) == Keys(old(table[..])) + {key}
      ensures r.Ok? ==> Pairs(table[..]) <= Pairs(old(table[..])) + {(key, value)}
      ensures r.Ok? ==> Lookup(table[..], key) == Some(value)
      ensures r.Ok? && old(10 * count < 7 * size) ==>
        table[..] == Placed(old(table[..]), key, value)
        && (r.value <==> !Search(old(table[..]), key, Home(key, size), 0).Found?)
        && count == old(count) + (if r.value then 1 else 0)
    {
      if 10 * count >= 7 * size {
        Resize();
      }
      var originalIndex := HashSlot(key, 0);
      if originalIndex.Err? {
        return Err(originalIndex.error);
      }
      var added := Place(key, value);
      return Ok(added);
    }

    /**
     * The probe loop shared by `get`, `update` and `delete`: probe numbers B = 0, 1, ... until a free
     * slot (not there), the key's slot, or B reaching the size (not there).
     */
    method Locate(key: string) returns (p: Probe)
      requires table.Length == size && size > 0 && KeyOk(key)
      ensures p == Search(table[..], key, Home(key, size), 0)
    {
      var first := HashSlot(key, 0);
      var home := first.value;
      assert home == Home(key, size) by { ProbeIndex(Home(key, size), 0, size); }
      ghost var t := table[..];
      var b := 0;
      while true
        invariant 0 <= b < size
        invariant Search(t, key, home, 0) == Search(t, key, home, b)
        decreases size - b
      {
        var slot := HashSlot(key, b);
        var index := slot.value;
        if table[index].None? || table[index].value.key == key {
          SearchStops(t, key, home, b);
          if table[index].None? {
            return Empty(index, b);
          }
          return Found(index, b);
        }
        SearchContinues(t, key, home, b);
        b := b + 1;
        if b >= size {
          return Exhausted;
        }
      }
    }

    /** `get(key)`: a ValueError for an invalid key, else the value `Lookup` finds, or None. */
    method Get(key: string) returns (r: Result<Option<string>>)
      requires Valid()
      ensures r.Err? <==> !KeyOk(key)
      ensures r.Ok? ==> r.value == Lookup(table[..], key)
    {
      var first := HashSlot(key, 0);
      if first.Err? {
        return Err(first.error);
      }
      var p := Locate(key);
      if p.Found? {
        return Ok(Some(table[p.index].value.value));
      }
      return Ok(None);
    }

    /**
     * `update(key, new_value)`: where `get` would find the key, only the value is replaced (key and
     * original index stay, the probe number is the one it was found at) and the answer is True;
     * otherwise nothing changes and the answer is False. An invalid key is a ValueError.
     */
    method Update(key: string, newValue: string) returns (r: Result<bool>)
      requires Valid()
      modifies table
      ensures Valid() && count == old(count)
      ensures r.Err? <==> !KeyOk(key)
      ensures r.Err? ==> table[..] == old(table[..])
      ensures r.Ok? ==> (r.value <==> old(Lookup(table[..], key)).Some?)
      ensures r.Ok? && !r.value ==> table[..] == old(table[..])
      ensures r.Ok? && r.value ==>
        var p := Search(old(table[..]), key, Home(key, size), 0);
        var e := old(table[..])[p.index].value;
        table[..] == old(table[..])[p.index := Some(Entry(key, newValue, e.originalIndex, p.b))]
        && Lookup(table[..], key) == Some(newValue)
    {
      var first := HashSlot(key, 0);
      if first.Err? {
        return Err(first.error);
      }
      var p := Locate(key);
      if !p.Found? {
        return Ok(false);
      }
      ghost var t := table[..];
      var e := table[p.index].value;
      var e' := Entry(key, newValue, e.originalIndex, p.b);
      Rewrite(t, key, p.index, p.b, e');
      table[p.index] := Some(e');
      assert table[..] == t[p.index := Some(e')];
      return Ok(true);
    }

    /**
     * `delete(key)`: where `get` would find the key its slot is emptied, count drops by one and the
     * answer is True; otherwise nothing changes and the answer is False. An invalid key is a ValueError.
     */
    method Delete(key: string) returns (r: Result<bool>)
      requires Valid()
      modifies this`count, table
      ensures Valid()
      ensures r.Err? <==> !KeyOk(key)
      ensures r.Err? ==> table[..] == old(table[..]) && count == old(count)
      ensures r.Ok? ==> (r.value <==> old(Lookup(table[..], key)).Some?)
      ensures r.Ok? && !r.value ==> table[..] == old(table[..]) && count == old(count)
      ensures r.Ok? && r.value ==>
        table[..] == old(table[..])[Search(old(table[..]), key, Home(key, size), 0).index := None]
        && count == old(count) - 1
        && Keys(table[..]) <= Keys(old(table[..]))
    {
      var first := HashSlot(key, 0);
      if first.Err? {
        return Err(first.error);
      }
      var p := Locate(key);
      if !p.Found? {
        return Ok(false);
      }
      ghost var t := table[..];
      Erase(t, p.index);
      table[p.index] := None;
      assert table[..] == t[p.index := None];
      count := count - 1;
      return Ok(true);
    }
  }
}
