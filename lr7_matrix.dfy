/**
 * LR_7's associative memory: sixteen 16-bit words and the 16 x 16 grid that holds word w in
 * column w, its bit b in row (w + b) mod 16. Word-wise logical functions, an interval search and
 * the "S := A + B" arithmetic work on the words; the grid is rebuilt after every change.
 */
module Lr7Matrix {
  import opened Wrappers
  import opened Text
  import opened BitStrings
  import opened Lr7Word

  /** The 16 bit strings held by a list of words. */
  function BitsOf(ws: seq<Word>): (r: seq<string>)
    reads ws
    ensures |r| == |ws| && forall i :: 0 <= i < |ws| ==> r[i] == ws[i].bits
  {
    if ws == [] then [] else BitsOf(ws[..|ws| - 1]) + [ws[|ws| - 1].bits]
  }

  /** Sixteen '0'/'1' strings of sixteen characters. */
  predicate WellFormed(ws: seq<string>) {
    |ws| == 16 && forall i :: 0 <= i < 16 ==> |ws[i]| == 16 && IsBits(ws[i])
  }

  /** Replacing one word by a '0'/'1' string of sixteen characters keeps the words well formed. */
  lemma WellFormedUpdate(ws: seq<string>, i: nat, s: string)
    requires WellFormed(ws) && i < 16 && |s| == 16 && IsBits(s)
    ensures WellFormed(ws[i := s])
  {
  }

  /** The row offset of cell (r, c) from the top of column c's diagonal: `(r - c) mod 16`. */
  function Offset(r: nat, c: nat): nat
    requires r < 16 && c < 16
  {
    if r >= c then r - c else r + 16 - c
  }

  /** Bit b of column c lies in row `(c + b) % 16`, and that row has offset b. */
  lemma OffsetOfRow(c: nat, b: nat)
    requires c < 16 && b < 16
    ensures (c + b) % 16 == (if c + b < 16 then c + b else c + b - 16)
    ensures Offset((c + b) % 16, c) == b
  {
    if c + b < 16 {
      ModUnique(c + b, 16, 0, c + b);
    } else {
      ModUnique(c + b, 16, 1, c + b - 16);
    }
  }

  /** Every cell (r, c) holds bit `(r - c) mod 16` of word c. */
  predicate Diagonal(g: array2<char>, ws: seq<string>)
    reads g
    requires g.Length0 == 16 && g.Length1 == 16 && WellFormed(ws)
  {
    forall r, c :: 0 <= r < 16 && 0 <= c < 16 ==> g[r, c] == ws[c][Offset(r, c)]
  }

  /** Read the other way round: bit b of word w sits in cell ((w + b) mod 16, w), as `update_diagonal_matrix` writes it. */
  lemma DiagonalPlacesBits(g: array2<char>, ws: seq<string>, w: nat, b: nat)
    requires g.Length0 == 16 && g.Length1 == 16 && WellFormed(ws) && Diagonal(g, ws)
    requires w < 16 && b < 16
    ensures g[(w + b) % 16, w] == ws[w][b]
  {
    OffsetOfRow(w, b);
  }

  /** The bit one of `apply_logical_function`'s four functions gives for two characters; '0' for an unknown name. */
  function Gate(func: string, x: char, y: char): (r: char)
    ensures IsBit(r)
  {
    if func == "f7" then (if x == '1' || y == '1' then '1' else '0')
    else if func == "f8" then (if x == '1' || y == '1' then '0' else '1')
    else if func == "f2" then (if x == '1' && y == '0' then '1' else '0')
    else if func == "f13" then (if x == '0' || y == '1' then '1' else '0')
    else '0'
  }

  function BoolChar(p: bool): char {
    if p then '1' else '0'
  }

  /** On bits: f7 is x or y, f8 is not (x or y), f2 is x and not y, f13 is (not x) or y, anything else 0. */
  lemma GateTruthTable(func: string, x: char, y: char)
    requires IsBit(x) && IsBit(y)
    ensures func == "f7" ==> Gate(func, x, y) == BoolChar(x == '1' || y == '1')
    ensures func == "f8" ==> Gate(func, x, y) == BoolChar(!(x == '1' || y == '1'))
    ensures func == "f2" ==> Gate(func, x, y) == BoolChar(x == '1' && !(y == '1'))
    ensures func == "f13" ==> Gate(func, x, y) == BoolChar(!(x == '1') || y == '1')
    ensures func !in {"f7", "f8", "f2", "f13"} ==> Gate(func, x, y) == '0'
  {
  }

  /** The word `apply_logical_function` computes, bit by bit. */
  function Combine(func: string, x: string, y: string): (r: string)
    requires |x| == |y|
    ensures |r| == |x| && IsBits(r)
    ensures forall i :: 0 <= i < |x| ==> r[i] == Gate(func, x[i], y[i])
  {
    if x == [] then [] else Combine(func, x[..|x| - 1], y[..|y| - 1]) + [Gate(func, x[|x| - 1], y[|y| - 1])]
  }

  /** The bit loop of `apply_logical_function`: one gate output per position of the two words. */
  method CombineBits(func: string, x: string, y: string) returns (resultBits: string)
    requires |x| == |y|
    ensures resultBits == Combine(func, x, y)
  {
    resultBits := "";
    for i := 0 to |x|
      invariant |resultBits| == i
      invariant forall k :: 0 <= k < i ==> resultBits[k] == Gate(func, x[k], y[k])
    {
      var res := Gate(func, x[i], y[i]);
      resultBits := resultBits + [res];
    }
  }

  /** f8 is the complement of f7, and f13 the complement of f2. */
  lemma ComplementPairs(x: string, y: string)
    requires |x| == |y| && IsBits(x) && IsBits(y)
    ensures Combine("f8", x, y) == Flip(Combine("f7", x, y))
    ensures Combine("f13", x, y) == Flip(Combine("f2", x, y))
  {
    var f7, f8, f2, f13 := Combine("f7", x, y), Combine("f8", x, y), Combine("f2", x, y), Combine("f13", x, y);
    forall i | 0 <= i < |x|
      ensures f8[i] == Flip(f7)[i] && f13[i] == Flip(f2)[i]
    {
      GateComplements(x[i], y[i]);
    }
  }

  /** Bit by bit: f8 complements f7 and f13 complements f2. */
  lemma GateComplements(x: char, y: char)
    requires IsBit(x) && IsBit(y)
    ensures Gate("f8", x, y) == (if Gate("f7", x, y) == '0' then '1' else '0')
    ensures Gate("f13", x, y) == (if Gate("f2", x, y) == '0' then '1' else '0')
  {
    assert "f8" != "f7" by { assert "f8"[1] != "f7"[1]; }
    assert "f2" != "f7" && "f2" != "f8" by { assert "f2"[1] != "f7"[1] && "f2"[1] != "f8"[1]; }
    assert "f13" != "f7" && "f13" != "f8" && "f13" != "f2" by { assert |"f13"| == 3; }
  }

  /** A Python list index into 16 words: -16..15, a negative one counting from the end. */
  predicate InRange(i: int) {
    -16 <= i < 16
  }

  function PyIndex(i: int): nat
    requires InRange(i)
  {
    if i < 0 then i + 16 else i
  }

  /** A bound of `search_interval`: an integer, or a string used as it is. */
  datatype Bound = IntBound(n: int) | StrBound(s: string)

  /** `f"{n:0wb}"`: binary digits zero-padded to width w, after a '-' for a negative number. */
  function FormatSigned(n: int, w: nat): string
    requires w >= 1
  {
    if n >= 0 then FormatBinary(n, w) else "-" + FormatBinary(-n, w - 1)
  }

  /** The 16-character text of a bound. */
  function BoundText(b: Bound): string {
    match b
    case IntBound(n) => FormatSigned(n, 16)
    case StrBound(s) => s
  }

  /** The bounds' values, or the ValueError `search_interval` raises. */
  function Interval(lower: Bound, upper: Bound): Result<(int, int)> {
    var lo := BoundText(lower);
    var hi := BoundText(upper);
    if |lo| != 16 || |hi| != 16 then Err(ValueError("bounds must be 16-bit strings or numbers (0-65535)"))
    else
      var l := ParseBinary(lo);
      var h := ParseBinary(hi);
      if l.Err? then Err(l.error) else if h.Err? then Err(h.error) else Ok((l.value, h.value))
  }

  /**
   * An integer bound is accepted exactly when -2^15 < n < 2^16 (its text then has 16 characters),
   * and then it reads back as n.
   */
  lemma IntBoundRoundTrip(n: int)
    ensures |BoundText(IntBound(n))| == 16 <==> -(Pow2(15) as int) < n < Pow2(16)
    ensures -(Pow2(15) as int) < n < Pow2(16) ==> ParseBinary(BoundText(IntBound(n))) == Ok(n)
  {
    if n >= 0 {
      NonNegativeBound(n, 16);
    } else {
      NegativeBound(-n, 15);
    }
  }

  lemma NonNegativeBound(n: nat, w: nat)
    requires w >= 1
    ensures |FormatSigned(n, w)| == w <==> n < Pow2(w)
    ensures n < Pow2(w) ==> ParseBinary(FormatSigned(n, w)) == Ok(n)
  {
    if n < Pow2(w) {
      FormatBinaryCorrect(n, w);
    } else {
      LongBinary(n, w);
    }
  }

  lemma NegativeBound(m: nat, w: nat)
    requires m > 0
    ensures |FormatSigned(-(m as int), w + 1)| == w + 1 <==> m < Pow2(w)
    ensures m < Pow2(w) ==> ParseBinary(FormatSigned(-(m as int), w + 1)) == Ok(-(m as int))
  {
    var t := FormatSigned(-(m as int), w + 1);
    assert t == "-" + FormatBinary(m, w);
    if m < Pow2(w) {
      SignedDigits(t, FormatBinary(m, w), w, m);
    } else {
      LongBinary(m, w);
    }
  }

  /** A '-' before the w digits of m reads back as -m. */
  lemma SignedDigits(t: string, b: string, w: nat, m: nat)
    requires 0 < m < Pow2(w) && b == FormatBinary(m, w) && t == "-" + b
    ensures |t| == w + 1 && ParseBinary(t) == Ok(-(m as int))
  {
    FormatBinaryCorrect(m, w);
    assert |b| == w || (w == 0 && b == "0");
    assert t[1..] == b;
    assert !IsBit(t[0]);
  }

  /** A number of at least 2^w needs more than w binary digits. */
  lemma LongBinary(n: nat, w: nat)
    requires n >= Pow2(w)
    ensures |ToBinary(n)| > w
  {
    ToBinaryCorrect(n);
    ValueBound(ToBinary(n));
    if |ToBinary(n)| <= w {
      Pow2Monotone(|ToBinary(n)|, w);
    }
  }

  /** Strictly increasing indices. */
  predicate Increasing(s: seq<nat>) {
    forall i, j :: 0 <= i < j < |s| ==> s[i] < s[j]
  }

  lemma AppendIncreasing(s: seq<nat>, x: nat)
    requires Increasing(s) && forall k :: k in s ==> k < x
    ensures Increasing(s + [x])
  {
    forall i, j | 0 <= i < j < |s| + 1
      ensures (s + [x])[i] < (s + [x])[j]
    {
      if j == |s| {
        assert s[i] in s;
      }
    }
  }

  /** What `arithmetic_operation` does to one word: if V matches, S becomes (A + B) mod 32 in five bits. */
  function SumFields(targetV: string, bits: string): string
    requires |bits| == 16
  {
    if bits[0..3] == targetV then bits[..11] + FormatBinary((Value(bits[3..7]) + Value(bits[7..11])) % 32, 5) else bits
  }

  lemma SumFieldsUnchanged(targetV: string, bits: string)
    requires |bits| == 16 && bits[0..3] != targetV
    ensures SumFields(targetV, bits) == bits
  {
  }

  lemma SumFieldsMatch(targetV: string, bits: string, sBits: string)
    requires |bits| == 16 && bits[0..3] == targetV
    requires sBits == FormatBinary((Value(bits[3..7]) + Value(bits[7..11])) % 32, 5)
    ensures SumFields(targetV, bits) == bits[..11] + sBits
  {
  }

  /** The rewritten word keeps V, A and B, and its S reads as (A + B) mod 32. */
  lemma SumFieldsFields(targetV: string, bits: string)
    requires |bits| == 16 && IsBits(bits) && bits[0..3] == targetV
    ensures var r := SumFields(targetV, bits);
      |r| == 16 && IsBits(r) && r[..11] == bits[..11]
      && Value(r[11..]) == (Value(bits[3..7]) + Value(bits[7..11])) % 32
  {
    var s := (Value(bits[3..7]) + Value(bits[7..11])) % 32;
    assert Pow2(5) == 32;
    FormatBinaryCorrect(s, 5);
    var r := SumFields(targetV, bits);
    assert r[11..] == FormatBinary(s, 5);
    BitsConcat(bits[..11], FormatBinary(s, 5));
  }

  /** The 3-character key `arithmetic_operation` compares V with. */
  datatype Key = IntKey(n: int) | StrKey(s: string)

  /** `f"{v_key:03b}"` for an int, `v_key.zfill(3)[-3:]` for a string. */
  function TargetV(key: Key): string {
    match key
    case IntKey(n) => FormatSigned(n, 3)
    case StrKey(s) => var z := ZFill(s, 3); z[|z| - 3..]
  }

  /** Key 5 and key "11" both select by three bits: V = 101 and V = 011. */
  lemma TargetVExamples()
    ensures TargetV(IntKey(5)) == "101" && TargetV(StrKey("11")) == "011"
  {
    assert ToBinary(5) == "101" by { assert ToBinary(2) == "10"; }
    assert PadZeros("101", 3) == "101";
    assert ZFill("11", 3) == "011";
  }

  /** An int key outside 0..7 selects no word: its text is never three '0'/'1' characters. */
  lemma TargetVOutOfRange(n: int, v: string)
    requires n < 0 || n >= 8
    requires IsBits(v) && |v| == 3
    ensures v != TargetV(IntKey(n))
  {
    if n >= 8 {
      assert Pow2(3) == 8;
      LongBinary(n, 3);
    } else {
      assert TargetV(IntKey(n))[0] == '-';
      assert IsBit(v[0]);
    }
  }

  /** The loop body of `arithmetic_operation` for one word: S := (A + B) mod 32, in five bits, when V matches. */
  method SumInto(word: Word, targetV: string)
    requires |word.bits| == 16 && IsBits(word.bits)
    modifies word
    ensures word.bits == SumFields(targetV, old(word.bits))
    ensures |word.bits| == 16 && IsBits(word.bits)
  {
    if word.V() == targetV {
      ghost var bits := word.bits;
      assert bits[0..3] == targetV;
      var sBits := FieldSum(word);
      assert sBits == FormatBinary((Value(bits[3..7]) + Value(bits[7..11])) % 32, 5);
      SumFieldsFields(targetV, bits);
      SumFieldsMatch(targetV, bits, sBits);
      assert |sBits| == 5;
      var r := word.SetS(sBits);
      assert word.bits == bits[..11] + sBits == SumFields(targetV, bits);
    } else {
      SumFieldsUnchanged(targetV, word.bits);
    }
  }

  /** The word loop of `arithmetic_operation` over sixteen distinct '0'/'1' words. */
  method SumAll(ws: seq<Word>, targetV: string)
    requires |ws| == 16 && forall a, b :: 0 <= a < b < 16 ==> ws[a] != ws[b]
    requires forall k :: 0 <= k < 16 ==> |ws[k].bits| == 16 && IsBits(ws[k].bits)
    modifies ws
    ensures forall k :: 0 <= k < 16 ==> ws[k].bits == SumFields(targetV, old(ws[k].bits))
    ensures forall k :: 0 <= k < 16 ==> |ws[k].bits| == 16 && IsBits(ws[k].bits)
  {
    for i := 0 to 16
      invariant forall k :: 0 <= k < i ==> ws[k].bits == SumFields(targetV, old(ws[k].bits))
      invariant forall k :: i <= k < 16 ==> ws[k].bits == old(ws[k].bits)
      invariant forall k :: 0 <= k < 16 ==> |ws[k].bits| == 16 && IsBits(ws[k].bits)
    {
      SumInto(ws[i], targetV);
    }
  }

  /** `f"{(a + b) % 32:05b}"` for the values of fields A and B of a '0'/'1' word. */
  method FieldSum(word: Word) returns (sBits: string)
    requires |word.bits| == 16 && IsBits(word.bits)
    ensures sBits == FormatBinary((Value(word.bits[3..7]) + Value(word.bits[7..11])) % 32, 5)
    ensures |sBits| == 5 && IsBits(sBits)
  {
    ValuesAB(word);
    var a := word.GetValue("a").value;
    var b := word.GetValue("b").value;
    ghost var n := (Value(word.bits[3..7]) + Value(word.bits[7..11])) % 32;
    var s := a + b;
    assert s % 32 == n;
    sBits := FormatBinary(s % 32, 5);
    assert Pow2(5) == 32;
    FormatBinaryCorrect(n, 5);
  }

  /** `get_value('a')` and `get_value('b')` of a '0'/'1' word read bits 3..6 and 7..10. */
  lemma ValuesAB(word: Word)
    requires |word.bits| == 16 && IsBits(word.bits)
    ensures word.GetValue("a") == Ok(Value(word.bits[3..7]))
    ensures word.GetValue("b") == Ok(Value(word.bits[7..11]))
  {
    word.FieldsAreBits();
    assert "a" != "v" && "b" != "v" && "b" != "a" by { assert "a"[0] != "v"[0] && "b"[0] != "v"[0] && "b"[0] != "a"[0]; }
  }

  class Matrix {
    var words: seq<Word>
    var grid: array2<char>

    /** Sixteen distinct word objects of sixteen '0'/'1' characters, and a 16 x 16 grid. */
    ghost predicate Valid()
      reads this, words
    {
      |words| == 16 && (forall i, j :: 0 <= i < j < 16 ==> words[i] != words[j])
      && WellFormed(BitsOf(words))
      && grid.Length0 == 16 && grid.Length1 == 16
    }

    /** `Matrix()`, with the sixteen initial words given instead of drawn at random; the grid is built from them. */
    constructor (initial: seq<string>)
      requires WellFormed(initial)
      ensures Valid() && BitsOf(words) == initial
      ensures Diagonal(grid, BitsOf(words))
      ensures forall i :: 0 <= i < 16 ==> fresh(words[i])
    {
      var ws := NewWords(initial);
      words := ws;
      grid := new char[16, 16]((r, c) => '0');
      new;
      assert BitsOf(words) == initial;
      UpdateDiagonalMatrix();
    }

    /** One new word object per string, in order. */
    static method NewWords(initial: seq<string>) returns (ws: seq<Word>)
      requires WellFormed(initial)
      ensures |ws| == 16 && BitsOf(ws) == initial
      ensures forall i :: 0 <= i < 16 ==> fresh(ws[i])
      ensures forall i, j :: 0 <= i < j < 16 ==> ws[i] != ws[j]
    {
      ws := [];
      for i := 0 to 16
        invariant |ws| == i && forall k :: 0 <= k < i ==> fresh(ws[k]) && ws[k].bits == initial[k]
        invariant forall k, l :: 0 <= k < l < i ==> ws[k] != ws[l]
      {
        var w := new Word(initial[i]);
        ws := ws + [w];
      }
      assert BitsOf(ws) == initial;
    }

    /** `update_diagonal_matrix`: a new grid whose cell ((w + b) mod 16, w) is bit b of word w, for every w and b. */
    method UpdateDiagonalMatrix()
      requires Valid()
      modifies this`grid
      ensures Valid() && fresh(grid) && words == old(words) && BitsOf(words) == old(BitsOf(words))
      ensures Diagonal(grid, BitsOf(words))
    {
      var ws := BitsOf(words);
      var g := new char[16, 16]((r, c) => '0');
      for w := 0 to 16
        invariant forall r, c :: 0 <= r < 16 && 0 <= c < 16 ==>
          g[r, c] == if c < w then ws[c][Offset(r, c)] else '0'
      {
        for b := 0 to 16
          invariant forall r, c :: 0 <= r < 16 && 0 <= c < 16 ==>
            g[r, c] == if c < w || (c == w && Offset(r, c) < b) then ws[c][Offset(r, c)] else '0'
        {
          OffsetOfRow(w, b);
          g[(w + b) % 16, w] := words[w].bits[b];
        }
      }
      grid := g;
    }

    /**
     * `apply_logical_function(func, col1, col2, target_col)`: word target_col becomes the bitwise
     * `func` of words col1 and col2; no other word changes, and the grid is rebuilt. An index
     * outside -16..15 is an IndexError before anything changes.
     */
    method ApplyLogicalFunction(func: string, col1: int, col2: int, targetCol: int) returns (r: Result<()>)
      requires Valid()
      modifies this`grid, words[..]
      ensures Valid() && words == old(words)
      ensures r.Err? <==> !(InRange(col1) && InRange(col2) && InRange(targetCol))
      ensures r.Err? ==> BitsOf(words) == old(BitsOf(words)) && grid == old(grid)
      ensures r.Ok? ==> BitsOf(words) == old(BitsOf(words))[PyIndex(targetCol) :=
        Combine(func, old(BitsOf(words))[PyIndex(col1)], old(BitsOf(words))[PyIndex(col2)])]
      ensures r.Ok? ==> fresh(grid) && Diagonal(grid, BitsOf(words))
    {
      if !(InRange(col1) && InRange(col2) && InRange(targetCol)) {
        return Err(IndexError("list index out of range"));
      }
      var word1 := words[PyIndex(col1)];
      var word2 := words[PyIndex(col2)];
      var targetWord := words[PyIndex(targetCol)];
      ghost var before := BitsOf(words);
      var resultBits := CombineBits(func, word1.bits, word2.bits);
      targetWord.bits := resultBits;
      assert BitsOf(words) == before[PyIndex(targetCol) := resultBits];
      WellFormedUpdate(before, PyIndex(targetCol), resultBits);
      UpdateDiagonalMatrix();
      return Ok(());
    }

    /**
     * `search_interval(lower_bin, upper_bin)`: integer bounds are formatted as 16 bits; a bound that
     * is not 16 characters (or not binary) is a ValueError. Otherwise the indices, in ascending order,
     * of the words whose value lies strictly between the bounds, as the two clearing loops leave
     * them; the words do not change.
     */
    method SearchInterval(lower: Bound, upper: Bound) returns (r: Result<seq<nat>>)
      requires Valid()
      ensures r.Err? <==> Interval(lower, upper).Err?
      ensures r.Ok? ==> Increasing(r.value)
      ensures r.Ok? ==> forall i :: i in r.value <==>
        0 <= i < 16 && Interval(lower, upper).value.0 < Value(words[i].bits) < Interval(lower, upper).value.1
    {
      r := Search(lower, upper, false);
    }

    /**
     * `search_interval` as its docstring and its printed "[lower, upper]" describe it: the words
     * whose value lies in the closed interval, bounds included.
     */
    method SearchIntervalCorrected(lower: Bound, upper: Bound) returns (r: Result<seq<nat>>)
      requires Valid()
      ensures r.Err? <==> Interval(lower, upper).Err?
      ensures r.Ok? ==> Increasing(r.value)
      ensures r.Ok? ==> forall i :: i in r.value <==>
        0 <= i < 16 && Interval(lower, upper).value.0 <= Value(words[i].bits) <= Interval(lower, upper).value.1
    {
      r := Search(lower, upper, true);
    }

    /** The body of `search_interval`, clearing the words at the bounds or, when `closed`, keeping them. */
    method Search(lower: Bound, upper: Bound, closed: bool) returns (r: Result<seq<nat>>)
      requires Valid()
      ensures r.Err? <==> Interval(lower, upper).Err?
      ensures r.Ok? ==> Increasing(r.value)
      ensures r.Ok? ==> forall i :: i in r.value <==>
        0 <= i < 16 && Within(Interval(lower, upper).value.0, Value(words[i].bits), Interval(lower, upper).value.1, closed)
    {
      var lowerBin := BoundText(lower);
      var upperBin := BoundText(upper);
      if |lowerBin| != 16 || |upperBin| != 16 {
        return Err(ValueError("bounds must be 16-bit strings or numbers (0-65535)"));
      }
      var flags := new int[16](_ => 1);
      var lowerVal := ParseBinary(lowerBin);
      if lowerVal.Err? {
        return Err(lowerVal.error);
      }
      var upperVal := ParseBinary(upperBin);
      if upperVal.Err? {
        return Err(upperVal.error);
      }
      var results := FlagsBetween(flags, lowerVal.value, upperVal.value, closed);
      return Ok(results);
    }

    /**
     * The two flag-clearing loops of `search_interval` (`>= upper`, then `<= lower`; with `closed`,
     * `> upper` and `< lower`) and the list of indices still flagged.
     */
    method FlagsBetween(flags: array<int>, lo: int, hi: int, closed: bool) returns (results: seq<nat>)
      requires Valid() && flags.Length == 16 && forall k :: 0 <= k < 16 ==> flags[k] == 1
      modifies flags
      ensures Increasing(results)
      ensures forall i :: i in results <==> 0 <= i < 16 && Within(lo, Value(words[i].bits), hi, closed)
    {
      ghost var bs := BitsOf(words);
      ghost var vals := seq(16, k requires 0 <= k < 16 => Value(bs[k]));
      for i := 0 to 16
        invariant forall k :: 0 <= k < 16 ==> flags[k] == (if k < i && AboveUpper(vals[k], hi, closed) then 0 else 1)
      {
        var wordVal := Value(words[i].bits);
        assert wordVal == vals[i];
        if (if closed then wordVal > hi else wordVal >= hi) {
          flags[i] := 0;
        }
      }
      for i := 0 to 16
        invariant forall k :: 0 <= k < 16 ==>
          flags[k] == (if AboveUpper(vals[k], hi, closed) || (k < i && BelowLower(vals[k], lo, closed)) then 0 else 1)
      {
        var wordVal := Value(words[i].bits);
        assert wordVal == vals[i];
        if (if closed then wordVal < lo else wordVal <= lo) {
          flags[i] := 0;
        }
      }
      results := [];
      for i := 0 to 16
        invariant forall k :: 0 <= k < 16 ==> flags[k] == (if Within(lo, vals[k], hi, closed) then 1 else 0)
        invariant Increasing(results) && forall k :: k in results ==> k < i
        invariant forall k :: 0 <= k < i ==> (k in results <==> flags[k] == 1)
      {
        if flags[i] == 1 {
          AppendIncreasing(results, i);
          results := results + [i];
        }
      }
      forall k | k in results
        ensures 0 <= k < 16 && Within(lo, Value(words[k].bits), hi, closed)
      {
        assert flags[k] == 1 && vals[k] == Value(words[k].bits);
      }
    }

    /**
     * `arithmetic_operation(v_key)`: every word whose V equals the key's 3-character text gets
     * S := (A + B) mod 32; every other word and every other field stays, and the grid is rebuilt.
     */
    method ArithmeticOperation(key: Key)
      requires Valid()
      modifies this`grid, words[..]
      ensures Valid() && words == old(words) && fresh(grid)
      ensures forall i :: 0 <= i < 16 ==> words[i].bits == SumFields(TargetV(key), old(words[i].bits))
      ensures Diagonal(grid, BitsOf(words))
    {
      var targetV := TargetV(key);
      SumAll(words, targetV);
      assert WellFormed(BitsOf(words));
      UpdateDiagonalMatrix();
    }
  }

  /** The first loop clears a word at or above the upper bound (only above it, when `closed`). */
  predicate AboveUpper(v: int, hi: int, closed: bool) {
    if closed then v > hi else v >= hi
  }

  /** The second loop clears a word at or below the lower bound (only below it, when `closed`). */
  predicate BelowLower(v: int, lo: int, closed: bool) {
    if closed then v < lo else v <= lo
  }

  /** A word kept by both loops: strictly between the bounds, or between them inclusive when `closed`. */
  predicate Within(lo: int, v: int, hi: int, closed: bool) {
    !AboveUpper(v, hi, closed) && !BelowLower(v, lo, closed)
  }

  /**
   * The clearing loops as written drop a word equal to either bound, which the closed interval the
   * docstring promises contains: with lower and upper bound 5, a word worth 5 is not listed.
   */
  lemma BoundsExcludedAsWritten(lo: int, hi: int)
    requires lo <= hi
    ensures !Within(lo, lo, hi, false) && !Within(lo, hi, hi, false)
    ensures Within(lo, lo, hi, true) && Within(lo, hi, hi, true)
    ensures forall v :: Within(lo, v, hi, false) <==> lo < v < hi
    ensures forall v :: Within(lo, v, hi, true) <==> lo <= v <= hi
  {
  }
}
