/** Strings of '0'/'1' characters, most significant bit first, and the integers they denote. */
module BitStrings {
  import opened Wrappers
  import opened Text

  predicate IsBit(c: char) { c == '0' || c == '1' }

  predicate IsBits(s: string) { forall i | 0 <= i < |s| :: IsBit(s[i]) }

  /** A suffix of a '0'/'1' string is a '0'/'1' string. */
  lemma SuffixBits(s: string, k: nat)
    requires IsBits(s) && k <= |s|
    ensures IsBits(s[k..]) && |s[k..]| == |s| - k
  {
  }

  function Pow2(n: nat): (r: nat)
    ensures r >= 1
  {
    if n == 0 then 1 else 2 * Pow2(n - 1)
  }

  lemma {:induction false} Pow2Add(a: nat, b: nat)
    ensures Pow2(a + b) == Pow2(a) * Pow2(b)
  {
    if b > 0 {
      Pow2Add(a, b - 1);
    }
  }

  lemma {:induction false} Pow2Monotone(a: nat, b: nat)
    requires a <= b
    ensures Pow2(a) <= Pow2(b)
  {
    if a < b {
      Pow2Monotone(a, b - 1);
    }
  }

  /** 1 for '1', 0 for any other character (the `bit == '1'` tests of the source). */
  function BitValue(c: char): nat { if c == '1' then 1 else 0 }

  /** `int(s, 2)` for a '0'/'1' string; the empty string counts as 0. */
  function Value(s: string): nat
  {
    if s == [] then 0 else 2 * Value(s[..|s| - 1]) + BitValue(s[|s| - 1])
  }

  lemma {:induction false} ValueBound(s: string)
    ensures Value(s) < Pow2(|s|)
  {
    if s != [] {
      ValueBound(s[..|s| - 1]);
    }
  }

  /** What `int(s, 2)` reads here: '0'/'1' digits, after an optional '-' or '+'. */
  predicate IsBinaryLiteral(s: string) {
    (|s| > 0 && IsBits(s)) || (|s| > 1 && (s[0] == '-' || s[0] == '+') && IsBits(s[1..]))
  }

  /**
   * `int(s, 2)`: the value of the digits, negated after a '-'; a ValueError for anything that is
   * not a binary literal. A literal of n characters lies strictly between -2^(n-1) and 2^n.
   */
  function ParseBinary(s: string): (r: Result<int>)
    ensures r.Ok? <==> IsBinaryLiteral(s)
    ensures r.Err? ==> r.error == ValueError("invalid literal for int() with base 2")
    ensures r.Ok? && IsBits(s) ==> r.value == Value(s)
    ensures r.Ok? && s[0] == '-' ==> r.value == -(Value(s[1..]) as int)
    ensures r.Ok? && s[0] == '+' ==> r.value == Value(s[1..])
    ensures r.Ok? ==> -(Pow2(|s| - 1) as int) < r.value < Pow2(|s|)
  {
    if |s| > 0 && IsBits(s) then
      ValueBound(s);
      Ok(Value(s))
    else if |s| > 1 && (s[0] == '-' || s[0] == '+') && IsBits(s[1..]) then
      ValueBound(s[1..]);
      Pow2Monotone(|s| - 1, |s|);
      Ok(if s[0] == '-' then -(Value(s[1..]) as int) else Value(s[1..]))
    else
      Err(ValueError("invalid literal for int() with base 2"))
  }

  lemma ValueSnoc(s: string, c: char)
    ensures Value(s + [c]) == 2 * Value(s) + BitValue(c)
  {
    assert (s + [c])[..|s|] == s;
  }

  lemma {:induction false} ValueConcat(a: string, b: string)
    ensures Value(a + b) == Value(a) * Pow2(|b|) + Value(b)
  {
    if b == [] {
      assert a + b == a;
    } else {
      var init, c := b[..|b| - 1], b[|b| - 1];
      assert a + b == (a + init) + [c];
      assert b == init + [c];
      ValueConcat(a, init);
      ValueSnoc(a + init, c);
      ValueSnoc(init, c);
      MulDouble(Value(a), Pow2(|init|));
    }
  }

  lemma MulDouble(x: nat, y: nat)
    ensures 2 * (x * y) == x * (2 * y)
  {
  }

  /** Leading zeros do not change the value. */
  lemma ValueZeros(k: nat, s: string)
    ensures Value(Repeat('0', k) + s) == Value(s)
  {
    ValueConcat(Repeat('0', k), s);
    ZerosValue(k);
  }

  lemma {:induction false} ZerosValue(k: nat)
    ensures Value(Repeat('0', k)) == 0
  {
    if k > 0 {
      assert Repeat('0', k)[..k - 1] == Repeat('0', k - 1);
      ZerosValue(k - 1);
    }
  }

  /** The value of a string that starts with '1' is at least 2^(len - 1). */
  lemma LeadingOneValue(s: string)
    requires |s| > 0 && s[0] == '1'
    ensures Value(s) >= Pow2(|s| - 1)
  {
    assert s == s[..1] + s[1..];
    ValueConcat(s[..1], s[1..]);
    assert Value(s[..1]) == 1 by { assert s[..1][..0] == []; }
  }

  /** The shortest binary numeral of `n` ("0" for zero), as `bin(n)[2:]` and the remainder loops give it. */
  function ToBinary(n: nat): string
  {
    if n < 2 then (if n == 0 then "0" else "1") else ToBinary(n / 2) + (if n % 2 == 0 then "0" else "1")
  }

  lemma {:induction false} ToBinaryCorrect(n: nat)
    ensures IsBits(ToBinary(n)) && |ToBinary(n)| >= 1
    ensures Value(ToBinary(n)) == n
    ensures n == 0 <==> ToBinary(n) == "0"
    ensures n > 0 ==> ToBinary(n)[0] == '1'
  {
    if n >= 2 {
      ToBinaryCorrect(n / 2);
      var p := ToBinary(n / 2);
      var c := if n % 2 == 0 then '0' else '1';
      assert ToBinary(n) == p + [c];
      ValueSnoc(p, c);
      assert ToBinary(n)[0] == p[0];
    }
  }

  lemma ToBinaryLength(n: nat, w: nat)
    requires n < Pow2(w)
    ensures |ToBinary(n)| <= w || n == 0
  {
    ToBinaryCorrect(n);
    if n > 0 && |ToBinary(n)| > w {
      LeadingOneValue(ToBinary(n));
      Pow2Monotone(w, |ToBinary(n)| - 1);
    }
  }

  /** Left-pads with '0' up to width `w` (a longer string is kept whole). */
  function PadZeros(s: string, w: nat): (r: string)
    ensures |r| == if |s| >= w then |s| else w
  {
    if |s| >= w then s else Repeat('0', w - |s|) + s
  }

  /** `format(n, '0wb')`, i.e. `f"{n:0wb}"`, for a non-negative `n`. */
  function FormatBinary(n: nat, w: nat): string
  {
    PadZeros(ToBinary(n), w)
  }

  lemma FormatBinaryCorrect(n: nat, w: nat)
    requires n < Pow2(w)
    ensures |FormatBinary(n, w)| == w || (w == 0 && FormatBinary(n, w) == "0")
    ensures IsBits(FormatBinary(n, w))
    ensures Value(FormatBinary(n, w)) == n
  {
    var b := ToBinary(n);
    ToBinaryCorrect(n);
    ToBinaryLength(n, w);
    if |b| < w {
      var z := Repeat('0', w - |b|);
      ValueZeros(w - |b|, b);
      assert IsBits(z);
      BitsConcat(z, b);
    }
  }

  lemma BitsConcat(a: string, b: string)
    requires IsBits(a) && IsBits(b)
    ensures IsBits(a + b)
  {
    assert forall i | |a| <= i < |a + b| :: (a + b)[i] == b[i - |a|];
  }

  /** The n-bit string whose value is `v`, for `v < 2^n`. */
  function Bits(v: nat, n: nat): (r: string)
    ensures |r| == n
  {
    if n == 0 then "" else Bits(v / 2, n - 1) + (if v % 2 == 0 then "0" else "1")
  }

  lemma {:induction false} BitsAreBits(v: nat, n: nat)
    ensures IsBits(Bits(v, n))
  {
    if n > 0 {
      BitsAreBits(v / 2, n - 1);
    }
  }

  lemma {:induction false} BitsCorrect(v: nat, n: nat)
    ensures IsBits(Bits(v, n))
    ensures Value(Bits(v, n)) == v % Pow2(n)
  {
    BitsAreBits(v, n);
    if n > 0 {
      BitsCorrect(v / 2, n - 1);
      var p := Bits(v / 2, n - 1);
      var c := if v % 2 == 0 then '0' else '1';
      assert Bits(v, n) == p + [c];
      ValueSnoc(p, c);
      assert BitValue(c) == v % 2;
      ModHalf(v, Pow2(n - 1));
    }
  }

  lemma ModHalf(v: nat, m: nat)
    requires m >= 1
    ensures 2 * ((v / 2) % m) + v % 2 == v % (2 * m)
  {
    var q := (v / 2) / m;
    var r := (v / 2) % m;
    assert v / 2 == q * m + r;
    assert v == 2 * (v / 2) + v % 2;
    assert 2 * (q * m) == q * (2 * m);
    assert v == q * (2 * m) + (2 * r + v % 2);
    ModUnique(v, 2 * m, q, 2 * r + v % 2);
  }

  lemma ModUnique(v: int, d: int, q: int, r: int)
    requires d > 0 && 0 <= r < d && v == q * d + r
    ensures v % d == r && v / d == q
  {
    var q' := v / d;
    var r' := v % d;
    assert v == q' * d + r';
    assert (q - q') * d == r' - r by {
      assert q * d - q' * d == (q - q') * d;
    }
    if q != q' {
      var k := if q > q' then q - q' else q' - q;
      MulAtLeast(k, d);
    }
  }

  /** Halving and the low bit of `2x + r`. */
  lemma HalfOf(x: nat, r: nat)
    requires r < 2
    ensures (2 * x + r) / 2 == x && (2 * x + r) % 2 == r
  {
    ModUnique(2 * x + r, 2, x, r);
  }

  lemma MulAtLeast(k: int, d: int)
    requires k >= 1 && d > 0
    ensures k * d >= d
  {
    assert k * d == (k - 1) * d + d;
    assert (k - 1) * d >= 0;
  }

  lemma {:induction false} BitsOfValue(s: string)
    requires IsBits(s)
    ensures Bits(Value(s), |s|) == s
  {
    if s != [] {
      var p := s[..|s| - 1];
      BitsOfValue(p);
      assert Value(s) / 2 == Value(p);
      assert s == p + [s[|s| - 1]];
    }
  }

  /** Bit-string complement: '0' and '1' exchanged. */
  function Flip(s: string): (r: string)
    ensures |r| == |s|
    ensures forall i | 0 <= i < |s| :: r[i] == if s[i] == '1' then '0' else '1'
  {
    if s == [] then "" else Flip(s[..|s| - 1]) + [if s[|s| - 1] == '1' then '0' else '1']
  }

  /** The complement of an n-bit string has value 2^n - 1 - value. */
  lemma {:induction false} FlipValue(s: string)
    requires IsBits(s)
    ensures Value(Flip(s)) == Pow2(|s|) - 1 - Value(s)
  {
    if s != [] {
      var p := s[..|s| - 1];
      FlipValue(p);
      assert Flip(s)[..|s| - 1] == Flip(p);
    }
  }
}
