/** The two's-complement reading of bit strings, and what slicing and stripping do to their values. */
module BitArithmetic {
  import opened Text
  import opened BitStrings

  /** The two's-complement value of a bit string: its leading bit weighs -2^(n-1). */
  function Signed(s: string): int
  {
    if |s| > 0 && s[0] == '1' then Value(s) - Pow2(|s|) else Value(s)
  }

  /** The value of a one-character string is the value of that bit. */
  lemma ValueOfBit(c: char)
    ensures Value([c]) == BitValue(c)
  {
    assert [c][..0] == [];
  }

  /** Splitting off the leading bit. */
  lemma HeadValue(s: string)
    requires |s| > 0
    ensures Value(s) == BitValue(s[0]) * Pow2(|s| - 1) + Value(s[1..])
  {
    assert s == [s[0]] + s[1..];
    ValueConcat([s[0]], s[1..]);
    ValueOfBit(s[0]);
  }

  /** A signed n-bit value lies in [-2^(n-1), 2^(n-1)), and it is negative exactly when the leading bit is '1'. */
  lemma SignedBounds(s: string)
    requires IsBits(s) && |s| > 0
    ensures -(Pow2(|s| - 1) as int) <= Signed(s) < Pow2(|s| - 1)
    ensures Signed(s) < 0 <==> s[0] == '1'
  {
    HeadValue(s);
    ValueBound(s[1..]);
    assert Pow2(|s|) == 2 * Pow2(|s| - 1);
  }

  /** Two bit strings of one length with one value are equal. */
  lemma BitsUnique(a: string, b: string)
    requires IsBits(a) && IsBits(b) && |a| == |b| && Value(a) == Value(b)
    ensures a == b
  {
    BitsOfValue(a);
    BitsOfValue(b);
  }

  /** The last m bits hold the value modulo 2^m (`s[-m:]`). */
  lemma SuffixValue(s: string, m: nat)
    requires m <= |s|
    ensures Value(s[|s| - m..]) == Value(s) % Pow2(m)
  {
    var hi, lo := s[..|s| - m], s[|s| - m..];
    assert s == hi + lo;
    ValueConcat(hi, lo);
    ValueBound(lo);
    ModUnique(Value(s), Pow2(m), Value(hi), Value(lo));
  }

  /** Dropping the last j bits divides the value by 2^j (`s[:-j]`). */
  lemma PrefixValue(s: string, j: nat)
    requires j <= |s|
    ensures Value(s[..|s| - j]) == Value(s) / Pow2(j)
  {
    var hi, lo := s[..|s| - j], s[|s| - j..];
    assert s == hi + lo;
    ValueConcat(hi, lo);
    ValueBound(lo);
    ModUnique(Value(s), Pow2(j), Value(hi), Value(lo));
  }

  /** Adding a multiple of the modulus does not change a remainder. */
  lemma ModAddMultiple(x: int, k: int, d: int)
    requires d > 0
    ensures (x + k * d) % d == x % d
  {
    assert x == (x / d) * d + x % d;
    assert x + k * d == (x / d + k) * d + x % d;
    ModUnique(x + k * d, d, x / d + k, x % d);
  }

  /** A bit string whose value is y modulo 2^n reads as y, whenever y fits in n signed bits. */
  lemma SignedOfValue(r: string, y: int)
    requires IsBits(r) && |r| > 0
    requires -(Pow2(|r| - 1) as int) <= y < Pow2(|r| - 1)
    requires Value(r) == y % Pow2(|r|)
    ensures Signed(r) == y
  {
    var p := Pow2(|r| - 1);
    assert Pow2(|r|) == 2 * p;
    HeadValue(r);
    ValueBound(r[1..]);
    if y >= 0 {
      ModOfSmall(y, 2 * p);
    } else {
      ModOfNegative(y, 2 * p);
    }
  }

  /** A remainder of a number already in range. */
  lemma ModOfSmall(x: int, d: int)
    requires 0 <= x < d
    ensures x % d == x
  {
    ModUnique(x, d, 0, x);
  }

  /** The remainder of a number just below zero. */
  lemma ModOfNegative(x: int, d: int)
    requires -d <= x < 0
    ensures x % d == x + d
  {
    ModUnique(x, d, -1, x + d);
  }

  /** Signed and unsigned readings agree modulo 2^n. */
  lemma SignedCongruent(s: string)
    ensures Value(s) % Pow2(|s|) == Signed(s) % Pow2(|s|)
  {
    if |s| > 0 && s[0] == '1' {
      ModAddMultiple(Signed(s), 1, Pow2(|s|));
    }
  }

  /** n copies of '1' denote 2^n - 1. */
  lemma {:induction false} OnesValue(k: nat)
    ensures Value(Repeat('1', k)) == Pow2(k) - 1
  {
    if k > 0 {
      var r := Repeat('1', k);
      assert r[1..] == Repeat('1', k - 1);
      HeadValue(r);
      OnesValue(k - 1);
    }
  }

  /** `s.lstrip('0') or '0'`: leading zeros removed, "0" when nothing is left. */
  function Canonical(s: string): (r: string)
    ensures |r| > 0
  {
    var t := LStripZeros(s);
    if t == [] then "0" else t
  }

  /** The binary numeral of a value whose string starts with '1' is that string. */
  lemma {:induction false} ToBinaryOfLeadingOne(t: string)
    requires IsBits(t) && |t| > 0 && t[0] == '1'
    ensures ToBinary(Value(t)) == t
    decreases |t|
  {
    if |t| == 1 {
      assert t == "1";
      ValueOfBit('1');
    } else {
      var p, c := t[..|t| - 1], t[|t| - 1];
      assert t == p + [c];
      ToBinaryOfLeadingOne(p);
      LeadingOneValue(p);
      HalfOf(Value(p), BitValue(c));
    }
  }

  /** Stripping leading zeros gives the shortest numeral of the same value. */
  lemma CanonicalIsToBinary(s: string)
    requires IsBits(s)
    ensures Canonical(s) == ToBinary(Value(s))
    ensures Value(Canonical(s)) == Value(s) && IsBits(Canonical(s))
  {
    var t := LStripZeros(s);
    var k := |s| - |t|;
    assert s[..k] == Repeat('0', k);
    assert s == s[..k] + t;
    ValueZeros(k, t);
    ToBinaryCorrect(Value(s));
    if t != [] {
      ToBinaryOfLeadingOne(t);
    }
  }

  /** The suffix from position i is bit i at weight 2^(len - 1 - i) plus the suffix after it. */
  lemma SuffixStep(s: string, i: nat)
    requires i < |s|
    ensures Value(s[i..]) == BitValue(s[i]) * Pow2(|s| - i - 1) + Value(s[i + 1..])
    ensures Pow2(|s| - i) == 2 * Pow2(|s| - i - 1)
  {
    var t := s[i..];
    assert t[0] == s[i] && t[1..] == s[i + 1..];
    HeadValue(t);
  }

  /** Putting a bit in front of a bit string. */
  lemma PrependBit(c: char, t: string)
    requires IsBit(c) && IsBits(t)
    ensures IsBits([c] + t)
    ensures Value([c] + t) == BitValue(c) * Pow2(|t|) + Value(t)
  {
    var u := [c] + t;
    assert u[1..] == t;
    HeadValue(u);
    BitsConcat([c], t);
  }
}
