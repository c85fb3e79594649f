/**
 * The integer paths of LR_1's BinaryConverter: the sign-magnitude ("direct"), ones'-complement
 * ("reverse") and two's-complement ("additional") codes of a whole number.
 */
module Lr1BinaryConverter {
  import opened BitStrings
  import opened BitArithmetic

  function Abs(n: int): nat
  {
    if n >= 0 then n else -n
  }

  /** `to_binary(num)`: remainders of repeated halving, each put in front of the digits so far. */
  method ToBinaryDigits(num: nat) returns (binary: string)
    ensures binary == ToBinary(num)
    ensures IsBits(binary) && Value(binary) == num
    ensures num > 0 ==> binary[0] == '1'
  {
    ToBinaryCorrect(num);
    if num == 0 {
      return "0";
    }
    binary := "";
    var n := num;
    while n > 0
      invariant ToBinary(num) == (if n > 0 then ToBinary(n) else "") + binary
      decreases n
    {
      var digit := if n % 2 == 0 then "0" else "1";
      HalvingStep(n, binary);
      binary := digit + binary;
      n := n / 2;
    }
    assert ToBinary(num) == "" + binary;
  }

  /** One halving of `to_binary`: the remainder goes in front of the digits so far. */
  lemma HalvingStep(n: nat, tail: string)
    requires n > 0
    ensures ToBinary(n) + tail == (if n / 2 > 0 then ToBinary(n / 2) else "") + ((if n % 2 == 0 then "0" else "1") + tail)
  {
    var digit := if n % 2 == 0 then "0" else "1";
    if n >= 2 {
      assert ToBinary(n) == ToBinary(n / 2) + digit;
    } else {
      assert ToBinary(n) == digit;
    }
  }

  /** `direct_code()`: the sign bit ('1' for a negative number), then the magnitude in binary. */
  function DirectCode(n: int): (r: string)
    ensures IsBits(r) && |r| >= 2
    ensures r[0] == '1' <==> n < 0
    ensures Value(r[1..]) == Abs(n)
    ensures n != 0 ==> r[1] == '1'
  {
    ToBinaryCorrect(Abs(n));
    var sign := if n >= 0 then "0" else "1";
    assert (sign + ToBinary(Abs(n)))[1..] == ToBinary(Abs(n));
    sign + ToBinary(Abs(n))
  }

  /** `reverse_code()`: the direct code for n >= 0; for n < 0 the sign '1' and every magnitude bit complemented. */
  function ReverseCode(n: int): (r: string)
    ensures IsBits(r) && |r| == |DirectCode(n)|
    ensures r[0] == DirectCode(n)[0]
    ensures n < 0 ==> r[1..] == Flip(DirectCode(n)[1..])
    ensures Signed(r) == if n >= 0 then n else n - 1
  {
    var d := DirectCode(n);
    if n >= 0 then
      HeadValue(d);
      d
    else
      var r := "1" + Flip(d[1..]);
      assert r[1..] == Flip(d[1..]);
      assert IsBits(r);
      OnesComplementSigned(d[1..]);
      r
  }

  /** '1' followed by the complement of a numeral with a leading '1' reads as -(value + 1). */
  lemma OnesComplementSigned(b: string)
    requires IsBits(b) && |b| > 0 && b[0] == '1'
    ensures Signed("1" + Flip(b)) == -(Value(b) as int) - 1
  {
    var r := "1" + Flip(b);
    assert r[1..] == Flip(b);
    HeadValue(r);
    FlipValue(b);
    assert Pow2(|r|) == 2 * Pow2(|b|);
  }

  /** The loop of `reverse_code()`: '0' becomes '1' and '1' becomes '0' after the sign bit. */
  method ReverseCodeOf(n: int) returns (code: string)
    ensures code == ReverseCode(n)
  {
    var direct := DirectCode(n);
    if n >= 0 {
      return direct;
    }
    code := InvertMagnitude(direct);
    ReverseCodeNegative(n);
  }

  /** The bit loop itself: the sign '1', then each bit of `direct` after the first complemented. */
  method InvertMagnitude(direct: string) returns (code: string)
    requires IsBits(direct) && |direct| > 0
    ensures code == "1" + Flip(direct[1..])
  {
    var magnitude := direct[1..];
    code := "1";
    for i := 0 to |magnitude|
      invariant code == "1" + Flip(magnitude[..i])
    {
      FlipSnoc(magnitude[..i], magnitude[i]);
      assert magnitude[..i + 1] == magnitude[..i] + [magnitude[i]];
      assert IsBit(direct[i + 1]);
      if magnitude[i] == '0' {
        code := code + "1";
      } else {
        code := code + "0";
      }
    }
    assert magnitude[..|magnitude|] == magnitude;
  }

  lemma FlipSnoc(s: string, c: char)
    ensures Flip(s + [c]) == Flip(s) + [if c == '1' then '0' else '1']
  {
    assert (s + [c])[..|s|] == s;
  }

  /** For a negative number the reverse code is '1' followed by the complemented magnitude. */
  lemma ReverseCodeNegative(n: int)
    requires n < 0
    ensures ReverseCode(n) == "1" + Flip(DirectCode(n)[1..])
  {
    var r := ReverseCode(n);
    assert r == [r[0]] + r[1..];
  }

  /** `additional_code()`: the reverse code for n >= 0; for n < 0 the reverse code plus one, the final carry dropped. */
  function AdditionalCode(n: int): string
  {
    var rev := ReverseCode(n);
    if n >= 0 then rev else Bits(Value(rev) + 1, |rev|)
  }

  /** The additional code is the n-bit two's-complement pattern of n: same length and sign bit as the direct code, signed value n. */
  lemma AdditionalCodeCorrect(n: int)
    ensures IsBits(AdditionalCode(n)) && |AdditionalCode(n)| == |DirectCode(n)|
    ensures AdditionalCode(n)[0] == DirectCode(n)[0]
    ensures Signed(AdditionalCode(n)) == n
    ensures n < 0 ==> Value(AdditionalCode(n)) == Value(ReverseCode(n)) + 1
  {
    var rev := ReverseCode(n);
    if n < 0 {
      var v := Value(rev) + 1;
      var r := Bits(v, |rev|);
      assert AdditionalCode(n) == r;
      BitsCorrect(v, |rev|);
      NegativeIncrement(n, rev);
      ModOfSmall(v, Pow2(|rev|));
      assert Value(r) == n % Pow2(|r|);
      SignedOfValue(r, n);
      SignedBounds(r);
    }
  }

  /** For n < 0 adding one to the ones' complement code does not overflow, and the two's-complement pattern of n results. */
  lemma NegativeIncrement(n: int, rev: string)
    requires n < 0 && rev == ReverseCode(n)
    ensures Value(rev) + 1 < Pow2(|rev|)
    ensures (Value(rev) + 1) % Pow2(|rev|) == n % Pow2(|rev|)
    ensures -(Pow2(|rev| - 1) as int) <= n < Pow2(|rev| - 1)
  {
    IncrementSigned(rev, n);
  }

  /** Adding one to the pattern of a negative signed value n - 1 gives the pattern of n without a carry out. */
  lemma IncrementSigned(rev: string, n: int)
    requires IsBits(rev) && |rev| > 0 && n < 0 && Signed(rev) == n - 1
    ensures Value(rev) + 1 < Pow2(|rev|)
    ensures (Value(rev) + 1) % Pow2(|rev|) == n % Pow2(|rev|)
    ensures -(Pow2(|rev| - 1) as int) <= n < Pow2(|rev| - 1)
  {
    SignedBounds(rev);
    var P := Pow2(|rev|);
    assert P == 2 * Pow2(|rev| - 1);
    assert Value(rev) + 1 == n + P;
    ModOfSmall(n + P, P);
    ModOfNegative(n, P);
  }

  /** The carry loop of `additional_code()`. */
  method AdditionalCodeOf(n: int) returns (code: string)
    ensures code == AdditionalCode(n)
  {
    var reverse := ReverseCodeOf(n);
    if n >= 0 {
      return reverse;
    }
    code := AddOne(reverse);
    IncrementIsAdditional(n, reverse, code);
  }

  /** The incremented reverse code of a negative number, carry dropped, is its additional code. */
  lemma IncrementIsAdditional(n: int, reverse: string, code: string)
    requires n < 0 && reverse == ReverseCode(n)
    requires IsBits(code) && |code| == |reverse| && Value(code) == (Value(reverse) + 1) % Pow2(|reverse|)
    ensures code == AdditionalCode(n)
  {
    NegativeIncrement(n, reverse);
    ModOfSmall(Value(reverse) + 1, Pow2(|reverse|));
    AdditionalCodeCorrect(n);
    BitsUnique(code, AdditionalCode(n));
  }

  /** From the last bit, '1' becomes '0' while the carry lasts; the first '0' becomes '1' and ends it; a carry out of the first bit is lost. */
  method AddOne(reverse: string) returns (code: string)
    requires IsBits(reverse)
    ensures IsBits(code) && |code| == |reverse|
    ensures Value(code) == (Value(reverse) + 1) % Pow2(|reverse|)
  {
    var len := |reverse|;
    code := reverse;
    var carry := 1;
    var i := len;
    while i > 0
      invariant 0 <= i <= len && |code| == len && IsBits(code)
      invariant carry == 0 || carry == 1
      invariant Value(code) + (if carry == 1 then Pow2(len - i) else 0) == Value(reverse) + 1
    {
      i := i - 1;
      assert Pow2(len - i) == 2 * Pow2(len - 1 - i);
      if code[i] == '0' && carry == 1 {
        ValueUpdate(code, i, '1');
        code := code[i := '1'];
        carry := 0;
      } else if code[i] == '1' && carry == 1 {
        ValueUpdate(code, i, '0');
        code := code[i := '0'];
      }
    }
    ValueBound(code);
    assert Value(code) + carry * Pow2(len) == Value(reverse) + 1;
    ModUnique(Value(code) + carry * Pow2(len), Pow2(len), carry, Value(code));
  }

  /** Writing the other bit at position i adds or removes its weight 2^(len - 1 - i) and keeps a '0'/'1' string. */
  lemma ValueUpdate(s: string, i: nat, c: char)
    requires i < |s| && IsBits(s) && IsBit(c) && s[i] != c
    ensures IsBits(s[i := c])
    ensures c == '1' ==> Value(s[i := c]) == Value(s) + Pow2(|s| - 1 - i)
    ensures c == '0' ==> Value(s[i := c]) + Pow2(|s| - 1 - i) == Value(s)
  {
    var t := s[i := c];
    assert t[..i] == s[..i] && t[i + 1..] == s[i + 1..] && t[i] == c;
    BitsUpdate(s, i, c);
    ValueAt(s, i);
    ValueAt(t, i);
  }

  /** The value of a string split around position i. */
  lemma ValueAt(s: string, i: nat)
    requires i < |s|
    ensures Value(s) == Value(s[..i]) * Pow2(|s| - i) + BitValue(s[i]) * Pow2(|s| - 1 - i) + Value(s[i + 1..])
  {
    var u := s[i..];
    assert s == s[..i] + u;
    assert |u| == |s| - i && u[0] == s[i] && u[1..] == s[i + 1..];
    ValueConcat(s[..i], u);
    HeadValue(u);
  }

  lemma BitsUpdate(s: string, i: nat, c: char)
    requires i < |s| && IsBits(s) && IsBit(c)
    ensures IsBits(s[i := c])
  {
    var t := s[i := c];
    forall j | 0 <= j < |t|
      ensures IsBit(t[j])
    {
      if j != i {
        assert IsBit(s[j]);
      }
    }
  }

  /** The three codes of one number have the same length. */
  lemma CodesSameLength(n: int)
    ensures |DirectCode(n)| == |ReverseCode(n)| == |AdditionalCode(n)| == |ToBinary(Abs(n))| + 1
  {
    ToBinaryCorrect(Abs(n));
  }
}
