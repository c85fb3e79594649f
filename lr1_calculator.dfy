/**
 * The integer operations of LR_1's BinaryCalculator on '0'/'1' strings: sign extension, plain
 * binary addition, two's-complement ("additional code") sum and difference, sign-magnitude
 * ("direct code") product and quotient, comparison, subtraction, and the sum of two positive
 * single-precision numbers in the binary32 layout of section 3.4 of IEEE 754-2008.
 */
module Lr1BinaryCalculator {
  import opened Wrappers
  import opened Text
  import opened BitStrings
  import opened BitArithmetic

  function Max(a: nat, b: nat): nat
  {
    if a >= b then a else b
  }

  // ---------------------------------------------------------------- sign_extend

  /** `sign_extend(bin_str, new_len)`: copies of the first bit in front, up to `new_len` characters. */
  function SignExtend(binStr: string, newLen: int): (r: Result<string>)
    ensures |binStr| >= newLen ==> r == Ok(binStr)
    ensures |binStr| < newLen ==> (r.Err? <==> binStr == [])
    ensures r.Ok? && |binStr| < newLen ==> |r.value| == newLen && r.value[newLen - |binStr|..] == binStr
    ensures r.Ok? && |binStr| < newLen ==> forall i | 0 <= i < newLen - |binStr| :: r.value[i] == binStr[0]
  {
    if |binStr| >= newLen then Ok(binStr)
    else if binStr == [] then Err(IndexError("string index out of range"))
    else Ok(Repeat(binStr[0], newLen - |binStr|) + binStr)
  }

  /** Sign extension keeps the two's-complement value of a bit string. */
  lemma SignExtendSigned(s: string, w: int)
    requires IsBits(s) && |s| > 0
    ensures SignExtend(s, w).Ok?
    ensures IsBits(SignExtend(s, w).value) && Signed(SignExtend(s, w).value) == Signed(s)
  {
    if |s| < w {
      var pad := Repeat(s[0], w - |s|);
      assert SignExtend(s, w).value == pad + s;
      PadSigned(s, w - |s|);
    }
  }

  /** Copies of the leading bit put in front keep the two's-complement value. */
  lemma PadSigned(s: string, k: nat)
    requires IsBits(s) && |s| > 0
    ensures IsBits(Repeat(s[0], k) + s) && Signed(Repeat(s[0], k) + s) == Signed(s)
  {
    var pad := Repeat(s[0], k);
    var r := pad + s;
    assert IsBits(pad);
    BitsConcat(pad, s);
    ValueConcat(pad, s);
    Pow2Add(k, |s|);
    if k > 0 {
      assert r[0] == s[0];
    } else {
      assert r == s;
    }
    if s[0] == '1' {
      OnesValue(k);
      PadArith(Pow2(k), Pow2(|s|), Value(s));
    } else {
      ZerosValue(k);
    }
  }

  lemma PadArith(p: int, q: int, v: int)
    ensures (p - 1) * q + v - p * q == v - q
  {
  }

  // ---------------------------------------------------------------- add_binaries

  /** `zfill` on a bit string: leading zeros up to the width, the value unchanged. */
  lemma ZFillBits(s: string, w: nat)
    requires IsBits(s)
    ensures IsBits(ZFill(s, w)) && Value(ZFill(s, w)) == Value(s)
    ensures |ZFill(s, w)| == Max(|s|, w)
  {
    if |s| < w {
      if |s| > 0 {
        assert IsBit(s[0]);
      }
      assert ZFill(s, w) == Repeat('0', w - |s|) + s;
      ValueZeros(w - |s|, s);
      BitsConcat(Repeat('0', w - |s|), s);
    }
  }

  /**
   * `add_binaries(bin1, bin2)`: both operands zero-filled to the longer length, added bit by bit from
   * the last with a carry, and a final carry put in front.
   */
  method AddBinaries(bin1: string, bin2: string) returns (r: string)
    requires IsBits(bin1) && IsBits(bin2)
    ensures IsBits(r) && Value(r) == Value(bin1) + Value(bin2)
    ensures |r| == if Value(bin1) + Value(bin2) < Pow2(Max(|bin1|, |bin2|)) then Max(|bin1|, |bin2|) else Max(|bin1|, |bin2|) + 1
  {
    var maxLen := Max(|bin1|, |bin2|);
    ZFillBits(bin1, maxLen);
    ZFillBits(bin2, maxLen);
    var a := ZFill(bin1, maxLen);
    var b := ZFill(bin2, maxLen);
    var carry := 0;
    var result := "";
    var i := maxLen;
    while i > 0
      invariant 0 <= i <= maxLen && |result| == maxLen - i && IsBits(result)
      invariant carry == 0 || carry == 1
      invariant Value(result) + carry * Pow2(maxLen - i) == Value(a[i..]) + Value(b[i..])
    {
      i := i - 1;
      var bitA := BitValue(a[i]);
      var bitB := BitValue(b[i]);
      var sumBits := bitA + bitB + carry;
      var resultBit := sumBits % 2;
      var digit := if resultBit == 1 then '1' else '0';
      AddColumn(a, b, i, result, carry, digit, sumBits / 2);
      carry := sumBits / 2;
      result := [digit] + result;
    }
    assert a[0..] == a && b[0..] == b;
    if carry == 1 {
      result := "1" + result;
    }
    CarryOut(Value(bin1) + Value(bin2), maxLen, result, carry);
    r := result;
  }

  /** The final carry, when there is one, goes in front: the sum has one more digit exactly when it reaches 2^len. */
  lemma CarryOut(total: nat, len: nat, r: string, carry: nat)
    requires carry <= 1 && |r| == len + carry
    requires IsBits(r[carry..]) && Value(r[carry..]) + carry * Pow2(len) == total
    requires carry == 1 ==> r[0] == '1'
    ensures IsBits(r) && Value(r) == total
    ensures |r| == if total < Pow2(len) then len else len + 1
  {
    var tail := r[carry..];
    ValueBound(tail);
    if carry == 1 {
      assert r == ['1'] + tail;
      PrependBit('1', tail);
    } else {
      assert r == tail;
    }
  }

  /** One column of the addition: the digit goes in front, the carry moves one place up. */
  lemma AddColumn(a: string, b: string, i: nat, tail: string, carryIn: nat, digit: char, carryOut: nat)
    requires |a| == |b| && i < |a| && IsBits(tail) && |tail| == |a| - i - 1 && IsBit(digit)
    requires Value(tail) + carryIn * Pow2(|a| - i - 1) == Value(a[i + 1..]) + Value(b[i + 1..])
    requires BitValue(a[i]) + BitValue(b[i]) + carryIn == BitValue(digit) + 2 * carryOut
    ensures IsBits([digit] + tail)
    ensures Value([digit] + tail) + carryOut * Pow2(|a| - i) == Value(a[i..]) + Value(b[i..])
  {
    SuffixStep(a, i);
    SuffixStep(b, i);
    PrependBit(digit, tail);
    ColumnArith(Pow2(|a| - i - 1), Value(a[i + 1..]), Value(b[i + 1..]), Value(tail),
      BitValue(a[i]), BitValue(b[i]), carryIn, BitValue(digit), carryOut);
  }

  lemma ColumnArith(p: nat, va: nat, vb: nat, vt: nat, ba: nat, bb: nat, carryIn: nat, digit: nat, carryOut: nat)
    requires vt + carryIn * p == va + vb
    requires ba + bb + carryIn == digit + 2 * carryOut
    ensures (digit * p + vt) + carryOut * (2 * p) == (ba * p + va) + (bb * p + vb)
  {
    assert (digit + 2 * carryOut) * p == digit * p + carryOut * (2 * p);
    assert (ba + bb + carryIn) * p == ba * p + bb * p + carryIn * p;
  }

  // ---------------------------------------------------------------- additional code

  /** A remainder modulo 2^(m + j) keeps the remainder modulo 2^m. */
  lemma ModPow2Mod(x: int, m: nat, j: nat)
    ensures (x % Pow2(m + j)) % Pow2(m) == x % Pow2(m)
  {
    Pow2Add(m, j);
    var big := Pow2(m + j);
    assert x == (x / big) * big + x % big;
    assert (x / big) * big == ((x / big) * Pow2(j)) * Pow2(m);
    ModAddMultiple(x % big, (x / big) * Pow2(j), Pow2(m));
  }

  /** The value of the last m bits of a string agrees with its signed value modulo 2^m. */
  lemma SuffixCongruent(s: string, m: nat)
    requires m <= |s|
    ensures Value(s[|s| - m..]) == Signed(s) % Pow2(m)
  {
    SuffixValue(s, m);
    SignedCongruent(s);
    ModPow2Mod(Value(s), m, |s| - m);
    ModPow2Mod(Signed(s), m, |s| - m);
  }

  /**
   * `sum_additional_code(bin1, bin2)`: both operands sign-extended to one bit more than the longer, added,
   * and an extra carry bit cut off; the result is the two's-complement sum, which always fits. An
   * empty operand fails in `sign_extend`.
   */
  method SumAdditionalCode(bin1: string, bin2: string) returns (r: Result<string>)
    requires IsBits(bin1) && IsBits(bin2)
    ensures r.Err? <==> bin1 == [] || bin2 == []
    ensures r.Ok? ==> IsBits(r.value) && |r.value| == Max(|bin1|, |bin2|) + 1
    ensures r.Ok? ==> Signed(r.value) == Signed(bin1) + Signed(bin2)
    ensures r.Ok? ==> Value(r.value) == (Signed(bin1) + Signed(bin2)) % Pow2(|r.value|)
  {
    var maxLen := Max(|bin1|, |bin2|) + 1;
    var extended1 := SignExtend(bin1, maxLen);
    var extended2 := SignExtend(bin2, maxLen);
    if extended1.Err? || extended2.Err? {
      return Err(IndexError("string index out of range"));
    }
    SignExtendSigned(bin1, maxLen);
    SignExtendSigned(bin2, maxLen);
    var a := extended1.value;
    var b := extended2.value;
    assert |a| == maxLen && |b| == maxLen;
    var sum := AddBinaries(a, b);
    ExtendedSumMod(a, b, sum, Signed(bin1), Signed(bin2));
    OperandsFit(bin1, bin2, maxLen);
    CutCongruent(sum, maxLen, Signed(bin1) + Signed(bin2));
    var result := sum;
    if |result| > maxLen {
      result := result[|result| - maxLen..];
    } else {
      assert result[|result| - maxLen..] == result;
    }
    r := Ok(result);
  }

  /** The sum of two strings of one length m is congruent modulo 2^m to the sum of their signed values. */
  lemma ExtendedSumMod(a: string, b: string, sum: string, x: int, y: int)
    requires |a| == |b| > 0 && Signed(a) == x && Signed(b) == y && Value(sum) == Value(a) + Value(b)
    ensures Value(sum) % Pow2(|a|) == (x + y) % Pow2(|a|)
  {
    WrapSum(Value(sum), x, y, Value(a) - x, Value(b) - y, Pow2(|a|));
  }

  /** A sum that differs from x + y by zero, one or two multiples of p is congruent to x + y modulo p. */
  lemma WrapSum(s: int, x: int, y: int, ha: int, hb: int, p: int)
    requires p > 0 && s == x + y + ha + hb && (ha == 0 || ha == p) && (hb == 0 || hb == p)
    ensures s % p == (x + y) % p
  {
    if ha == p && hb == p {
      ModAddMultiple(x + y, 2, p);
    } else if ha == p || hb == p {
      ModAddMultiple(x + y, 1, p);
    }
  }

  /** Complementing every bit maps a signed value x to -x - 1. */
  lemma FlipSigned(s: string)
    requires IsBits(s) && |s| > 0
    ensures IsBits(Flip(s)) && Signed(Flip(s)) == -Signed(s) - 1
  {
    FlipValue(s);
  }

  /**
   * `subtract_additional_code(bin1, bin2)`: the second operand is sign-extended, complemented and
   * incremented (through `sum_additional_code`), added to the extended first operand, and the result
   * cut to one bit more than the longer operand: the two's-complement difference. An empty operand
   * fails in `sign_extend`.
   */
  method SubtractAdditionalCode(bin1: string, bin2: string) returns (r: Result<string>)
    requires IsBits(bin1) && IsBits(bin2)
    ensures r.Err? <==> bin1 == [] || bin2 == []
    ensures r.Ok? ==> IsBits(r.value) && |r.value| == Max(|bin1|, |bin2|) + 1
    ensures r.Ok? ==> Signed(r.value) == Signed(bin1) - Signed(bin2)
    ensures r.Ok? ==> Value(r.value) == (Signed(bin1) - Signed(bin2)) % Pow2(|r.value|)
  {
    var maxLen := Max(|bin1|, |bin2|) + 1;
    var extended1 := SignExtend(bin1, maxLen);
    var extended2 := SignExtend(bin2, maxLen);
    if extended1.Err? || extended2.Err? {
      return Err(IndexError("string index out of range"));
    }
    SignExtendSigned(bin1, maxLen);
    SignExtendSigned(bin2, maxLen);
    var a := extended1.value;
    var twosComplement := Negated(extended2.value);
    var sum := SumAdditionalCode(a, twosComplement);
    assert |sum.value| == maxLen + 2 && Signed(sum.value) == Signed(bin1) - Signed(bin2);
    OperandsFit(bin1, bin2, maxLen);
    CutToWidth(sum.value, maxLen, Signed(bin1) - Signed(bin2));
    var result := sum.value[|sum.value| - maxLen..];
    assert |result| == maxLen;
    r := Ok(result);
  }

  /**
   * The subtrahend's two's complement in `subtract_additional_code`: its bits complemented, then
   * `'1'.zfill(max_len)` added through `sum_additional_code`.
   */
  method Negated(b: string) returns (t: string)
    requires IsBits(b) && |b| >= 2
    ensures IsBits(t) && |t| == |b| + 1 && Signed(t) == -Signed(b)
  {
    var invertedB := Flip(b);
    FlipSigned(b);
    var one := ZFill("1", |b|);
    assert one == Repeat('0', |b| - 1) + "1";
    OneSigned(|b|);
    var sum := SumAdditionalCode(invertedB, one);
    t := sum.value;
  }

  /** Keeping the last m bits of a two's-complement string whose value fits in m bits keeps the value. */
  lemma CutToWidth(s: string, m: nat, y: int)
    requires IsBits(s) && 0 < m <= |s| && Signed(s) == y
    requires -(Pow2(m - 1) as int) <= y < Pow2(m - 1)
    ensures IsBits(s[|s| - m..]) && |s[|s| - m..]| == m
    ensures Signed(s[|s| - m..]) == y && Value(s[|s| - m..]) == y % Pow2(m)
  {
    SuffixCongruent(s, m);
    SignedOfValue(s[|s| - m..], y);
  }

  /** Keeping the last m bits of a string whose value is congruent to y modulo 2^m, for y in the signed m-bit range, gives y. */
  lemma CutCongruent(s: string, m: nat, y: int)
    requires IsBits(s) && 0 < m <= |s| && Value(s) % Pow2(m) == y % Pow2(m)
    requires -(Pow2(m - 1) as int) <= y < Pow2(m - 1)
    ensures IsBits(s[|s| - m..]) && |s[|s| - m..]| == m
    ensures Signed(s[|s| - m..]) == y && Value(s[|s| - m..]) == y % Pow2(m)
  {
    SuffixBits(s, |s| - m);
    SuffixValue(s, m);
    SignedOfValue(s[|s| - m..], y);
  }

  /** The sum and the difference of two signed values fit in one bit more than the longer operand. */
  lemma OperandsFit(bin1: string, bin2: string, m: nat)
    requires IsBits(bin1) && IsBits(bin2) && |bin1| > 0 && |bin2| > 0 && m == Max(|bin1|, |bin2|) + 1
    ensures -(Pow2(m - 1) as int) <= Signed(bin1) + Signed(bin2) < Pow2(m - 1)
    ensures -(Pow2(m - 1) as int) <= Signed(bin1) - Signed(bin2) < Pow2(m - 1)
  {
    SignedBounds(bin1);
    SignedBounds(bin2);
    Pow2Monotone(|bin1| - 1, m - 2);
    Pow2Monotone(|bin2| - 1, m - 2);
    assert Pow2(m - 1) == 2 * Pow2(m - 2);
  }

  /** `'1'.zfill(m)` for m >= 2 reads as +1. */
  lemma OneSigned(m: nat)
    requires m >= 2
    ensures IsBits(Repeat('0', m - 1) + "1") && Signed(Repeat('0', m - 1) + "1") == 1
  {
    var s := Repeat('0', m - 1) + "1";
    ValueZeros(m - 1, "1");
    assert Value("1") == 1 by { ValueOfBit('1'); }
    assert s[0] == '0';
    BitsConcat(Repeat('0', m - 1), "1");
  }

  // ---------------------------------------------------------------- direct code

  /** The magnitude part `s[1:] if len(s) > 1 else s` of a direct-code operand. */
  function Magnitude(s: string): string
  {
    if |s| > 1 then s[1..] else s
  }

  /** The sign character of a product or quotient: '0' exactly when the sign bits agree. */
  function SignOf(a: string, b: string): char
    requires |a| > 0 && |b| > 0
  {
    if a[0] == b[0] then '0' else '1'
  }

  /**
   * `multiply_direct_code(bin1, bin2)`: shift-and-add over the second magnitude from its last bit, with
   * the sign '0' exactly when the sign bits agree.
   */
  method MultiplyDirectCode(bin1: string, bin2: string) returns (r: Result<string>)
    requires IsBits(bin1) && IsBits(bin2)
    ensures r.Err? <==> bin1 == [] || bin2 == []
    ensures r.Ok? ==> |r.value| >= 2 && IsBits(r.value)
    ensures r.Ok? ==> (r.value[0] == '0' <==> bin1[0] == bin2[0])
    ensures r.Ok? ==> Value(r.value[1..]) == Value(Magnitude(bin1)) * Value(Magnitude(bin2))
  {
    if bin1 == [] || bin2 == [] {
      return Err(IndexError("string index out of range"));
    }
    var sign := SignOf(bin1, bin2);
    var bin1Mod := Magnitude(bin1);
    var bin2Mod := Magnitude(bin2);
    var len := |bin2Mod|;
    var result := "0";
    var i := len;
    assert Value("0") == 0 by { ValueOfBit('0'); }
    while i > 0
      invariant 0 <= i <= len && IsBits(result) && |result| > 0
      invariant Value(result) == Value(bin1Mod) * Value(bin2Mod[i..])
    {
      i := i - 1;
      SuffixStep(bin2Mod, i);
      var before := result;
      if bin2Mod[i] == '1' {
        var shifted := bin1Mod + Repeat('0', len - 1 - i);
        ShiftedValue(bin1Mod, len - 1 - i);
        result := AddBinaries(result, shifted);
      }
      ShiftAddColumn(Value(bin1Mod), BitValue(bin2Mod[i]), Pow2(len - 1 - i), Value(bin2Mod[i + 1..]), Value(before), Value(result));
    }
    assert bin2Mod[0..] == bin2Mod;
    var product := [sign] + result;
    assert product[1..] == result;
    BitsConcat([sign], result);
    r := Ok(product);
  }

  /** One column of shift-and-add: the partial product grows by the multiplicand at the column's weight exactly when the bit is 1. */
  lemma ShiftAddColumn(m: nat, bit: nat, p: nat, rest: nat, before: nat, after: nat)
    requires before == m * rest && (bit == 0 || bit == 1)
    requires bit == 1 ==> after == before + m * p
    requires bit == 0 ==> after == before
    ensures after == m * (bit * p + rest)
  {
    if bit == 1 {
      assert m * (p + rest) == m * p + m * rest;
    }
  }

  /** Appending k zeros multiplies the value by 2^k. */
  lemma ShiftedValue(s: string, k: nat)
    requires IsBits(s)
    ensures IsBits(s + Repeat('0', k)) && Value(s + Repeat('0', k)) == Value(s) * Pow2(k)
  {
    ValueConcat(s, Repeat('0', k));
    ZerosValue(k);
    BitsConcat(s, Repeat('0', k));
  }

  // ---------------------------------------------------------------- binary_compare

  /** Equal-length bit strings compare as Python strings exactly as their values compare. */
  lemma {:induction false} StrLeValue(a: string, b: string)
    requires IsBits(a) && IsBits(b) && |a| == |b|
    ensures StrLe(a, b) <==> Value(a) <= Value(b)
    decreases |a|
  {
    if a != [] {
      HeadValue(a);
      HeadValue(b);
      ValueBound(a[1..]);
      ValueBound(b[1..]);
      assert IsBit(a[0]) && IsBit(b[0]);
      StrLeValue(a[1..], b[1..]);
    }
  }

  /**
   * `binary_compare(a, b)`: the shorter operand zero-filled, then compared as strings; 1, 0 or -1 as
   * the first is greater than, equal to or less than the second. Equal-length bit strings compare as
   * strings exactly as their values compare (StrLeValue).
   */
  function BinaryCompare(a: string, b: string): (r: int)
    requires IsBits(a) && IsBits(b)
    ensures r == 1 <==> Value(a) > Value(b)
    ensures r == 0 <==> Value(a) == Value(b)
    ensures r == -1 <==> Value(a) < Value(b)
  {
    ZFillBits(a, |b|);
    ZFillBits(b, |a|);
    var a' := if |a| > |b| then a else ZFill(a, |b|);
    var b' := if |a| > |b| then ZFill(b, |a|) else b;
    StrLeValue(a', b');
    StrLeValue(b', a');
    SameBitsIffSameValue(a', b');
    if !StrLe(a', b') then 1
    else if a' == b' then 0
    else -1
  }

  lemma SameBitsIffSameValue(a: string, b: string)
    requires IsBits(a) && IsBits(b) && |a| == |b|
    ensures a == b <==> Value(a) == Value(b)
  {
    if Value(a) == Value(b) {
      BitsUnique(a, b);
    }
  }

  // ---------------------------------------------------------------- subtract_direct_code

  /**
   * `subtract_direct_code(a, b)`: both zero-filled to the longer length, subtracted bit by bit from the
   * last with a borrow, and leading zeros stripped ("0" for zero). The source appends each digit and
   * reverses the list at the end; here each digit is put in front.
   */
  method SubtractDirectCode(a: string, b: string) returns (r: string)
    requires IsBits(a) && IsBits(b)
    ensures IsBits(r) && r == ToBinary(Value(r))
    ensures Value(r) == (Value(a) - Value(b)) % Pow2(Max(|a|, |b|))
    ensures Value(a) >= Value(b) ==> Value(r) == Value(a) - Value(b)
  {
    var len := Max(|a|, |b|);
    ZFillBits(a, len);
    ZFillBits(b, len);
    var a' := ZFill(a, len);
    var b' := ZFill(b, len);
    var result, borrow := SubtractColumns(a', b');
    r := Canonical(result);
    CanonicalIsToBinary(result);
    ToBinaryCorrect(Value(result));
    ValueBound(a);
    DifferenceOfBorrows(Value(a), Value(b), |a|, len, result, borrow);
  }

  /** The borrow loop of `subtract_direct_code` over two equal-length strings, from the last column to the first. */
  method SubtractColumns(x: string, y: string) returns (result: string, borrow: nat)
    requires IsBits(x) && IsBits(y) && |x| == |y|
    ensures IsBits(result) && |result| == |x| && (borrow == 0 || borrow == 1)
    ensures Value(result) - borrow * Pow2(|x|) == Value(x) - Value(y)
  {
    var len := |x|;
    result := "";
    borrow := 0;
    var i := len;
    while i > 0
      invariant 0 <= i <= len && |result| == len - i && IsBits(result)
      invariant borrow == 0 || borrow == 1
      invariant Value(result) - borrow * Pow2(len - i) == Value(x[i..]) - Value(y[i..])
    {
      i := i - 1;
      var bitA := BitValue(x[i]);
      var bitB := BitValue(y[i]);
      var borrowIn := borrow;
      var diff := bitA - bitB - borrow;
      if diff < 0 {
        diff := diff + 2;
        borrow := 1;
      } else {
        borrow := 0;
      }
      var digit := if diff == 1 then '1' else '0';
      BorrowColumn(x, y, i, result, borrowIn, digit, borrow);
      result := [digit] + result;
    }
    assert x[0..] == x && y[0..] == y;
  }

  /** One column of the subtraction: the digit goes in front, the borrow moves one place up. */
  lemma BorrowColumn(a: string, b: string, i: nat, tail: string, borrowIn: nat, digit: char, borrowOut: nat)
    requires |a| == |b| && i < |a| && IsBits(tail) && |tail| == |a| - i - 1 && IsBit(digit)
    requires Value(tail) - borrowIn * Pow2(|a| - i - 1) == Value(a[i + 1..]) - Value(b[i + 1..])
    requires BitValue(a[i]) - BitValue(b[i]) - borrowIn == BitValue(digit) - 2 * borrowOut
    ensures IsBits([digit] + tail)
    ensures Value([digit] + tail) - borrowOut * Pow2(|a| - i) == Value(a[i..]) - Value(b[i..])
  {
    SuffixStep(a, i);
    SuffixStep(b, i);
    PrependBit(digit, tail);
    BorrowArith(Pow2(|a| - i - 1), Value(a[i + 1..]), Value(b[i + 1..]), Value(tail),
      BitValue(a[i]), BitValue(b[i]), borrowIn, BitValue(digit), borrowOut);
  }

  lemma BorrowArith(p: nat, va: nat, vb: nat, vt: nat, ba: nat, bb: nat, borrowIn: nat, digit: nat, borrowOut: nat)
    requires vt - borrowIn * p == va - vb
    requires ba - bb - borrowIn == digit - 2 * borrowOut
    ensures (digit * p + vt) - borrowOut * (2 * p) == (ba * p + va) - (bb * p + vb)
  {
    assert (digit - 2 * borrowOut) * p == digit * p - borrowOut * (2 * p);
    assert (ba - bb - borrowIn) * p == ba * p - bb * p - borrowIn * p;
  }

  /** The digits left by the borrow loop are the difference modulo 2^len, and the difference itself when it is not negative. */
  lemma DifferenceOfBorrows(va: nat, vb: nat, lenA: nat, len: nat, result: string, borrow: nat)
    requires va < Pow2(lenA) && lenA <= len && |result| == len
    requires Value(result) - borrow * Pow2(len) == va - vb
    ensures Value(result) == (va - vb) % Pow2(len)
    ensures va >= vb ==> Value(result) == va - vb
  {
    ValueBound(result);
    BorrowedMod(va - vb, Pow2(len), borrow, Value(result));
    if va >= vb {
      Pow2Monotone(lenA, len);
      ModOfSmall(va - vb, Pow2(len));
    }
  }

  /** A difference that needed `borrow` multiples of p to reach v in [0, p) is v modulo p. */
  lemma BorrowedMod(x: int, p: int, borrow: int, v: int)
    requires 0 <= v < p && v - borrow * p == x
    ensures x % p == v
  {
    assert x == (-borrow) * p + v;
    ModUnique(x, p, -borrow, v);
  }

  // ---------------------------------------------------------------- division_direct_code

  /** The bits of `dividend[1:] + '0' * precision`, the digits the long division brings down. */
  function Dividend(dividend: string, precision: nat): string
    requires |dividend| > 0
  {
    dividend[1..] + Repeat('0', precision)
  }

  /** The binary digits of the quotient ⌊magnitude · 2^precision / divisor⌋, one per brought-down digit. */
  function QuotientDigits(dividend: string, divisor: string, precision: nat): string
    requires |dividend| > 0 && |divisor| > 1 && Value(divisor[1..]) > 0
  {
    var x, d := Dividend(dividend, precision), Value(divisor[1..]);
    DivAtMost(Value(x), d);
    Bits(Value(x) / d, |x|)
  }

  /** `result[:-precision] + '.' + result[-precision:]` with the integer part stripped, as Python slices it (nothing before the point when the precision is 0). */
  function PointAt(result: string, precision: nat): string
    requires precision <= |result|
  {
    if precision == 0 then "0." + result
    else Canonical(result[..|result| - precision]) + "." + result[|result| - precision..]
  }

  /**
   * `division_direct_code(dividend, divisor, precision)`: the sign from the two sign bits; a divisor
   * magnitude of zeros only raises ValueError; otherwise schoolbook division of the dividend magnitude
   * followed by `precision` zeros, a point before the last `precision` digits, and the integer part
   * without leading zeros. When the divisor magnitude starts with '1' the digits are those of the
   * quotient. An empty operand fails on its sign bit.
   */
  method DivisionDirectCode(dividend: string, divisor: string, precision: nat) returns (r: Result<string>)
    requires IsBits(dividend) && IsBits(divisor)
    ensures r.Err? <==> dividend == [] || divisor == [] || Value(divisor[1..]) == 0
    ensures r.Err? ==> (r.error.IndexError? <==> dividend == [] || divisor == [])
    ensures r.Ok? ==> |dividend| > 0 && |divisor| > 1 && |r.value| > 0 && r.value[0] == SignOf(dividend, divisor)
    ensures r.Ok? && |divisor| > 1 && divisor[1] == '1' ==>
      r.value == [SignOf(dividend, divisor)] + PointAt(QuotientDigits(dividend, divisor, precision), precision)
  {
    if dividend == [] || divisor == [] {
      return Err(IndexError("string index out of range"));
    }
    var sign := SignOf(dividend, divisor);
    var dividendBits := dividend[1..];
    var divisorBits := divisor[1..];
    if forall i | 0 <= i < |divisorBits| :: divisorBits[i] == '0' {
      ZerosOnly(divisorBits);
      return Err(ValueError("division by zero"));
    }
    NotZerosOnly(divisorBits);
    var x := dividendBits + Repeat('0', precision);
    assert x == Dividend(dividend, precision);
    BitsConcat(dividendBits, Repeat('0', precision));
    var lead := divisorBits[0] == '1';
    var result := LongDivision(x, divisorBits);
    var text := PointAt(result, precision);
    r := Ok([sign] + text);
    if lead {
      BitsOfValue(result);
      assert result == QuotientDigits(dividend, divisor, precision);
    }
  }

  /**
   * The digit loop of `division_direct_code`: each brought-down digit extends the remainder, and a
   * quotient digit '1' is written when the remainder reaches the divisor, which is then subtracted.
   * When the divisor starts with '1' a shorter remainder is always less than the divisor, so the digits
   * are those of the quotient.
   */
  method LongDivision(x: string, divisorBits: string) returns (result: string)
    requires IsBits(x) && IsBits(divisorBits) && |divisorBits| > 0 && Value(divisorBits) > 0
    ensures |result| == |x| && IsBits(result)
    ensures divisorBits[0] == '1' ==> Value(result) == Value(x) / Value(divisorBits)
  {
    var lead := divisorBits[0] == '1';
    var d := Value(divisorBits);
    result := "";
    var remainder := "";
    assert x[..0] == "" && Value("") == 0;
    ModUnique(0, d, 0, 0);
    for i := 0 to |x|
      invariant |result| == i && IsBits(result) && IsBits(remainder)
      invariant lead ==> Value(result) == Value(x[..i]) / d && Value(remainder) == Value(x[..i]) % d
    {
      var extended := remainder + [x[i]];
      BitsConcat(remainder, [x[i]]);
      var digit: char;
      var next: string;
      if |extended| < |divisorBits| {
        digit, next := '0', extended;
        if lead {
          ShortRemainder(extended, divisorBits);
        }
      } else if BinaryCompare(extended, divisorBits) >= 0 {
        digit := '1';
        next := SubtractDirectCode(extended, divisorBits);
      } else {
        digit, next := '0', extended;
      }
      if lead {
        LongDivisionStep(x, i, result, remainder, d, digit, next);
      }
      BitsConcat(result, [digit]);
      result := result + [digit];
      remainder := next;
    }
    assert x[..|x|] == x;
  }

  /** A string of zeros has value 0, and a string with a '1' has a positive value. */
  lemma ZerosOnly(s: string)
    requires forall i | 0 <= i < |s| :: s[i] == '0'
    ensures Value(s) == 0
  {
    assert s == Repeat('0', |s|);
    ZerosValue(|s|);
  }

  lemma NotZerosOnly(s: string)
    requires IsBits(s) && exists i | 0 <= i < |s| :: s[i] != '0'
    ensures Value(s) > 0
  {
    var i :| 0 <= i < |s| && s[i] != '0';
    assert IsBit(s[i]);
    var t := s[i..];
    assert s == s[..i] + t;
    ValueConcat(s[..i], t);
    LeadingOneValue(t);
  }

  /** A remainder shorter than a divisor with a leading '1' is smaller than it. */
  lemma ShortRemainder(rem: string, divisor: string)
    requires |rem| < |divisor| && |divisor| > 0 && divisor[0] == '1'
    ensures Value(rem) < Value(divisor)
  {
    ValueBound(rem);
    LeadingOneValue(divisor);
    Pow2Monotone(|rem|, |divisor| - 1);
  }

  /** One step of long division on the digits of x: the quotient gains a digit, the remainder stays below the divisor. */
  lemma LongDivisionStep(x: string, i: nat, result: string, remainder: string, d: nat, digit: char, next: string)
    requires i < |x| && d > 0 && IsBit(digit)
    requires Value(result) == Value(x[..i]) / d && Value(remainder) == Value(x[..i]) % d
    requires digit == '1' <==> Value(remainder + [x[i]]) >= d
    requires Value(next) == Value(remainder + [x[i]]) - BitValue(digit) * d
    ensures Value(result + [digit]) == Value(x[..i + 1]) / d && Value(next) == Value(x[..i + 1]) % d
  {
    assert x[..i + 1] == x[..i] + [x[i]];
    ValueSnoc(x[..i], x[i]);
    ValueSnoc(remainder, x[i]);
    ValueSnoc(result, digit);
    DivStep(Value(x[..i]), BitValue(x[i]), d, BitValue(digit));
  }

  /** Bringing down a bit doubles the quotient and adds the new digit. */
  lemma DivStep(x: nat, b: nat, d: nat, digit: nat)
    requires d > 0 && b < 2 && digit < 2
    requires digit == 1 <==> 2 * (x % d) + b >= d
    ensures (2 * x + b) / d == 2 * (x / d) + digit
    ensures (2 * x + b) % d == 2 * (x % d) + b - digit * d
  {
    var q, rr := x / d, x % d;
    assert x == q * d + rr;
    assert 2 * x + b == (2 * q + digit) * d + (2 * rr + b - digit * d);
    ModUnique(2 * x + b, d, 2 * q + digit, 2 * rr + b - digit * d);
  }

  /** The quotient text of a division whose divisor magnitude starts with '1'. */
  lemma QuotientText(dividend: string, divisor: string, precision: nat)
    requires IsBits(dividend) && |dividend| > 0 && |divisor| > 1 && divisor[1] == '1'
    ensures Value(divisor[1..]) > 0
    ensures |QuotientDigits(dividend, divisor, precision)| == |dividend| - 1 + precision
    ensures Value(QuotientDigits(dividend, divisor, precision)) == Value(dividend[1..]) * Pow2(precision) / Value(divisor[1..])
  {
    LeadingOneValue(divisor[1..]);
    var x := Dividend(dividend, precision);
    ValueConcat(dividend[1..], Repeat('0', precision));
    ZerosValue(precision);
    ValueBound(x);
    var d := Value(divisor[1..]);
    QuotientFits(Value(x), d, |x|);
    assert Value(x) == Value(dividend[1..]) * Pow2(precision);
    assert QuotientDigits(dividend, divisor, precision) == Bits(Value(x) / d, |x|);
  }

  /** A quotient by a positive number fits in as many bits as the dividend. */
  lemma QuotientFits(v: nat, d: nat, n: nat)
    requires d > 0 && v < Pow2(n)
    ensures Value(Bits(v / d, n)) == v / d
  {
    var q := v / d;
    DivAtMost(v, d);
    BitsCorrect(q, n);
    ModOfSmall(q, Pow2(n));
  }

  // ---------------------------------------------------------------- sum_ieee754

  /** The biased exponent field, bits 1..8. */
  function Exponent(s: string): nat
    requires |s| == 32
  {
    Value(s[1..9])
  }

  /** The significand with its hidden leading one, `'1' + s[9:]`, as an integer. */
  function Significand(s: string): nat
    requires |s| == 32
  {
    Pow2(23) + Value(s[9..])
  }

  /** The sum of the significands after the one with the smaller exponent is shifted right (and truncated). */
  function AlignedSum(a: string, b: string): nat
    requires |a| == 32 && |b| == 32
  {
    var ea, eb := Exponent(a), Exponent(b);
    var sa, sb := Significand(a), Significand(b);
    if ea > eb then DivAtMost(sb, Pow2(ea - eb)); sa + sb / Pow2(ea - eb)
    else if eb > ea then DivAtMost(sa, Pow2(eb - ea)); sa / Pow2(eb - ea) + sb
    else sa + sb
  }

  /** The field layout of the sum: sign 0, the larger exponent (one more on a carry), then 23 fraction bits. */
  function Ieee754Sum(a: string, b: string): string
    requires |a| == 32 && |b| == 32
  {
    Pack(Max(Exponent(a), Exponent(b)), AlignedSum(a, b))
  }

  /** A positive number with exponent e and a significand sum s of 24 or 25 digits, normalised to 24. */
  function Pack(e: nat, s: nat): string
  {
    var carry := s >= Pow2(24);
    "0" + FormatBinary(e + (if carry then 1 else 0), 8) + Bits(if carry then s / 2 else s, 23)
  }

  /**
   * `sum_ieee754(bin1, bin2)`: ValueError unless both are 32 characters with sign bit '0'; otherwise the
   * significands are aligned to the larger exponent, added, shifted right once on a carry, and
   * packed behind the exponent written with `08b`.
   */
  method SumIeee754(bin1: string, bin2: string) returns (r: Result<string>)
    requires IsBits(bin1) && IsBits(bin2)
    ensures r.Err? <==> |bin1| != 32 || |bin2| != 32 || bin1[0] != '0' || bin2[0] != '0'
    ensures r.Ok? ==> |bin1| == 32 && |bin2| == 32 && r.value == Ieee754Sum(bin1, bin2)
  {
    if |bin1| != 32 || |bin2| != 32 {
      return Err(ValueError("inputs must be 32 bits long"));
    }
    if bin1[0] != '0' || bin2[0] != '0' {
      return Err(ValueError("only positive numbers are supported"));
    }
    var mantissa1, mantissa2, exp1 := AlignExponents(bin1, bin2);
    var total := AlignedSum(bin1, bin2);
    var mantissaSum := AddBinaries(mantissa1, mantissa2);
    CarryPack(mantissaSum, total, exp1);
    // The branch padding a short sum with zeros cannot run: both significands have 24 digits.
    if |mantissaSum| > 24 {
      mantissaSum := mantissaSum[..|mantissaSum| - 1];
      exp1 := exp1 + 1;
    }
    var fraction := mantissaSum[1..24];
    r := Ok("0" + FormatBinary(exp1, 8) + fraction);
  }

  /** Both ways through the carry branch of `sum_ieee754` pack the sum as Pack does. */
  lemma CarryPack(sum: string, total: nat, e: nat)
    requires IsBits(sum) && Value(sum) == total && |sum| == if total < Pow2(24) then 24 else 25
    ensures |sum| > 24 ==> "0" + FormatBinary(e + 1, 8) + sum[..|sum| - 1][1..24] == Pack(e, total)
    ensures |sum| <= 24 ==> "0" + FormatBinary(e, 8) + sum[1..24] == Pack(e, total)
  {
    NormalisedFraction(sum, total);
    if |sum| > 24 {
      PackOf(e, total, e + 1, sum[..|sum| - 1][1..24]);
    } else {
      PackOf(e, total, e, sum[1..24]);
    }
  }

  /**
   * The alignment step of `sum_ieee754`: the significands `'1' + bin[9:]`, the one with the smaller
   * exponent shifted right by the difference and cut to 24 digits, and the larger exponent.
   */
  method AlignExponents(bin1: string, bin2: string) returns (mantissa1: string, mantissa2: string, exp: nat)
    requires IsBits(bin1) && IsBits(bin2) && |bin1| == 32 && |bin2| == 32
    ensures IsBits(mantissa1) && IsBits(mantissa2) && |mantissa1| == 24 && |mantissa2| == 24
    ensures Value(mantissa1) + Value(mantissa2) == AlignedSum(bin1, bin2)
    ensures exp == Max(Exponent(bin1), Exponent(bin2))
  {
    mantissa1 := "1" + bin1[9..];
    mantissa2 := "1" + bin2[9..];
    SignificandValue(bin1);
    SignificandValue(bin2);
    AlignedSumCases(bin1, bin2);
    var exp1 := Value(bin1[1..9]);
    var exp2 := Value(bin2[1..9]);
    if exp1 > exp2 {
      mantissa2 := Shifted(mantissa2, exp1 - exp2);
      exp2 := exp1;
    } else if exp2 > exp1 {
      mantissa1 := Shifted(mantissa1, exp2 - exp1);
      exp1 := exp2;
    }
    exp := exp1;
  }

  lemma AlignedSumCases(a: string, b: string)
    requires |a| == 32 && |b| == 32
    ensures Exponent(a) > Exponent(b) ==> AlignedSum(a, b) == Significand(a) + Significand(b) / Pow2(Exponent(a) - Exponent(b))
    ensures Exponent(b) > Exponent(a) ==> AlignedSum(a, b) == Significand(a) / Pow2(Exponent(b) - Exponent(a)) + Significand(b)
    ensures Exponent(a) == Exponent(b) ==> AlignedSum(a, b) == Significand(a) + Significand(b)
  {
  }

  /** The packed word from an exponent and fraction that were raised and halved exactly on a carry. */
  lemma PackOf(e: nat, s: nat, e': nat, fraction: string)
    requires e' == e + (if s >= Pow2(24) then 1 else 0)
    requires fraction == Bits(if s >= Pow2(24) then s / 2 else s, 23)
    ensures "0" + FormatBinary(e', 8) + fraction == Pack(e, s)
  {
  }

  lemma PackCases(e: nat, s: nat)
    ensures s >= Pow2(24) ==> Pack(e, s) == "0" + FormatBinary(e + 1, 8) + Bits(s / 2, 23)
    ensures s < Pow2(24) ==> Pack(e, s) == "0" + FormatBinary(e, 8) + Bits(s, 23)
  {
  }

  /**
   * The sum of two 24-digit significands has 24 digits, or 25 on a carry, when the last one is dropped;
   * either way its last 23 digits are the fraction of the (halved on a carry) sum.
   */
  lemma NormalisedFraction(sum: string, total: nat)
    requires IsBits(sum) && Value(sum) == total && |sum| == if total < Pow2(24) then 24 else 25
    ensures |sum| > 24 <==> total >= Pow2(24)
    ensures |sum| > 24 ==> sum[..|sum| - 1][1..24] == Bits(total / 2, 23)
    ensures |sum| <= 24 ==> sum[1..24] == Bits(total, 23)
  {
    if |sum| > 24 {
      var m := sum[..|sum| - 1];
      PrefixValue(sum, 1);
      assert Pow2(1) == 2;
      LowFraction(m);
    } else {
      LowFraction(sum);
    }
  }

  /** Digits 1..23 of a 24-digit string are the 23-bit pattern of its value. */
  lemma LowFraction(m: string)
    requires IsBits(m) && |m| == 24
    ensures m[1..24] == Bits(Value(m), 23)
  {
    assert m[1..24] == m[|m| - 23..];
    BitsOfSuffix(m, 23);
    BitsMod(Value(m), 23);
  }

  /** `'0' * shift + m` cut to its first 24 characters: the value divided by 2^shift. */
  function Shifted(m: string, shift: nat): (r: string)
    requires |m| == 24 && IsBits(m)
    ensures |r| == 24 && IsBits(r) && Value(r) == Value(m) / Pow2(shift)
  {
    var padded := Repeat('0', shift) + m;
    ValueZeros(shift, m);
    BitsConcat(Repeat('0', shift), m);
    PrefixValue(padded, shift);
    assert padded[..24] == padded[..|padded| - shift];
    padded[..24]
  }

  lemma SignificandValue(s: string)
    requires IsBits(s) && |s| == 32
    ensures IsBits("1" + s[9..]) && |"1" + s[9..]| == 24 && Value("1" + s[9..]) == Significand(s)
  {
    var m := "1" + s[9..];
    assert m[1..] == s[9..];
    HeadValue(m);
    BitsConcat("1", s[9..]);
  }

  /** The last k bits of a bit string are the k-bit pattern of its value modulo 2^k. */
  lemma BitsOfSuffix(s: string, k: nat)
    requires IsBits(s) && k <= |s|
    ensures s[|s| - k..] == Bits(Value(s) % Pow2(k), k)
  {
    SuffixValue(s, k);
    BitsOfValue(s[|s| - k..]);
  }

  /** Only the low n bits of a value reach its n-bit pattern. */
  lemma BitsMod(v: nat, n: nat)
    ensures Bits(v, n) == Bits(v % Pow2(n), n)
  {
    BitsCorrect(v, n);
    BitsCorrect(v % Pow2(n), n);
    ModOfSmall(v % Pow2(n), Pow2(n));
    BitsUnique(Bits(v, n), Bits(v % Pow2(n), n));
  }

  /** The aligned significand sum lies in [2^23, 2^25): the unshifted significand has its hidden one. */
  lemma AlignedSumBounds(a: string, b: string)
    requires |a| == 32 && |b| == 32
    ensures Pow2(23) <= AlignedSum(a, b)
    ensures AlignedSum(a, b) < Pow2(25)
  {
    SignificandBounds(a);
    SignificandBounds(b);
    var sa, sb := Significand(a), Significand(b);
    assert Pow2(25) == 2 * Pow2(24);
    if Exponent(a) > Exponent(b) {
      DivAtMost(sb, Pow2(Exponent(a) - Exponent(b)));
      assert AlignedSum(a, b) == sa + sb / Pow2(Exponent(a) - Exponent(b));
    } else if Exponent(b) > Exponent(a) {
      DivAtMost(sa, Pow2(Exponent(b) - Exponent(a)));
      assert AlignedSum(a, b) == sa / Pow2(Exponent(b) - Exponent(a)) + sb;
    } else {
      assert AlignedSum(a, b) == sa + sb;
    }
  }

  /** A significand with its hidden one lies in [2^23, 2^24). */
  lemma SignificandBounds(s: string)
    requires |s| == 32
    ensures Pow2(23) <= Significand(s) < Pow2(24)
  {
    ValueBound(s[9..]);
    assert |s[9..]| == 23;
    assert Pow2(24) == 2 * Pow2(23);
  }

  lemma DivAtMost(v: nat, d: nat)
    requires d > 0
    ensures 0 <= v / d <= v
  {
    var q := v / d;
    assert v == q * d + v % d;
    if q > 0 {
      MulAtLeast(d, q);
    }
  }

  /**
   * While the exponent stays below 255, the packed sum is a 32-bit positive binary32 pattern whose exponent
   * is the larger exponent (one more on a carry) and whose significand is the aligned sum, halved on a
   * carry with the lost bit truncated.
   */
  lemma Ieee754SumFields(a: string, b: string)
    requires |a| == 32 && |b| == 32 && Max(Exponent(a), Exponent(b)) < 255
    ensures var r := Ieee754Sum(a, b);
      |r| == 32 && r[0] == '0' && IsBits(r) &&
      Exponent(r) == Max(Exponent(a), Exponent(b)) + (if AlignedSum(a, b) >= Pow2(24) then 1 else 0) &&
      Significand(r) == if AlignedSum(a, b) >= Pow2(24) then AlignedSum(a, b) / 2 else AlignedSum(a, b)
  {
    var s := AlignedSum(a, b);
    var carry := s >= Pow2(24);
    var e := Max(Exponent(a), Exponent(b)) + (if carry then 1 else 0);
    var f := if carry then s / 2 else s;
    AlignedSumBounds(a, b);
    HalvedSignificand(s);
    PackCases(Max(Exponent(a), Exponent(b)), s);
    PackFields(e, f);
  }

  /** A sum of significands in [2^23, 2^25), halved when it reaches 2^24, lies in [2^23, 2^24). */
  lemma HalvedSignificand(s: nat)
    requires Pow2(23) <= s < Pow2(25)
    ensures Pow2(23) <= (if s >= Pow2(24) then s / 2 else s) < Pow2(24)
  {
    assert Pow2(24) == 2 * Pow2(23) && Pow2(25) == 2 * Pow2(24);
  }

  /** The pattern `'0' + f"{e:08b}" + fraction` of an exponent below 256 and a 24-digit significand f. */
  lemma PackFields(e: nat, f: nat)
    requires e < 256 && Pow2(23) <= f < Pow2(24)
    ensures var r := "0" + FormatBinary(e, 8) + Bits(f, 23);
      |r| == 32 && r[0] == '0' && IsBits(r) && Exponent(r) == e && Significand(r) == f
  {
    var x, y := FormatBinary(e, 8), Bits(f, 23);
    ExponentField(e);
    FractionField(f);
    var r := "0" + x + y;
    assert r[1..9] == x && r[9..] == y;
    BitsConcat("0", x);
    BitsConcat("0" + x, y);
  }

  lemma ExponentField(e: nat)
    requires e < 256
    ensures |FormatBinary(e, 8)| == 8 && IsBits(FormatBinary(e, 8)) && Value(FormatBinary(e, 8)) == e
  {
    assert Pow2(8) == 256;
    FormatBinaryCorrect(e, 8);
  }

  lemma FractionField(f: nat)
    requires Pow2(23) <= f < Pow2(24)
    ensures |Bits(f, 23)| == 23 && IsBits(Bits(f, 23)) && Pow2(23) + Value(Bits(f, 23)) == f
  {
    assert Pow2(24) == 2 * Pow2(23);
    BitsCorrect(f, 23);
    ModUnique(f, Pow2(23), 1, f - Pow2(23));
  }

  /** At the top exponent a carry makes the exponent field nine digits long: the pattern has 33 characters. */
  lemma Ieee754SumOverflow(a: string, b: string)
    requires |a| == 32 && |b| == 32 && Max(Exponent(a), Exponent(b)) == 255 && AlignedSum(a, b) >= Pow2(24)
    ensures |Ieee754Sum(a, b)| == 33
  {
    PackCases(255, AlignedSum(a, b));
    assert |ToBinary(256)| == 9;
  }
}
