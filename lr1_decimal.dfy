/**
 * The integer decoders of LR_1's DecimalConverter: ones'-complement ("reverse"), two's-complement
 * ("additional") and sign-magnitude ("direct") bit strings back to whole numbers.
 */
module Lr1DecimalConverter {
  import opened Wrappers
  import opened Text
  import opened BitStrings
  import opened BitArithmetic
  import Lr1BinaryConverter

  /** One more bit of a most-significant-first accumulation: the prefix value scaled to its weight. */
  lemma AccumulateStep(s: string, i: nat)
    requires i < |s|
    ensures Value(s[..i + 1]) * Pow2(|s| - i - 1) == Value(s[..i]) * Pow2(|s| - i) + BitValue(s[i]) * Pow2(|s| - i - 1)
  {
    assert s[..i + 1] == s[..i] + [s[i]];
    ValueSnoc(s[..i], s[i]);
    var p := Pow2(|s| - i - 1);
    assert Pow2(|s| - i) == 2 * p;
    assert (2 * Value(s[..i]) + BitValue(s[i])) * p == Value(s[..i]) * (2 * p) + BitValue(s[i]) * p;
  }

  /** The digit value `int(bit)` of a '0'/'1' character. */
  function DigitValue(c: char): nat
    requires IsBit(c)
  {
    if c == '1' then 1 else 0
  }

  /** The shared loop `decimal += int(bit) * 2 ** power; power -= 1` over a bit string. */
  method Accumulate(bits: string) returns (decimal: nat)
    requires IsBits(bits)
    ensures decimal == Value(bits)
  {
    decimal := 0;
    var power := |bits| - 1;
    for i := 0 to |bits|
      invariant power == |bits| - 1 - i
      invariant decimal == Value(bits[..i]) * Pow2(|bits| - i)
    {
      AccumulateStep(bits, i);
      decimal := decimal + DigitValue(bits[i]) * Pow2(|bits| - i - 1);
      power := power - 1;
    }
    assert bits[..|bits|] == bits;
  }

  /** What `reverse_code_to_decimal` computes: for a leading '1', minus the value of the complemented string. */
  function ReverseValue(s: string): int
    requires |s| > 0
  {
    if s[0] == '1' then -(Value(Flip(s)) as int) else Value(s)
  }

  /**
   * `reverse_code_to_decimal(binary_str)`: a leading '1' makes the whole string complemented
   * (sign bit included) and the result negated. An empty string fails on `binary_str[0]`.
   */
  method ReverseCodeToDecimal(binaryStr: string) returns (r: Result<int>)
    requires IsBits(binaryStr)
    ensures binaryStr == [] <==> r.Err?
    ensures r.Ok? ==> r.value == ReverseValue(binaryStr)
  {
    if |binaryStr| == 0 {
      return Err(IndexError("string index out of range"));
    }
    var isNegative := binaryStr[0] == '1';
    var bits := binaryStr;
    if isNegative {
      var invertedBits := "";
      for i := 0 to |binaryStr|
        invariant invertedBits == Flip(binaryStr[..i])
      {
        assert binaryStr[..i + 1] == binaryStr[..i] + [binaryStr[i]];
        assert IsBit(binaryStr[i]);
        Lr1BinaryConverter.FlipSnoc(binaryStr[..i], binaryStr[i]);
        invertedBits := invertedBits + (if binaryStr[i] == '0' then "1" else "0");
      }
      assert binaryStr[..|binaryStr|] == binaryStr;
      bits := invertedBits;
      FlipBits(binaryStr);
    }
    var decimalValue := Accumulate(bits);
    if isNegative {
      return Ok(-(decimalValue as int));
    }
    return Ok(decimalValue);
  }

  lemma FlipBits(s: string)
    ensures IsBits(Flip(s))
  {
  }

  /** A ones'-complement string reads as its signed value, plus one when it is negative. */
  lemma ReverseValueSigned(s: string)
    requires IsBits(s) && |s| > 0
    ensures ReverseValue(s) == if s[0] == '1' then Signed(s) + 1 else Signed(s)
  {
    if s[0] == '1' {
      FlipValue(s);
    }
  }

  /** What `additional_code_to_decimal` computes: for a leading '1', minus (complement + 1) with the carry out dropped. */
  function AdditionalValue(s: string): int
    requires |s| > 0
  {
    if s[0] == '1' then -((Value(Flip(s)) + 1) % Pow2(|s|)) else Value(s)
  }

  /**
   * `additional_code_to_decimal(bin_str)`: for a leading '1' the complement plus one, formed by a carry
   * loop from the last bit, is read in binary and negated. An empty string fails on `bin_str[0]`.
   */
  method AdditionalCodeToDecimal(binStr: string) returns (r: Result<int>)
    requires IsBits(binStr)
    ensures binStr == [] <==> r.Err?
    ensures r.Ok? ==> r.value == AdditionalValue(binStr)
  {
    var n := |binStr|;
    if n == 0 {
      return Err(IndexError("string index out of range"));
    }
    if binStr[0] == '1' {
      var invertedBin := Flip(binStr);
      FlipBits(binStr);
      var result := IncrementWithCarry(invertedBin);
      var decimal := Accumulate(result);
      return Ok(-(decimal as int));
    } else {
      var decimal := Accumulate(binStr);
      return Ok(decimal);
    }
  }

  /** The carry loop of `additional_code_to_decimal`: digits are put in front of `result` from the last one, a final carry is dropped. */
  method IncrementWithCarry(invertedBin: string) returns (result: string)
    requires IsBits(invertedBin)
    ensures IsBits(result) && |result| == |invertedBin|
    ensures Value(result) == (Value(invertedBin) + 1) % Pow2(|invertedBin|)
  {
    var n := |invertedBin|;
    var carry := 1;
    result := "";
    var i := n;
    while i > 0
      invariant 0 <= i <= n && |result| == n - i && IsBits(result)
      invariant carry == 0 || carry == 1
      invariant Value(result) + carry * Pow2(n - i) == Value(invertedBin[i..]) + 1
    {
      i := i - 1;
      SuffixStep(invertedBin, i);
      var c := invertedBin[i];
      assert IsBit(c);
      var tail := result;
      if carry == 0 {
        result := [c] + result;
      } else if c == '0' {
        result := "1" + result;
        carry := 0;
      } else {
        result := "0" + result;
      }
      PrependBit(result[0], tail);
      assert result == [result[0]] + tail;
    }
    assert invertedBin[0..] == invertedBin;
    ValueBound(result);
    ModUnique(Value(result) + carry * Pow2(n), Pow2(n), carry, Value(result));
  }

  /** A two's-complement string reads as its signed value. */
  lemma AdditionalValueSigned(s: string)
    requires IsBits(s) && |s| > 0
    ensures AdditionalValue(s) == Signed(s)
  {
    if s[0] == '1' {
      FlipValue(s);
      HeadValue(s);
      ValueBound(s[1..]);
      var p := Pow2(|s| - 1);
      assert Pow2(|s|) == 2 * p;
      assert 0 < Pow2(|s|) - Value(s) <= p;
      ModOfSmall(Pow2(|s|) - Value(s), Pow2(|s|));
    }
  }

  /** What `direct_code_to_decimal_int` computes: the sign of the first bit times the value of the rest. */
  function DirectValue(s: string): int
    requires |s| > 0
  {
    (if s[0] == '1' then -1 else 1) * Value(s[1..])
  }

  /**
   * `direct_code_to_decimal_int(binary_str)`: the bits after the first that equal '1' add their weights
   * `2 ** (len - 2 - i)`; every other character adds nothing. An empty string fails on `binary_str[0]`.
   */
  method DirectCodeToDecimalInt(binaryStr: string) returns (r: Result<int>)
    ensures binaryStr == [] <==> r.Err?
    ensures r.Ok? ==> r.value == DirectValue(binaryStr)
  {
    if |binaryStr| == 0 {
      return Err(IndexError("string index out of range"));
    }
    var sign := if binaryStr[0] == '1' then -1 else 1;
    var rest := binaryStr[1..];
    var decimalValue := 0;
    for i := 0 to |rest|
      invariant decimalValue == Value(rest[..i]) * Pow2(|rest| - i)
    {
      AccumulateStep(rest, i);
      if rest[i] == '1' {
        decimalValue := decimalValue + Pow2(|binaryStr| - 2 - i);
      }
    }
    assert rest[..|rest|] == rest;
    return Ok(sign * decimalValue);
  }

  /** Each decoder inverts the matching encoder of a whole number. */
  lemma {:induction false} DecodeEncode(n: int)
    ensures DirectValue(Lr1BinaryConverter.DirectCode(n)) == n
    ensures ReverseValue(Lr1BinaryConverter.ReverseCode(n)) == n
    ensures AdditionalValue(Lr1BinaryConverter.AdditionalCode(n)) == n
  {
    var rev := Lr1BinaryConverter.ReverseCode(n);
    ReverseValueSigned(rev);
    if n < 0 {
      assert rev[0] == '1';
    } else {
      assert rev[0] == '0';
    }
    Lr1BinaryConverter.AdditionalCodeCorrect(n);
    AdditionalValueSigned(Lr1BinaryConverter.AdditionalCode(n));
  }
}
