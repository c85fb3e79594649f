/**
 * LR_7's 16-bit word with four fields: V (bits 0-2), A (bits 3-6), B (bits 7-10) and S (bits 11-15).
 */
module Lr7Word {
  import opened Wrappers
  import opened Text
  import opened BitStrings

  /** The names `get_value` accepts. */
  predicate IsFieldName(field: string) {
    field == "v" || field == "a" || field == "b" || field == "s"
  }

  class Word {
    var bits: string

    /** `Word(bits)` for a 16-character string. */
    constructor (bits: string)
      requires |bits| == 16
      ensures this.bits == bits
    {
      this.bits := bits;
    }

    /** `Word(bits)`: a ValueError unless the string has exactly 16 characters. */
    static method Create(bits: string) returns (r: Result<Word>)
      ensures r.Err? <==> |bits| != 16
      ensures r.Ok? ==> fresh(r.value) && r.value.bits == bits
    {
      if |bits| != 16 {
        return Err(ValueError("a word has 16 bits"));
      }
      var w := new Word(bits);
      return Ok(w);
    }

    /** `get_v`: bits 0..2. */
    function V(): string
      reads this
      requires |bits| == 16
    {
      bits[0..3]
    }

    /** `get_a`: bits 3..6. */
    function A(): string
      reads this
      requires |bits| == 16
    {
      bits[3..7]
    }

    /** `get_b`: bits 7..10. */
    function B(): string
      reads this
      requires |bits| == 16
    {
      bits[7..11]
    }

    /** `get_s`: bits 11..15. */
    function S(): string
      reads this
      requires |bits| == 16
    {
      bits[11..16]
    }

    /** The four fields have 3, 4, 4 and 5 bits and together make up the word, in order. */
    lemma FieldsPartition()
      requires |bits| == 16
      ensures |V()| == 3 && |A()| == 4 && |B()| == 4 && |S()| == 5
      ensures V() + A() + B() + S() == bits
    {
      assert bits == bits[0..3] + bits[3..7] + bits[7..11] + bits[11..16];
    }

    /**
     * `set_s(new_s)`: a ValueError unless the new field has 5 characters; otherwise bits 11..15
     * become `new_s` and V, A and B stay as they were.
     */
    method SetS(newS: string) returns (r: Result<()>)
      requires |bits| == 16
      modifies this
      ensures r.Err? <==> |newS| != 5
      ensures r.Err? ==> bits == old(bits)
      ensures r.Ok? ==> bits == old(bits)[..11] + newS
      ensures r.Ok? ==> |bits| == 16 && S() == newS && V() == old(V()) && A() == old(A()) && B() == old(B())
    {
      if |newS| != 5 {
        return Err(ValueError("field S has 5 bits"));
      }
      bits := bits[..11] + newS + bits[16..];
      return Ok(());
    }

    /** The slice a field name selects. */
    function Field(field: string): string
      reads this
      requires |bits| == 16 && IsFieldName(field)
    {
      if field == "v" then V() else if field == "a" then A() else if field == "b" then B() else S()
    }

    /**
     * `get_value(field)`: `int(f, 2)` of field 'v', 'a', 'b' or 's', so a field with a leading sign
     * reads as a signed number; a ValueError for any other name, or when the field is not a binary
     * literal. A field of n characters lies strictly between -2^(n-1) and 2^n.
     */
    function GetValue(field: string): (r: Result<int>)
      reads this
      requires |bits| == 16
      ensures r.Err? <==> !IsFieldName(field) || !IsBinaryLiteral(Field(field))
      ensures r.Err? && !IsFieldName(field) ==> r.error == ValueError("unknown field")
      ensures r.Ok? ==> r == ParseBinary(Field(field))
      ensures r.Ok? && IsBits(Field(field)) ==> r.value == Value(Field(field))
      ensures r.Ok? && field == "v" ==> -4 < r.value < 8
      ensures r.Ok? && (field == "a" || field == "b") ==> -8 < r.value < 16
      ensures r.Ok? && field == "s" ==> -16 < r.value < 32
    {
      if !IsFieldName(field) then Err(ValueError("unknown field"))
      else
        assert Pow2(2) == 4 && Pow2(3) == 8 && Pow2(4) == 16 && Pow2(5) == 32;
        ParseBinary(Field(field))
    }

    /** A '0'/'1' word has '0'/'1' fields. */
    lemma FieldsAreBits()
      requires |bits| == 16 && IsBits(bits)
      ensures IsBits(V()) && IsBits(A()) && IsBits(B()) && IsBits(S())
    {
    }

    /**
     * `__repr__`: "V: x (n) | A: x (n) | B: x (n) | S: x (n)", each field followed by its
     * `get_value` in decimal; the ValueError of `get_value` when a field is not a binary literal.
     */
    function Repr(): (r: Result<string>)
      reads this
      requires |bits| == 16
      ensures r.Err? <==> !IsBinaryLiteral(V()) || !IsBinaryLiteral(A()) || !IsBinaryLiteral(B()) || !IsBinaryLiteral(S())
      ensures r.Ok? ==> (r.value ==
        FieldText("V", V(), GetValue("v").value) + " | " + FieldText("A", A(), GetValue("a").value) + " | " +
        FieldText("B", B(), GetValue("b").value) + " | " + FieldText("S", S(), GetValue("s").value))
    {
      if !IsBinaryLiteral(V()) || !IsBinaryLiteral(A()) || !IsBinaryLiteral(B()) || !IsBinaryLiteral(S()) then
        Err(ValueError("invalid literal for int() with base 2"))
      else
        DistinctFieldNames();
        assert Field("v") == V() && Field("a") == A() && Field("b") == B() && Field("s") == S();
        Ok(FieldText("V", V(), GetValue("v").value) + " | " + FieldText("A", A(), GetValue("a").value) + " | " +
          FieldText("B", B(), GetValue("b").value) + " | " + FieldText("S", S(), GetValue("s").value))
    }

    /** For a '0'/'1' word `__repr__` shows each field with its unsigned value. */
    lemma ReprOfBits()
      requires |bits| == 16 && IsBits(bits)
      ensures Repr() == Ok(FieldText("V", V(), Value(V())) + " | " + FieldText("A", A(), Value(A())) + " | "
        + FieldText("B", B(), Value(B())) + " | " + FieldText("S", S(), Value(S())))
    {
      FieldsAreBits();
      DistinctFieldNames();
      assert Field("v") == V() && Field("a") == A() && Field("b") == B() && Field("s") == S();
      assert GetValue("v") == Ok(Value(V())) && GetValue("a") == Ok(Value(A()));
      assert GetValue("b") == Ok(Value(B())) && GetValue("s") == Ok(Value(S()));
    }
  }

  lemma DistinctFieldNames()
    ensures "v" != "a" && "v" != "b" && "v" != "s" && "a" != "b" && "a" != "s" && "b" != "s"
  {
    assert "v"[0] != "a"[0] && "v"[0] != "b"[0] && "v"[0] != "s"[0];
    assert "a"[0] != "b"[0] && "a"[0] != "s"[0] && "b"[0] != "s"[0];
  }

  /** One field of `__repr__`: "X: bits (value)". */
  function FieldText(name: string, f: string, n: int): string {
    name + ": " + f + " (" + IntToString(n) + ")"
  }

  /** The values of the fields of 1101001011110010. */
  lemma ExampleValues()
    ensures Value("110") == 6 && Value("1001") == 9 && Value("0111") == 7 && Value("10010") == 18
    ensures NatToString(6) == "6" && NatToString(9) == "9" && NatToString(7) == "7" && NatToString(18) == "18"
  {
    ValueOfV();
    ValueOfA();
    ValueOfB();
    ValueOfS();
  }

  lemma ValueOfV()
    ensures Value("110") == 6
  {
    assert "110"[..2] == "11" && "11"[..1] == "1";
  }

  lemma ValueOfA()
    ensures Value("1001") == 9
  {
    assert "1001"[..3] == "100" && "100"[..2] == "10" && "10"[..1] == "1";
  }

  lemma ValueOfB()
    ensures Value("0111") == 7
  {
    assert "0111"[..3] == "011" && "011"[..2] == "01" && "01"[..1] == "0";
  }

  lemma ValueOfS()
    ensures Value("10010") == 18
  {
    assert "10010"[..4] == "1001" && "1001"[..3] == "100" && "100"[..2] == "10" && "10"[..1] == "1";
  }

  /** Each field of 1101001011110010 as `__repr__` shows it. */
  lemma ExampleText()
    ensures FieldText("V", "110", 6) == "V: 110 (6)" && FieldText("A", "1001", 9) == "A: 1001 (9)"
    ensures FieldText("B", "0111", 7) == "B: 0111 (7)" && FieldText("S", "10010", 18) == "S: 10010 (18)"
  {
    ExampleValues();
  }

  /** The slices of 1101001011110010. */
  lemma ExampleFields(w: Word)
    requires w.bits == "1101001011110010"
    ensures w.V() == "110" && w.A() == "1001" && w.B() == "0111" && w.S() == "10010"
    ensures IsBits(w.bits)
  {
    assert w.bits == "110" + "1001" + "0111" + "10010";
    assert IsBits(w.bits) by { assert forall i | 0 <= i < 16 :: IsBit(w.bits[i]); }
  }

  /** `get_value` on a field holding '0'/'1' characters worth `v`. */
  lemma GetValueOf(w: Word, field: string, f: string, v: int)
    requires |w.bits| == 16 && IsFieldName(field) && w.Field(field) == f && IsBits(f) && Value(f) == v
    ensures w.GetValue(field) == Ok(v)
  {
  }

  /** The word 1101001011110010 has fields 110, 1001, 0111 and 10010, worth 6, 9, 7 and 18. */
  lemma WordExample(w: Word)
    requires w.bits == "1101001011110010"
    ensures w.V() == "110" && w.A() == "1001" && w.B() == "0111" && w.S() == "10010"
    ensures w.GetValue("v") == Ok(6) && w.GetValue("a") == Ok(9) && w.GetValue("b") == Ok(7) && w.GetValue("s") == Ok(18)
    ensures w.GetValue("x").Err?
    ensures w.Repr() == Ok("V: 110 (6)" + " | " + "A: 1001 (9)" + " | " + "B: 0111 (7)" + " | " + "S: 10010 (18)")
  {
    ExampleFields(w);
    w.FieldsAreBits();
    ExampleValues();
    GetValueOf(w, "v", "110", 6);
    GetValueOf(w, "a", "1001", 9);
    GetValueOf(w, "b", "0111", 7);
    GetValueOf(w, "s", "10010", 18);
    w.ReprOfBits();
    ExampleText();
  }

  /**
   * `int(f, 2)` accepts a sign, so a word whose V field is "-01" and whose S field is "+0011" has
   * `get_value` -1 and 3 there, and `__repr__` shows them as "(-1)" and "(3)".
   */
  lemma SignedFieldExample(w: Word)
    requires w.bits == "-01" + "0000" + "0000" + "+0011"
    ensures w.GetValue("v") == Ok(-1) && w.GetValue("s") == Ok(3)
    ensures w.Repr() == Ok("V: -01 (-1)" + " | " + "A: 0000 (0)" + " | " + "B: 0000 (0)" + " | " + "S: +0011 (3)")
  {
    assert w.V() == "-01" && w.A() == "0000" && w.B() == "0000" && w.S() == "+0011";
    DistinctFieldNames();
    assert w.Field("v") == "-01" && w.Field("a") == "0000" && w.Field("b") == "0000" && w.Field("s") == "+0011";
    SignedLiterals();
    assert w.GetValue("v") == Ok(-1) && w.GetValue("a") == Ok(0);
    assert w.GetValue("b") == Ok(0) && w.GetValue("s") == Ok(3);
    SignedFieldText();
  }

  lemma SignedLiterals()
    ensures ParseBinary("-01") == Ok(-1) && ParseBinary("+0011") == Ok(3) && ParseBinary("0000") == Ok(0)
  {
    assert "-01"[0] == '-' && "-01"[1..] == "01" && !IsBits("-01");
    assert "+0011"[0] == '+' && "+0011"[1..] == "0011" && !IsBits("+0011");
    assert Value("01") == 1 by { assert "01"[..1] == "0"; }
    assert Value("0011") == 3 by { assert "0011"[..3] == "001" && "001"[..2] == "00" && "00"[..1] == "0"; }
    assert Value("0000") == 0 by { assert "0000"[..3] == "000" && "000"[..2] == "00" && "00"[..1] == "0"; }
  }

  lemma SignedFieldText()
    ensures FieldText("V", "-01", -1) == "V: -01 (-1)" && FieldText("A", "0000", 0) == "A: 0000 (0)"
    ensures FieldText("B", "0000", 0) == "B: 0000 (0)" && FieldText("S", "+0011", 3) == "S: +0011 (3)"
  {
    assert IntToString(-1) == "-1" && IntToString(0) == "0" && IntToString(3) == "3";
  }
}
