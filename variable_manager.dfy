/**
 * `VariableManager` (LR_3/LR_2/variable_manager.py): collects the one-character variables of an
 * expression in order of first appearance and fills each with its truth-table column.
 *
 * The dictionary `variable_map` is modelled by its key order `names` and its contents
 * `variableMap`; `Valid` says the two describe one dictionary.
 */
module VariableManagers {
  import opened BitStrings
  import opened Terms
  import opened BoolExprs
  import opened Enumerations

  /** The keys after scanning `e`: every new letter or digit appended at its first appearance. */
  function Extracted(e: string, names: seq<string>): seq<string>
    decreases |e|
  {
    if e == [] then names
    else Extracted(e[1..], if IsAlnum(e[0]) && [e[0]] !in names then names + [[e[0]]] else names)
  }

  /** The one-character variables of `e`. */
  function VariablesOf(e: string): set<string>
  {
    set i | 0 <= i < |e| && IsAlnum(e[i]) :: [e[i]]
  }

  /**
   * Scanning keeps the existing keys first and in order, adds exactly the variables of `e`, and
   * adds none twice.
   */
  lemma {:induction false} ExtractedFacts(e: string, names: seq<string>)
    requires Distinct(names)
    ensures var r := Extracted(e, names);
      Distinct(r) && |names| <= |r| && r[..|names|] == names &&
      forall k :: k in r <==> k in names || k in VariablesOf(e)
    decreases |e|
  {
    if e != [] {
      var next := if IsAlnum(e[0]) && [e[0]] !in names then names + [[e[0]]] else names;
      ExtractedFacts(e[1..], next);
      var r := Extracted(e, names);
      assert r[..|names|] == r[..|next|][..|names|];
      forall k ensures k in VariablesOf(e) <==> k in VariablesOf(e[1..]) || (IsAlnum(e[0]) && k == [e[0]])
      {
        if k in VariablesOf(e) {
          var i :| 0 <= i < |e| && IsAlnum(e[i]) && k == [e[i]];
          if i > 0 {
            assert e[1..][i - 1] == e[i];
          }
        }
        if k in VariablesOf(e[1..]) {
          var i :| 0 <= i < |e[1..]| && IsAlnum(e[1..][i]) && k == [e[1..][i]];
          assert e[i + 1] == e[1..][i];
        }
      }
    }
  }

  /** Scanning the same expression twice adds nothing the second time. */
  lemma {:induction false} ExtractedIdempotent(e: string, names: seq<string>)
    requires forall k | k in VariablesOf(e) :: k in names
    ensures Extracted(e, names) == names
    decreases |e|
  {
    if e != [] {
      assert IsAlnum(e[0]) ==> [e[0]] in VariablesOf(e);
      forall k | k in VariablesOf(e[1..]) ensures k in names {
        var i :| 0 <= i < |e[1..]| && IsAlnum(e[1..][i]) && k == [e[1..][i]];
        assert e[i + 1] == e[1..][i];
        assert k in VariablesOf(e);
      }
      ExtractedIdempotent(e[1..], names);
    }
  }

  /** The column of the variable at position `idx` among `n`: bit `idx` of `format(i, '0nb')`. */
  function ColumnOf(idx: nat, n: nat): (c: seq<bool>)
    requires idx < n
    ensures |c| == Pow2(n)
  {
    seq(Pow2(n), i requires 0 <= i < Pow2(n) => FormatBinary(i, n)[idx] == '1')
  }

  lemma FormatBinaryLength(i: nat, n: nat)
    requires i < Pow2(n) && n > 0
    ensures |FormatBinary(i, n)| == n
  {
    FormatBinaryCorrect(i, n);
  }

  /** Row `i` of a column holds the variable's bit in the n-bit encoding of `i`, most significant first. */
  lemma ColumnOfEncode(idx: nat, n: nat, i: nat)
    requires idx < n && i < Pow2(n)
    ensures ColumnOf(idx, n)[i] <==> Encode(i, n)[idx] == One
  {
    FormatBinaryCorrect(i, n);
    BitsOfValue(FormatBinary(i, n));
    BitsEncode(i, n, idx);
  }

  lemma {:induction false} BitsEncode(v: nat, n: nat, idx: nat)
    requires idx < n
    ensures Bits(v, n)[idx] == '1' <==> Encode(v, n)[idx] == One
  {
    if idx < n - 1 {
      BitsEncode(v / 2, n - 1, idx);
    }
  }

  /** The variable map `initialize_variable_map` produces for the keys `names`. */
  function Columns(names: seq<string>): (m: map<string, seq<bool>>)
    requires Distinct(names)
    ensures m.Keys == set k | k in names
  {
    map idx | 0 <= idx < |names| :: names[idx] := ColumnOf(idx, |names|)
  }

  lemma ColumnsAt(names: seq<string>, idx: nat)
    requires Distinct(names) && idx < |names|
    ensures Columns(names)[names[idx]] == ColumnOf(idx, |names|)
  {
  }

  /** Full columns under every key are the table of those keys. */
  lemma ColumnsFilled(names: seq<string>, m: map<string, seq<bool>>)
    requires Distinct(names) && m.Keys == set k | k in names
    requires forall idx | 0 <= idx < |names| :: m[names[idx]] == ColumnOf(idx, |names|)
    ensures m == Columns(names)
  {
    var c := Columns(names);
    forall k | k in m ensures m[k] == c[k] {
      var idx :| 0 <= idx < |names| && names[idx] == k;
      ColumnsAt(names, idx);
    }
    assert m.Keys == c.Keys;
  }

  /** `for var in self.variable_map: self.variable_map[var] = []`. */
  method ClearColumns(keys: seq<string>, m0: map<string, seq<bool>>) returns (m: map<string, seq<bool>>)
    requires forall idx | 0 <= idx < |keys| :: keys[idx] in m0
    ensures m.Keys == m0.Keys && forall idx | 0 <= idx < |keys| :: m[keys[idx]] == []
  {
    m := m0;
    var j := 0;
    while j < |keys|
      invariant 0 <= j <= |keys| && m.Keys == m0.Keys
      invariant forall idx | 0 <= idx < j :: m[keys[idx]] == []
    {
      m := m[keys[j] := []];
      j := j + 1;
    }
  }

  /** The row loop: row `i` of every column from `format(i, '0nb')`. */
  method FillRows(keys: seq<string>, m0: map<string, seq<bool>>, numVars: nat) returns (m: map<string, seq<bool>>)
    requires numVars == |keys| && Distinct(keys)
    requires forall idx | 0 <= idx < |keys| :: keys[idx] in m0 && m0[keys[idx]] == []
    ensures m.Keys == m0.Keys && forall idx | 0 <= idx < |keys| :: m[keys[idx]] == ColumnOf(idx, numVars)
  {
    var numCombinations := Pow2(numVars);
    m := m0;
    var i := 0;
    while i < numCombinations
      invariant 0 <= i <= numCombinations && m.Keys == m0.Keys
      invariant forall idx | 0 <= idx < numVars :: m[keys[idx]] == ColumnOf(idx, numVars)[..i]
    {
      var binStr := FormatBinary(i, numVars);
      m := FillRow(keys, m, numVars, i, binStr);
      i := i + 1;
    }
    forall idx | 0 <= idx < numVars ensures m[keys[idx]] == ColumnOf(idx, numVars) {
      assert ColumnOf(idx, numVars)[..numCombinations] == ColumnOf(idx, numVars);
    }
  }

  /** One pass of the row loop: row `i` appended to every column from the bits of `binStr`. */
  method FillRow(keys: seq<string>, m0: map<string, seq<bool>>, numVars: nat, i: nat, binStr: string) returns (m: map<string, seq<bool>>)
    requires numVars == |keys| && Distinct(keys) && i < Pow2(numVars) && binStr == FormatBinary(i, numVars)
    requires forall idx | 0 <= idx < numVars :: keys[idx] in m0 && m0[keys[idx]] == ColumnOf(idx, numVars)[..i]
    ensures m.Keys == m0.Keys && forall idx | 0 <= idx < numVars :: m[keys[idx]] == ColumnOf(idx, numVars)[..i + 1]
  {
    if numVars > 0 {
      FormatBinaryLength(i, numVars);
    }
    m := m0;
    var idx := 0;
    while idx < numVars
      invariant 0 <= idx <= numVars && m.Keys == m0.Keys
      invariant forall k | 0 <= k < idx :: m[keys[k]] == ColumnOf(k, numVars)[..i + 1]
      invariant forall k | idx <= k < numVars :: m[keys[k]] == ColumnOf(k, numVars)[..i]
    {
      var v := keys[idx];
      assert ColumnOf(idx, numVars)[..i + 1] == ColumnOf(idx, numVars)[..i] + [binStr[idx] == '1'];
      m := m[v := m[v] + [binStr[idx] == '1']];
      idx := idx + 1;
    }
  }

  /** The body of `initialize_variable_map` after the keys are in place: clear every column, then fill the rows. */
  method Rebuild(keys: seq<string>, m0: map<string, seq<bool>>, numVars: nat) returns (m: map<string, seq<bool>>)
    requires Distinct(keys) && m0.Keys == (set k | k in keys) && numVars == |keys|
    ensures m == Columns(keys)
  {
    assert forall idx | 0 <= idx < |keys| :: keys[idx] in m0;
    m := ClearColumns(keys, m0);
    m := FillRows(keys, m, numVars);
    ColumnsFilled(keys, m);
  }

  class VariableManager {
    var expression: string
    /** The keys of `variable_map`, in insertion order. */
    var names: seq<string>
    var variableMap: map<string, seq<bool>>

    ghost predicate Valid()
      reads this
    {
      Distinct(names) && variableMap.Keys == set k | k in names
    }

    /** `__init__`: stores the expression and builds the table at once. */
    constructor (expression: string)
      ensures Valid() && this.expression == expression
      ensures names == Extracted(expression, [])
      ensures variableMap == Columns(names)
    {
      this.expression := expression;
      names := [];
      variableMap := map[];
      new;
      InitializeVariableMap();
    }

    /** `extract_variables`: adds an empty column for every variable not yet a key. */
    method ExtractVariables()
      requires Valid()
      modifies this`names, this`variableMap
      ensures Valid() && names == Extracted(expression, old(names))
      ensures forall k | k in old(variableMap) :: k in variableMap && variableMap[k] == old(variableMap)[k]
      ensures forall k | k in variableMap && k !in old(variableMap) :: variableMap[k] == []
    {
      var i := 0;
      while i < |expression|
        invariant 0 <= i <= |expression|
        invariant Valid()
        invariant Extracted(expression[i..], names) == Extracted(expression, old(names))
        invariant forall k | k in old(variableMap) :: k in variableMap && variableMap[k] == old(variableMap)[k]
        invariant forall k | k in variableMap && k !in old(variableMap) :: variableMap[k] == []
      {
        var character := expression[i];
        assert expression[i..][0] == character && expression[i..][1..] == expression[i + 1..];
        if IsAlnum(character) && [character] !in variableMap {
          variableMap := variableMap[[character] := []];
          names := names + [[character]];
        }
        i := i + 1;
      }
      assert expression[i..] == [];
    }

    /** `initialize_variable_map`: the keys, then row `i` of every column from `format(i, '0nb')`. */
    method InitializeVariableMap()
      requires Valid()
      modifies this`names, this`variableMap
      ensures Valid() && names == Extracted(expression, old(names))
      ensures variableMap == Columns(names)
    {
      ExtractVariables();
      var numVars := CountVariables();
      variableMap := Rebuild(names, variableMap, numVars);
    }

    /** `count_variables`: the number of keys. */
    function CountVariables(): (n: nat)
      reads this
      requires Valid()
      ensures n == |names|
    {
      DistinctCard(names);
      |variableMap|
    }

    /** `get_variable_map`. */
    function GetVariableMap(): map<string, seq<bool>>
      reads this
    {
      variableMap
    }
  }

  /** What a fresh manager holds: the expression's variables in first-appearance order, with their columns. */
  lemma ManagerTable(e: string)
    ensures var names := Extracted(e, []);
      Distinct(names) && (forall k :: k in names <==> k in VariablesOf(e)) &&
      Columns(names).Keys == VariablesOf(e) &&
      forall idx, i | 0 <= idx < |names| && 0 <= i < Pow2(|names|) ::
        Columns(names)[names[idx]][i] <==> Encode(i, |names|)[idx] == One
  {
    var names := Extracted(e, []);
    ExtractedFacts(e, []);
    forall idx, i | 0 <= idx < |names| && 0 <= i < Pow2(|names|)
      ensures Columns(names)[names[idx]][i] <==> Encode(i, |names|)[idx] == One
    {
      ColumnsAt(names, idx);
      ColumnOfEncode(idx, |names|, i);
    }
  }

  /** Initialising again changes nothing: the keys are already there and the columns are recomputed equal. */
  lemma InitializeTwice(e: string)
    ensures Extracted(e, Extracted(e, [])) == Extracted(e, [])
  {
    ExtractedFacts(e, []);
    ExtractedIdempotent(e, Extracted(e, []));
  }

  /** "a & b" has the keys a and b, with the columns 0011 and 0101. */
  lemma ConjunctionVariableMap(e: string)
    requires e == "a & b"
    ensures Extracted(e, []) == ["a", "b"]
    ensures Columns(["a", "b"]) == map["a" := [false, false, true, true], "b" := [false, true, false, true]]
  {
    ConjunctionNames(e);
    ConjunctionColumns();
  }

  /** The scan of "a & b" finds a, then b. */
  lemma ConjunctionNames(e: string)
    requires e == "a & b"
    ensures Extracted(e, []) == ["a", "b"]
  {
    assert e[1..] == " & b" && e[1..][1..] == "& b" && e[1..][1..][1..] == " b" && e[1..][1..][1..][1..] == "b";
    assert IsAlnum('a') && IsAlnum('b') && !IsAlnum(' ') && !IsAlnum('&');
    assert "b" !in ["a"];
    assert Extracted("b", ["a"]) == ["a", "b"] by {
      assert "b"[1..] == "";
      assert ["a"] + [['b']] == ["a", "b"];
    }
    assert Extracted(" b", ["a"]) == Extracted("b", ["a"]);
    assert Extracted("& b", ["a"]) == Extracted(" b", ["a"]);
    assert Extracted(" & b", ["a"]) == Extracted("& b", ["a"]);
    assert Extracted(e, []) == Extracted(" & b", [] + [['a']]);
  }

  /** Two variables get the columns 0011 and 0101. */
  lemma ConjunctionColumns()
    ensures Columns(["a", "b"]) == map["a" := [false, false, true, true], "b" := [false, true, false, true]]
  {
    ColumnPair(0);
    ColumnPair(1);
    var c := Columns(["a", "b"]);
    var want := map["a" := [false, false, true, true], "b" := [false, true, false, true]];
    assert c.Keys == {"a", "b"} == want.Keys;
    ColumnsAt(["a", "b"], 0);
    ColumnsAt(["a", "b"], 1);
    assert c["a"] == want["a"] && c["b"] == want["b"];
  }

  lemma ColumnPair(idx: nat)
    requires idx < 2
    ensures ColumnOf(idx, 2) == if idx == 0 then [false, false, true, true] else [false, true, false, true]
  {
    forall i | 0 <= i < 4
      ensures ColumnOf(idx, 2)[i] == (if idx == 0 then i >= 2 else i % 2 == 1)
    {
      ColumnOfEncode(idx, 2, i);
      assert Encode(i, 2) == Encode(i / 2, 1) + [if i % 2 == 1 then One else Zero];
      assert Encode(i / 2, 1) == Encode(i / 4, 0) + [if (i / 2) % 2 == 1 then One else Zero];
    }
  }

  /** "a & b | c" has three variables. */
  lemma ThreeVariables(e: string)
    requires e == "a & b | c"
    ensures |Extracted(e, [])| == 3
  {
    ExtractedFacts(e, []);
    var r := Extracted(e, []);
    assert e[0] == 'a' && e[4] == 'b' && e[8] == 'c';
    assert VariablesOf(e) == {"a", "b", "c"} by {
      forall k | k in VariablesOf(e) ensures k in {"a", "b", "c"} {
        var i :| 0 <= i < |e| && IsAlnum(e[i]) && k == [e[i]];
      }
      assert [e[0]] == "a" && [e[4]] == "b" && [e[8]] == "c";
    }
    DistinctCard(r);
    assert (set k | k in r) == {"a", "b", "c"};
  }
}
