/**
 * `LogicalExpression` (LR_4/LR_2/logical_expression.py): the front end put together. An
 * expression's variables and their columns come from a `VariableManager`, its postfix from the
 * converter, and its table from the generator; from the result column it derives the perfect
 * disjunctive and conjunctive normal forms, their numeric forms and the index form.
 *
 * A Python dictionary is modelled by its entries in insertion order (`seq<Column>`).
 */
module LogicalExpressions {
  import opened Wrappers
  import opened Text
  import opened BitStrings
  import opened Terms
  import opened BoolExprs
  import opened Enumerations
  import opened RpnConverter
  import opened TruthTableGenerator
  import opened VariableManagers
  import opened OrderedDicts

  // ---------------------------------------------------------------- generate_truth_table

  /** The variable map as a dictionary: its keys in insertion order, with their columns. */
  function VarColumns(names: seq<string>, vm: VarMap): (d: seq<Column>)
    requires forall k | k in names :: k in vm
    ensures Keys(d) == names
  {
    seq(|names|, i requires 0 <= i < |names| => Entry(names[i], vm[names[i]]))
  }

  /** `del intermediates[last_key]` when there is one. */
  function DropLast(cs: seq<Column>): (r: seq<Column>)
    ensures |r| == if cs == [] then 0 else |cs| - 1
    ensures forall j | 0 <= j < |r| :: r[j] == cs[j]
  {
    if cs == [] then [] else cs[..|cs| - 1]
  }

  /** `generate_truth_table`: the table of `rpn` over `vm` laid out as the result dictionary. */
  function TruthTable(names: seq<string>, vm: VarMap, rpn: seq<string>, expression: string): Result<seq<Column>>
    requires forall k | k in names :: k in vm
  {
    match Evaluate(vm, rpn)
    case Err(x) => Err(x)
    case Ok(t) => Ok(Put(Update(VarColumns(names, vm), DropLast(t.intermediates)), expression, t.final))
  }

  /** `generate_truth_table()[self.expression]`. */
  function ExpressionResult(vm: VarMap, rpn: seq<string>): Result<seq<bool>>
  {
    match Evaluate(vm, rpn)
    case Err(x) => Err(x)
    case Ok(t) => Ok(t.final)
  }

  lemma StepNameLength(k: nat, t: string)
    ensures |StepName(k, t)| > 1
  {
  }

  /** The step keys of an evaluated table are all different. */
  lemma StepKeysDistinct(vm: VarMap, rpn: seq<string>)
    requires Evaluate(vm, rpn).Ok?
    ensures Distinct(Keys(Evaluate(vm, rpn).value.intermediates))
    ensures forall j | 0 <= j < |Evaluate(vm, rpn).value.intermediates| :: |Evaluate(vm, rpn).value.intermediates[j].key| > 1
  {
    var cs := Evaluate(vm, rpn).value.intermediates;
    var ops := Operators(rpn);
    forall a, b | 0 <= a < b < |cs| ensures Keys(cs)[a] != Keys(cs)[b] {
      if Keys(cs)[a] == Keys(cs)[b] {
        StepNamesDistinct(a + 1, b + 1, ops[a], ops[b]);
      }
    }
    forall j | 0 <= j < |cs| ensures |cs[j].key| > 1 {
      StepNameLength(j + 1, ops[j]);
    }
  }

  /** Updating with new keys, then putting one more key: where every key ends up and what it holds. */
  lemma PutAfterUpdate(vars: seq<Column>, steps: seq<Column>, k: string, v: seq<bool>)
    requires Distinct(Keys(vars) + Keys(steps))
    ensures var d, before := Put(Update(vars, steps), k, v), Keys(vars) + Keys(steps);
      Distinct(Keys(d)) &&
      Keys(d) == (if k in before then before else before + [k]) &&
      Lookup(d, k) == Some(v) &&
      forall j | 0 <= j < |vars + steps| && (vars + steps)[j].key != k ::
        Lookup(d, (vars + steps)[j].key) == Some((vars + steps)[j].val)
  {
    UpdateFresh(vars, steps);
    var u := vars + steps;
    assert Keys(u) == Keys(vars) + Keys(steps);
    PutFacts(u, k, v);
    if k !in Keys(u) {
      DistinctSnoc(Keys(u), k);
    }
    forall j | 0 <= j < |u| && u[j].key != k ensures Lookup(Put(u, k, v), u[j].key) == Some(u[j].val) {
      LookupAt(u, j);
    }
  }

  /** Variable keys are one character long and step keys longer, so the two never collide. */
  lemma TableKeysDistinct(names: seq<string>, vm: VarMap, t: Table, steps: seq<Column>)
    requires Distinct(names) && forall k | k in names :: k in vm && |k| == 1
    requires Distinct(Keys(t.intermediates)) && forall j | 0 <= j < |t.intermediates| :: |t.intermediates[j].key| > 1
    requires steps == DropLast(t.intermediates)
    ensures Distinct(Keys(VarColumns(names, vm)) + Keys(steps))
  {
    var ks := Keys(VarColumns(names, vm)) + Keys(steps);
    forall a, b | 0 <= a < b < |ks| ensures ks[a] != ks[b] {
      if b < |names| {
        assert ks[a] == names[a] && ks[b] == names[b];
      } else if a >= |names| {
        assert Keys(t.intermediates)[a - |names|] != Keys(t.intermediates)[b - |names|];
      } else {
        assert |ks[a]| == 1 && |ks[b]| > 1;
      }
    }
  }

  /**
   * The layout of the truth table: the variable keys, then each step key but the last, then the
   * expression key unless it is already one of those; every key holds its column, and the
   * expression key holds the final column, overwriting a variable or step of the same name.
   */
  lemma TruthTableLayout(names: seq<string>, vm: VarMap, rpn: seq<string>, expression: string)
    requires Distinct(names) && forall k | k in names :: k in vm && |k| == 1
    ensures TruthTable(names, vm, rpn, expression).Err? <==> Evaluate(vm, rpn).Err?
    ensures TruthTable(names, vm, rpn, expression).Ok? ==>
      var d, t := TruthTable(names, vm, rpn, expression).value, Evaluate(vm, rpn).value;
      var steps := DropLast(t.intermediates);
      var before := names + Keys(steps);
      Distinct(Keys(d)) &&
      Keys(d) == (if expression in before then before else before + [expression]) &&
      Lookup(d, expression) == Some(t.final) &&
      (forall j | 0 <= j < |names| && names[j] != expression :: Lookup(d, names[j]) == Some(vm[names[j]])) &&
      (forall j | 0 <= j < |steps| && steps[j].key != expression :: Lookup(d, steps[j].key) == Some(steps[j].val))
  {
    if Evaluate(vm, rpn).Ok? {
      var t := Evaluate(vm, rpn).value;
      var steps := DropLast(t.intermediates);
      var vars := VarColumns(names, vm);
      StepKeysDistinct(vm, rpn);
      TableKeysDistinct(names, vm, t, steps);
      PutAfterUpdate(vars, steps, expression, t.final);
      var u := vars + steps;
      var d := Put(Update(vars, steps), expression, t.final);
      assert TruthTable(names, vm, rpn, expression) == Ok(d);
      forall j | 0 <= j < |names| && names[j] != expression ensures Lookup(d, names[j]) == Some(vm[names[j]]) {
        assert u[j] == Entry(names[j], vm[names[j]]);
      }
      forall j | 0 <= j < |steps| && steps[j].key != expression ensures Lookup(d, steps[j].key) == Some(steps[j].val) {
        assert u[|names| + j] == steps[j];
      }
    }
  }

  // ---------------------------------------------------------------- the canonical forms

  /** The rows whose result is `b`, in increasing order: the true rows or the false rows of the column. */
  function RowsWhere(column: seq<bool>, b: bool): (r: seq<nat>)
    ensures forall j | 0 <= j < |r| :: r[j] < |column|
  {
    if b then TrueIndices(column) else FalseIndices(column)
  }

  /** `RowsWhere` lists exactly the rows holding `b`, each once, in increasing order. */
  lemma RowsWhereCorrect(column: seq<bool>, b: bool)
    ensures forall k: nat :: k in RowsWhere(column, b) <==> k < |column| && column[k] == b
    ensures forall x, y | 0 <= x < y < |RowsWhere(column, b)| :: RowsWhere(column, b)[x] < RowsWhere(column, b)[y]
  {
    TrueIndicesCorrect(column);
    TrueIndicesCorrect(Negate(column));
  }

  /** Appending a row adds its index exactly when it holds `b`. */
  lemma RowsWhereAppend(c: seq<bool>, x: bool, b: bool)
    ensures RowsWhere(c + [x], b) == RowsWhere(c, b) + (if x == b then [|c|] else [])
  {
    assert (c + [x])[..|c|] == c;
    assert Negate(c + [x])[..|c|] == Negate(c);
  }

  /** The true rows and the false rows together are every row, each in exactly one of the two lists. */
  lemma {:induction false} RowsWherePartition(column: seq<bool>)
    ensures |RowsWhere(column, true)| + |RowsWhere(column, false)| == |column|
    ensures forall k: nat | k < |column| :: (k in RowsWhere(column, true)) != (k in RowsWhere(column, false))
  {
    RowsWhereCorrect(column, true);
    RowsWhereCorrect(column, false);
    if column != [] {
      var init := column[..|column| - 1];
      RowsWherePartition(init);
      assert init + [column[|column| - 1]] == column;
      RowsWhereAppend(init, column[|column| - 1], true);
      RowsWhereAppend(init, column[|column| - 1], false);
    }
  }

  lemma RowsWhereSnoc(column: seq<bool>, i: nat, b: bool)
    requires i < |column|
    ensures RowsWhere(column[..i + 1], b) == RowsWhere(column[..i], b) + (if column[i] == b then [i] else [])
  {
    assert column[..i] + [column[i]] == column[..i + 1];
    RowsWhereAppend(column[..i], column[i], b);
  }

  /** A variable in a clause: bare when its value is `dnf`, negated otherwise. */
  function Literal(v: string, value: bool, dnf: bool): string
  {
    if value == dnf then v else "!" + v
  }

  /** Every variable has a value on row `i`. */
  predicate HasRow(names: seq<string>, vm: VarMap, i: nat)
  {
    forall k | k in names :: k in vm && i < |vm[k]|
  }

  /** The literals of row `i`, in key order. */
  function Literals(names: seq<string>, vm: VarMap, i: nat, dnf: bool): (r: seq<string>)
    requires HasRow(names, vm, i)
    ensures |r| == |names|
  {
    seq(|names|, k requires 0 <= k < |names| => Literal(names[k], vm[names[k]][i], dnf))
  }

  /** The clause of row `i`: its literals joined by " & " (a conjunction) or " | " (a disjunction). */
  function Clause(names: seq<string>, vm: VarMap, i: nat, dnf: bool): string
    requires HasRow(names, vm, i)
  {
    Join(Literals(names, vm, i, dnf), if dnf then " & " else " | ")
  }

  /** Every row of the result column exists in every variable column. */
  predicate Fits(names: seq<string>, vm: VarMap, column: seq<bool>)
  {
    forall k | k in names :: k in vm && |column| <= |vm[k]|
  }

  /** The parenthesised clauses of the rows whose result is `dnf`, in row order. */
  function Clauses(names: seq<string>, vm: VarMap, column: seq<bool>, dnf: bool): (r: seq<string>)
    requires Fits(names, vm, column)
    ensures |r| == |RowsWhere(column, dnf)|
  {
    var rows := RowsWhere(column, dnf);
    seq(|rows|, j requires 0 <= j < |rows| => "(" + Clause(names, vm, rows[j], dnf) + ")")
  }

  /** The perfect DNF (`dnf`) or CNF text: the clauses joined by " | " or " & ". */
  function CanonicalText(names: seq<string>, vm: VarMap, column: seq<bool>, dnf: bool): string
    requires Fits(names, vm, column)
  {
    Join(Clauses(names, vm, column, dnf), if dnf then " | " else " & ")
  }

  /** One more row adds its clause when its result is `dnf`. */
  lemma ClausesSnoc(names: seq<string>, vm: VarMap, column: seq<bool>, i: nat, dnf: bool)
    requires i < |column| && Fits(names, vm, column)
    ensures Fits(names, vm, column[..i]) && Fits(names, vm, column[..i + 1]) && HasRow(names, vm, i)
    ensures Clauses(names, vm, column[..i + 1], dnf) ==
      Clauses(names, vm, column[..i], dnf) + (if column[i] == dnf then ["(" + Clause(names, vm, i, dnf) + ")"] else [])
  {
    RowsWhereSnoc(column, i, dnf);
  }

  /** The loop of `generate_pdnf` (`dnf`) and `generate_pcnf` over the result column. */
  method CanonicalForm(names: seq<string>, vm: VarMap, column: seq<bool>, dnf: bool) returns (text: string)
    requires Fits(names, vm, column)
    ensures text == CanonicalText(names, vm, column, dnf)
  {
    var result: seq<string> := [];
    var i := 0;
    while i < |column|
      invariant 0 <= i <= |column|
      invariant Fits(names, vm, column[..i]) && result == Clauses(names, vm, column[..i], dnf)
    {
      ClausesSnoc(names, vm, column, i, dnf);
      if column[i] == dnf {
        var clause := RowLiterals(names, vm, i, dnf);
        result := result + ["(" + Join(clause, if dnf then " & " else " | ") + ")"];
      }
      i := i + 1;
    }
    assert column[..i] == column;
    text := Join(result, if dnf then " | " else " & ");
  }

  /** The inner loop of `generate_pdnf` and `generate_pcnf`: the literals of row `i`. */
  method RowLiterals(names: seq<string>, vm: VarMap, i: nat, dnf: bool) returns (clause: seq<string>)
    requires HasRow(names, vm, i)
    ensures clause == Literals(names, vm, i, dnf)
  {
    clause := [];
    var k := 0;
    while k < |names|
      invariant 0 <= k <= |names|
      invariant clause == Literals(names, vm, i, dnf)[..k]
    {
      var variable := names[k];
      clause := clause + [if vm[variable][i] == dnf then variable else "!" + variable];
      k := k + 1;
    }
  }

  /** The decimal row numbers of `rows`. */
  function RowNumbers(rows: seq<nat>): (r: seq<string>)
    ensures |r| == |rows| && forall j | 0 <= j < |rows| :: r[j] == NatToString(rows[j])
  {
    seq(|rows|, j requires 0 <= j < |rows| => NatToString(rows[j]))
  }

  /** `to_numeric_form_pdnf` (`dnf`) and `to_numeric_form_pcnf`: "( 1 , 2 ) |" or "( 0 ) &". */
  function NumericText(column: seq<bool>, dnf: bool): string
  {
    "( " + Join(RowNumbers(RowsWhere(column, dnf)), " , ") + " ) " + (if dnf then "|" else "&")
  }

  /** The loop of the two numeric forms. */
  method NumericForm(column: seq<bool>, dnf: bool) returns (text: string)
    ensures text == NumericText(column, dnf)
  {
    var result: seq<string> := [];
    var i := 0;
    while i < |column|
      invariant 0 <= i <= |column|
      invariant result == RowNumbers(RowsWhere(column[..i], dnf))
    {
      RowsWhereSnoc(column, i, dnf);
      if column[i] == dnf {
        result := result + [NatToString(i)];
      }
      i := i + 1;
    }
    assert column[..i] == column;
    text := "( " + Join(result, " , ") + " ) " + (if dnf then "|" else "&");
  }

  /** `''.join('1' if value else '0' for value in column)`. */
  function BinaryString(column: seq<bool>): (s: string)
    ensures |s| == |column| && IsBits(s)
    ensures forall i | 0 <= i < |column| :: s[i] == '1' <==> column[i]
  {
    seq(|column|, i requires 0 <= i < |column| => if column[i] then '1' else '0')
  }

  /** `int(binary_string, 2)`: an empty string is not a number. */
  function IndexForm(column: seq<bool>): Result<nat>
  {
    if column == [] then Err(ValueError("invalid literal for int() with base 2: ''"))
    else Ok(Value(BinaryString(column)))
  }

  /** The column whose rows are the n binary digits of `v`, most significant first. */
  function ColumnOfIndex(v: nat, n: nat): (c: seq<bool>)
    ensures |c| == n
  {
    seq(n, i requires 0 <= i < n => Bits(v, n)[i] == '1')
  }

  /** The index form is a number below 2^rows whose digits give back the column. */
  lemma IndexFormRoundTrip(column: seq<bool>)
    requires column != []
    ensures IndexForm(column).Ok? && IndexForm(column).value < Pow2(|column|)
    ensures ColumnOfIndex(IndexForm(column).value, |column|) == column
  {
    var s := BinaryString(column);
    ValueBound(s);
    BitsOfValue(s);
  }

  /** Reading bits as a column and writing the column as bits gives the bits back. */
  lemma BinaryStringOfBits(s: string, c: seq<bool>)
    requires IsBits(s) && |c| == |s| && forall i | 0 <= i < |s| :: c[i] == (s[i] == '1')
    ensures BinaryString(c) == s
  {
    forall i | 0 <= i < |s| ensures BinaryString(c)[i] == s[i] {
      assert IsBit(s[i]);
    }
  }

  /** Every number below 2^rows is the index form of exactly one column, its binary digits. */
  lemma IndexOfColumnRoundTrip(v: nat, n: nat)
    requires 0 < n && v < Pow2(n)
    ensures IndexForm(ColumnOfIndex(v, n)) == Ok(v)
  {
    BitsCorrect(v, n);
    BinaryStringOfBits(Bits(v, n), ColumnOfIndex(v, n));
    ModSmall(v, Pow2(n));
  }

  lemma ModSmall(v: nat, m: nat)
    requires v < m
    ensures v % m == v
  {
  }

  // ---------------------------------------------------------------- the class

  /** The manager's keys are one-character names. */
  lemma ExtractedSingle(e: string)
    ensures Distinct(Extracted(e, [])) && forall k | k in Extracted(e, []) :: |k| == 1
  {
    ExtractedFacts(e, []);
  }

  /** The manager's map has one full column, 2^n rows, per key. */
  lemma ColumnsRows(names: seq<string>)
    requires Distinct(names)
    ensures Rows(Columns(names)) == Pow2(|names|)
    ensures forall k | k in Columns(names) :: |Columns(names)[k]| == Pow2(|names|)
  {
    DistinctCard(names);
    forall k | k in Columns(names) ensures |Columns(names)[k]| == Pow2(|names|) {
      var idx :| 0 <= idx < |names| && names[idx] == k;
      ColumnsAt(names, idx);
    }
  }

  /** The final column of a successful evaluation has one row per row of the map. */
  lemma FinalLength(vm: VarMap, rpn: seq<string>)
    requires Evaluate(vm, rpn).Ok?
    ensures |Evaluate(vm, rpn).value.final| == Rows(vm)
  {
  }

  class LogicalExpression {
    var expression: string
    var variableManager: VariableManager
    /** The postfix tokens of `expression`. */
    var rpn: seq<string>

    ghost predicate Valid()
      reads this, variableManager
    {
      variableManager.Valid() && variableManager.expression == expression &&
      variableManager.names == Extracted(expression, []) &&
      variableManager.variableMap == Columns(variableManager.names) &&
      Rpn(expression, false) == Ok(rpn)
    }

    constructor Init(expression: string, variableManager: VariableManager, rpn: seq<string>)
      ensures this.expression == expression && this.variableManager == variableManager && this.rpn == rpn
    {
      this.expression := expression;
      this.variableManager := variableManager;
      this.rpn := rpn;
    }

    /** `__init__`: a manager for the expression and its postfix; a malformed expression raises. */
    static method Create(expression: string) returns (r: Result<LogicalExpression>)
      ensures Rpn(expression, false).Err? ==> r == Err(Rpn(expression, false).error)
      ensures Rpn(expression, false).Ok? ==>
        r.Ok? && fresh(r.value) && r.value.Valid() && r.value.expression == expression
    {
      var manager := new VariableManager(expression);
      var converted := ToReversePolishNotation(expression);
      if converted.Err? {
        return Err(converted.error);
      }
      var le := new LogicalExpression.Init(expression, manager, converted.value);
      return Ok(le);
    }

    /** `generate_truth_table`: the variable columns, the steps but the last, and the expression's column. */
    method GenerateTruthTable() returns (r: Result<seq<Column>>)
      requires Valid()
      ensures r == TruthTable(variableManager.names, variableManager.variableMap, rpn, expression)
    {
      var names := variableManager.names;
      var vm := variableManager.GetVariableMap();
      var truthTable := VarColumns(names, vm);
      var evaluated := EvaluateExpression(vm, rpn);
      if evaluated.Err? {
        return Err(evaluated.error);
      }
      var intermediates := evaluated.value.intermediates;
      if |intermediates| > 0 {
        intermediates := intermediates[..|intermediates| - 1];
      }
      assert intermediates == DropLast(evaluated.value.intermediates);
      var j := 0;
      while j < |intermediates|
        invariant 0 <= j <= |intermediates|
        invariant Update(truthTable, intermediates[j..]) == Update(VarColumns(names, vm), intermediates)
      {
        assert intermediates[j..][1..] == intermediates[j + 1..];
        truthTable := Put(truthTable, intermediates[j].key, intermediates[j].val);
        j := j + 1;
      }
      truthTable := Put(truthTable, expression, evaluated.value.final);
      return Ok(truthTable);
    }

    /** `self.generate_truth_table()[self.expression]`: the final column. */
    method ExpressionColumn() returns (r: Result<seq<bool>>)
      requires Valid()
      ensures r == ExpressionResult(variableManager.variableMap, rpn)
      ensures r.Ok? ==> |r.value| == Pow2(|variableManager.names|)
    {
      var table := GenerateTruthTable();
      ExtractedSingle(expression);
      TruthTableLayout(variableManager.names, variableManager.variableMap, rpn, expression);
      if table.Err? {
        return Err(table.error);
      }
      ColumnsRows(variableManager.names);
      FinalLength(variableManager.variableMap, rpn);
      var column := Lookup(table.value, expression);
      return Ok(column.value);
    }

    /** `generate_pdnf`, as the text of the expression it builds. */
    method GeneratePdnf() returns (r: Result<string>)
      requires Valid()
      ensures var c := ExpressionResult(variableManager.variableMap, rpn);
        r.Ok? == c.Ok? && (c.Err? ==> r.error == c.error) &&
        (c.Ok? ==> (Fits(variableManager.names, variableManager.variableMap, c.value) &&
          r.value == CanonicalText(variableManager.names, variableManager.variableMap, c.value, true)))
    {
      r := GenerateCanonical(true);
    }

    /** `generate_pcnf`, as the text of the expression it builds. */
    method GeneratePcnf() returns (r: Result<string>)
      requires Valid()
      ensures var c := ExpressionResult(variableManager.variableMap, rpn);
        r.Ok? == c.Ok? && (c.Err? ==> r.error == c.error) &&
        (c.Ok? ==> (Fits(variableManager.names, variableManager.variableMap, c.value) &&
          r.value == CanonicalText(variableManager.names, variableManager.variableMap, c.value, false)))
    {
      r := GenerateCanonical(false);
    }

    method GenerateCanonical(dnf: bool) returns (r: Result<string>)
      requires Valid()
      ensures var c := ExpressionResult(variableManager.variableMap, rpn);
        r.Ok? == c.Ok? && (c.Err? ==> r.error == c.error) &&
        (c.Ok? ==> (Fits(variableManager.names, variableManager.variableMap, c.value) &&
          r.value == CanonicalText(variableManager.names, variableManager.variableMap, c.value, dnf)))
    {
      var column := ExpressionColumn();
      if column.Err? {
        return Err(column.error);
      }
      ColumnsRows(variableManager.names);
      var text := CanonicalForm(variableManager.names, variableManager.GetVariableMap(), column.value, dnf);
      return Ok(text);
    }

    /** `to_numeric_form_pdnf`. */
    method ToNumericFormPdnf() returns (r: Result<string>)
      requires Valid()
      ensures var c := ExpressionResult(variableManager.variableMap, rpn);
        r == if c.Ok? then Ok(NumericText(c.value, true)) else Err(c.error)
    {
      var column := ExpressionColumn();
      if column.Err? {
        return Err(column.error);
      }
      var text := NumericForm(column.value, true);
      return Ok(text);
    }

    /** `to_numeric_form_pcnf`. */
    method ToNumericFormPcnf() returns (r: Result<string>)
      requires Valid()
      ensures var c := ExpressionResult(variableManager.variableMap, rpn);
        r == if c.Ok? then Ok(NumericText(c.value, false)) else Err(c.error)
    {
      var column := ExpressionColumn();
      if column.Err? {
        return Err(column.error);
      }
      var text := NumericForm(column.value, false);
      return Ok(text);
    }

    /** `to_index_form`. */
    method ToIndexForm() returns (r: Result<nat>)
      requires Valid()
      ensures var c := ExpressionResult(variableManager.variableMap, rpn);
        r == if c.Ok? then IndexForm(c.value) else Err(c.error)
      ensures r.Ok? ==> r.value < Pow2(Pow2(|variableManager.names|))
    {
      var column := ExpressionColumn();
      if column.Err? {
        return Err(column.error);
      }
      IndexFormRoundTrip(column.value);
      return IndexForm(column.value);
    }

    /** `get_expression`. */
    function GetExpression(): string
      reads this
    {
      expression
    }
  }

  // ---------------------------------------------------------------- formulas

  lemma VariablesOfConcat(a: string, b: string)
    ensures VariablesOf(a + b) == VariablesOf(a) + VariablesOf(b)
  {
    var ab := a + b;
    forall k | k in VariablesOf(ab) ensures k in VariablesOf(a) + VariablesOf(b) {
      var i :| 0 <= i < |ab| && IsAlnum(ab[i]) && k == [ab[i]];
      if i >= |a| {
        assert b[i - |a|] == ab[i];
      } else {
        assert a[i] == ab[i];
      }
    }
    forall k | k in VariablesOf(a) ensures k in VariablesOf(ab) {
      var i :| 0 <= i < |a| && IsAlnum(a[i]) && k == [a[i]];
      assert ab[i] == a[i];
    }
    forall k | k in VariablesOf(b) ensures k in VariablesOf(ab) {
      var i :| 0 <= i < |b| && IsAlnum(b[i]) && k == [b[i]];
      assert ab[|a| + i] == b[i];
    }
  }

  lemma NoVariables(s: string)
    requires forall i | 0 <= i < |s| :: !IsAlnum(s[i])
    ensures VariablesOf(s) == {}
  {
  }

  lemma OperatorTextNoVariables(op: BinOp)
    ensures VariablesOf(" " + OpToken(op) + " ") == {}
  {
    NoVariables(" " + OpToken(op) + " ");
  }

  /** The variables the manager finds in a formula's text are the formula's variables. */
  lemma {:induction false} VariablesOfInfix(e: Expr)
    requires WellNamed(e)
    ensures VariablesOf(Infix(e)) == Vars(e)
  {
    match e
    case Var(c) =>
      assert VariablesOf([c]) == {[c]} by {
        assert [[c][0]] == [c];
      }
    case Not(x) =>
      VariablesOfInfix(x);
      VariablesOfConcat("!", Infix(x));
      NoVariables("!");
    case Bin(op, l, r) =>
      VariablesOfInfix(l);
      VariablesOfInfix(r);
      InfixBinShape(op, l, r);
      var m := " " + OpToken(op) + " ";
      VariablesOfConcat(Infix(r), ")");
      VariablesOfConcat(m, Infix(r) + ")");
      VariablesOfConcat(Infix(l), m + (Infix(r) + ")"));
      VariablesOfConcat("(", Infix(l) + (m + (Infix(r) + ")")));
      OperatorTextNoVariables(op);
      NoVariables("(");
      NoVariables(")");
  }

  /** Row `i` of the truth table over `names`: the variable at position `k` has bit `k` of `i`. */
  function Assignment(names: seq<string>, i: nat): (env: map<string, bool>)
    requires Distinct(names)
    ensures env.Keys == set k | k in names
  {
    map k | 0 <= k < |names| :: names[k] := Encode(i, |names|)[k] == One
  }

  /** A formula's value depends only on its own variables. */
  lemma {:induction false} EvalAgree(e: Expr, env1: map<string, bool>, env2: map<string, bool>)
    requires Vars(e) <= env1.Keys && Vars(e) <= env2.Keys
    requires forall v | v in Vars(e) :: env1[v] == env2[v]
    ensures Eval(e, env1) == Eval(e, env2)
  {
    match e
    case Var(_) =>
    case Not(x) => EvalAgree(x, env1, env2);
    case Bin(_, l, r) => EvalAgree(l, env1, env2); EvalAgree(r, env1, env2);
  }

  /**
   * The expression column over the map of `names` is the formula's value on every row, each
   * variable taking its bit of the row number.
   */
  predicate TabulatesFormula(e: Expr, names: seq<string>)
    requires Distinct(names) && forall k :: k in names <==> k in Vars(e)
  {
    var r := ExpressionResult(Columns(names), Postfix(e));
    r.Ok? && |r.value| == Pow2(|names|) &&
    forall i | 0 <= i < Pow2(|names|) :: r.value[i] == Eval(e, Assignment(names, i))
  }

  /**
   * The truth table of a formula's text: the text converts to the formula's postfix, the keys
   * are the formula's variables, and the expression's column tabulates the formula.
   */
  lemma FormulaTruthTable(e: Expr)
    requires WellNamed(e) && NoDoubleNot(e)
    ensures Rpn(Infix(e), false) == Ok(Postfix(e))
    ensures Distinct(Extracted(Infix(e), [])) && forall k :: k in Extracted(Infix(e), []) <==> k in Vars(e)
    ensures TabulatesFormula(e, Extracted(Infix(e), []))
  {
    var names := Extracted(Infix(e), []);
    RpnOfInfix(e, false);
    ExtractedFacts(Infix(e), []);
    VariablesOfInfix(e);
    FinalColumn(e, names);
  }

  /** The final column over the manager's map, row by row. */
  lemma FinalColumn(e: Expr, names: seq<string>)
    requires WellNamed(e) && Distinct(names) && forall k :: k in names <==> k in Vars(e)
    ensures TabulatesFormula(e, names)
  {
    var vm := Columns(names);
    ColumnsRows(names);
    EvaluatePostfix(e, vm);
    var final := Evaluate(vm, Postfix(e)).value.final;
    assert ExpressionResult(vm, Postfix(e)) == Ok(final);
    forall i | 0 <= i < Pow2(|names|) ensures final[i] == Eval(e, Assignment(names, i)) {
      RowAssignment(e, names, i);
    }
  }

  /** Row `i` of the manager's map is the assignment of row `i`. */
  lemma RowAssignment(e: Expr, names: seq<string>, i: nat)
    requires Distinct(names) && (forall k :: k in names <==> k in Vars(e)) && i < Pow2(|names|)
    ensures Vars(e) <= RowEnv(Columns(names), i).Keys
    ensures Eval(e, RowEnv(Columns(names), i)) == Eval(e, Assignment(names, i))
  {
    var vm := Columns(names);
    var env := RowEnv(vm, i);
    var a := Assignment(names, i);
    forall v | v in Vars(e) ensures v in env && env[v] == a[v] {
      var idx :| 0 <= idx < |names| && names[idx] == v;
      RowEntry(names, idx, i);
    }
    EvalAgree(e, env, a);
  }

  /** One key of the manager's map: its row `i` is the key's value in the assignment of row `i`. */
  lemma RowEntry(names: seq<string>, idx: nat, i: nat)
    requires Distinct(names) && idx < |names| && i < Pow2(|names|)
    ensures names[idx] in RowEnv(Columns(names), i) && names[idx] in Assignment(names, i)
    ensures RowEnv(Columns(names), i)[names[idx]] == Assignment(names, i)[names[idx]]
  {
    ColumnsAt(names, idx);
    ColumnOfEncode(idx, |names|, i);
    AssignmentAt(names, idx, i);
  }

  lemma AssignmentAt(names: seq<string>, idx: nat, i: nat)
    requires Distinct(names) && idx < |names|
    ensures names[idx] in Assignment(names, i)
    ensures Assignment(names, i)[names[idx]] == (Encode(i, |names|)[idx] == One)
  {
  }

  /**
   * The clauses of a formula's perfect DNF are the rows where it is true and those of its
   * perfect CNF the rows where it is false; every row is in one of the two.
   */
  lemma FormulaCanonicalRows(e: Expr, names: seq<string>)
    requires WellNamed(e) && Distinct(names) && forall k :: k in names <==> k in Vars(e)
    ensures ExpressionResult(Columns(names), Postfix(e)).Ok?
    ensures var final := ExpressionResult(Columns(names), Postfix(e)).value;
      |RowsWhere(final, true)| + |RowsWhere(final, false)| == Pow2(|names|) &&
      forall i: nat | i < Pow2(|names|) ::
        (i in RowsWhere(final, true) <==> Eval(e, Assignment(names, i))) &&
        (i in RowsWhere(final, false) <==> !Eval(e, Assignment(names, i)))
  {
    FinalColumn(e, names);
    var final := ExpressionResult(Columns(names), Postfix(e)).value;
    RowsWhereCorrect(final, true);
    RowsWhereCorrect(final, false);
    RowsWherePartition(final);
  }

  // ---------------------------------------------------------------- the two-variable examples

  /** The rows of the conjunction's column: only row 3 is true. */
  lemma ConjunctionRows(column: seq<bool>)
    requires column == [false, false, false, true]
    ensures RowsWhere(column, true) == [3] && RowsWhere(column, false) == [0, 1, 2]
  {
    var f1, f2, f3: seq<bool> := [false], [false, false], [false, false, false];
    var t1, t2, t3: seq<bool> := [true], [true, true], [true, true, true];
    assert column[..3] == f3 && f3[..2] == f2 && f2[..1] == f1 && f1[..0] == [];
    assert TrueIndices(column) == [3];
    var n := [true, true, true, false];
    assert Negate(column) == n;
    assert n[..3] == t3 && t3[..2] == t2 && t2[..1] == t1 && t1[..0] == [];
    assert TrueIndices(n) == [0, 1, 2];
  }

  /** The numeric forms of the conjunction: "( 3 ) |" and "( 0 , 1 , 2 ) &". */
  lemma ConjunctionNumericForms(column: seq<bool>)
    requires column == [false, false, false, true]
    ensures NumericText(column, true) == "( 3 ) |"
    ensures NumericText(column, false) == "( 0 , 1 , 2 ) &"
  {
    ConjunctionRows(column);
    assert RowNumbers([3]) == ["3"];
    assert RowNumbers([0, 1, 2]) == ["0", "1", "2"];
    assert Join(["0", "1", "2"], " , ") == "0 , 1 , 2" by {
      assert ["0", "1", "2"][1..] == ["1", "2"];
      assert ["1", "2"][1..] == ["2"];
    }
  }

  /** The index form of the conjunction's column 0001 is 1. */
  lemma ConjunctionIndexForm(column: seq<bool>)
    requires column == [false, false, false, true]
    ensures IndexForm(column) == Ok(1)
  {
    var s := BinaryString(column);
    assert s == Repeat('0', 3) + ['1'];
    ZerosValue(3);
    ValueSnoc(Repeat('0', 3), '1');
  }

  /** The perfect DNF of the conjunction is "(a & b)". */
  lemma ConjunctionPdnf(names: seq<string>, vm: VarMap, column: seq<bool>)
    requires names == ["a", "b"] && vm == map["a" := [false, false, true, true], "b" := [false, true, false, true]]
    requires column == [false, false, false, true]
    ensures Fits(names, vm, column) && CanonicalText(names, vm, column, true) == "(a & b)"
  {
    ConjunctionRows(column);
    assert Literals(names, vm, 3, true) == ["a", "b"];
    assert Join(["a", "b"], " & ") == "a & b" by {
      assert ["a", "b"][1..] == ["b"];
    }
    assert Clause(names, vm, 3, true) == "a & b";
    assert "(" + "a & b" + ")" == "(a & b)";
    assert Clauses(names, vm, column, true) == ["(" + Clause(names, vm, 3, true) + ")"];
  }

  /** The perfect CNF of the disjunction is "(a | b)". */
  lemma DisjunctionPcnf(names: seq<string>, vm: VarMap, column: seq<bool>)
    requires names == ["a", "b"] && vm == map["a" := [false, false, true, true], "b" := [false, true, false, true]]
    requires column == [false, true, true, true]
    ensures Fits(names, vm, column) && CanonicalText(names, vm, column, false) == "(a | b)"
  {
    var c0: seq<bool> := [];
    RowsWhereAppend(c0, false, false);
    RowsWhereAppend(c0 + [false], true, false);
    RowsWhereAppend(c0 + [false] + [true], true, false);
    RowsWhereAppend(c0 + [false] + [true] + [true], true, false);
    assert c0 + [false] + [true] + [true] + [true] == column;
    assert RowsWhere(column, false) == [0];
    assert Literals(names, vm, 0, false) == ["a", "b"];
    assert Join(["a", "b"], " | ") == "a | b" by {
      assert ["a", "b"][1..] == ["b"];
    }
    assert Clause(names, vm, 0, false) == "a | b";
    assert "(" + "a | b" + ")" == "(a | b)";
    assert Clauses(names, vm, column, false) == ["(" + Clause(names, vm, 0, false) + ")"];
  }
}
