/**
 * `TruthTableGenerator` (LR_4/LR_2/truth_table_generator.py): evaluates a postfix token list on
 * every row of a variable map, with one column per operator application.
 *
 * Row `i` is evaluated by a stack machine (`RunRow`); the whole table (`Evaluate`) is the rows
 * in order, the first failing row deciding the error. `EvaluateExpression` is the loop of the
 * source, proved to compute `Evaluate`.
 */
module TruthTableGenerator {
  import opened Wrappers
  import opened Text
  import opened BitStrings
  import opened BoolExprs
  import opened RpnConverter
  import opened OrderedDicts

  /** The variable map: one truth column per variable name. */
  type VarMap = map<string, seq<bool>>

  /** A named column of a table (a key of the result dictionary and its list). */
  type Column = Entry<seq<bool>>

  /** The final column and the intermediate columns, in the order of their keys. */
  datatype Table = Table(final: seq<bool>, intermediates: seq<Column>)

  /** `2 ** len(self.variable_map)`. */
  function Rows(vm: VarMap): nat
  {
    Pow2(|vm|)
  }

  /** The key of the k-th operator application, `f"step_{k} ({token})"`. */
  function StepName(k: nat, t: string): string
  {
    "step_" + NatToString(k) + " (" + t + ")"
  }

  /** The operator tokens of `rpn`, in order. */
  function Operators(rpn: seq<string>): (r: seq<string>)
    ensures |r| <= |rpn|
    ensures forall i | 0 <= i < |r| :: IsOperator(r[i])
  {
    if rpn == [] then []
    else (if IsOperator(rpn[0]) then [rpn[0]] else []) + Operators(rpn[1..])
  }

  /** One operator on the value stack: pops its operands and yields its result and the rest. */
  function Operate(t: string, stack: seq<bool>): Result<(bool, seq<bool>)>
    requires IsOperator(t)
  {
    if t == "!" then
      if stack == [] then Err(PopEmpty) else Ok((!stack[|stack| - 1], stack[..|stack| - 1]))
    else if |stack| < 2 then Err(PopEmpty)
    else
      var b, a := stack[|stack| - 1], stack[|stack| - 2];
      var v := if t == "&" then a && b else if t == "|" then a || b else if t == "->" then !a || b else a == b;
      Ok((v, stack[..|stack| - 2]))
  }

  const NoRow: Error := IndexError("list index out of range")

  /**
   * The tokens `rpn` evaluated on row `i` from a stack and the step values so far: the final
   * stack and all step values, or the exception raised.
   */
  function RunRow(rpn: seq<string>, vm: VarMap, i: nat, stack: seq<bool>, steps: seq<bool>): Result<(seq<bool>, seq<bool>)>
    decreases |rpn|
  {
    if rpn == [] then Ok((stack, steps))
    else
      var t := rpn[0];
      if IsOperand(t) then
        if t !in vm then Err(KeyError(t))
        else if i >= |vm[t]| then Err(NoRow)
        else RunRow(rpn[1..], vm, i, stack + [vm[t][i]], steps)
      else if IsOperator(t) then
        match Operate(t, stack)
        case Err(x) => Err(x)
        case Ok((v, rest)) => RunRow(rpn[1..], vm, i, rest + [v], steps + [v])
      else RunRow(rpn[1..], vm, i, stack, steps)
  }

  /** Row `i`: the value popped at the end and the row's step values. */
  function Row(vm: VarMap, rpn: seq<string>, i: nat): Result<(bool, seq<bool>)>
  {
    match RunRow(rpn, vm, i, [], [])
    case Err(x) => Err(x)
    case Ok((s, steps)) => if s == [] then Err(PopEmpty) else Ok((s[|s| - 1], steps))
  }

  /** Rows `0 .. n-1`; an exception in an earlier row wins. */
  function RowsUpTo(vm: VarMap, rpn: seq<string>, n: nat): (r: Result<seq<(bool, seq<bool>)>>)
    ensures r.Ok? ==> |r.value| == n
  {
    if n == 0 then Ok([])
    else match RowsUpTo(vm, rpn, n - 1)
      case Err(x) => Err(x)
      case Ok(rs) =>
        match Row(vm, rpn, n - 1)
        case Err(x) => Err(x)
        case Ok(r) => Ok(rs + [r])
  }

  /** Each operator contributes exactly one step value. */
  lemma {:induction false} RunRowSteps(rpn: seq<string>, vm: VarMap, i: nat, stack: seq<bool>, steps: seq<bool>)
    ensures RunRow(rpn, vm, i, stack, steps).Ok? ==>
      var r := RunRow(rpn, vm, i, stack, steps).value.1;
      |r| == |steps| + |Operators(rpn)| && r[..|steps|] == steps
    decreases |rpn|
  {
    if rpn != [] {
      var t := rpn[0];
      if IsOperand(t) {
        assert !IsOperator(t) by { if IsOperator(t) { NotOperand(t); } }
        if t in vm && i < |vm[t]| {
          RunRowSteps(rpn[1..], vm, i, stack + [vm[t][i]], steps);
        }
      } else if IsOperator(t) {
        if Operate(t, stack).Ok? {
          var (v, rest) := Operate(t, stack).value;
          RunRowSteps(rpn[1..], vm, i, rest + [v], steps + [v]);
          var r := RunRow(rpn, vm, i, stack, steps);
          if r.Ok? {
            assert r.value.1[..|steps|] == r.value.1[..|steps + [v]|][..|steps|];
          }
        }
      } else {
        RunRowSteps(rpn[1..], vm, i, stack, steps);
      }
    }
  }

  /** A successful row has one step value per operator. */
  lemma RowSteps(vm: VarMap, rpn: seq<string>, i: nat)
    ensures Row(vm, rpn, i).Ok? ==> |Row(vm, rpn, i).value.1| == |Operators(rpn)|
  {
    RunRowSteps(rpn, vm, i, [], []);
  }

  lemma {:induction false} RowsUpToSteps(vm: VarMap, rpn: seq<string>, n: nat)
    ensures RowsUpTo(vm, rpn, n).Ok? ==>
      forall j | 0 <= j < n :: Row(vm, rpn, j) == Ok(RowsUpTo(vm, rpn, n).value[j]) && |RowsUpTo(vm, rpn, n).value[j].1| == |Operators(rpn)|
  {
    if n > 0 {
      RowsUpToSteps(vm, rpn, n - 1);
      RowSteps(vm, rpn, n - 1);
    }
  }

  /** `evaluate_expression`: the final column and one column per operator application. */
  function Evaluate(vm: VarMap, rpn: seq<string>): Result<Table>
  {
    var n := Rows(vm);
    var ops := Operators(rpn);
    match RowsUpTo(vm, rpn, n)
    case Err(x) => Err(x)
    case Ok(rows) =>
      RowsUpToSteps(vm, rpn, n);
      Ok(Table(
        seq(n, i requires 0 <= i < n => rows[i].0),
        seq(|ops|, k requires 0 <= k < |ops| => Entry(StepName(k + 1, ops[k]), seq(n, i requires 0 <= i < n => rows[i].1[k])))))
  }

  /** The step keys are all different: the dictionary has one entry per operator application. */
  lemma StepNamesDistinct(j: nat, k: nat, s: string, t: string)
    requires StepName(j, s) == StepName(k, t)
    ensures j == k
  {
    var a, b := NatToString(j), NatToString(k);
    FirstSpace(j, s);
    FirstSpace(k, t);
    assert |a| == |b|;
    assert StepName(j, s)[5..5 + |a|] == a;
    assert StepName(k, t)[5..5 + |b|] == b;
    NatToStringValue(j);
    NatToStringValue(k);
  }

  /** In a step key, the number runs from position 5 to the first space. */
  lemma FirstSpace(k: nat, t: string)
    ensures var x, a := StepName(k, t), NatToString(k);
      |x| > 5 + |a| && x[5 + |a|] == ' ' && forall p | 5 <= p < 5 + |a| :: x[p] == a[p - 5] && x[p] != ' '
  {
  }

  // ---------------------------------------------------------------- the method

  /** The placeholder columns: `[None] * num_combinations` under each step key. */
  function Placeholders(ops: seq<string>, n: nat): (r: seq<Column>)
    ensures |r| == |ops|
    ensures forall k | 0 <= k < |ops| :: r[k].key == StepName(k + 1, ops[k]) && |r[k].val| == n
  {
    seq(|ops|, k requires 0 <= k < |ops| => Entry(StepName(k + 1, ops[k]), seq(n, _ => false)))
  }

  /** Row `i` of the step columns set to a row's step values. */
  function SetRow(cols: seq<Column>, i: nat, vals: seq<bool>): (r: seq<Column>)
    requires |vals| == |cols| && forall k | 0 <= k < |cols| :: i < |cols[k].val|
    ensures |r| == |cols|
    ensures forall k | 0 <= k < |cols| :: r[k].key == cols[k].key && |r[k].val| == |cols[k].val|
  {
    seq(|cols|, k requires 0 <= k < |cols| => cols[k].(val := cols[k].val[i := vals[k]]))
  }

  /** The same, for the first `|steps|` columns only: where the loop over tokens has got to. */
  function SetRowPrefix(cols: seq<Column>, i: nat, steps: seq<bool>): (r: seq<Column>)
    requires |steps| <= |cols| && forall k | 0 <= k < |cols| :: i < |cols[k].val|
    ensures |r| == |cols|
    ensures forall k | 0 <= k < |cols| :: r[k].key == cols[k].key && |r[k].val| == |cols[k].val|
  {
    seq(|cols|, k requires 0 <= k < |cols| =>
      if k < |steps| then cols[k].(val := cols[k].val[i := steps[k]]) else cols[k])
  }

  /** The keys with their placeholder columns (the first loop of `evaluate_expression`). */
  method StepColumns(rpn: seq<string>, numCombinations: nat) returns (intermediate: seq<Column>)
    ensures intermediate == Placeholders(Operators(rpn), numCombinations)
  {
    intermediate := [];
    var stepNumber := 1;
    var j := 0;
    while j < |rpn|
      invariant 0 <= j <= |rpn|
      invariant intermediate == Placeholders(Operators(rpn[..j]), numCombinations)
      invariant stepNumber == |intermediate| + 1
    {
      OperatorsNext(rpn, j);
      PlaceholdersSnoc(Operators(rpn[..j]), rpn[j], numCombinations);
      if IsOperator(rpn[j]) {
        intermediate := intermediate + [Entry(StepName(stepNumber, rpn[j]), seq(numCombinations, _ => false))];
        stepNumber := stepNumber + 1;
      }
      j := j + 1;
    }
    assert rpn[..j] == rpn;
  }

  /**
   * One row (the loop over tokens of `evaluate_expression`): the value popped at the end, the
   * step columns with this row's entries written, or the exception raised.
   */
  method EvaluateRow(variableMap: VarMap, rpn: seq<string>, i: nat, intermediate: seq<Column>)
      returns (r: Result<(bool, seq<Column>)>)
    requires |intermediate| == |Operators(rpn)| && forall k | 0 <= k < |intermediate| :: i < |intermediate[k].val|
    ensures Row(variableMap, rpn, i).Err? ==> r == Err(Row(variableMap, rpn, i).error)
    ensures Row(variableMap, rpn, i).Ok? ==>
      |Row(variableMap, rpn, i).value.1| == |intermediate| &&
      r == Ok((Row(variableMap, rpn, i).value.0, SetRow(intermediate, i, Row(variableMap, rpn, i).value.1)))
  {
    ghost var ops := Operators(rpn);
    var cols := intermediate;
    var stack: seq<bool> := [];
    ghost var steps: seq<bool> := [];
    var stepNumber := 1;
    var j := 0;
    while j < |rpn|
      invariant 0 <= j <= |rpn|
      invariant RunRow(rpn[j..], variableMap, i, stack, steps) == RunRow(rpn, variableMap, i, [], [])
      invariant stepNumber == |steps| + 1 && |steps| + |Operators(rpn[j..])| == |ops|
      invariant cols == SetRowPrefix(intermediate, i, steps)
    {
      var token := rpn[j];
      ghost var stack0 := stack;
      assert rpn[j..][0] == token && rpn[j..][1..] == rpn[j + 1..];
      OperatorsNext(rpn, j);
      if IsOperand(token) {
        assert !IsOperator(token) by { if IsOperator(token) { NotOperand(token); } }
        if token !in variableMap {
          RowErr(variableMap, rpn, i, stack, steps);
          return Err(KeyError(token));
        }
        if i >= |variableMap[token]| {
          RowErr(variableMap, rpn, i, stack, steps);
          return Err(NoRow);
        }
        stack := stack + [variableMap[token][i]];
      } else if IsOperator(token) {
        var result: bool;
        if token == "!" {
          if stack == [] {
            RowErr(variableMap, rpn, i, stack, steps);
            return Err(PopEmpty);
          }
          var operand := stack[|stack| - 1];
          stack := stack[..|stack| - 1];
          result := !operand;
        } else {
          if stack == [] {
            RowErr(variableMap, rpn, i, stack, steps);
            return Err(PopEmpty);
          }
          var operand2 := stack[|stack| - 1];
          stack := stack[..|stack| - 1];
          if stack == [] {
            RowErr(variableMap, rpn, i, stack + [operand2], steps);
            return Err(PopEmpty);
          }
          var operand1 := stack[|stack| - 1];
          stack := stack[..|stack| - 1];
          assert operand1 == stack0[|stack0| - 2] && operand2 == stack0[|stack0| - 1];
          assert stack == stack0[..|stack0| - 2];
          if token == "&" {
            result := operand1 && operand2;
          } else if token == "|" {
            result := operand1 || operand2;
          } else if token == "->" {
            result := !operand1 || operand2;
          } else {
            result := operand1 == operand2;
          }
        }
        assert Operate(token, stack0) == Ok((result, stack));
        SetRowPrefixSnoc(intermediate, i, steps, result);
        var k := stepNumber - 1;
        cols := cols[k := cols[k].(val := cols[k].val[i := result])];
        stack := stack + [result];
        steps := steps + [result];
        stepNumber := stepNumber + 1;
      }
      j := j + 1;
    }
    assert rpn[j..] == [];
    RunRowSteps(rpn, variableMap, i, [], []);
    if stack == [] {
      return Err(PopEmpty);
    }
    assert steps == RunRow(rpn, variableMap, i, [], []).value.1;
    SetRowFull(intermediate, i, steps);
    r := Ok((stack[|stack| - 1], cols));
  }

  /** The row loop of `evaluate_expression`: the final column and the filled step columns. */
  method EvaluateExpression(variableMap: VarMap, rpn: seq<string>) returns (r: Result<Table>)
    ensures r == Evaluate(variableMap, rpn)
  {
    var numCombinations := Pow2(|variableMap|);
    ghost var ops := Operators(rpn);
    var intermediate := StepColumns(rpn, numCombinations);
    var finalResult: seq<bool> := [];
    ghost var rows: seq<(bool, seq<bool>)> := [];
    var i := 0;
    while i < numCombinations
      invariant 0 <= i <= numCombinations
      invariant RowsUpTo(variableMap, rpn, i) == Ok(rows)
      invariant |finalResult| == i && forall m | 0 <= m < i :: finalResult[m] == rows[m].0
      invariant Filled(intermediate, ops, rows, numCombinations)
    {
      RowsUpToSteps(variableMap, rpn, i);
      var row := EvaluateRow(variableMap, rpn, i, intermediate);
      if row.Err? {
        RowsUpToErr(variableMap, rpn, i + 1, numCombinations);
        return Err(row.error);
      }
      ghost var next := Row(variableMap, rpn, i).value;
      FilledStep(intermediate, ops, rows, numCombinations, next);
      finalResult := finalResult + [row.value.0];
      intermediate := row.value.1;
      rows := rows + [next];
      i := i + 1;
    }
    EvaluatedTable(variableMap, rpn, rows, finalResult, intermediate);
    r := Ok(Table(finalResult, intermediate));
  }

  /** The columns the row loop has filled make up the table `Evaluate` describes. */
  lemma EvaluatedTable(vm: VarMap, rpn: seq<string>, rows: seq<(bool, seq<bool>)>, finalResult: seq<bool>, cols: seq<Column>)
    requires RowsUpTo(vm, rpn, Pow2(|vm|)) == Ok(rows)
    requires |finalResult| == Pow2(|vm|) && forall m | 0 <= m < |finalResult| :: finalResult[m] == rows[m].0
    requires Filled(cols, Operators(rpn), rows, Pow2(|vm|))
    ensures Evaluate(vm, rpn) == Ok(Table(finalResult, cols))
  {
    var n, ops := Pow2(|vm|), Operators(rpn);
    RowsUpToSteps(vm, rpn, n);
    assert finalResult == seq(n, m requires 0 <= m < n => rows[m].0);
    forall k | 0 <= k < |ops|
      ensures cols[k] == Entry(StepName(k + 1, ops[k]), seq(n, m requires 0 <= m < n => rows[m].1[k]))
    {
      assert cols[k].val == seq(n, m requires 0 <= m < n => rows[m].1[k]);
    }
    assert cols == seq(|ops|, k requires 0 <= k < |ops| =>
      Entry(StepName(k + 1, ops[k]), seq(n, m requires 0 <= m < n => rows[m].1[k])));
  }

  /** Once a row fails, every longer run of rows fails the same way. */
  lemma {:induction false} RowsUpToErr(vm: VarMap, rpn: seq<string>, n: nat, m: nat)
    requires n <= m && RowsUpTo(vm, rpn, n).Err?
    ensures RowsUpTo(vm, rpn, m) == RowsUpTo(vm, rpn, n)
    decreases m
  {
    if m > n {
      RowsUpToErr(vm, rpn, n, m - 1);
    }
  }

  /** The step columns hold the step values of the rows done so far. */
  predicate Filled(cols: seq<Column>, ops: seq<string>, rows: seq<(bool, seq<bool>)>, n: nat)
  {
    |cols| == |ops| && |rows| <= n &&
    (forall m | 0 <= m < |rows| :: |rows[m].1| == |ops|) &&
    forall k | 0 <= k < |ops| ::
      cols[k].key == StepName(k + 1, ops[k]) && |cols[k].val| == n &&
      forall m | 0 <= m < |rows| :: cols[k].val[m] == rows[m].1[k]
  }

  lemma FilledStep(cols: seq<Column>, ops: seq<string>, rows: seq<(bool, seq<bool>)>, n: nat, next: (bool, seq<bool>))
    requires Filled(cols, ops, rows, n) && |rows| < n && |next.1| == |ops|
    ensures Filled(SetRow(cols, |rows|, next.1), ops, rows + [next], n)
  {
  }

  lemma SetRowPrefixSnoc(cols: seq<Column>, i: nat, steps: seq<bool>, v: bool)
    requires |steps| < |cols| && forall k | 0 <= k < |cols| :: i < |cols[k].val|
    ensures var k := |steps|;
      SetRowPrefix(cols, i, steps + [v]) ==
        SetRowPrefix(cols, i, steps)[k := SetRowPrefix(cols, i, steps)[k].(val := SetRowPrefix(cols, i, steps)[k].val[i := v])]
  {
  }

  lemma SetRowFull(cols: seq<Column>, i: nat, steps: seq<bool>)
    requires |steps| == |cols| && forall k | 0 <= k < |cols| :: i < |cols[k].val|
    ensures SetRowPrefix(cols, i, steps) == SetRow(cols, i, steps)
  {
  }

  /** Where the loop stops on an exception, the row fails with that exception. */
  lemma RowErr(vm: VarMap, rpn: seq<string>, i: nat, stack: seq<bool>, steps: seq<bool>)
    requires RunRow(rpn, vm, i, [], []).Err?
    ensures Row(vm, rpn, i) == Err(RunRow(rpn, vm, i, [], []).error)
  {
  }

  lemma PlaceholdersSnoc(ops: seq<string>, t: string, n: nat)
    ensures IsOperator(t) ==> Placeholders(ops + [t], n) == Placeholders(ops, n) + [Entry(StepName(|ops| + 1, t), seq(n, _ => false))]
  {
  }

  lemma OperatorsOne(t: string)
    ensures Operators([t]) == if IsOperator(t) then [t] else []
  {
    assert [t][1..] == [];
  }

  lemma OperatorsNext(rpn: seq<string>, j: nat)
    requires j < |rpn|
    ensures Operators(rpn[..j + 1]) == Operators(rpn[..j]) + (if IsOperator(rpn[j]) then [rpn[j]] else [])
    ensures Operators(rpn[j..]) == (if IsOperator(rpn[j]) then [rpn[j]] else []) + Operators(rpn[j + 1..])
  {
    OperatorsOne(rpn[j]);
    OperatorsAppend(rpn[..j], [rpn[j]]);
    assert rpn[..j + 1] == rpn[..j] + [rpn[j]];
    OperatorsAppend([rpn[j]], rpn[j + 1..]);
    assert rpn[j..] == [rpn[j]] + rpn[j + 1..];
  }

  lemma {:induction false} OperatorsAppend(a: seq<string>, b: seq<string>)
    ensures Operators(a + b) == Operators(a) + Operators(b)
    decreases |a|
  {
    if a == [] {
      assert a + b == b;
    } else {
      assert (a + b)[0] == a[0] && (a + b)[1..] == a[1..] + b;
      OperatorsAppend(a[1..], b);
    }
  }

  // ---------------------------------------------------------------- evaluating formulas

  /** Row `i` of the variable map as an assignment. */
  function RowEnv(vm: VarMap, i: nat): (env: map<string, bool>)
    ensures forall v | v in vm && i < |vm[v]| :: v in env && env[v] == vm[v][i]
  {
    map v | v in vm && i < |vm[v]| :: vm[v][i]
  }

  /** The values of a formula's operator applications, in postfix order. */
  function StepValues(e: Expr, env: map<string, bool>): seq<bool>
    requires Vars(e) <= env.Keys
  {
    match e
    case Var(_) => []
    case Not(x) => StepValues(x, env) + [Eval(e, env)]
    case Bin(_, l, r) => StepValues(l, env) + StepValues(r, env) + [Eval(e, env)]
  }

  /** Every variable of `e` has an entry in row `i`. */
  predicate Covered(e: Expr, vm: VarMap, i: nat)
  {
    Vars(e) <= vm.Keys && forall v | v in Vars(e) :: i < |vm[v]|
  }

  /** Evaluating a formula's postfix pushes its value and records its operator values. */
  lemma {:induction false} RunRowPostfix(e: Expr, rest: seq<string>, vm: VarMap, i: nat, stack: seq<bool>, steps: seq<bool>)
    requires WellNamed(e) && Covered(e, vm, i)
    ensures Vars(e) <= RowEnv(vm, i).Keys
    ensures RunRow(Postfix(e) + rest, vm, i, stack, steps) ==
      RunRow(rest, vm, i, stack + [Eval(e, RowEnv(vm, i))], steps + StepValues(e, RowEnv(vm, i)))
    decreases e, 1
  {
    match e
    case Var(c) =>
      var ts := [[c]] + rest;
      assert ts[0] == [c] && ts[1..] == rest;
      assert IsOperand([c]);
      assert steps + [] == steps;
    case Not(x) =>
      RunRowNot(x, rest, vm, i, stack, steps);
    case Bin(op, l, r) =>
      RunRowBin(op, l, r, rest, vm, i, stack, steps);
  }

  lemma {:induction false} RunRowNot(x: Expr, rest: seq<string>, vm: VarMap, i: nat, stack: seq<bool>, steps: seq<bool>)
    requires WellNamed(x) && Covered(x, vm, i)
    ensures Vars(x) <= RowEnv(vm, i).Keys
    ensures RunRow(Postfix(Not(x)) + rest, vm, i, stack, steps) ==
      RunRow(rest, vm, i, stack + [Eval(Not(x), RowEnv(vm, i))], steps + StepValues(Not(x), RowEnv(vm, i)))
    decreases Not(x), 0
  {
    var env := RowEnv(vm, i);
    RunRowPostfix(x, ["!"] + rest, vm, i, stack, steps);
    assert Postfix(Not(x)) + rest == Postfix(x) + (["!"] + rest);
    var v := Eval(x, env);
    NotOperand("!");
    RunRowOperator("!", rest, vm, i, stack + [v], steps + StepValues(x, env), stack, !v);
    assert steps + StepValues(x, env) + [!v] == steps + StepValues(Not(x), env);
  }

  lemma {:induction false} RunRowBin(op: BinOp, l: Expr, r: Expr, rest: seq<string>, vm: VarMap, i: nat, stack: seq<bool>, steps: seq<bool>)
    requires WellNamed(l) && WellNamed(r) && Covered(l, vm, i) && Covered(r, vm, i)
    ensures Vars(Bin(op, l, r)) <= RowEnv(vm, i).Keys
    ensures RunRow(Postfix(Bin(op, l, r)) + rest, vm, i, stack, steps) ==
      RunRow(rest, vm, i, stack + [Eval(Bin(op, l, r), RowEnv(vm, i))], steps + StepValues(Bin(op, l, r), RowEnv(vm, i)))
    decreases Bin(op, l, r), 0
  {
    var env := RowEnv(vm, i);
    var t := OpToken(op);
    RunRowPostfix(l, Postfix(r) + ([t] + rest), vm, i, stack, steps);
    var vl := Eval(l, env);
    RunRowPostfix(r, [t] + rest, vm, i, stack + [vl], steps + StepValues(l, env));
    var vr := Eval(r, env);
    PostfixBin(op, l, r, rest);
    var sl, sr := StepValues(l, env), StepValues(r, env);
    BinTokenStep(op, rest, vm, i, stack, steps + sl + sr, vl, vr);
    StepValuesBin(op, l, r, env, steps);
  }

  lemma StepValuesBin(op: BinOp, l: Expr, r: Expr, env: map<string, bool>, steps: seq<bool>)
    requires Vars(l) <= env.Keys && Vars(r) <= env.Keys
    ensures Eval(Bin(op, l, r), env) == Apply(op, Eval(l, env), Eval(r, env))
    ensures steps + StepValues(l, env) + StepValues(r, env) + [Apply(op, Eval(l, env), Eval(r, env))] ==
      steps + StepValues(Bin(op, l, r), env)
  {
    var sl, sr, v := StepValues(l, env), StepValues(r, env), Apply(op, Eval(l, env), Eval(r, env));
    assert StepValues(Bin(op, l, r), env) == sl + sr + [v];
    AppendAssoc3(steps, sl, sr, [v]);
  }

  lemma AppendAssoc3<T>(a: seq<T>, b: seq<T>, c: seq<T>, d: seq<T>)
    ensures a + b + c + d == a + (b + c + d)
  {
  }

  lemma PostfixBin(op: BinOp, l: Expr, r: Expr, rest: seq<string>)
    ensures Postfix(Bin(op, l, r)) + rest == Postfix(l) + (Postfix(r) + ([OpToken(op)] + rest))
  {
  }

  /** A binary operator token over its two operand values. */
  lemma BinTokenStep(op: BinOp, rest: seq<string>, vm: VarMap, i: nat, stack: seq<bool>, steps: seq<bool>, vl: bool, vr: bool)
    ensures RunRow([OpToken(op)] + rest, vm, i, stack + [vl] + [vr], steps) ==
      RunRow(rest, vm, i, stack + [Apply(op, vl, vr)], steps + [Apply(op, vl, vr)])
  {
    var t := OpToken(op);
    OperatorTokens(op);
    NotOperand(t);
    BinOperate(op, stack, vl, vr);
    RunRowOperator(t, rest, vm, i, stack + [vl] + [vr], steps, stack, Apply(op, vl, vr));
  }

  lemma BinOperate(op: BinOp, stack: seq<bool>, vl: bool, vr: bool)
    ensures IsOperator(OpToken(op)) && Operate(OpToken(op), stack + [vl] + [vr]) == Ok((Apply(op, vl, vr), stack))
  {
    OperatorTokens(op);
    assert (stack + [vl] + [vr])[..|stack|] == stack;
  }

  /** An operator token over a stack it can pop from. */
  lemma RunRowOperator(t: string, rest: seq<string>, vm: VarMap, i: nat, stack: seq<bool>, steps: seq<bool>, below: seq<bool>, v: bool)
    requires IsOperator(t) && !IsOperand(t) && Operate(t, stack) == Ok((v, below))
    ensures RunRow([t] + rest, vm, i, stack, steps) == RunRow(rest, vm, i, below + [v], steps + [v])
  {
    var ts := [t] + rest;
    assert ts[0] == t && ts[1..] == rest;
  }

  /** Each row of a formula's postfix evaluates to the formula's value on that row. */
  lemma RowPostfix(e: Expr, vm: VarMap, i: nat)
    requires WellNamed(e) && Covered(e, vm, i)
    ensures Vars(e) <= RowEnv(vm, i).Keys
    ensures Row(vm, Postfix(e), i) == Ok((Eval(e, RowEnv(vm, i)), StepValues(e, RowEnv(vm, i))))
  {
    RunRowPostfix(e, [], vm, i, [], []);
    assert Postfix(e) + [] == Postfix(e);
    assert [] + [Eval(e, RowEnv(vm, i))] == [Eval(e, RowEnv(vm, i))];
    assert [] + StepValues(e, RowEnv(vm, i)) == StepValues(e, RowEnv(vm, i));
  }

  /** The rows of a formula: each one its value and its operator values. */
  lemma {:induction false} RowsUpToPostfix(e: Expr, vm: VarMap, n: nat)
    requires WellNamed(e) && forall i | 0 <= i < n :: Covered(e, vm, i)
    ensures RowsUpTo(vm, Postfix(e), n).Ok?
    ensures forall i | 0 <= i < n ::
      (Vars(e) <= RowEnv(vm, i).Keys &&
       RowsUpTo(vm, Postfix(e), n).value[i] == (Eval(e, RowEnv(vm, i)), StepValues(e, RowEnv(vm, i))))
  {
    if n > 0 {
      RowsUpToPostfix(e, vm, n - 1);
      RowPostfix(e, vm, n - 1);
      forall i | 0 <= i < n - 1 ensures Vars(e) <= RowEnv(vm, i).Keys {
        RowPostfix(e, vm, i);
      }
    }
  }

  lemma {:induction false} StepValuesLast(e: Expr, env: map<string, bool>)
    requires WellNamed(e) && Vars(e) <= env.Keys
    ensures |StepValues(e, env)| == |Operators(Postfix(e))|
    ensures !e.Var? ==> |StepValues(e, env)| > 0 && StepValues(e, env)[|StepValues(e, env)| - 1] == Eval(e, env)
  {
    match e
    case Var(c) =>
      assert Postfix(e) == [[c]];
      OperatorsOne([c]);
      NotOperator(c);
    case Not(x) =>
      StepValuesLast(x, env);
      OperatorsAppend(Postfix(x), ["!"]);
      OperatorsOne("!");
    case Bin(op, l, r) =>
      StepValuesLast(l, env);
      StepValuesLast(r, env);
      OperatorsAppend(Postfix(l), Postfix(r));
      OperatorsAppend(Postfix(l) + Postfix(r), [OpToken(op)]);
      OperatorTokens(op);
      OperatorsOne(OpToken(op));
  }

  lemma NotOperator(c: char)
    requires IsAlnum(c)
    ensures !IsOperator([c])
  {
  }

  /** The table read off the rows, entry by entry. */
  lemma EvaluateEntries(vm: VarMap, rpn: seq<string>)
    requires RowsUpTo(vm, rpn, Rows(vm)).Ok?
    ensures Evaluate(vm, rpn).Ok?
    ensures var t, rows, ops := Evaluate(vm, rpn).value, RowsUpTo(vm, rpn, Rows(vm)).value, Operators(rpn);
      |t.final| == Rows(vm) && |t.intermediates| == |ops| &&
      (forall i | 0 <= i < Rows(vm) :: t.final[i] == rows[i].0 && |rows[i].1| == |ops|) &&
      forall k | 0 <= k < |ops| ::
        t.intermediates[k].key == StepName(k + 1, ops[k]) && |t.intermediates[k].val| == Rows(vm) &&
        forall i | 0 <= i < Rows(vm) :: t.intermediates[k].val[i] == rows[i].1[k]
  {
    RowsUpToSteps(vm, rpn, Rows(vm));
  }

  /**
   * Evaluating the postfix of a formula whose variables all have full columns succeeds, and row
   * `i` of the final column is the formula's value on row `i`.
   */
  lemma EvaluatePostfix(e: Expr, vm: VarMap)
    requires WellNamed(e) && Vars(e) <= vm.Keys && forall v | v in vm :: |vm[v]| == Rows(vm)
    ensures Evaluate(vm, Postfix(e)).Ok?
    ensures var t := Evaluate(vm, Postfix(e)).value;
      |t.final| == Rows(vm) &&
      forall i | 0 <= i < Rows(vm) :: (Vars(e) <= RowEnv(vm, i).Keys && t.final[i] == Eval(e, RowEnv(vm, i)))
  {
    RowsUpToPostfix(e, vm, Rows(vm));
    EvaluateEntries(vm, Postfix(e));
  }

  /** With at least one operator, the last step column repeats the final column. */
  lemma EvaluatePostfixLastStep(e: Expr, vm: VarMap)
    requires WellNamed(e) && Vars(e) <= vm.Keys && forall v | v in vm :: |vm[v]| == Rows(vm)
    requires !e.Var?
    ensures Evaluate(vm, Postfix(e)).Ok?
    ensures var t := Evaluate(vm, Postfix(e)).value;
      |t.intermediates| > 0 && t.intermediates[|t.intermediates| - 1].val == t.final
  {
    var n := Rows(vm);
    forall i | 0 <= i < n ensures Covered(e, vm, i) { }
    RowsLastStep(e, vm, n);
    EvaluateEntries(vm, Postfix(e));
    LastColumn(Evaluate(vm, Postfix(e)).value, RowsUpTo(vm, Postfix(e), n).value, Operators(Postfix(e)), n);
  }

  /** On every row of a formula with an operator, the last step value is the row's value. */
  lemma RowsLastStep(e: Expr, vm: VarMap, n: nat)
    requires WellNamed(e) && !e.Var? && 0 < n && forall i | 0 <= i < n :: Covered(e, vm, i)
    ensures RowsUpTo(vm, Postfix(e), n).Ok? && |Operators(Postfix(e))| > 0
    ensures var rows, ops := RowsUpTo(vm, Postfix(e), n).value, Operators(Postfix(e));
      forall i | 0 <= i < n :: |rows[i].1| == |ops| && rows[i].1[|ops| - 1] == rows[i].0
  {
    RowsUpToPostfix(e, vm, n);
    var rows := RowsUpTo(vm, Postfix(e), n).value;
    forall i | 0 <= i < n
      ensures |rows[i].1| == |Operators(Postfix(e))| > 0 && rows[i].1[|Operators(Postfix(e))| - 1] == rows[i].0
    {
      var env := RowEnv(vm, i);
      assert rows[i] == (Eval(e, env), StepValues(e, env));
      StepValuesLast(e, env);
    }
    StepValuesLast(e, RowEnv(vm, 0));
  }

  lemma LastColumn(t: Table, rows: seq<(bool, seq<bool>)>, ops: seq<string>, n: nat)
    requires |ops| > 0 && |rows| == n && |t.final| == n && |t.intermediates| == |ops|
    requires forall i | 0 <= i < n :: t.final[i] == rows[i].0 && |rows[i].1| == |ops| && rows[i].1[|ops| - 1] == rows[i].0
    requires |t.intermediates[|ops| - 1].val| == n
    requires forall i | 0 <= i < n :: t.intermediates[|ops| - 1].val[i] == rows[i].1[|ops| - 1]
    ensures t.intermediates[|t.intermediates| - 1].val == t.final
  {
  }

  /** A `!` with nothing under it: the postfix `! a !` fails on the first row with `IndexError`. */
  lemma EvaluateLeadingNot(vm: VarMap, rest: seq<string>)
    ensures Evaluate(vm, ["!"] + rest) == Err(PopEmpty)
  {
    var ts := ["!"] + rest;
    assert ts[0] == "!";
    NotOperand("!");
    assert Row(vm, ts, 0) == Err(PopEmpty);
    assert RowsUpTo(vm, ts, 1) == Err(PopEmpty);
    RowsUpToErr(vm, ts, 1, Rows(vm));
  }

  /** The two-variable conjunction evaluated column by column. */
  lemma EvaluateConjunction(vm: VarMap, rpn: seq<string>)
    requires vm == map["a" := [false, false, true, true], "b" := [false, true, false, true]]
    requires rpn == ["a", "b", "&"]
    ensures Evaluate(vm, rpn) == Ok(Table([false, false, false, true], [Entry("step_1 (&)", [false, false, false, true])]))
  {
    var e := Bin(And, Var('a'), Var('b'));
    assert Postfix(e) == rpn;
    assert |vm| == 2 by { assert vm.Keys == {"a", "b"}; }
    assert Rows(vm) == 4;
    ConjunctionOperators(rpn);
    OneStepTable(e, vm, "&");
    ConjunctionStepName();
    ConjunctionFinal(vm, e, Evaluate(vm, rpn).value.final);
  }

  /** A formula with a single operator: its one step column is the final column. */
  lemma OneStepTable(e: Expr, vm: VarMap, op: string)
    requires WellNamed(e) && Vars(e) <= vm.Keys && forall v | v in vm :: |vm[v]| == Rows(vm)
    requires Operators(Postfix(e)) == [op]
    ensures Evaluate(vm, Postfix(e)).Ok?
    ensures var t := Evaluate(vm, Postfix(e)).value;
      |t.final| == Rows(vm) &&
      (forall i | 0 <= i < Rows(vm) :: Vars(e) <= RowEnv(vm, i).Keys && t.final[i] == Eval(e, RowEnv(vm, i))) &&
      t.intermediates == [Entry(StepName(1, op), t.final)]
  {
    assert !e.Var? by {
      if e.Var? {
        OperatorsOne(Postfix(e)[0]);
        assert Postfix(e) == [[e.name]];
        NotOperator(e.name);
      }
    }
    EvaluatePostfix(e, vm);
    EvaluatePostfixLastStep(e, vm);
    EvaluateEntries(vm, Postfix(e));
  }

  lemma ConjunctionFinal(vm: VarMap, e: Expr, final: seq<bool>)
    requires vm == map["a" := [false, false, true, true], "b" := [false, true, false, true]]
    requires e == Bin(And, Var('a'), Var('b')) && |final| == 4
    requires forall i | 0 <= i < 4 :: Vars(e) <= RowEnv(vm, i).Keys && final[i] == Eval(e, RowEnv(vm, i))
    ensures final == [false, false, false, true]
  {
    forall i | 0 <= i < 4 ensures final[i] == (vm["a"][i] && vm["b"][i]) {
      var env := RowEnv(vm, i);
      assert ['a'] == "a" && ['b'] == "b";
      assert Eval(e, env) == (env["a"] && env["b"]);
      assert env["a"] == vm["a"][i] && env["b"] == vm["b"][i];
    }
  }

  lemma ConjunctionOperators(rpn: seq<string>)
    requires rpn == ["a", "b", "&"]
    ensures Operators(rpn) == ["&"]
  {
    OperatorsAppend(["a", "b"], ["&"]);
    OperatorsAppend(["a"], ["b"]);
    OperatorsOne("a");
    assert !IsOperator("b");
    OperatorsOne("b");
    OperatorsOne("&");
    assert ["a"] + ["b"] + ["&"] == rpn;
  }

  lemma ConjunctionStepName()
    ensures StepName(1, "&") == "step_1 (&)"
  {
    assert NatToString(1) == "1";
  }
}
