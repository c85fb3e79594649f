/**
 * The companion script of the LR_4 minimiser: the truth table of a one-digit binary subtractor
 * and the builder of the perfect DNF of one of its output columns.
 *
 * A table is a Python dict from column names to lists of integers. `build_sdnf` indexes it
 * directly, so a missing column raises `KeyError` and a column shorter than the eight rows raises
 * `IndexError`; both are part of the model, in the order the loops meet them.
 */
module Lr4Subtractor {
  import opened Wrappers
  import opened Text

  type Table = map<string, seq<int>>

  /** The input columns, in the order their literals appear in a clause. */
  const Variables: seq<string> := ["A", "B", "C"]

  /** `build_sdnf` always looks at rows 0 to 7. */
  const RowCount: nat := 8

  /** The error of a list index past the end. */
  const OutOfRange: Error := IndexError("list index out of range")

  /**
   * `get_subtractor_truth_table`: A is the minuend, B the subtrahend, C the incoming borrow,
   * D the difference and P the outgoing borrow.
   */
  function SubtractorTable(): (t: Table)
    ensures t.Keys == {"A", "B", "C", "D", "P"}
    ensures forall k | k in t :: |t[k]| == RowCount
  {
    map[
      "A" := [0, 0, 0, 0, 1, 1, 1, 1],
      "B" := [0, 0, 1, 1, 0, 0, 1, 1],
      "C" := [0, 1, 0, 1, 0, 1, 0, 1],
      "D" := [0, 1, 1, 0, 1, 0, 0, 1],
      "P" := [0, 1, 1, 1, 0, 0, 0, 1]
    ]
  }

  /** Row `i` assigns the three bits of `i`, most significant first, to A, B and C. */
  lemma SubtractorInputs(i: nat)
    requires i < RowCount
    ensures SubtractorTable()["A"][i] == i / 4
    ensures SubtractorTable()["B"][i] == i / 2 % 2
    ensures SubtractorTable()["C"][i] == i % 2
  {
    var t := SubtractorTable();
    if i == 0 {} else if i == 1 {} else if i == 2 {} else if i == 3 {}
    else if i == 4 {} else if i == 5 {} else if i == 6 {} else {}
  }

  /**
   * The outputs subtract: A - B - C == D - 2 * P on every row, with D and P bits, so D is the
   * parity of A, B and C and P is set exactly when the subtrahend and the borrow exceed A.
   */
  lemma SubtractorArithmetic(i: nat)
    requires i < RowCount
    ensures var t := SubtractorTable(); t["A"][i] - t["B"][i] - t["C"][i] == t["D"][i] - 2 * t["P"][i]
    ensures var t := SubtractorTable(); t["D"][i] in {0, 1} && t["P"][i] in {0, 1}
    ensures var t := SubtractorTable(); t["D"][i] == (t["A"][i] + t["B"][i] + t["C"][i]) % 2
    ensures var t := SubtractorTable(); t["P"][i] == 1 <==> t["A"][i] < t["B"][i] + t["C"][i]
  {
    var t := SubtractorTable();
    if i == 0 {} else if i == 1 {} else if i == 2 {} else if i == 3 {}
    else if i == 4 {} else if i == 5 {} else if i == 6 {} else {}
  }

  // ---------------------------------------------------------------- build_sdnf

  /** A clause literal: the bare name when the value is truthy (nonzero), "!" and the name when it is 0. */
  function Literal(v: string, val: int): string
  {
    if val != 0 then v else "!" + v
  }

  /** The literals of row `i` for the columns `vars`, or the error of the first lookup that fails. */
  function RowLiterals(t: Table, vars: seq<string>, i: nat): (r: Result<seq<string>>)
    ensures r.Ok? ==> |r.value| == |vars|
  {
    if vars == [] then Ok([])
    else
      match RowLiterals(t, vars[..|vars| - 1], i)
      case Err(e) => Err(e)
      case Ok(ls) =>
        var v := vars[|vars| - 1];
        if v !in t then Err(KeyError(v))
        else if i >= |t[v]| then Err(OutOfRange)
        else Ok(ls + [Literal(v, t[v][i])])
  }

  /** The clause of row `i`, `None` when the output is not 1 there, or the error the row raises. */
  function RowClause(t: Table, output: string, i: nat): Result<Option<string>>
  {
    if output !in t then Err(KeyError(output))
    else if i >= |t[output]| then Err(OutOfRange)
    else if t[output][i] != 1 then Ok(None)
    else
      match RowLiterals(t, Variables, i)
      case Err(e) => Err(e)
      case Ok(ls) => Ok(Some(Join(ls, " & ")))
  }

  /** The list `sdnf_terms` after the rows below `k`, or the first error. */
  function SdnfTerms(t: Table, output: string, k: nat): Result<seq<string>>
  {
    if k == 0 then Ok([])
    else
      match SdnfTerms(t, output, k - 1)
      case Err(e) => Err(e)
      case Ok(terms) =>
        match RowClause(t, output, k - 1)
        case Err(e) => Err(e)
        case Ok(None) => Ok(terms)
        case Ok(Some(c)) => Ok(terms + [c])
  }

  /** Each term in parentheses. */
  function Parenthesised(terms: seq<string>): (r: seq<string>)
    ensures |r| == |terms| && forall j | 0 <= j < |terms| :: r[j] == "(" + terms[j] + ")"
  {
    seq(|terms|, j requires 0 <= j < |terms| => "(" + terms[j] + ")")
  }

  /** What `build_sdnf` returns or raises. */
  function Sdnf(t: Table, output: string): Result<string>
  {
    match SdnfTerms(t, output, RowCount)
    case Err(e) => Err(e)
    case Ok(terms) => Ok(if terms == [] then "0" else Join(Parenthesised(terms), " | "))
  }

  /** `build_sdnf(truth_table, output_name)`. */
  method BuildSdnf(t: Table, output: string) returns (r: Result<string>)
    ensures r == Sdnf(t, output)
  {
    var sdnfTerms: seq<string> := [];
    var variables := Variables;
    for i := 0 to 8
      invariant SdnfTerms(t, output, i) == Ok(sdnfTerms)
    {
      if output !in t {
        ErrorPersists(t, output, i + 1, RowCount);
        return Err(KeyError(output));
      }
      if i >= |t[output]| {
        ErrorPersists(t, output, i + 1, RowCount);
        return Err(OutOfRange);
      }
      if t[output][i] == 1 {
        var term: seq<string> := [];
        for j := 0 to |variables|
          invariant RowLiterals(t, variables[..j], i) == Ok(term)
        {
          var v := variables[j];
          assert variables[..j + 1][..j] == variables[..j];
          if v !in t {
            LiteralErrorPersists(t, variables, j + 1, i);
            ErrorPersists(t, output, i + 1, RowCount);
            return Err(KeyError(v));
          }
          if i >= |t[v]| {
            LiteralErrorPersists(t, variables, j + 1, i);
            ErrorPersists(t, output, i + 1, RowCount);
            return Err(OutOfRange);
          }
          term := term + [if t[v][i] != 0 then v else "!" + v];
        }
        assert variables[..|variables|] == variables;
        sdnfTerms := sdnfTerms + [Join(term, " & ")];
      }
    }
    r := Ok(if sdnfTerms != [] then Join(Parenthesised(sdnfTerms), " | ") else "0");
  }

  /** An error on the literals of the first `j` columns is the error of the whole row. */
  lemma {:induction false} LiteralErrorPersists(t: Table, vars: seq<string>, j: nat, i: nat)
    requires j <= |vars| && RowLiterals(t, vars[..j], i).Err?
    ensures RowLiterals(t, vars, i) == RowLiterals(t, vars[..j], i)
    decreases |vars| - j
  {
    if j < |vars| {
      assert vars[..j + 1][..j] == vars[..j];
      LiteralErrorPersists(t, vars, j + 1, i);
    } else {
      assert vars[..j] == vars;
    }
  }

  /** Once a row raises, every later prefix of the loop raises the same error. */
  lemma {:induction false} ErrorPersists(t: Table, output: string, k: nat, m: nat)
    requires k <= m && SdnfTerms(t, output, k).Err?
    ensures SdnfTerms(t, output, m) == SdnfTerms(t, output, k)
    decreases m - k
  {
    if k < m {
      ErrorPersists(t, output, k, m - 1);
    }
  }

  // ---------------------------------------------------------------- what the result means

  /** Every column `vars` names has a row `i`. */
  predicate HasRow(t: Table, vars: seq<string>, i: nat)
  {
    forall v | v in vars :: v in t && i < |t[v]|
  }

  /** The rows `build_sdnf` can read without raising: the output has eight rows, and so has every input on a row where the output is 1. */
  predicate Readable(t: Table, output: string)
  {
    output in t && |t[output]| >= RowCount &&
    forall i: nat | i < RowCount && t[output][i] == 1 :: HasRow(t, Variables, i)
  }

  /** The literals of a row exist exactly when every column has that row, and then they are the row's literals in column order. */
  lemma {:induction false} RowLiteralsOk(t: Table, vars: seq<string>, i: nat)
    ensures RowLiterals(t, vars, i).Ok? <==> HasRow(t, vars, i)
    ensures HasRow(t, vars, i) ==>
      forall j | 0 <= j < |vars| :: RowLiterals(t, vars, i).value[j] == Literal(vars[j], t[vars[j]][i])
  {
    if vars != [] {
      var init := vars[..|vars| - 1];
      RowLiteralsOk(t, init, i);
      assert forall v | v in vars :: v in init || v == vars[|vars| - 1];
      assert forall v | v in init :: v in vars;
    }
  }

  /** The rows below `k` whose output is 1, in increasing order. */
  function OneRows(column: seq<int>, k: nat): (r: seq<nat>)
    requires k <= |column|
    ensures forall j | 0 <= j < |r| :: r[j] < k && column[r[j]] == 1
  {
    if k == 0 then [] else OneRows(column, k - 1) + (if column[k - 1] == 1 then [k - 1] else [])
  }

  /** `OneRows` lists exactly the rows below `k` holding 1, each once, in increasing order. */
  lemma {:induction false} OneRowsCorrect(column: seq<int>, k: nat)
    requires k <= |column|
    ensures forall i: nat :: i in OneRows(column, k) <==> i < k && column[i] == 1
    ensures forall x, y | 0 <= x < y < |OneRows(column, k)| :: OneRows(column, k)[x] < OneRows(column, k)[y]
  {
    if k > 0 {
      OneRowsCorrect(column, k - 1);
    }
  }

  /** The clause of a readable row: the literals of A, B and C joined by " & ". */
  function Clause(t: Table, i: nat): string
    requires HasRow(t, Variables, i)
  {
    Join([Literal("A", t["A"][i]), Literal("B", t["B"][i]), Literal("C", t["C"][i])], " & ")
  }

  /** The row's clause, as the loop builds it, is `Clause`. */
  lemma RowClauseIsClause(t: Table, output: string, i: nat)
    requires output in t && i < |t[output]| && t[output][i] == 1 && HasRow(t, Variables, i)
    ensures RowClause(t, output, i) == Ok(Some(Clause(t, i)))
  {
    RowLiteralsOk(t, Variables, i);
    var ls := RowLiterals(t, Variables, i).value;
    assert ls == [Literal("A", t["A"][i]), Literal("B", t["B"][i]), Literal("C", t["C"][i])];
  }

  /**
   * On a readable table the terms are the clauses of the rows whose output is 1, in row order,
   * and the loop raises exactly when the table is not readable.
   */
  lemma {:induction false} SdnfTermsRows(t: Table, output: string, k: nat)
    requires 0 < k <= RowCount
    ensures SdnfTerms(t, output, k).Ok? <==>
      output in t && |t[output]| >= k && forall i: nat | i < k && t[output][i] == 1 :: HasRow(t, Variables, i)
    ensures SdnfTerms(t, output, k).Ok? ==>
      var rows := OneRows(t[output], k);
      SdnfTerms(t, output, k).value == seq(|rows|, j requires 0 <= j < |rows| => Clause(t, rows[j]))
  {
    if k > 1 {
      SdnfTermsRows(t, output, k - 1);
    }
    RowLiteralsOk(t, Variables, k - 1);
    if SdnfTerms(t, output, k).Ok? {
      var rows := OneRows(t[output], k);
      var prev := OneRows(t[output], k - 1);
      if t[output][k - 1] == 1 {
        RowClauseIsClause(t, output, k - 1);
      }
      assert rows == prev + (if t[output][k - 1] == 1 then [k - 1] else []);
    }
  }

  /** `build_sdnf` raises exactly on an unreadable table. */
  lemma SdnfOk(t: Table, output: string)
    ensures Sdnf(t, output).Ok? <==> Readable(t, output)
  {
    SdnfTermsRows(t, output, RowCount);
  }

  /** On a readable table the result is "0" exactly when no row's output is 1. */
  lemma SdnfZero(t: Table, output: string)
    requires Readable(t, output)
    ensures Sdnf(t, output) == Ok("0") <==> forall i: nat | i < RowCount :: t[output][i] != 1
  {
    SdnfTermsRows(t, output, RowCount);
    OneRowsCorrect(t[output], RowCount);
    var terms := SdnfTerms(t, output, RowCount).value;
    if terms != [] {
      JoinFirstChar(Parenthesised(terms), " | ");
    }
    if exists i: nat | i < RowCount :: t[output][i] == 1 {
      var i: nat :| i < RowCount && t[output][i] == 1;
      assert i in OneRows(t[output], RowCount);
    }
  }

  /**
   * On a readable table the result joins, with " | ", one parenthesised clause per row whose
   * output is 1, in increasing row order, or is "0" when there is none.
   */
  lemma SdnfText(t: Table, output: string)
    requires Readable(t, output)
    ensures var rows := OneRows(t[output], RowCount);
      Sdnf(t, output) == Ok(if rows == [] then "0"
        else Join(seq(|rows|, j requires 0 <= j < |rows| => "(" + Clause(t, rows[j]) + ")"), " | "))
  {
    SdnfTermsRows(t, output, RowCount);
    var rows := OneRows(t[output], RowCount);
    var terms := SdnfTerms(t, output, RowCount).value;
    assert Parenthesised(terms) == seq(|rows|, j requires 0 <= j < |rows| => "(" + Clause(t, rows[j]) + ")");
  }

  /** An unknown output column raises `KeyError` on the first row. */
  lemma SdnfMissingOutput(t: Table, output: string)
    requires output !in t
    ensures Sdnf(t, output) == Err(KeyError(output))
  {
    ErrorPersists(t, output, 1, RowCount);
  }

  // ---------------------------------------------------------------- the subtractor's two forms

  /** The clause of row `i` of the subtractor, from the bits of `i`. */
  lemma SubtractorClause(i: nat)
    requires i < RowCount
    ensures HasRow(SubtractorTable(), Variables, i)
    ensures Clause(SubtractorTable(), i) ==
      Literal("A", i / 4) + " & " + Literal("B", i / 2 % 2) + " & " + Literal("C", i % 2)
  {
    SubtractorInputs(i);
    var t := SubtractorTable();
    var ls := [Literal("A", t["A"][i]), Literal("B", t["B"][i]), Literal("C", t["C"][i])];
    assert ls[1..][1..] == [ls[2]];
  }

  /** The rows where D is 1. */
  lemma DifferenceRows(d: seq<int>)
    requires d == [0, 1, 1, 0, 1, 0, 0, 1]
    ensures OneRows(d, RowCount) == [1, 2, 4, 7]
  {
    assert OneRows(d, 1) == [];
    assert OneRows(d, 2) == [1];
    assert OneRows(d, 3) == [1, 2];
    assert OneRows(d, 4) == [1, 2];
    assert OneRows(d, 5) == [1, 2, 4];
    assert OneRows(d, 6) == [1, 2, 4];
    assert OneRows(d, 7) == [1, 2, 4];
  }

  /** The rows where P is 1. */
  lemma BorrowRows(p: seq<int>)
    requires p == [0, 1, 1, 1, 0, 0, 0, 1]
    ensures OneRows(p, RowCount) == [1, 2, 3, 7]
  {
    assert OneRows(p, 1) == [];
    assert OneRows(p, 2) == [1];
    assert OneRows(p, 3) == [1, 2];
    assert OneRows(p, 4) == [1, 2, 3];
    assert OneRows(p, 5) == [1, 2, 3];
    assert OneRows(p, 6) == [1, 2, 3];
    assert OneRows(p, 7) == [1, 2, 3];
  }

  /** Every column of the subtractor has eight rows, so every output column is readable. */
  lemma SubtractorReadable(t: Table, output: string)
    requires t == SubtractorTable() && output in t
    ensures forall i: nat | i < RowCount :: HasRow(t, Variables, i)
    ensures Readable(t, output)
  {
    assert "A" in t && "B" in t && "C" in t;
    forall i: nat | i < RowCount ensures HasRow(t, Variables, i) {
      assert forall v | v in Variables :: v in t && |t[v]| == RowCount;
    }
  }

  /** A readable output with 1s on exactly four rows gives those rows' four clauses. */
  lemma SdnfOfFourRows(t: Table, output: string, rows: seq<nat>)
    requires Readable(t, output) && OneRows(t[output], RowCount) == rows && |rows| == 4
    ensures forall j | 0 <= j < 4 :: HasRow(t, Variables, rows[j])
    ensures Sdnf(t, output) == Ok(Join(["(" + Clause(t, rows[0]) + ")", "(" + Clause(t, rows[1]) + ")",
      "(" + Clause(t, rows[2]) + ")", "(" + Clause(t, rows[3]) + ")"], " | "))
  {
    SdnfText(t, output);
    var s := seq(|rows|, j requires 0 <= j < |rows| => "(" + Clause(t, rows[j]) + ")");
    assert |s| == 4 && s[0] == "(" + Clause(t, rows[0]) + ")" && s[1] == "(" + Clause(t, rows[1]) + ")";
    assert s[2] == "(" + Clause(t, rows[2]) + ")" && s[3] == "(" + Clause(t, rows[3]) + ")";
    FourElements(s);
  }

  lemma FourElements<T>(s: seq<T>)
    requires |s| == 4
    ensures s == [s[0], s[1], s[2], s[3]]
  {
  }

  /** `build_sdnf(table, 'D')`: the clauses of rows 1, 2, 4 and 7; `SubtractorClause` spells each one. */
  lemma DifferenceSdnf(t: Table)
    requires t == SubtractorTable()
    ensures forall i: nat | i < RowCount :: HasRow(t, Variables, i)
    ensures Sdnf(t, "D") ==
      Ok(Join(["(" + Clause(t, 1) + ")", "(" + Clause(t, 2) + ")", "(" + Clause(t, 4) + ")", "(" + Clause(t, 7) + ")"], " | "))
  {
    SubtractorReadable(t, "D");
    assert t["D"] == [0, 1, 1, 0, 1, 0, 0, 1];
    DifferenceRows(t["D"]);
    SdnfOfFourRows(t, "D", [1, 2, 4, 7]);
  }

  /** `build_sdnf(table, 'P')`: the clauses of rows 1, 2, 3 and 7. */
  lemma BorrowSdnf(t: Table)
    requires t == SubtractorTable()
    ensures forall i: nat | i < RowCount :: HasRow(t, Variables, i)
    ensures Sdnf(t, "P") ==
      Ok(Join(["(" + Clause(t, 1) + ")", "(" + Clause(t, 2) + ")", "(" + Clause(t, 3) + ")", "(" + Clause(t, 7) + ")"], " | "))
  {
    SubtractorReadable(t, "P");
    assert t["P"] == [0, 1, 1, 1, 0, 0, 0, 1];
    BorrowRows(t["P"]);
    SdnfOfFourRows(t, "P", [1, 2, 3, 7]);
  }
}
