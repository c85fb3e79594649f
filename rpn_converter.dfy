/**
 * `ReversePolishNotationConverter` (LR_4/LR_2/rpn_converter.py): shunting-yard conversion of an
 * infix expression into a postfix token list.
 *
 * The conversion is specified by a step function over tokens (`Step`, `Process`), which the loop
 * of `ToReversePolishNotation` is proved to follow. The flag `rightUnary` selects the corrected
 * variant, in which an incoming `!` pops nothing; `false` is the code as written.
 */
module RpnConverter {
  import opened Wrappers
  import opened BoolExprs

  /** `is_operand`: `str.isalnum` of the token. */
  predicate IsOperand(t: string)
  {
    |t| > 0 && forall i | 0 <= i < |t| :: IsAlnum(t[i])
  }

  /** `is_operator`. */
  predicate IsOperator(t: string)
  {
    t == "!" || t == "&" || t == "|" || t == "~" || t == "->"
  }

  /** `get_priority`: ! 5, & 4, | 3, -> 2, ~ 1, and 0 for anything else ('(' included). */
  function Priority(t: string): (p: nat)
    ensures p <= 5
    ensures p > 0 <==> IsOperator(t)
    ensures p == 5 <==> t == "!"
  {
    if t == "!" then 5
    else if t == "&" then 4
    else if t == "|" then 3
    else if t == "->" then 2
    else if t == "~" then 1
    else 0
  }

  // ---------------------------------------------------------------- tokens

  /** The tokens the loop reads: "->" as one token, every other character on its own. */
  function Tokens(e: string): seq<string>
    decreases |e|
  {
    if e == [] then []
    else if |e| >= 2 && e[0] == '-' && e[1] == '>' then ["->"] + Tokens(e[2..])
    else [e[..1]] + Tokens(e[1..])
  }

  function Concat(ts: seq<string>): string
  {
    if ts == [] then "" else ts[0] + Concat(ts[1..])
  }

  /** The tokens spell the expression: nothing is lost or invented by tokenising. */
  lemma {:induction false} TokensConcat(e: string)
    ensures Concat(Tokens(e)) == e
    decreases |e|
  {
    if e != [] {
      if |e| >= 2 && e[0] == '-' && e[1] == '>' {
        TokensConcat(e[2..]);
        assert e == "->" + e[2..];
      } else {
        TokensConcat(e[1..]);
        assert e == e[..1] + e[1..];
      }
    }
  }

  /** Tokenising splits at a boundary that does not cut an arrow. */
  lemma {:induction false} TokensAppend(a: string, b: string)
    requires a == [] || a[|a| - 1] != '-'
    ensures Tokens(a + b) == Tokens(a) + Tokens(b)
    decreases |a|
  {
    if a == [] {
      assert a + b == b;
    } else if |a| >= 2 && a[0] == '-' && a[1] == '>' {
      assert (a + b)[2..] == a[2..] + b;
      TokensAppend(a[2..], b);
    } else {
      assert (a + b)[1..] == a[1..] + b;
      assert (a + b)[..1] == a[..1];
      TokensAppend(a[1..], b);
    }
  }

  /** The token at position `i` and the rest: what one turn of the loop reads. */
  lemma TokensFrom(e: string, i: nat)
    requires i < |e|
    ensures e[i] == '-' && i + 1 < |e| && e[i + 1] == '>' ==> Tokens(e[i..]) == ["->"] + Tokens(e[i + 2..])
    ensures !(e[i] == '-' && i + 1 < |e| && e[i + 1] == '>') ==> Tokens(e[i..]) == [[e[i]]] + Tokens(e[i + 1..])
  {
    assert e[i..][1..] == e[i + 1..];
    assert e[i..][..1] == [e[i]];
    if i + 1 < |e| {
      assert e[i..][2..] == e[i + 2..];
    }
  }

  // ---------------------------------------------------------------- the conversion

  /** The output list and the operator stack (top last, as a Python list). */
  datatype State = State(output: seq<string>, stack: seq<string>)

  function Top(s: seq<string>): string
    requires s != []
  {
    s[|s| - 1]
  }

  function Pop(s: seq<string>): seq<string>
    requires s != []
  {
    s[..|s| - 1]
  }

  /** An incoming operator pops a stacked one of no lower priority; a corrected `!` pops nothing. */
  predicate PopsBefore(top: string, op: string, rightUnary: bool)
  {
    Priority(top) >= Priority(op) && !(rightUnary && op == "!")
  }

  /** `while stack and priority(stack[-1]) >= priority(op): result.append(stack.pop())`. */
  function PopWhile(st: State, op: string, rightUnary: bool): State
    decreases |st.stack|
  {
    if st.stack != [] && PopsBefore(Top(st.stack), op, rightUnary) then
      PopWhile(State(st.output + [Top(st.stack)], Pop(st.stack)), op, rightUnary)
    else st
  }

  /** `while stack and stack[-1] != '(': result.append(stack.pop())`. */
  function PopToOpen(st: State): State
    decreases |st.stack|
  {
    if st.stack != [] && Top(st.stack) != "(" then PopToOpen(State(st.output + [Top(st.stack)], Pop(st.stack)))
    else st
  }

  /** What `list.pop()` raises on an empty list. */
  const PopEmpty: Error := IndexError("pop from empty list")

  /** One token: operands go out, '(' is stacked, ')' unwinds to its '(', operators pop then push. */
  function Step(st: State, t: string, rightUnary: bool): Result<State>
  {
    if IsOperand(t) then Ok(State(st.output + [t], st.stack))
    else if t == "(" then Ok(State(st.output, st.stack + ["("]))
    else if t == ")" then
      var s := PopToOpen(st);
      if s.stack == [] then Err(PopEmpty) else Ok(State(s.output, Pop(s.stack)))
    else if IsOperator(t) then
      var s := PopWhile(st, t, rightUnary);
      Ok(State(s.output, s.stack + [t]))
    else Ok(st)
  }

  function Process(ts: seq<string>, st: State, rightUnary: bool): Result<State>
    decreases |ts|
  {
    if ts == [] then Ok(st)
    else match Step(st, ts[0], rightUnary)
      case Err(x) => Err(x)
      case Ok(s) => Process(ts[1..], s, rightUnary)
  }

  /** The stack popped empty: its elements in LIFO order. */
  function Reverse(s: seq<string>): (r: seq<string>)
    ensures |r| == |s|
  {
    if s == [] then [] else [Top(s)] + Reverse(Pop(s))
  }

  function Flush(st: State): seq<string>
  {
    st.output + Reverse(st.stack)
  }

  function RpnFrom(ts: seq<string>, st: State, rightUnary: bool): Result<seq<string>>
  {
    match Process(ts, st, rightUnary)
    case Err(x) => Err(x)
    case Ok(s) => Ok(Flush(s))
  }

  /** The postfix token list of `e`, or the error the conversion raises. */
  function Rpn(e: string, rightUnary: bool): Result<seq<string>>
  {
    RpnFrom(Tokens(e), State([], []), rightUnary)
  }

  /** The conversion loop, shared by the as-written and the corrected converter. */
  method Convert(expression: string, rightUnary: bool) returns (r: Result<seq<string>>)
    ensures r == Rpn(expression, rightUnary)
  {
    var result: seq<string> := [];
    var stack: seq<string> := [];
    var i := 0;
    while i < |expression|
      invariant 0 <= i <= |expression|
      invariant RpnFrom(Tokens(expression[i..]), State(result, stack), rightUnary) == Rpn(expression, rightUnary)
      decreases |expression| - i
    {
      TokensFrom(expression, i);
      ghost var ts := Tokens(expression[i..]);
      var operator: string;
      if expression[i] == '-' && i + 1 < |expression| && expression[i + 1] == '>' {
        operator := "->";
        i := i + 2;
      } else {
        operator := [expression[i]];
        i := i + 1;
      }
      ghost var before := State(result, stack);
      assert ts == [operator] + Tokens(expression[i..]);
      if IsOperand(operator) {
        result := result + [operator];
      } else if operator == "(" {
        stack := stack + ["("];
      } else if operator == ")" {
        while stack != [] && stack[|stack| - 1] != "("
          invariant PopToOpen(State(result, stack)) == PopToOpen(before)
          decreases |stack|
        {
          result := result + [stack[|stack| - 1]];
          stack := stack[..|stack| - 1];
        }
        if stack == [] {
          assert Step(before, operator, rightUnary) == Err(PopEmpty);
          assert Process(ts, before, rightUnary) == Err(PopEmpty);
          return Err(PopEmpty);
        }
        stack := stack[..|stack| - 1];
      } else if IsOperator(operator) {
        while stack != [] && PopsBefore(stack[|stack| - 1], operator, rightUnary)
          invariant PopWhile(State(result, stack), operator, rightUnary) == PopWhile(before, operator, rightUnary)
          decreases |stack|
        {
          result := result + [stack[|stack| - 1]];
          stack := stack[..|stack| - 1];
        }
        stack := stack + [operator];
      }
      assert Step(before, operator, rightUnary) == Ok(State(result, stack));
    }
    assert expression[i..] == [];
    ghost var last := State(result, stack);
    assert RpnFrom([], last, rightUnary) == Ok(Flush(last));
    while stack != []
      invariant Flush(State(result, stack)) == Flush(last)
      decreases |stack|
    {
      result := result + [stack[|stack| - 1]];
      stack := stack[..|stack| - 1];
    }
    assert Flush(State(result, stack)) == result;
    r := Ok(result);
  }

  /** `to_reverse_polish_notation`, as written. */
  method ToReversePolishNotation(expression: string) returns (r: Result<seq<string>>)
    ensures r == Rpn(expression, false)
  {
    r := Convert(expression, false);
  }

  /** The converter with `!` treated as a right-associative prefix operator. */
  method ToReversePolishNotationCorrected(expression: string) returns (r: Result<seq<string>>)
    ensures r == Rpn(expression, true)
  {
    r := Convert(expression, true);
  }

  // ---------------------------------------------------------------- converting formulas

  /** Processing a concatenation processes the first part, then the second from where it ended. */
  lemma {:induction false} ProcessAppend(a: seq<string>, b: seq<string>, st: State, s: State, rightUnary: bool)
    requires Process(a, st, rightUnary) == Ok(s)
    ensures Process(a + b, st, rightUnary) == Process(b, s, rightUnary)
    decreases |a|
  {
    if a == [] {
      assert a + b == b;
    } else {
      assert (a + b)[0] == a[0] && (a + b)[1..] == a[1..] + b;
      var s1 := Step(st, a[0], rightUnary).value;
      ProcessAppend(a[1..], b, s1, s, rightUnary);
    }
  }

  lemma BangsCons(k: nat)
    ensures ["!"] + Bangs(k) == Bangs(k + 1)
  {
  }

  lemma {:induction false} ReverseBangs(k: nat)
    ensures Reverse(Bangs(k)) == Bangs(k)
  {
    if k > 0 {
      ReverseBangs(k - 1);
      assert Pop(Bangs(k)) == Bangs(k - 1);
      BangsCons(k - 1);
    }
  }

  /** A binary operator arriving over `( ! … !` pops the negations and stops at the parenthesis. */
  lemma {:induction false} PopBangs(o: seq<string>, s: seq<string>, k: nat, op: string, rightUnary: bool)
    requires IsOperator(op) && op != "!"
    ensures PopWhile(State(o, s + ["("] + Bangs(k)), op, rightUnary) == State(o + Bangs(k), s + ["("])
    decreases k
  {
    if k == 0 {
      assert s + ["("] + Bangs(0) == s + ["("];
    } else {
      var stk := s + ["("] + Bangs(k);
      assert Top(stk) == "!" && Pop(stk) == s + ["("] + Bangs(k - 1);
      PopBangs(o + ["!"], s, k - 1, op, rightUnary);
      BangsCons(k - 1);
      assert o + ["!"] + Bangs(k - 1) == o + Bangs(k);
    }
  }

  /** ')' over `( op ! … !` emits the negations, then the operator, and stops at the parenthesis. */
  lemma {:induction false} CloseBangs(o: seq<string>, s: seq<string>, k: nat, op: string)
    requires IsOperator(op)
    ensures PopToOpen(State(o, s + ["(", op] + Bangs(k))) == State(o + Bangs(k) + [op], s + ["("])
    decreases k
  {
    if k == 0 {
      var stk := s + ["(", op];
      assert stk == s + ["(", op] + Bangs(0);
      assert Top(stk) == op && Pop(stk) == s + ["("];
      assert Top(s + ["("]) == "(";
    } else {
      var stk := s + ["(", op] + Bangs(k);
      assert Top(stk) == "!" && Pop(stk) == s + ["(", op] + Bangs(k - 1);
      CloseBangs(o + ["!"], s, k - 1, op);
      BangsCons(k - 1);
      assert o + ["!"] + Bangs(k - 1) == o + Bangs(k);
    }
  }

  lemma OperatorTokens(op: BinOp)
    ensures Tokens(OpToken(op)) == [OpToken(op)] && IsOperator(OpToken(op)) && OpToken(op) != "!"
    ensures OpToken(op)[|OpToken(op)| - 1] != '-'
  {
    if op == Implies {
      assert OpToken(op)[2..] == [];
    } else {
      assert OpToken(op)[1..] == [];
      assert OpToken(op)[..1] == OpToken(op);
    }
  }

  lemma SingleToken(c: char)
    requires c != '-'
    ensures Tokens([c]) == [[c]]
  {
    assert [c][1..] == [];
    assert [c][..1] == [c];
  }

  /** The operator between its two spaces. */
  lemma MidTokens(op: BinOp)
    ensures Tokens(" " + OpToken(op) + " ") == [" ", OpToken(op), " "]
    ensures (" " + OpToken(op) + " ")[|" " + OpToken(op) + " "| - 1] == ' '
  {
    var t := OpToken(op);
    OperatorTokens(op);
    SingleToken(' ');
    TokensAppend(t, " ");
    TokensAppend(" ", t + " ");
    assert " " + (t + " ") == " " + t + " ";
  }

  /** The text of a binary operation, grouped from the right. */
  lemma InfixBinShape(op: BinOp, l: Expr, r: Expr)
    ensures Infix(Bin(op, l, r)) == "(" + (Infix(l) + ((" " + OpToken(op) + " ") + (Infix(r) + ")")))
  {
  }

  /** The tokens of a parenthesised binary operation. */
  lemma TokensBin(op: BinOp, l: Expr, r: Expr)
    requires WellNamed(l) && WellNamed(r)
    ensures Tokens(Infix(Bin(op, l, r))) ==
      ["("] + (Tokens(Infix(l)) + ([" ", OpToken(op), " "] + (Tokens(Infix(r)) + [")"])))
  {
    var il, ir := Infix(l), Infix(r);
    var mid := " " + OpToken(op) + " ";
    InfixBinShape(op, l, r);
    InfixLast(l);
    InfixLast(r);
    MidTokens(op);
    var t1 := ir + ")";
    var t2 := mid + t1;
    var t3 := il + t2;
    SingleToken('(');
    SingleToken(')');
    TokensAppend(ir, ")");
    TokensAppend(mid, t1);
    TokensAppend(il, t2);
    TokensAppend("(", t3);
  }

  /**
   * Converting a formula's infix text from any state appends the postfix of its atom to the output
   * and leaves one "!" per leading negation on the stack. The as-written converter needs the
   * formula free of `!!` and, for a leading `!`, a stack whose top is not "!".
   */
  lemma {:induction false} InfixProcess(e: Expr, st: State, rightUnary: bool)
    requires WellNamed(e) && (rightUnary || NoDoubleNot(e))
    requires rightUnary || !e.Not? || st.stack == [] || Top(st.stack) != "!"
    ensures Process(Tokens(Infix(e)), st, rightUnary) ==
      Ok(State(st.output + Postfix(Atom(e)), st.stack + Bangs(Lead(e))))
    decreases e, 1
  {
    match e
    case Var(c) =>
      SingleToken(c);
      assert Process([[c]], st, rightUnary) == Process([], State(st.output + [[c]], st.stack), rightUnary);
      assert st.stack + Bangs(0) == st.stack;
    case Not(x) =>
      InfixProcessNot(x, st, rightUnary);
    case Bin(op, l, r) =>
      InfixProcessBin(op, l, r, st, rightUnary);
      assert st.stack + Bangs(0) == st.stack;
  }

  lemma {:induction false} InfixProcessNot(x: Expr, st: State, rightUnary: bool)
    requires WellNamed(x) && (rightUnary || NoDoubleNot(Not(x)))
    requires rightUnary || st.stack == [] || Top(st.stack) != "!"
    ensures Process(Tokens(Infix(Not(x))), st, rightUnary) ==
      Ok(State(st.output + Postfix(Atom(x)), st.stack + Bangs(Lead(x) + 1)))
    decreases Not(x), 0
  {
    TokensAppend("!", Infix(x));
    SingleToken('!');
    var st1 := State(st.output, st.stack + ["!"]);
    assert PopWhile(st, "!", rightUnary) == st;
    assert Step(st, "!", rightUnary) == Ok(st1);
    assert Process(["!"], st, rightUnary) == Ok(st1);
    InfixProcess(x, st1, rightUnary);
    ProcessAppend(["!"], Tokens(Infix(x)), st, st1, rightUnary);
    BangsCons(Lead(x));
    assert st.stack + ["!"] + Bangs(Lead(x)) == st.stack + Bangs(Lead(x) + 1);
  }

  lemma {:induction false} InfixProcessBin(op: BinOp, l: Expr, r: Expr, st: State, rightUnary: bool)
    requires WellNamed(l) && WellNamed(r) && (rightUnary || (NoDoubleNot(l) && NoDoubleNot(r)))
    ensures Process(Tokens(Infix(Bin(op, l, r))), st, rightUnary) ==
      Ok(State(st.output + Postfix(Bin(op, l, r)), st.stack))
    decreases Bin(op, l, r), 0
  {
    var t := OpToken(op);
    var o, s := st.output, st.stack;
    TokensBin(op, l, r);
    OperatorTokens(op);
    var s1 := State(o, s + ["("]);
    PunctuationSteps(st, rightUnary);
    ProcessOne("(", st, s1, rightUnary);
    var s2 := State(o + Postfix(Atom(l)), s + ["("] + Bangs(Lead(l)));
    InfixProcess(l, s1, rightUnary);
    var s4 := State(o + Postfix(Atom(l)) + Bangs(Lead(l)), s + ["(", t]);
    BinMid(op, o + Postfix(Atom(l)), s, Lead(l), rightUnary);
    var s6 := State(s4.output + Postfix(Atom(r)), s + ["(", t] + Bangs(Lead(r)));
    InfixProcess(r, s4, rightUnary);
    var s7 := State(s4.output + Postfix(Atom(r)) + Bangs(Lead(r)) + [t], s);
    BinClose(op, s4.output + Postfix(Atom(r)), s, Lead(r), rightUnary);
    ProcessChain(["("], Tokens(Infix(l)), [" ", t, " "], Tokens(Infix(r)), [")"], st, s1, s2, s4, s6, s7, rightUnary);
    PostfixLead(l);
    PostfixLead(r);
    Regroup(o, Postfix(Atom(l)), Bangs(Lead(l)), Postfix(Atom(r)), Bangs(Lead(r)), [t]);
  }

  lemma Regroup(o: seq<string>, a: seq<string>, b: seq<string>, c: seq<string>, d: seq<string>, e: seq<string>)
    ensures o + a + b + c + d + e == o + ((a + b) + (c + d) + e)
  {
  }

  /** Five pieces processed one after the other. */
  lemma ProcessChain(a: seq<string>, b: seq<string>, c: seq<string>, d: seq<string>, e: seq<string>,
                     s0: State, s1: State, s2: State, s3: State, s4: State, s5: State, rightUnary: bool)
    requires Process(a, s0, rightUnary) == Ok(s1) && Process(b, s1, rightUnary) == Ok(s2)
    requires Process(c, s2, rightUnary) == Ok(s3) && Process(d, s3, rightUnary) == Ok(s4)
    requires Process(e, s4, rightUnary) == Ok(s5)
    ensures Process(a + (b + (c + (d + e))), s0, rightUnary) == Ok(s5)
  {
    ProcessAppend(d, e, s3, s4, rightUnary);
    ProcessAppend(c, d + e, s2, s3, rightUnary);
    ProcessAppend(b, c + (d + e), s1, s2, rightUnary);
    ProcessAppend(a, b + (c + (d + e)), s0, s1, rightUnary);
  }

  /** What '(' and ' ' do to any state. */
  lemma PunctuationSteps(st: State, rightUnary: bool)
    ensures Step(st, "(", rightUnary) == Ok(State(st.output, st.stack + ["("]))
    ensures Step(st, " ", rightUnary) == Ok(st)
  {
    assert !IsAlnum("("[0]) && !IsAlnum(" "[0]);
  }

  /** A one-token list is one step. */
  lemma ProcessOne(t: string, st: State, s: State, rightUnary: bool)
    requires Step(st, t, rightUnary) == Ok(s)
    ensures Process([t], st, rightUnary) == Ok(s)
  {
    assert [t][1..] == [];
  }

  lemma BinMid(op: BinOp, o: seq<string>, s: seq<string>, k: nat, rightUnary: bool)
    ensures Process([" ", OpToken(op), " "], State(o, s + ["("] + Bangs(k)), rightUnary) ==
      Ok(State(o + Bangs(k), s + ["(", OpToken(op)]))
  {
    var t := OpToken(op);
    var s2 := State(o, s + ["("] + Bangs(k));
    var s4 := State(o + Bangs(k), s + ["(", t]);
    OperatorTokens(op);
    PopBangs(o, s, k, t, rightUnary);
    PunctuationSteps(s2, rightUnary);
    PunctuationSteps(s4, rightUnary);
    assert !IsOperand(t) by { assert !IsAlnum(t[0]); }
    assert t != "(" && t != ")";
    assert s + ["("] + [t] == s + ["(", t];
    assert Step(s2, t, rightUnary) == Ok(s4);
    ProcessOne(" ", s4, s4, rightUnary);
    ProcessOne(t, s2, s4, rightUnary);
    ProcessOne(" ", s2, s2, rightUnary);
    ProcessAppend([t], [" "], s2, s4, rightUnary);
    ProcessAppend([" "], [t, " "], s2, s2, rightUnary);
    assert [" "] + ([t] + [" "]) == [" ", t, " "];
  }

  lemma BinClose(op: BinOp, o: seq<string>, s: seq<string>, k: nat, rightUnary: bool)
    ensures Process([")"], State(o, s + ["(", OpToken(op)] + Bangs(k)), rightUnary) ==
      Ok(State(o + Bangs(k) + [OpToken(op)], s))
  {
    var t := OpToken(op);
    OperatorTokens(op);
    CloseBangs(o, s, k, t);
    var st := State(o, s + ["(", t] + Bangs(k));
    assert !IsOperand(")") by { assert !IsAlnum(")"[0]); }
    assert Pop(s + ["("]) == s;
    assert Step(st, ")", rightUnary) == Ok(State(o + Bangs(k) + [t], s));
    ProcessOne(")", st, State(o + Bangs(k) + [t], s), rightUnary);
  }

  /**
   * The corrected converter turns the infix text of every formula into its postfix form; the
   * converter as written does so for every formula without a doubled `!`.
   */
  lemma RpnOfInfix(e: Expr, rightUnary: bool)
    requires WellNamed(e) && (rightUnary || NoDoubleNot(e))
    ensures Rpn(Infix(e), rightUnary) == Ok(Postfix(e))
  {
    InfixProcess(e, State([], []), rightUnary);
    ReverseBangs(Lead(e));
    PostfixLead(e);
    assert [] + Postfix(Atom(e)) == Postfix(Atom(e));
    assert [] + Bangs(Lead(e)) == Bangs(Lead(e));
  }

  // ---------------------------------------------------------------- errors and operands

  /** The number of "(" on a stack. */
  function Opens(s: seq<string>): nat
  {
    if s == [] then 0 else Opens(Pop(s)) + (if Top(s) == "(" then 1 else 0)
  }

  /** The stack only ever holds '(' and operators. */
  predicate StackOk(s: seq<string>)
  {
    forall i | 0 <= i < |s| :: s[i] == "(" || IsOperator(s[i])
  }

  /** The operand tokens of a list, in order. */
  function Operands(ts: seq<string>): seq<string>
  {
    if ts == [] then [] else (if IsOperand(ts[0]) then [ts[0]] else []) + Operands(ts[1..])
  }

  lemma {:induction false} OperandsAppend(a: seq<string>, b: seq<string>)
    ensures Operands(a + b) == Operands(a) + Operands(b)
    decreases |a|
  {
    if a == [] {
      assert a + b == b;
    } else {
      assert (a + b)[0] == a[0] && (a + b)[1..] == a[1..] + b;
      OperandsAppend(a[1..], b);
    }
  }

  lemma OperandsOne(t: string)
    ensures Operands([t]) == if IsOperand(t) then [t] else []
  {
    assert [t][1..] == [];
  }

  lemma NotOperand(t: string)
    requires t == "(" || IsOperator(t)
    ensures !IsOperand(t)
  {
    assert !IsAlnum(t[0]);
  }

  /** The first `k` or more tokens close a parenthesis that `d` open ones and the tokens do not match. */
  predicate GoesNegative(ts: seq<string>, d: nat)
    decreases |ts|
  {
    if ts == [] then false
    else if ts[0] == ")" then d == 0 || GoesNegative(ts[1..], d - 1)
    else if ts[0] == "(" then GoesNegative(ts[1..], d + 1)
    else GoesNegative(ts[1..], d)
  }

  lemma {:induction false} PopToOpenFacts(st: State)
    requires StackOk(st.stack)
    ensures var r := PopToOpen(st);
      Opens(r.stack) == Opens(st.stack) && StackOk(r.stack) &&
      Operands(r.output) == Operands(st.output) &&
      (r.stack == [] <==> Opens(st.stack) == 0) &&
      (r.stack != [] ==> Top(r.stack) == "(" && Opens(Pop(r.stack)) + 1 == Opens(st.stack) && StackOk(Pop(r.stack)))
    decreases |st.stack|
  {
    var stk := st.stack;
    if stk != [] {
      assert stk[|stk| - 1] == Top(stk);
      assert StackOk(Pop(stk));
      if Top(stk) != "(" {
        NotOperand(Top(stk));
        OperandsAppend(st.output, [Top(stk)]);
        OperandsOne(Top(stk));
        PopToOpenFacts(State(st.output + [Top(stk)], Pop(stk)));
      }
    }
  }

  lemma {:induction false} PopWhileFacts(st: State, op: string, rightUnary: bool)
    requires StackOk(st.stack) && IsOperator(op)
    ensures var r := PopWhile(st, op, rightUnary);
      Opens(r.stack) == Opens(st.stack) && StackOk(r.stack) && Operands(r.output) == Operands(st.output)
    decreases |st.stack|
  {
    var stk := st.stack;
    if stk != [] && PopsBefore(Top(stk), op, rightUnary) {
      assert stk[|stk| - 1] == Top(stk);
      assert StackOk(Pop(stk));
      NotOperand(Top(stk));
      OperandsAppend(st.output, [Top(stk)]);
      OperandsOne(Top(stk));
      PopWhileFacts(State(st.output + [Top(stk)], Pop(stk)), op, rightUnary);
    }
  }

  lemma OpensPush(s: seq<string>, t: string)
    ensures Opens(s + [t]) == Opens(s) + (if t == "(" then 1 else 0)
  {
    assert Pop(s + [t]) == s;
  }

  /**
   * One token fails exactly when it is a ')' with no '(' on the stack; otherwise it adjusts the
   * count of open parentheses, keeps the stack well-formed and emits the token if it is an operand.
   */
  lemma StepFacts(st: State, t: string, rightUnary: bool)
    requires StackOk(st.stack)
    ensures Step(st, t, rightUnary).Err? <==> t == ")" && Opens(st.stack) == 0
    ensures Step(st, t, rightUnary).Err? ==> Step(st, t, rightUnary).error == PopEmpty
    ensures Step(st, t, rightUnary).Ok? ==>
      var r := Step(st, t, rightUnary).value;
      StackOk(r.stack) && Operands(r.output) == Operands(st.output) + Operands([t]) &&
      Opens(r.stack) == (if t == ")" then Opens(st.stack) - 1 else if t == "(" then Opens(st.stack) + 1 else Opens(st.stack))
  {
    OperandsOne(t);
    if IsOperand(t) {
      assert t != ")" by { assert !IsAlnum(")"[0]); }
      OperandsAppend(st.output, [t]);
    } else if t == "(" {
      OpensPush(st.stack, "(");
      assert StackOk(st.stack + ["("]);
    } else if t == ")" {
      PopToOpenFacts(st);
    } else if IsOperator(t) {
      PopWhileFacts(st, t, rightUnary);
      var r := PopWhile(st, t, rightUnary);
      OpensPush(r.stack, t);
      assert StackOk(r.stack + [t]);
    }
  }

  /** Processing fails exactly when some ')' finds no '(' to close, and always with `PopEmpty`. */
  lemma {:induction false} ProcessErr(ts: seq<string>, st: State, rightUnary: bool)
    requires StackOk(st.stack)
    ensures Process(ts, st, rightUnary).Err? <==> GoesNegative(ts, Opens(st.stack))
    ensures Process(ts, st, rightUnary).Err? ==> Process(ts, st, rightUnary).error == PopEmpty
    ensures Process(ts, st, rightUnary).Ok? ==>
      StackOk(Process(ts, st, rightUnary).value.stack) &&
      Operands(Process(ts, st, rightUnary).value.output) == Operands(st.output) + Operands(ts)
    decreases |ts|
  {
    if ts == [] {
    } else {
      StepFacts(st, ts[0], rightUnary);
      assert ts == [ts[0]] + ts[1..];
      OperandsAppend([ts[0]], ts[1..]);
      if Step(st, ts[0], rightUnary).Ok? {
        ProcessErr(ts[1..], Step(st, ts[0], rightUnary).value, rightUnary);
      }
    }
  }

  lemma {:induction false} ReverseOperands(s: seq<string>)
    requires StackOk(s)
    ensures Operands(Reverse(s)) == []
    decreases |s|
  {
    if s != [] {
      assert s[|s| - 1] == Top(s);
      assert StackOk(Pop(s));
      NotOperand(Top(s));
      OperandsOne(Top(s));
      ReverseOperands(Pop(s));
      OperandsAppend([Top(s)], Reverse(Pop(s)));
    }
  }

  /**
   * The conversion fails with `IndexError` exactly when a ')' has no '(' to close; when it
   * succeeds, the operands come out exactly as they came in, in order.
   */
  lemma RpnErrorsAndOperands(e: string, rightUnary: bool)
    ensures Rpn(e, rightUnary).Err? <==> GoesNegative(Tokens(e), 0)
    ensures Rpn(e, rightUnary).Err? ==> Rpn(e, rightUnary).error == PopEmpty
    ensures Rpn(e, rightUnary).Ok? ==> Operands(Rpn(e, rightUnary).value) == Operands(Tokens(e))
  {
    var st := State([], []);
    ProcessErr(Tokens(e), st, rightUnary);
    if Process(Tokens(e), st, rightUnary).Ok? {
      var s := Process(Tokens(e), st, rightUnary).value;
      ReverseOperands(s.stack);
      OperandsAppend(s.output, Reverse(s.stack));
    }
  }

  // ---------------------------------------------------------------- parentheses in the output

  /** No element of the list is a parenthesis. */
  predicate NoParens(ts: seq<string>)
  {
    forall i | 0 <= i < |ts| :: ts[i] != "(" && ts[i] != ")"
  }

  /** The number of '(' still open after the tokens, from `d` open ones, as long as every ')' finds one. */
  function Unclosed(ts: seq<string>, d: nat): nat
    decreases |ts|
  {
    if ts == [] then d
    else if ts[0] == ")" then (if d == 0 then 0 else Unclosed(ts[1..], d - 1))
    else if ts[0] == "(" then Unclosed(ts[1..], d + 1)
    else Unclosed(ts[1..], d)
  }

  lemma NoParensSnoc(ts: seq<string>, t: string)
    requires NoParens(ts) && t != "(" && t != ")"
    ensures NoParens(ts + [t])
  {
  }

  lemma {:induction false} PopToOpenParens(st: State)
    requires StackOk(st.stack) && NoParens(st.output)
    ensures NoParens(PopToOpen(st).output)
    decreases |st.stack|
  {
    var stk := st.stack;
    if stk != [] && Top(stk) != "(" {
      assert stk[|stk| - 1] == Top(stk);
      assert StackOk(Pop(stk));
      NoParensSnoc(st.output, Top(stk));
      PopToOpenParens(State(st.output + [Top(stk)], Pop(stk)));
    }
  }

  lemma {:induction false} PopWhileParens(st: State, op: string, rightUnary: bool)
    requires StackOk(st.stack) && NoParens(st.output) && IsOperator(op)
    ensures NoParens(PopWhile(st, op, rightUnary).output)
    decreases |st.stack|
  {
    var stk := st.stack;
    if stk != [] && PopsBefore(Top(stk), op, rightUnary) {
      assert stk[|stk| - 1] == Top(stk);
      assert StackOk(Pop(stk));
      assert IsOperator(Top(stk));
      NoParensSnoc(st.output, Top(stk));
      PopWhileParens(State(st.output + [Top(stk)], Pop(stk)), op, rightUnary);
    }
  }

  lemma StepParens(st: State, t: string, rightUnary: bool)
    requires StackOk(st.stack) && NoParens(st.output) && Step(st, t, rightUnary).Ok?
    ensures NoParens(Step(st, t, rightUnary).value.output)
  {
    if IsOperand(t) {
      assert IsAlnum(t[0]) && "("[0] == '(' && ")"[0] == ')';
      NoParensSnoc(st.output, t);
    } else if t == ")" {
      PopToOpenParens(st);
    } else if t != "(" && IsOperator(t) {
      PopWhileParens(st, t, rightUnary);
    }
  }

  /** While processing, no parenthesis is emitted, and the stack keeps exactly the '(' still open. */
  lemma {:induction false} ProcessParens(ts: seq<string>, st: State, rightUnary: bool)
    requires StackOk(st.stack) && NoParens(st.output) && Process(ts, st, rightUnary).Ok?
    ensures NoParens(Process(ts, st, rightUnary).value.output)
    ensures StackOk(Process(ts, st, rightUnary).value.stack)
    ensures Opens(Process(ts, st, rightUnary).value.stack) == Unclosed(ts, Opens(st.stack))
    decreases |ts|
  {
    if ts != [] {
      StepFacts(st, ts[0], rightUnary);
      StepParens(st, ts[0], rightUnary);
      ProcessParens(ts[1..], Step(st, ts[0], rightUnary).value, rightUnary);
    }
  }

  /** The stack popped empty holds no ')', and a '(' exactly when one is left on it. */
  lemma {:induction false} ReverseParens(s: seq<string>)
    requires StackOk(s)
    ensures ")" !in Reverse(s)
    ensures "(" in Reverse(s) <==> Opens(s) > 0
    decreases |s|
  {
    if s != [] {
      assert s[|s| - 1] == Top(s);
      assert StackOk(Pop(s));
      ReverseParens(Pop(s));
      assert Reverse(s) == [Top(s)] + Reverse(Pop(s));
    }
  }

  /**
   * The conversion never emits ')', and emits '(' exactly when the expression leaves one unclosed:
   * the final `while stack` flush pops it along with the operators.
   */
  lemma RpnParens(e: string, rightUnary: bool)
    ensures Rpn(e, rightUnary).Ok? ==> ")" !in Rpn(e, rightUnary).value
    ensures Rpn(e, rightUnary).Ok? ==> ("(" in Rpn(e, rightUnary).value <==> Unclosed(Tokens(e), 0) > 0)
  {
    var st := State([], []);
    if Process(Tokens(e), st, rightUnary).Ok? {
      ProcessParens(Tokens(e), st, rightUnary);
      var s := Process(Tokens(e), st, rightUnary).value;
      ReverseParens(s.stack);
      assert Rpn(e, rightUnary).value == s.output + Reverse(s.stack);
    }
  }

  /** `(a`: the unclosed '(' comes out after the operand. */
  lemma UnclosedParenthesis()
    ensures Rpn("(a", false) == Ok(["a", "("])
  {
    SingleToken('(');
    SingleToken('a');
    TokensAppend("(", "a");
    assert "(a" == "(" + "a";
    assert Tokens("(a") == ["(", "a"];
    var s0 := State([], []);
    var s1 := State([], ["("]);
    var s2 := State(["a"], ["("]);
    NotOperand("(");
    assert s0.stack + ["("] == s1.stack;
    assert Step(s0, "(", false) == Ok(s1);
    assert IsOperand("a");
    assert s1.output + ["a"] == s2.output;
    assert Step(s1, "a", false) == Ok(s2);
    ProcessOne("(", s0, s1, false);
    ProcessOne("a", s1, s2, false);
    ProcessAppend(["("], ["a"], s0, s1, false);
    assert ["("] + ["a"] == ["(", "a"];
    assert Process(["(", "a"], s0, false) == Ok(s2);
    assert Reverse(["("]) == ["("];
    assert Flush(s2) == ["a", "("];
  }

  // ---------------------------------------------------------------- examples

  /** `!!a`, corrected: both negations follow their operand. */
  lemma DoubleNegationCorrected()
    ensures Rpn("!!a", true) == Ok(["a", "!", "!"])
  {
    RpnOfInfix(Not(Not(Var('a'))), true);
    assert Infix(Not(Not(Var('a')))) == "!!a";
    assert Postfix(Not(Not(Var('a')))) == ["a", "!", "!"];
  }

  /** `!!a` as written: the second `!` pops the first, which is emitted before the operand. */
  lemma DoubleNegationAsWritten()
    ensures Rpn("!!a", false) == Ok(["!", "a", "!"])
  {
    SingleToken('!');
    SingleToken('a');
    TokensAppend("!", "a");
    TokensAppend("!", "!a");
    assert "!!a" == "!" + ("!" + "a");
    assert Tokens("!!a") == ["!", "!", "a"];
    NotOperand("!");
    var s0 := State([], []);
    var s1 := State([], ["!"]);
    var s2 := State(["!"], ["!"]);
    var s3 := State(["!", "a"], ["!"]);
    assert PopWhile(s0, "!", false) == s0;
    assert s0.stack + ["!"] == s1.stack;
    assert Step(s0, "!", false) == Ok(s1);
    assert Step(s1, "!", false) == Ok(s2);
    assert IsOperand("a");
    assert s2.output + ["a"] == s3.output;
    assert Step(s2, "a", false) == Ok(s3);
    ProcessOne("!", s0, s1, false);
    ProcessOne("!", s1, s2, false);
    ProcessOne("a", s2, s3, false);
    ProcessAppend(["!"], ["a"], s1, s2, false);
    assert ["!"] + ["a"] == ["!", "a"];
    ProcessAppend(["!"], ["!", "a"], s0, s1, false);
    assert ["!"] + ["!", "a"] == ["!", "!", "a"];
    assert Process(["!", "!", "a"], s0, false) == Ok(s3);
    assert Reverse(["!"]) == ["!"];
    assert Flush(s3) == ["!", "a", "!"];
  }
}
