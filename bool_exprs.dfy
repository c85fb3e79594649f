/**
 * Boolean formulas over one-character variables: their meaning, and the infix text and the
 * postfix token list that stand for them. They are the reference the expression front end is
 * proved against.
 */
module BoolExprs {
  datatype BinOp = And | Or | Implies | Equiv

  datatype Expr = Var(name: char) | Not(operand: Expr) | Bin(op: BinOp, left: Expr, right: Expr)

  /** `str.isalnum` on one character, for the ASCII letters and digits. */
  predicate IsAlnum(c: char)
  {
    'a' <= c <= 'z' || 'A' <= c <= 'Z' || '0' <= c <= '9'
  }

  /** The text of a binary operator. */
  function OpToken(op: BinOp): string
  {
    match op
    case And => "&"
    case Or => "|"
    case Implies => "->"
    case Equiv => "~"
  }

  /** The meaning of a binary operator: `and`, `or`, material implication, equality. */
  function Apply(op: BinOp, l: bool, r: bool): bool
  {
    match op
    case And => l && r
    case Or => l || r
    case Implies => !l || r
    case Equiv => l == r
  }

  /** The variables of a formula, as one-character strings. */
  function Vars(e: Expr): set<string>
  {
    match e
    case Var(c) => {[c]}
    case Not(x) => Vars(x)
    case Bin(_, l, r) => Vars(l) + Vars(r)
  }

  /** Every variable name is a letter or a digit. */
  predicate WellNamed(e: Expr)
  {
    match e
    case Var(c) => IsAlnum(c)
    case Not(x) => WellNamed(x)
    case Bin(_, l, r) => WellNamed(l) && WellNamed(r)
  }

  /** The value of a formula under an assignment of its variables. */
  function Eval(e: Expr, env: map<string, bool>): bool
    requires Vars(e) <= env.Keys
  {
    match e
    case Var(c) => env[[c]]
    case Not(x) => !Eval(x, env)
    case Bin(op, l, r) => Apply(op, Eval(l, env), Eval(r, env))
  }

  /** The postfix (reverse Polish) token list of a formula. */
  function Postfix(e: Expr): (r: seq<string>)
    ensures |r| > 0
  {
    match e
    case Var(c) => [[c]]
    case Not(x) => Postfix(x) + ["!"]
    case Bin(op, l, r) => Postfix(l) + Postfix(r) + [OpToken(op)]
  }

  /** The infix text: "!" before an operand, every binary operation parenthesised, as in "(a & b)". */
  function Infix(e: Expr): (s: string)
    ensures |s| > 0
  {
    match e
    case Var(c) => [c]
    case Not(x) => "!" + Infix(x)
    case Bin(op, l, r) => "(" + Infix(l) + " " + OpToken(op) + " " + Infix(r) + ")"
  }

  /** An infix text ends in a variable or in ')'. */
  lemma InfixLast(e: Expr)
    requires WellNamed(e)
    ensures Infix(e)[|Infix(e)| - 1] != '-'
  {
    match e
    case Var(c) =>
    case Not(x) =>
      InfixLast(x);
      assert Infix(e)[|Infix(e)| - 1] == Infix(x)[|Infix(x)| - 1];
    case Bin(op, l, r) =>
  }

  /** The number of `!` in front of a formula, and the formula under them. */
  function Lead(e: Expr): nat
  {
    if e.Not? then 1 + Lead(e.operand) else 0
  }

  function Atom(e: Expr): (a: Expr)
    ensures !a.Not?
  {
    if e.Not? then Atom(e.operand) else e
  }

  /** No `!` stands directly before another `!`. */
  predicate NoDoubleNot(e: Expr)
  {
    match e
    case Var(_) => true
    case Not(x) => !x.Not? && NoDoubleNot(x)
    case Bin(_, l, r) => NoDoubleNot(l) && NoDoubleNot(r)
  }

  /** `k` copies of the token "!". */
  function Bangs(k: nat): (r: seq<string>)
    ensures |r| == k && forall i | 0 <= i < k :: r[i] == "!"
  {
    if k == 0 then [] else Bangs(k - 1) + ["!"]
  }

  /** A formula's postfix is its atom's followed by one "!" per leading negation. */
  lemma {:induction false} PostfixLead(e: Expr)
    ensures Postfix(e) == Postfix(Atom(e)) + Bangs(Lead(e))
  {
    if e.Not? {
      PostfixLead(e.operand);
    }
  }
}
