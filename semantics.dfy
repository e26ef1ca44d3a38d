/** What a tree means, as an interpreter independent of the code generator:
    the value of an expression and the variables after it, in the order the
    generated code evaluates operands (right operand first). Division
    truncates toward zero, as `idiv` does; dividing by zero has no value. */
module Semantics {
  import opened Errors
  import opened Ast
  import Machine

  /** The values of the one-letter variables; one never assigned holds 0. */
  type Env = map<char, int>

  function Get(env: Env, c: char): int {
    if c in env then env[c] else 0
  }

  /** A value and the variables after computing it. */
  datatype Evaluated = Evaluated(val: int, env: Env)

  /** The value of a binary operator; comparisons give 1 or 0. */
  function Apply(op: BinOp, a: int, b: int): (r: Option<int>)
    ensures r.None? <==> op == Div && b == 0
    ensures op in {Eq, Ne, Lt, Le} && r.Some? ==> r.value == 0 || r.value == 1
  {
    match op
    case Add => Some(a + b)
    case Sub => Some(a - b)
    case Mul => Some(a * b)
    case Div => if b == 0 then None else Some(Machine.TruncDiv(a, b))
    case Eq => Some(if a == b then 1 else 0)
    case Ne => Some(if a != b then 1 else 0)
    case Lt => Some(if a < b then 1 else 0)
    case Le => Some(if a <= b then 1 else 0)
  }

  /** The value of an expression. There is none for a division by zero, an
      assignment to something that is not a variable, or a statement. */
  function Eval(e: Node, env: Env): Option<Evaluated> {
    match e
    case Num(v) => Some(Evaluated(v, env))
    case Var(c) => Some(Evaluated(Get(env, c), env))
    case Neg(x) =>
      var a :- Eval(x, env);
      Some(Evaluated(-a.val, a.env))
    case Binary(op, l, r) =>
      var b :- Eval(r, env);
      var a :- Eval(l, b.env);
      var v :- Apply(op, a.val, b.val);
      Some(Evaluated(v, a.env))
    case Assign(l, r) =>
      if !l.Var? then None
      else
        var b :- Eval(r, env);
        Some(Evaluated(b.val, b.env[l.name := b.val]))
    case ExprStmt(_) => None
  }

  /** The statements one after the other; the value is the last statement's,
      or `last` when there are none. */
  function Exec(stmts: seq<Node>, env: Env, last: int): Option<Evaluated>
    decreases |stmts|
  {
    if stmts == [] then Some(Evaluated(last, env))
    else
      var prev :- Exec(stmts[..|stmts| - 1], env, last);
      var s := stmts[|stmts| - 1];
      if !s.ExprStmt? then None else Eval(s.lhs, prev.env)
  }

  /** An expression of the arithmetic grammar reads and writes no variable. */
  lemma {:induction false} PureEnvIrrelevant(e: Node, env: Env, env': Env)
    requires PureExpr(e)
    ensures Eval(e, env).Some? <==> Eval(e, env').Some?
    ensures Eval(e, env).Some? ==>
      Eval(e, env).value.val == Eval(e, env').value.val && Eval(e, env).value.env == env
  {
    match e
    case Num(_) =>
    case Neg(x) =>
      PureEnvIrrelevant(x, env, env');
    case Binary(op, l, r) =>
      PureEnvIrrelevant(r, env, env');
      if Eval(r, env).Some? {
        PureEnvIrrelevant(r, env', env);
        PureEnvIrrelevant(l, env, env');
      }
  }
}
