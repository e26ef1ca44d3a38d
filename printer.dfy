/** Printing an arithmetic tree back as lexemes, with the fewest parentheses
    the grammar of parse.c needs: an operand is parenthesised only when its
    operator binds more loosely than the level the grammar reads it at. The
    right operand of a binary operator is read one level tighter, since the
    loops of parse.c build left-leaning trees. */
module Printer {
  import opened Ast
  import opened Lexemes

  /** The level of the grammar each binary operator belongs to: equality 1,
      relational 2, add 3, mul 4. */
  function OpPrec(op: BinOp): (k: nat)
    ensures 1 <= k <= 4
  {
    match op
    case Eq => 1
    case Ne => 1
    case Lt => 2
    case Le => 2
    case Add => 3
    case Sub => 3
    case Mul => 4
    case Div => 4
  }

  /** The punctuator each operator is written with. */
  function Sym(op: BinOp): (s: string)
    ensures IsOperator(s)
  {
    match op
    case Eq => "=="
    case Ne => "!="
    case Lt => "<"
    case Le => "<="
    case Add => "+"
    case Sub => "-"
    case Mul => "*"
    case Div => "/"
  }

  /** The level at which a tree can be read without parentheses: unary 5,
      primary 6. */
  function Prec(e: Node): (k: nat)
    ensures 1 <= k <= 6
  {
    match e
    case Binary(op, _, _) => OpPrec(op)
    case Neg(_) => 5
    case _ => 6
  }

  /** The trees the parser can build from a source text: arithmetic trees
      whose numbers are not negative, since a numeral has no sign. */
  predicate Printable(e: Node) {
    match e
    case Num(v) => v >= 0
    case Neg(x) => Printable(x)
    case Binary(_, l, r) => Printable(l) && Printable(r)
    case _ => false
  }

  lemma LexableAppend(a: seq<Lexeme>, b: seq<Lexeme>)
    requires AllLexable(a) && AllLexable(b)
    ensures AllLexable(a + b)
  {
    forall i | 0 <= i < |a + b|
      ensures Lexable((a + b)[i])
    {
      if i >= |a| {
        assert (a + b)[i] == b[i - |a|];
      }
    }
  }

  /** `e` as read at level `k`: in parentheses when it binds more loosely. */
  function Wrap(e: Node, k: nat): (ls: seq<Lexeme>)
    requires Printable(e)
    ensures |ls| > 0
    decreases e, 1
  {
    if Prec(e) >= k then Unparse(e)
    else [LPunct("(")] + Unparse(e) + [LPunct(")")]
  }

  /** The lexemes of a printable tree. */
  function Unparse(e: Node): (ls: seq<Lexeme>)
    requires Printable(e)
    ensures |ls| > 0
    decreases e, 0
  {
    match e
    case Num(v) => [LNum(v)]
    case Neg(x) => [LPunct("-")] + Wrap(x, 5)
    case Binary(op, l, r) =>
      var k := OpPrec(op);
      Wrap(l, k) + [LPunct(Sym(op))] + Wrap(r, k + 1)
  }

  /** Every lexeme printed is a number or one of the grammar's punctuators. */
  lemma {:induction false} WrapLexable(e: Node, k: nat)
    requires Printable(e)
    ensures AllLexable(Wrap(e, k)) && AllLexable(Unparse(e))
    decreases e
  {
    match e {
      case Num(v) =>
      case Neg(x) =>
        WrapLexable(x, 5);
        LexableAppend([LPunct("-")], Wrap(x, 5));
      case Binary(op, l, r) =>
        var j := OpPrec(op);
        WrapLexable(l, j);
        WrapLexable(r, j + 1);
        LexableAppend(Wrap(l, j), [LPunct(Sym(op))]);
        LexableAppend(Wrap(l, j) + [LPunct(Sym(op))], Wrap(r, j + 1));
    }
    if Prec(e) < k {
      LexableAppend([LPunct("(")], Unparse(e));
      LexableAppend([LPunct("(")] + Unparse(e), [LPunct(")")]);
    }
  }

  /** The source text a tree prints as: its lexemes, each followed by a space. */
  function Print(e: Node): string
    requires Printable(e)
  {
    Layout(Unparse(e))
  }
}
