/** The syntax tree of chibicc.h: a node per construct, with the children
    each kind uses. The C struct keeps every field in every node and leaves
    the unused ones zero or NULL; here each kind carries only its own. */
module Ast {

  /** The kinds ND_ADD .. ND_LE of the binary nodes. `>` and `>=` have no kind
      of their own: the parser builds LT and LE with swapped operands. */
  datatype BinOp = Add | Sub | Mul | Div | Eq | Ne | Lt | Le

  /** ND_NUM, ND_VAR (a one-letter name, as codegen.c reads it), ND_NEG,
      the binary kinds, ND_ASSIGN and ND_EXPR_STMT. */
  datatype Node =
    | Num(val: int)
    | Var(name: char)
    | Neg(lhs: Node)
    | Binary(op: BinOp, lhs: Node, rhs: Node)
    | Assign(lhs: Node, rhs: Node)
    | ExprStmt(lhs: Node)

  /** The nodes the arithmetic grammar builds: numbers, negation and the
      binary operators, with no variable, assignment or statement. */
  predicate PureExpr(e: Node) {
    match e
    case Num(_) => true
    case Neg(x) => PureExpr(x)
    case Binary(_, l, r) => PureExpr(l) && PureExpr(r)
    case _ => false
  }
}
