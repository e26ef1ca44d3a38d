/** The recursive-descent grammar of parse.c as functions of a cursor: each
    production takes the index of the token it starts at and returns the node
    it built with the index of the first token it did not consume, or the
    error the parser stops at. The `for (;;)` loops of the binary levels are
    the `...Rest` functions, which take the node built so far.

    expr       = equality
    equality   = relational ("==" relational | "!=" relational)*
    relational = add ("<" add | "<=" add | ">" add | ">=" add)*
    add        = mul ("+" mul | "-" mul)*
    mul        = unary ("*" unary | "/" unary)*
    unary      = ("+" | "-") unary | primary
    primary    = "(" expr ")" | num                                        */
module Grammar {
  import opened Errors
  import opened Tokenize
  import opened Ast

  /** A token list as tokenize hands it over: every token lies inside the
      source and the list ends in the end-of-file token. */
  predicate ValidStream(src: string, toks: seq<Token>) {
    && |toks| > 0
    && toks[|toks| - 1].kind == EndOfFile
    && forall i :: 0 <= i < |toks| ==> InBounds(src, toks[i])
  }

  /** A node and the cursor after it. */
  datatype Parsed = Parsed(node: Node, pos: nat)

  /** The token under the cursor is the punctuator `s`. */
  predicate At(src: string, toks: seq<Token>, pos: nat, s: string)
    requires ValidStream(src, toks) && pos < |toks| && '\0' !in s
  {
    IsTokenPunct(src, toks[pos], s)
  }

  /** An error the parser reports: a missing ")" or a missing expression,
      located at a token at or after `pos`. */
  predicate SyntaxErrorFrom(toks: seq<Token>, pos: nat, e: CompileError) {
    && ((e.ExpectedToken? && e.expected == ")") || e.ExpectedExpression?)
    && exists i :: pos <= i < |toks| && toks[i].loc == e.loc
  }

  /** What every production promises: on success it consumed at least one
      token, stopped inside the list and built a tree of the arithmetic
      grammar; on failure the error is a syntax error from `pos` on. */
  predicate Production(toks: seq<Token>, pos: nat, r: Result<Parsed>) {
    match r
    case Ok(p) => pos < p.pos < |toks| && PureExpr(p.node)
    case Err(e) => SyntaxErrorFrom(toks, pos, e)
  }

  /** What the loop of a binary level promises, given the tree built so far:
      the cursor never moves back and the tree stays arithmetic. */
  predicate Continuation(toks: seq<Token>, node: Node, pos: nat, r: Result<Parsed>) {
    match r
    case Ok(p) => pos <= p.pos < |toks| && (PureExpr(node) ==> PureExpr(p.node))
    case Err(e) => SyntaxErrorFrom(toks, pos, e)
  }

  lemma ProductionFollows(toks: seq<Token>, pos: nat, q: nat, e: CompileError)
    requires pos <= q && SyntaxErrorFrom(toks, q, e)
    ensures SyntaxErrorFrom(toks, pos, e)
  {
  }

  // expr = equality
  function Expr(src: string, toks: seq<Token>, pos: nat): (r: Result<Parsed>)
    requires ValidStream(src, toks) && pos < |toks|
    ensures Production(toks, pos, r)
    decreases |toks| - pos, 6
  {
    Equality(src, toks, pos)
  }

  function Equality(src: string, toks: seq<Token>, pos: nat): (r: Result<Parsed>)
    requires ValidStream(src, toks) && pos < |toks|
    ensures Production(toks, pos, r)
    decreases |toks| - pos, 5
  {
    var first :- Relational(src, toks, pos);
    var r := EqualityRest(src, toks, first.node, first.pos);
    if r.Err? then ProductionFollows(toks, pos, first.pos, r.error); r else r
  }

  /** The token under the cursor is an operator of the equality level. */
  predicate EqualityOp(src: string, toks: seq<Token>, pos: nat)
    requires ValidStream(src, toks) && pos < |toks|
  {
    At(src, toks, pos, "==") || At(src, toks, pos, "!=")
  }

  /** The node one turn of the equality loop builds from the tree so far and
      the operand read after the operator under the cursor. */
  function EqualityNode(src: string, toks: seq<Token>, pos: nat, node: Node, operand: Node): Node
    requires ValidStream(src, toks) && pos < |toks|
  {
    if At(src, toks, pos, "==") then Binary(Eq, node, operand)
    else Binary(Ne, node, operand)
  }

  function EqualityRest(src: string, toks: seq<Token>, node: Node, pos: nat): (r: Result<Parsed>)
    requires ValidStream(src, toks) && pos < |toks|
    ensures Continuation(toks, node, pos, r)
    decreases |toks| - pos, 5
  {
    if EqualityOp(src, toks, pos) then
      var operand :- Relational(src, toks, pos + 1);
      EqualityRest(src, toks, EqualityNode(src, toks, pos, node, operand.node), operand.pos)
    else
      Ok(Parsed(node, pos))
  }

  function Relational(src: string, toks: seq<Token>, pos: nat): (r: Result<Parsed>)
    requires ValidStream(src, toks) && pos < |toks|
    ensures Production(toks, pos, r)
    decreases |toks| - pos, 4
  {
    var first :- Add(src, toks, pos);
    var r := RelationalRest(src, toks, first.node, first.pos);
    if r.Err? then ProductionFollows(toks, pos, first.pos, r.error); r else r
  }

  /** The token under the cursor is an operator of the relational level. */
  predicate RelationalOp(src: string, toks: seq<Token>, pos: nat)
    requires ValidStream(src, toks) && pos < |toks|
  {
    At(src, toks, pos, "<") || At(src, toks, pos, "<=") || At(src, toks, pos, ">") || At(src, toks, pos, ">=")
  }

  /** The node one turn of the relational loop builds from the tree so far and
      the operand read after the operator under the cursor. */
  function RelationalNode(src: string, toks: seq<Token>, pos: nat, node: Node, operand: Node): Node
    requires ValidStream(src, toks) && pos < |toks|
  {
    if At(src, toks, pos, "<") then Binary(Lt, node, operand)
    else if At(src, toks, pos, "<=") then Binary(Le, node, operand)
    else if At(src, toks, pos, ">") then Binary(Lt, operand, node)
    else Binary(Le, operand, node)
  }

  function RelationalRest(src: string, toks: seq<Token>, node: Node, pos: nat): (r: Result<Parsed>)
    requires ValidStream(src, toks) && pos < |toks|
    ensures Continuation(toks, node, pos, r)
    decreases |toks| - pos, 4
  {
    if RelationalOp(src, toks, pos) then
      var operand :- Add(src, toks, pos + 1);
      RelationalRest(src, toks, RelationalNode(src, toks, pos, node, operand.node), operand.pos)
    else
      Ok(Parsed(node, pos))
  }

  function Add(src: string, toks: seq<Token>, pos: nat): (r: Result<Parsed>)
    requires ValidStream(src, toks) && pos < |toks|
    ensures Production(toks, pos, r)
    decreases |toks| - pos, 3
  {
    var first :- Mul(src, toks, pos);
    var r := AddRest(src, toks, first.node, first.pos);
    if r.Err? then ProductionFollows(toks, pos, first.pos, r.error); r else r
  }

  /** The token under the cursor is an operator of the add level. */
  predicate AddOp(src: string, toks: seq<Token>, pos: nat)
    requires ValidStream(src, toks) && pos < |toks|
  {
    At(src, toks, pos, "+") || At(src, toks, pos, "-")
  }

  /** The node one turn of the add loop builds from the tree so far and
      the operand read after the operator under the cursor. */
  function AddNode(src: string, toks: seq<Token>, pos: nat, node: Node, operand: Node): Node
    requires ValidStream(src, toks) && pos < |toks|
  {
    if At(src, toks, pos, "+") then Binary(Ast.Add, node, operand)
    else Binary(Sub, node, operand)
  }

  function AddRest(src: string, toks: seq<Token>, node: Node, pos: nat): (r: Result<Parsed>)
    requires ValidStream(src, toks) && pos < |toks|
    ensures Continuation(toks, node, pos, r)
    decreases |toks| - pos, 3
  {
    if AddOp(src, toks, pos) then
      var operand :- Mul(src, toks, pos + 1);
      AddRest(src, toks, AddNode(src, toks, pos, node, operand.node), operand.pos)
    else
      Ok(Parsed(node, pos))
  }

  function Mul(src: string, toks: seq<Token>, pos: nat): (r: Result<Parsed>)
    requires ValidStream(src, toks) && pos < |toks|
    ensures Production(toks, pos, r)
    decreases |toks| - pos, 2
  {
    var first :- Unary(src, toks, pos);
    var r := MulRest(src, toks, first.node, first.pos);
    if r.Err? then ProductionFollows(toks, pos, first.pos, r.error); r else r
  }

  /** The token under the cursor is an operator of the mul level. */
  predicate MulOp(src: string, toks: seq<Token>, pos: nat)
    requires ValidStream(src, toks) && pos < |toks|
  {
    At(src, toks, pos, "*") || At(src, toks, pos, "/")
  }

  /** The node one turn of the mul loop builds from the tree so far and
      the operand read after the operator under the cursor. */
  function MulNode(src: string, toks: seq<Token>, pos: nat, node: Node, operand: Node): Node
    requires ValidStream(src, toks) && pos < |toks|
  {
    if At(src, toks, pos, "*") then Binary(Ast.Mul, node, operand)
    else Binary(Div, node, operand)
  }

  function MulRest(src: string, toks: seq<Token>, node: Node, pos: nat): (r: Result<Parsed>)
    requires ValidStream(src, toks) && pos < |toks|
    ensures Continuation(toks, node, pos, r)
    decreases |toks| - pos, 2
  {
    if MulOp(src, toks, pos) then
      var operand :- Unary(src, toks, pos + 1);
      MulRest(src, toks, MulNode(src, toks, pos, node, operand.node), operand.pos)
    else
      Ok(Parsed(node, pos))
  }

  function Unary(src: string, toks: seq<Token>, pos: nat): (r: Result<Parsed>)
    requires ValidStream(src, toks) && pos < |toks|
    ensures Production(toks, pos, r)
    decreases |toks| - pos, 1
  {
    if At(src, toks, pos, "+") then
      Unary(src, toks, pos + 1)
    else if At(src, toks, pos, "-") then
      var operand :- Unary(src, toks, pos + 1);
      Ok(Parsed(Neg(operand.node), operand.pos))
    else
      Primary(src, toks, pos)
  }

  function Primary(src: string, toks: seq<Token>, pos: nat): (r: Result<Parsed>)
    requires ValidStream(src, toks) && pos < |toks|
    ensures Production(toks, pos, r)
    decreases |toks| - pos, 0
  {
    if At(src, toks, pos, "(") then
      var inner :- Expr(src, toks, pos + 1);
      if !At(src, toks, inner.pos, ")") then Err(ExpectedToken(")", toks[inner.pos].loc))
      else Ok(Parsed(inner.node, inner.pos + 1))
    else if IsTokenNumber(toks[pos]) then
      Ok(Parsed(Num(toks[pos].val), pos + 1))
    else
      Err(ExpectedExpression(toks[pos].loc))
  }

  /** parse: an expression that must be followed by the end-of-file token. */
  function Parse(src: string, toks: seq<Token>): (r: Result<Node>)
    requires ValidStream(src, toks)
    ensures r.Ok? ==> PureExpr(r.value)
    ensures r.Err? ==> SyntaxErrorFrom(toks, 0, r.error) || r.error.ExtraToken?
  {
    var e :- Expr(src, toks, 0);
    if toks[e.pos].kind != EndOfFile then Err(ExtraToken(toks[e.pos].loc)) else Ok(e.node)
  }
}
