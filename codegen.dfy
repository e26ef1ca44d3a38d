/** The code generator of codegen.c: a post-order walk of the tree that
    emits stack-machine code, leaving each expression's value in rax. A binary
    node evaluates its right operand, pushes it, evaluates its left operand
    and pops the right one into rdi. A variable lives at rbp minus eight bytes
    per letter, inside a fixed 208-byte frame. */
module Codegen {
  import opened Errors
  import opened Ast
  import opened Machine

  /** The bytes the prologue reserves below rbp for the variables. */
  const FrameSize := 208

  /** The distance below rbp of the variable named `c`: (c - 'a' + 1) * 8. */
  function Offset(c: char): (r: int)
    ensures 'a' <= c <= 'z' ==> 8 <= r <= FrameSize && r % 8 == 0
  {
    (c as int - 'a' as int + 1) * 8
  }

  /** gen_addr: the address of a variable, into rax. */
  function GenAddr(n: Node): (r: Result<seq<Instr>>)
    ensures r.Ok? <==> n.Var?
    ensures r.Err? ==> r.error == NotAnLvalue
  {
    if n.Var? then Ok([MovRaxRbp, SubRaxImm(Offset(n.name))]) else Err(NotAnLvalue)
  }

  /** The instructions after `pop rdi` that combine rax (the left operand)
      with rdi (the right one). */
  function OpCode(op: BinOp): seq<Instr> {
    match op
    case Add => [AddRdi]
    case Sub => [SubRdi]
    case Mul => [ImulRdi]
    case Div => [Cqo, IdivRdi]
    case Eq => [CmpRdi, SetAl(E), MovzbRaxAl]
    case Ne => [CmpRdi, SetAl(NE), MovzbRaxAl]
    case Lt => [CmpRdi, SetAl(L), MovzbRaxAl]
    case Le => [CmpRdi, SetAl(LE), MovzbRaxAl]
  }

  /** gen_expr. An expression statement has no case of its own and is
      reported as an invalid expression. */
  function GenExpr(n: Node): Result<seq<Instr>> {
    match n
    case Num(v) => Ok([MovImm(v)])
    case Neg(x) =>
      var c :- GenExpr(x);
      Ok(c + [NegRax])
    case Var(_) =>
      var a :- GenAddr(n);
      Ok(a + [Load])
    case Assign(l, r) =>
      var a :- GenAddr(l);
      var rc :- GenExpr(r);
      Ok(a + [PushRax] + rc + [PopRdi, Store])
    case Binary(op, l, r) =>
      var rc :- GenExpr(r);
      var lc :- GenExpr(l);
      Ok(rc + [PushRax] + lc + [PopRdi] + OpCode(op))
    case ExprStmt(_) => Err(InvalidExpression)
  }

  /** gen_stmt: only expression statements. */
  function GenStmt(n: Node): Result<seq<Instr>> {
    if n.ExprStmt? then GenExpr(n.lhs) else Err(InvalidStatement)
  }

  const Header: seq<Instr> := [IntelSyntax, GlobalMain, MainLabel]
  const Prologue: seq<Instr> := [PushRbp, MovRbpRsp, SubRspImm(FrameSize)]
  const Epilogue: seq<Instr> := [MovRspRbp, PopRbp, Ret]

  /** The blocks of the statements in order; the first statement that fails
      stops the compiler. */
  function Blocks(stmts: seq<Node>): Result<seq<Instr>>
    decreases |stmts|
  {
    if stmts == [] then Ok([])
    else
      var prev :- Blocks(stmts[..|stmts| - 1]);
      var b :- GenStmt(stmts[|stmts| - 1]);
      Ok(prev + b)
  }

  /** Once a statement fails, so does every longer chain, with its error. */
  lemma {:induction false} BlocksStop(stmts: seq<Node>, j: nat)
    requires j <= |stmts| && Blocks(stmts[..j]).Err?
    ensures Blocks(stmts) == Blocks(stmts[..j])
    decreases |stmts| - j
  {
    if j < |stmts| {
      assert stmts[..j + 1][..j] == stmts[..j];
      BlocksStop(stmts, j + 1);
    } else {
      assert stmts[..j] == stmts;
    }
  }

  /** The whole output for a chain of statements. */
  function Program(stmts: seq<Node>): Result<seq<Instr>> {
    var body :- Blocks(stmts);
    Ok(Header + Prologue + body + Epilogue)
  }

  /** codegen: the header and prologue, one block per statement along the
      `next` chain, then the epilogue. */
  method Codegen(stmts: seq<Node>) returns (r: Result<seq<Instr>>)
    ensures r == Program(stmts)
  {
    var out := Header + Prologue;
    ghost var body: seq<Instr> := [];
    for i := 0 to |stmts|
      invariant Blocks(stmts[..i]) == Ok(body)
      invariant out == Header + Prologue + body
    {
      assert stmts[..i + 1][..i] == stmts[..i];
      var b := GenStmt(stmts[i]);
      if b.Err? {
        BlocksStop(stmts, i + 1);
        return Err(b.error);
      }
      out := out + b.value;
      body := body + b.value;
    }
    assert stmts[..|stmts|] == stmts;
    return Ok(out + Epilogue);
  }
}
