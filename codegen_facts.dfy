/** What the code of codegen.c does: which trees it accepts, that every block
    leaves the stack as it found it, and that running a block on the machine
    leaves in rax the value the interpreter gives, with the variables in
    their frame cells and the caller's memory untouched. */
module CodegenFacts {
  import opened Errors
  import opened Ast
  import opened Machine
  import opened Codegen
  import opened Semantics

  // ---------------------------------------------------------------------
  // Which trees have code

  /** The trees gen_expr accepts: every assignment targets a variable and no
      statement appears inside an expression. */
  predicate Generable(e: Node) {
    match e
    case Num(_) => true
    case Var(_) => true
    case Neg(x) => Generable(x)
    case Binary(_, l, r) => Generable(l) && Generable(r)
    case Assign(l, r) => l.Var? && Generable(r)
    case ExprStmt(_) => false
  }

  /** gen_expr succeeds exactly on the generable trees, and fails only with
      "not a lvalue" or "invalid expression". */
  lemma {:induction false} GenExprAccepts(e: Node)
    ensures GenExpr(e).Ok? <==> Generable(e)
    ensures GenExpr(e).Err? ==> GenExpr(e).error in {NotAnLvalue, InvalidExpression}
  {
    match e
    case Num(_) =>
    case Var(_) =>
    case Neg(x) => GenExprAccepts(x);
    case Binary(_, l, r) =>
      GenExprAccepts(r);
      GenExprAccepts(l);
    case Assign(l, r) => GenExprAccepts(r);
    case ExprStmt(_) =>
  }

  /** A tree the parser builds is never a statement, so the code generator
      refuses it: the shown parse.c and codegen.c do not fit together. */
  lemma ParsedTreeIsNoStatement(e: Node)
    requires PureExpr(e)
    ensures Program([e]) == Err(InvalidStatement)
  {
    assert [e][..|[e]| - 1] == [];
    assert [e][|[e]| - 1] == e;
    assert Blocks([e]) == Err(InvalidStatement);
  }

  /** Distinct letters have distinct cells, all inside the frame. */
  lemma OffsetsInFrame(c: char, d: char)
    requires 'a' <= c <= 'z' && 'a' <= d <= 'z'
    ensures 8 <= Offset(c) <= FrameSize
    ensures Offset(c) == Offset(d) <==> c == d
  {
  }

  // ---------------------------------------------------------------------
  // Stack balance

  /** Code that neither pushes nor pops. */
  predicate Quiet(code: seq<Instr>) {
    forall i :: 0 <= i < |code| ==> StackMove(code[i]) == 0
  }

  /** Code that, from depth d, ends at depth d and never pops below it. */
  predicate Balanced(code: seq<Instr>, d: int) {
    Depth(code, d) == d && NeverBelow(code, d)
  }

  lemma {:induction false} QuietBalanced(code: seq<Instr>, d: int)
    requires Quiet(code) && d >= 0
    ensures Balanced(code, d)
    decreases |code|
  {
    if code != [] {
      QuietBalanced(code[1..], d);
    }
  }

  lemma SingleMove(i: Instr, d: int)
    ensures Depth([i], d) == d + StackMove(i)
    ensures NeverBelow([i], d) <==> d + StackMove(i) >= 0
  {
    assert [i][1..] == [];
  }

  /** A balanced block, a push, a block balanced one word deeper, a pop and
      code that neither pushes nor pops: balanced as a whole. */
  lemma Bracket(a: seq<Instr>, b: seq<Instr>, c: seq<Instr>, d: int)
    requires d >= 0 && Balanced(a, d) && Balanced(b, d + 1) && Quiet(c)
    ensures Balanced(a + [PushRax] + b + [PopRdi] + c, d)
  {
    SingleMove(PushRax, d);
    DepthAppend(a, [PushRax], d);
    DepthAppend(a + [PushRax], b, d);
    SingleMove(PopRdi, d + 1);
    DepthAppend(a + [PushRax] + b, [PopRdi], d);
    QuietBalanced(c, d);
    DepthAppend(a + [PushRax] + b + [PopRdi], c, d);
  }

  /** Every block of gen_expr pushes as many words as it pops and never pops
      a word it did not push, so it has no net effect on the stack. */
  lemma {:induction false} GenExprBalanced(e: Node, code: seq<Instr>, d: int)
    requires GenExpr(e) == Ok(code) && d >= 0
    ensures Balanced(code, d)
  {
    match e {
      case Num(_) => QuietBalanced(code, d);
      case Var(_) => QuietBalanced(code, d);
      case Neg(x) =>
        GenExprBalanced(x, GenExpr(x).value, d);
        NegBalanced(GenExpr(x).value, d);
      case Assign(l, r) =>
        GenExprBalanced(r, GenExpr(r).value, d + 1);
        AssignBalanced(GenAddr(l).value, GenExpr(r).value, d);
      case Binary(op, l, r) =>
        GenExprBalanced(r, GenExpr(r).value, d);
        GenExprBalanced(l, GenExpr(l).value, d + 1);
        OpQuiet(op);
        Bracket(GenExpr(r).value, GenExpr(l).value, OpCode(op), d);
    }
  }

  lemma NegBalanced(c: seq<Instr>, d: int)
    requires d >= 0 && Balanced(c, d)
    ensures Balanced(c + [NegRax], d)
  {
    QuietBalanced([NegRax], d);
    DepthAppend(c, [NegRax], d);
  }

  lemma AssignBalanced(a: seq<Instr>, rc: seq<Instr>, d: int)
    requires d >= 0 && Quiet(a) && Balanced(rc, d + 1)
    ensures Balanced(a + [PushRax] + rc + [PopRdi, Store], d)
  {
    QuietBalanced(a, d);
    assert a + [PushRax] + rc + [PopRdi, Store] == a + [PushRax] + rc + [PopRdi] + [Store];
    Bracket(a, rc, [Store], d);
  }

  lemma OpQuiet(op: BinOp)
    ensures Quiet(OpCode(op))
  {
  }

  // ---------------------------------------------------------------------
  // Running the code

  /** The state after pushing `x`. */
  function Pushed(s: State, x: int): State {
    s.(rsp := s.rsp - 8, mem := s.mem[s.rsp - 8 := x])
  }

  /** The state after popping into rdi. */
  function Popped(s: State): State {
    s.(rdi := Read(s.mem, s.rsp), rsp := s.rsp + 8)
  }

  /** Running one instruction and then the rest. */
  lemma RunFirst(i: Instr, rest: seq<Instr>, s: State)
    ensures Run([i] + rest, s) == if Step(s, i).None? then None else Run(rest, Step(s, i).value)
  {
    assert ([i] + rest)[0] == i;
    assert ([i] + rest)[1..] == rest;
  }

  lemma RunOne(i: Instr, s: State)
    ensures Run([i], s) == Step(s, i)
  {
    assert [i][1..] == [];
  }

  /** A block, `push rax`, then more code. */
  lemma RunPush(a: seq<Instr>, b: seq<Instr>, s: State)
    ensures Run(a + [PushRax] + b, s) ==
      if Run(a, s).None? then None else Run(b, Pushed(Run(a, s).value, Run(a, s).value.rax))
  {
    assert a + [PushRax] + b == a + ([PushRax] + b);
    RunAppend(a, [PushRax] + b, s);
    if Run(a, s).Some? {
      var t := Run(a, s).value;
      StepStack(t);
      RunThen(PushRax, b, t, Pushed(t, t.rax));
    }
  }

  /** A block, `pop rdi`, then more code. */
  lemma RunPop(a: seq<Instr>, b: seq<Instr>, s: State)
    ensures Run(a + [PopRdi] + b, s) ==
      if Run(a, s).None? then None else Run(b, Popped(Run(a, s).value))
  {
    assert a + [PopRdi] + b == a + ([PopRdi] + b);
    RunAppend(a, [PopRdi] + b, s);
    if Run(a, s).Some? {
      var t := Run(a, s).value;
      StepStack(t);
      RunThen(PopRdi, b, t, Popped(t));
    }
  }

  /** The steps of `push rax` and `pop rdi`. */
  lemma StepStack(t: State)
    ensures Step(t, PushRax) == Some(Pushed(t, t.rax))
    ensures Step(t, PopRdi) == Some(Popped(t))
  {
  }

  /** The steps that only load rax, or store it. */
  lemma StepLoads(t: State)
    ensures Step(t, MovRaxRbp) == Some(t.(rax := t.rbp))
    ensures Step(t, Load) == Some(t.(rax := Read(t.mem, t.rax)))
    ensures Step(t, NegRax) == Some(t.(rax := -t.rax))
    ensures Step(t, Store) == Some(t.(mem := t.mem[t.rdi := t.rax]))
  {
  }

  /** The steps with an immediate operand. */
  lemma StepImm(t: State, n: int)
    ensures Step(t, MovImm(n)) == Some(t.(rax := n))
    ensures Step(t, SubRaxImm(n)) == Some(t.(rax := t.rax - n))
  {
  }

  /** gen_addr leaves the cell's address in rax and changes nothing else. */
  lemma RunAddr(c: char, s: State)
    ensures Run(GenAddr(Var(c)).value, s) == Some(s.(rax := s.rbp - Offset(c)))
  {
    var code := GenAddr(Var(c)).value;
    assert code == [MovRaxRbp] + [SubRaxImm(Offset(c))];
    StepLoads(s);
    RunThen(MovRaxRbp, [SubRaxImm(Offset(c))], s, s.(rax := s.rbp));
    RunOne(SubRaxImm(Offset(c)), s.(rax := s.rbp));
    StepImm(s.(rax := s.rbp), Offset(c));
  }

  /** The word in the frame cell of variable `c`. */
  function Cell(s: State, c: char): int {
    Read(s.mem, s.rbp - Offset(c))
  }

  /** The frame holds the variables' values. */
  ghost predicate Agrees(env: Env, s: State) {
    forall c :: 'a' <= c <= 'z' ==> Cell(s, c) == Get(env, c)
  }

  /** The stack pointer lies below the whole frame, so pushes never reach a
      variable's cell. */
  predicate Room(s: State) {
    s.rsp <= s.rbp - FrameSize
  }

  /** Every word at or above s's stack pointer and outside the frame is the
      same in t as in s. */
  ghost predicate Kept(s: State, t: State) {
    forall a :: s.rsp <= a && (a < s.rbp - FrameSize || s.rbp <= a) ==> Read(t.mem, a) == Read(s.mem, a)
  }

  /** Running a block from s ended in t as the interpreter says: the value in
      rax, the stack and frame pointers back where they were, the variables
      in their cells and the rest of the caller's memory unchanged. */
  ghost predicate Sound(v: Evaluated, s: State, t: State) {
    t.rax == v.val && t.rsp == s.rsp && t.rbp == s.rbp && Agrees(v.env, t) && Kept(s, t)
  }

  /** Only variables named by lower-case letters, as the frame has cells for. */
  predicate Letters(e: Node) {
    match e
    case Num(_) => true
    case Var(c) => 'a' <= c <= 'z'
    case Neg(x) => Letters(x)
    case Binary(_, l, r) => Letters(l) && Letters(r)
    case Assign(l, r) => Letters(l) && Letters(r)
    case ExprStmt(x) => Letters(x)
  }

  lemma AgreesSameFrame(env: Env, s: State, t: State)
    requires Agrees(env, s) && t.mem == s.mem && t.rbp == s.rbp
    ensures Agrees(env, t)
  {
    forall c | 'a' <= c <= 'z'
      ensures Cell(t, c) == Get(env, c)
    {
      assert Cell(t, c) == Cell(s, c);
    }
  }

  /** A push below the frame leaves every cell as it was. */
  lemma AgreesPush(env: Env, s: State, x: int)
    requires Agrees(env, s) && Room(s)
    ensures Agrees(env, Pushed(s, x)) && Room(Pushed(s, x))
  {
    forall c | 'a' <= c <= 'z'
      ensures Cell(Pushed(s, x), c) == Get(env, c)
    {
      assert Offset(c) <= FrameSize;
      assert Cell(Pushed(s, x), c) == Cell(s, c);
    }
  }

  /** Storing into the cell of c changes c and no other variable. */
  lemma AgreesStore(env: Env, s: State, c: char, v: int)
    requires Agrees(env, s) && 'a' <= c <= 'z'
    ensures Agrees(env[c := v], s.(mem := s.mem[s.rbp - Offset(c) := v]))
  {
    var t := s.(mem := s.mem[s.rbp - Offset(c) := v]);
    forall d | 'a' <= d <= 'z'
      ensures Cell(t, d) == Get(env[c := v], d)
    {
      OffsetsInFrame(c, d);
      if d != c {
        assert Cell(t, d) == Cell(s, d);
      }
    }
  }

  /** A push of x, a block that keeps the pushed state's memory, and the pop:
      rdi gets x back, the stack pointer returns, and the memory the caller
      sees is kept. */
  lemma PushPop(s: State, s1: State, x: int, s3: State)
    requires Room(s) && Kept(s, s1) && s1.rsp == s.rsp && s1.rbp == s.rbp
    requires Kept(Pushed(s1, x), s3) && s3.rsp == s.rsp - 8 && s3.rbp == s.rbp
    ensures Popped(s3).rdi == x && Popped(s3).rsp == s.rsp && Kept(s, Popped(s3))
  {
    assert Read(s3.mem, s.rsp - 8) == Read(Pushed(s1, x).mem, s.rsp - 8);
    forall a | s.rsp <= a && (a < s.rbp - FrameSize || s.rbp <= a)
      ensures Read(Popped(s3).mem, a) == Read(s.mem, a)
    {
      assert Read(s3.mem, a) == Read(Pushed(s1, x).mem, a);
    }
  }

  lemma KeptTrans(s: State, t: State, u: State)
    requires Kept(s, t) && Kept(t, u) && t.rsp == s.rsp && t.rbp == s.rbp
    ensures Kept(s, u)
  {
    forall a | s.rsp <= a && (a < s.rbp - FrameSize || s.rbp <= a)
      ensures Read(u.mem, a) == Read(s.mem, a)
    {
      assert Read(u.mem, a) == Read(t.mem, a);
    }
  }

  /** `set` and `movzb` leave the condition bit in rax. */
  lemma RunSet(cc: Cond, t: State)
    ensures Run([SetAl(cc)] + [MovzbRaxAl], t) == Some(t.(rax := Bit(cc, t.flags)))
  {
    var y := WithLowByte(t.rax, Bit(cc, t.flags));
    StepSet(cc, t);
    RunThen(SetAl(cc), [MovzbRaxAl], t, t.(rax := y));
    RunOne(MovzbRaxAl, t.(rax := y));
    StepMovzb(t.(rax := y));
  }

  lemma StepCompare(t: State)
    ensures Step(t, CmpRdi) == Some(t.(flags := t.rax - t.rdi))
  {
  }

  lemma StepSet(cc: Cond, t: State)
    ensures Step(t, SetAl(cc)) == Some(t.(rax := WithLowByte(t.rax, Bit(cc, t.flags))))
  {
  }

  lemma StepMovzb(t: State)
    ensures Step(t, MovzbRaxAl) == Some(t.(rax := LowByteOf(t.rax)))
  {
  }

  /** `cmp`, `set` and `movzb` leave the comparison's bit in rax. */
  lemma RunCompare(cc: Cond, t: State)
    ensures Run([CmpRdi, SetAl(cc), MovzbRaxAl], t) ==
      Some(t.(flags := t.rax - t.rdi, rax := Bit(cc, t.rax - t.rdi)))
  {
    var t1 := t.(flags := t.rax - t.rdi);
    assert [CmpRdi, SetAl(cc), MovzbRaxAl] == [CmpRdi] + ([SetAl(cc)] + [MovzbRaxAl]);
    StepCompare(t);
    RunThen(CmpRdi, [SetAl(cc)] + [MovzbRaxAl], t, t1);
    RunSet(cc, t1);
  }

  /** `cqo` then `idiv`: the truncated quotient, or a fault on a zero divisor. */
  lemma RunDivide(t: State)
    ensures t.rdi == 0 ==> Run([Cqo, IdivRdi], t).None?
    ensures t.rdi != 0 ==>
      (Run([Cqo, IdivRdi], t).Some? &&
       Run([Cqo, IdivRdi], t).value.rax == TruncDiv(t.rax, t.rdi) &&
       Run([Cqo, IdivRdi], t).value.(rax := t.rax, rdx := t.rdx) == t)
  {
    var t1 := t.(rdx := SignWord(t.rax));
    assert [Cqo, IdivRdi] == [Cqo] + [IdivRdi];
    RunFirst(Cqo, [IdivRdi], t);
    StepDivide(t);
    RunOne(IdivRdi, t1);
  }

  lemma StepDivide(t: State)
    ensures Step(t, Cqo) == Some(t.(rdx := SignWord(t.rax)))
    ensures var t1 := t.(rdx := SignWord(t.rax));
      Step(t1, IdivRdi) ==
        if t.rdi == 0 then None else Some(t1.(rax := TruncDiv(t.rax, t.rdi), rdx := TruncRem(t.rax, t.rdi)))
  {
  }

  lemma StepArith(t: State)
    ensures Step(t, AddRdi) == Some(t.(rax := t.rax + t.rdi))
    ensures Step(t, SubRdi) == Some(t.(rax := t.rax - t.rdi))
    ensures Step(t, ImulRdi) == Some(t.(rax := t.rax * t.rdi))
  {
  }

  /** The code after `pop rdi` computes the operator on rax and rdi, faults
      exactly when it divides by zero, and leaves the stack, frame pointer
      and memory alone. */
  lemma RunOp(op: BinOp, t: State)
    ensures Run(OpCode(op), t).Some? <==> Apply(op, t.rax, t.rdi).Some?
    ensures Run(OpCode(op), t).Some? ==>
      var u := Run(OpCode(op), t).value;
      u.rax == Apply(op, t.rax, t.rdi).value && u.rsp == t.rsp && u.rbp == t.rbp && u.mem == t.mem
  {
    match op {
      case Add => RunOne(AddRdi, t); StepArith(t);
      case Sub => RunOne(SubRdi, t); StepArith(t);
      case Mul => RunOne(ImulRdi, t); StepArith(t);
      case Div => RunDivide(t);
      case Eq => RunCompare(E, t);
      case Ne => RunCompare(NE, t);
      case Lt => RunCompare(L, t);
      case Le => RunCompare(LE, t);
    }
  }

  /** The block of a generable tree, run from a state whose frame holds the
      variables, faults exactly when the interpreter finds a division by
      zero, and otherwise ends as the interpreter says. */
  lemma {:induction false} GenExprCorrect(e: Node, code: seq<Instr>, env: Env, s: State)
    requires GenExpr(e) == Ok(code) && Letters(e)
    requires Agrees(env, s) && Room(s)
    ensures Run(code, s).Some? <==> Eval(e, env).Some?
    ensures Run(code, s).Some? ==> Sound(Eval(e, env).value, s, Run(code, s).value)
    decreases e, 2
  {
    match e {
      case Num(v) => LeafCorrect(e, code, env, s);
      case Var(c) => LeafCorrect(e, code, env, s);
      case Neg(x) =>
        var xc := GenExpr(x).value;
        GenExprCorrect(x, xc, env, s);
        if Run(xc, s).Some? {
          NegFinish(xc, Eval(x, env).value, s, Run(xc, s).value);
        } else {
          RunAppend(xc, [NegRax], s);
        }
      case Assign(l, r) =>
        AssignCorrect(l.name, r, GenExpr(r).value, env, s);
      case Binary(op, l, r) =>
        BinaryCorrect(op, l, r, GenExpr(l).value, GenExpr(r).value, env, s);
    }
  }

  /** A number or a variable: rax gets the literal or the cell's word. */
  lemma LeafCorrect(e: Node, code: seq<Instr>, env: Env, s: State)
    requires (e.Num? || e.Var?) && GenExpr(e) == Ok(code) && Letters(e) && Agrees(env, s)
    ensures Run(code, s).Some? && Eval(e, env).Some?
    ensures Sound(Eval(e, env).value, s, Run(code, s).value)
  {
    if e.Num? {
      RunOne(MovImm(e.val), s);
      StepImm(s, e.val);
      AgreesSameFrame(env, s, s.(rax := e.val));
    } else {
      var t := s.(rax := s.rbp - Offset(e.name));
      RunAddr(e.name, s);
      RunAppend(GenAddr(e).value, [Load], s);
      RunOne(Load, t);
      StepLoads(t);
      AgreesSameFrame(env, s, t.(rax := Cell(s, e.name)));
    }
  }

  /** `neg rax` after the operand's block. */
  lemma NegFinish(xc: seq<Instr>, a: Evaluated, s: State, t: State)
    requires Run(xc, s) == Some(t) && Sound(a, s, t)
    ensures Run(xc + [NegRax], s).Some?
    ensures Sound(Evaluated(-a.val, a.env), s, Run(xc + [NegRax], s).value)
  {
    RunAppend(xc, [NegRax], s);
    RunOne(NegRax, t);
    StepLoads(t);
    AgreesSameFrame(a.env, t, t.(rax := -t.rax));
  }

  /** `c = r`: the cell's address pushed, r's block, the address popped into
      rdi and the value stored there; the value stays in rax. */
  lemma {:induction false} AssignCorrect(c: char, r: Node, rc: seq<Instr>, env: Env, s: State)
    requires GenExpr(r) == Ok(rc) && Letters(r) && 'a' <= c <= 'z'
    requires Agrees(env, s) && Room(s)
    ensures var code := GenAddr(Var(c)).value + [PushRax] + rc + [PopRdi, Store];
      var v := Eval(Assign(Var(c), r), env);
      (Run(code, s).Some? <==> v.Some?) && (v.Some? ==> Sound(v.value, s, Run(code, s).value))
    decreases Assign(Var(c), r), 0
  {
    var a := GenAddr(Var(c)).value;
    var s1 := s.(rax := s.rbp - Offset(c));
    var s2 := Pushed(s1, s1.rax);
    assert a + [PushRax] + rc + [PopRdi, Store] == a + [PushRax] + (rc + [PopRdi] + [Store]);
    RunAddr(c, s);
    RunPush(a, rc + [PopRdi] + [Store], s);
    AgreesSameFrame(env, s, s1);
    AgreesPush(env, s1, s1.rax);
    GenExprCorrect(r, rc, env, s2);
    RunPop(rc, [Store], s2);
    if Run(rc, s2).Some? {
      AssignFinish(c, Eval(r, env).value, s, s1, Run(rc, s2).value);
    }
  }

  /** The pop of the cell's address and the store, once the value b is in
      rax. */
  lemma AssignFinish(c: char, b: Evaluated, s: State, s1: State, s3: State)
    requires 'a' <= c <= 'z' && Room(s) && s1 == s.(rax := s.rbp - Offset(c))
    requires Sound(b, Pushed(s1, s1.rax), s3)
    ensures Run([Store], Popped(s3)).Some?
    ensures Sound(Evaluated(b.val, b.env[c := b.val]), s, Run([Store], Popped(s3)).value)
  {
    var s4 := Popped(s3);
    PushPop(s, s1, s1.rax, s3);
    RunOne(Store, s4);
    StepLoads(s4);
    AgreesSameFrame(b.env, s3, s4);
    AgreesStore(b.env, s4, c, b.val);
    var s5 := s4.(mem := s4.mem[s4.rdi := s4.rax]);
    forall x | s.rsp <= x && (x < s.rbp - FrameSize || s.rbp <= x)
      ensures Read(s5.mem, x) == Read(s.mem, x)
    {
      assert Read(s5.mem, x) == Read(s4.mem, x);
    }
  }

  /** A binary node: the right operand's block, push, the left operand's
      block, pop into rdi, then the operator. */
  lemma {:induction false} BinaryCorrect(op: BinOp, l: Node, r: Node, lc: seq<Instr>, rc: seq<Instr>, env: Env, s: State)
    requires GenExpr(l) == Ok(lc) && GenExpr(r) == Ok(rc) && Letters(l) && Letters(r)
    requires Agrees(env, s) && Room(s)
    ensures var code := rc + [PushRax] + lc + [PopRdi] + OpCode(op);
      var v := Eval(Binary(op, l, r), env);
      (Run(code, s).Some? <==> v.Some?) && (v.Some? ==> Sound(v.value, s, Run(code, s).value))
    decreases Binary(op, l, r), 1
  {
    assert rc + [PushRax] + lc + [PopRdi] + OpCode(op) == rc + [PushRax] + (lc + [PopRdi] + OpCode(op));
    RunPush(rc, lc + [PopRdi] + OpCode(op), s);
    GenExprCorrect(r, rc, env, s);
    if Run(rc, s).Some? {
      BinaryAfterRight(op, l, r, lc, env, Eval(r, env).value, s, Run(rc, s).value);
    }
  }

  /** The rest of a binary node's code, once the right operand's value b is
      in rax: push, the left operand, pop, the operator. */
  lemma {:induction false} BinaryAfterRight(op: BinOp, l: Node, r: Node, lc: seq<Instr>, env: Env,
                                            b: Evaluated, s: State, s1: State)
    requires GenExpr(l) == Ok(lc) && Letters(l)
    requires Eval(r, env) == Some(b) && Room(s) && Sound(b, s, s1)
    ensures var u := Run(lc + [PopRdi] + OpCode(op), Pushed(s1, s1.rax));
      var v := Eval(Binary(op, l, r), env);
      (u.Some? <==> v.Some?) && (v.Some? ==> Sound(v.value, s, u.value))
    decreases Binary(op, l, r), 0
  {
    var s2 := Pushed(s1, b.val);
    AgreesPush(b.env, s1, b.val);
    RunPop(lc, OpCode(op), s2);
    GenExprCorrect(l, lc, b.env, s2);
    EvalBinary(op, l, r, env, b);
    if Run(lc, s2).Some? {
      BinaryFinish(op, Eval(l, b.env).value, b.val, s, s1, Run(lc, s2).value);
    }
  }

  /** A binary node's value, once its right operand's is known. */
  lemma EvalBinary(op: BinOp, l: Node, r: Node, env: Env, b: Evaluated)
    requires Eval(r, env) == Some(b)
    ensures Eval(Binary(op, l, r), env).Some? <==>
      Eval(l, b.env).Some? && Apply(op, Eval(l, b.env).value.val, b.val).Some?
    ensures Eval(Binary(op, l, r), env).Some? ==>
      Eval(Binary(op, l, r), env).value ==
        Evaluated(Apply(op, Eval(l, b.env).value.val, b.val).value, Eval(l, b.env).value.env)
  {
  }

  /** The pop and the operator, once the left operand's value a is in rax
      and the right one's, b, on the stack. */
  lemma BinaryFinish(op: BinOp, a: Evaluated, b: int, s: State, s1: State, s3: State)
    requires Room(s) && Kept(s, s1) && s1.rsp == s.rsp && s1.rbp == s.rbp
    requires Sound(a, Pushed(s1, b), s3)
    ensures var u := Run(OpCode(op), Popped(s3));
      var v := Apply(op, a.val, b);
      (u.Some? <==> v.Some?) && (v.Some? ==> Sound(Evaluated(v.value, a.env), s, u.value))
  {
    var s4 := Popped(s3);
    PushPop(s, s1, b, s3);
    RunOp(op, s4);
    if Run(OpCode(op), s4).Some? {
      var s5 := Run(OpCode(op), s4).value;
      AgreesSameFrame(a.env, s3, s5);
      KeptTrans(s, s4, s5);
    }
  }

  // ---------------------------------------------------------------------
  // The whole program

  /** Every statement names only variables the frame has cells for. */
  predicate AllLetters(stmts: seq<Node>) {
    forall i :: 0 <= i < |stmts| ==> Letters(stmts[i])
  }

  lemma SoundTrans(a: Evaluated, v: Evaluated, s: State, t: State, u: State)
    requires Sound(a, s, t) && Sound(v, t, u)
    ensures Sound(v, s, u)
  {
    KeptTrans(s, t, u);
  }

  /** The blocks of the statements, run one after the other from a state
      whose frame holds the variables, end as the interpreter says the
      statements do; they fault exactly when some statement divides by zero. */
  lemma {:induction false} BlocksCorrect(stmts: seq<Node>, body: seq<Instr>, env: Env, s: State)
    requires Blocks(stmts) == Ok(body) && AllLetters(stmts)
    requires Agrees(env, s) && Room(s)
    ensures Run(body, s).Some? <==> Exec(stmts, env, s.rax).Some?
    ensures Run(body, s).Some? ==> Sound(Exec(stmts, env, s.rax).value, s, Run(body, s).value)
    decreases |stmts|
  {
    if stmts == [] {
      assert Run(body, s) == Some(s);
    } else {
      var init := stmts[..|stmts| - 1];
      var last := stmts[|stmts| - 1];
      var pb := Blocks(init).value;
      var b := GenStmt(last).value;
      assert AllLetters(init) by {
        forall i | 0 <= i < |init| ensures Letters(init[i]) {
          assert init[i] == stmts[i];
        }
      }
      assert Letters(last.lhs) by {
        assert Letters(stmts[|stmts| - 1]);
      }
      BlocksCorrect(init, pb, env, s);
      RunAppend(pb, b, s);
      if Run(pb, s).Some? {
        var t := Run(pb, s).value;
        var prev := Exec(init, env, s.rax).value;
        GenExprCorrect(last.lhs, b, prev.env, t);
        if Run(b, t).Some? {
          SoundTrans(prev, Eval(last.lhs, prev.env).value, s, t, Run(b, t).value);
        }
      }
    }
  }

  /** The state after the header and the prologue: the caller's rbp pushed,
      rbp at the saved word, and 208 bytes reserved below it. */
  function Entered(s: State): State {
    s.(rsp := s.rsp - 8 - FrameSize, rbp := s.rsp - 8, mem := s.mem[s.rsp - 8 := s.rbp])
  }

  lemma RunEntry(s: State)
    ensures Run(Header + Prologue, s) == Some(Entered(s))
  {
    var p := Pushed(s, s.rbp);
    assert Header + Prologue ==
      [IntelSyntax] + ([GlobalMain] + ([MainLabel] + ([PushRbp] + ([MovRbpRsp] + [SubRspImm(FrameSize)]))));
    RunFirst(IntelSyntax, [GlobalMain] + ([MainLabel] + ([PushRbp] + ([MovRbpRsp] + [SubRspImm(FrameSize)]))), s);
    RunFirst(GlobalMain, [MainLabel] + ([PushRbp] + ([MovRbpRsp] + [SubRspImm(FrameSize)])), s);
    RunFirst(MainLabel, [PushRbp] + ([MovRbpRsp] + [SubRspImm(FrameSize)]), s);
    RunFirst(PushRbp, [MovRbpRsp] + [SubRspImm(FrameSize)], s);
    RunFirst(MovRbpRsp, [SubRspImm(FrameSize)], p);
    RunOne(SubRspImm(FrameSize), p.(rbp := p.rsp));
  }

  /** The epilogue: rsp back to rbp, the saved rbp popped, and `ret` pops the
      return address. */
  lemma RunExit(t: State)
    ensures Run(Epilogue, t) == Some(t.(rsp := t.rbp + 16, rbp := Read(t.mem, t.rbp)))
  {
    EpilogueSplit();
    var t1 := t.(rsp := t.rbp);
    StepMovRspRbp(t);
    RunThen(MovRspRbp, [PopRbp] + [Ret], t, t1);
    RunReturn(t1);
    assert t1.(rsp := t1.rsp + 16, rbp := Read(t1.mem, t1.rsp))
        == t.(rsp := t.rbp + 16, rbp := Read(t.mem, t.rbp));
  }

  lemma EpilogueSplit()
    ensures Epilogue == [MovRspRbp] + ([PopRbp] + [Ret])
  {
  }

  lemma RunThen(i: Instr, rest: seq<Instr>, s: State, u: State)
    requires Step(s, i) == Some(u)
    ensures Run([i] + rest, s) == Run(rest, u)
  {
    RunFirst(i, rest, s);
  }

  lemma StepMovRspRbp(t: State)
    ensures Step(t, MovRspRbp) == Some(t.(rsp := t.rbp))
  {
  }

  lemma StepPopRbp(t: State)
    ensures Step(t, PopRbp) == Some(t.(rbp := Read(t.mem, t.rsp), rsp := t.rsp + 8))
  {
  }

  /** `pop rbp` then `ret`. */
  lemma RunReturn(t: State)
    ensures Run([PopRbp] + [Ret], t) == Some(t.(rsp := t.rsp + 16, rbp := Read(t.mem, t.rsp)))
  {
    var u := t.(rbp := Read(t.mem, t.rsp), rsp := t.rsp + 8);
    StepPopRbp(t);
    RunThen(PopRbp, [Ret], t, u);
    RunOne(Ret, u);
  }

  /** The cells of the fresh frame are the words just below the caller's
      stack pointer: env gives each letter the word its cell holds on entry. */
  ghost predicate FreshFrame(env: Env, s: State) {
    forall c :: 'a' <= c <= 'z' ==> Get(env, c) == Read(s.mem, s.rsp - 8 - Offset(c))
  }

  lemma EnteredAgrees(env: Env, s: State)
    requires FreshFrame(env, s)
    ensures Agrees(env, Entered(s)) && Room(Entered(s))
  {
    forall c | 'a' <= c <= 'z'
      ensures Cell(Entered(s), c) == Get(env, c)
    {
      assert Offset(c) >= 8;
      assert Cell(Entered(s), c) == Read(s.mem, s.rsp - 8 - Offset(c));
    }
  }

  /** The epilogue after the statements: the caller's rbp back, rsp above the
      return address, and the caller's memory as it was. */
  lemma ExitRestores(s: State, t: State)
    requires t.rsp == Entered(s).rsp && t.rbp == Entered(s).rbp && Kept(Entered(s), t)
    ensures var f := Run(Epilogue, t).value;
      Run(Epilogue, t).Some? && f.rax == t.rax && f.rsp == s.rsp + 8 && f.rbp == s.rbp &&
      forall a :: s.rsp <= a ==> Read(f.mem, a) == Read(s.mem, a)
  {
    var e := Entered(s);
    RunExit(t);
    assert Read(t.mem, e.rbp) == Read(e.mem, e.rbp);
    forall a | s.rsp <= a
      ensures Read(t.mem, a) == Read(s.mem, a)
    {
      assert Read(t.mem, a) == Read(e.mem, a);
    }
  }

  /** codegen's output, run from the caller's state: it faults exactly when
      a statement divides by zero; otherwise main returns with the value of
      the last statement in rax (rax as it was on entry when there are no
      statements), rsp just above the return address, the caller's rbp
      restored and the caller's memory unchanged. The variables start as the
      words their cells hold. */
  lemma ProgramCorrect(stmts: seq<Node>, code: seq<Instr>, env: Env, s: State)
    requires Program(stmts) == Ok(code) && AllLetters(stmts) && FreshFrame(env, s)
    ensures Run(code, s).Some? <==> Exec(stmts, env, s.rax).Some?
    ensures Run(code, s).Some? ==>
      var f := Run(code, s).value;
      f.rax == Exec(stmts, env, s.rax).value.val && f.rsp == s.rsp + 8 && f.rbp == s.rbp &&
      forall a :: s.rsp <= a ==> Read(f.mem, a) == Read(s.mem, a)
  {
    var body := Blocks(stmts).value;
    var e := Entered(s);
    assert code == (Header + Prologue) + (body + Epilogue);
    RunAppend(Header + Prologue, body + Epilogue, s);
    RunEntry(s);
    RunAppend(body, Epilogue, e);
    EnteredAgrees(env, s);
    BlocksCorrect(stmts, body, env, e);
    if Run(body, e).Some? {
      ExitRestores(s, Run(body, e).value);
    }
  }
}
