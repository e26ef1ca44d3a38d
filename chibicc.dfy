/** The older single-file compiler chibicc.c: a lexer with no identifier
    rule, the same recursive-descent parser over numbers and the arithmetic
    operators, a gen_expr without variables or assignment, and a `main` that
    emits the header, the expression's block and `ret`, with no prologue. */
module Chibicc {
  import opened CType
  import opened Decimal
  import opened Errors
  import opened Tokenize
  import opened Ast
  import opened Machine
  import Codegen
  import CodegenFacts
  import Semantics
  import Lexemes
  import Printer
  import RoundTrip
  import G = Grammar

  // ---------------------------------------------------------------------
  // The lexer

  /** One iteration of the older scanning loop: whitespace, a number or a
      punctuator. A letter is no punctuator, and `_` is one. */
  function OldStepAt(src: string, p: nat): (s: Step)
    requires p < |src|
    ensures s.Emit? ==> s.tok.loc == p && p < p + s.tok.len <= |src|
    ensures s.Emit? ==> s.tok.kind == Number || s.tok.kind == Punctuator
  {
    if IsSpace(src[p]) then
      Skip
    else if IsDigit(src[p]) then
      var q := DigitsEnd(src, p);
      DigitsEndRun(src, p);
      Emit(Token(Number, Value(src[p..q]), p, q - p))
    else
      var n := ReadPunct(src, p);
      if n != 0 then Emit(Token(Punctuator, 0, p, n)) else Fail(InvalidToken(p))
  }

  /** The tokens of src[p..], or the error the older scan stops at. */
  function OldScan(src: string, p: nat): Result<seq<Token>>
    requires p <= |src|
    decreases |src| - p
  {
    if p == |src| then
      Ok([Token(EndOfFile, 0, p, 0)])
    else
      match OldStepAt(src, p)
      case Skip => OldScan(src, p + 1)
      case Emit(t) => Prepend([t], OldScan(src, p + t.len))
      case Fail(e) => Err(e)
  }

  function OldLex(src: string): Result<seq<Token>> {
    OldScan(src, 0)
  }

  lemma OldScanEmits(src: string, toks: seq<Token>, p: nat, t: Token)
    requires p < |src| && OldStepAt(src, p) == Emit(t)
    ensures Prepend(toks, OldScan(src, p)) == Prepend(toks + [t], OldScan(src, p + t.len))
  {
    PrependPrepend(toks, [t], OldScan(src, p + t.len));
  }

  // One iteration of the older scanning loop, for each kind of character.

  lemma OldStepSpace(src: string, p: nat)
    requires p < |src| && IsSpace(src[p])
    ensures OldScan(src, p) == OldScan(src, p + 1)
  {
  }

  lemma OldStepNumber(src: string, toks: seq<Token>, p: nat, val: int, q: nat)
    requires p < |src| && IsDigit(src[p]) && q == DigitsEnd(src, p) && AllDigits(src[p..q]) && val == Value(src[p..q])
    ensures Prepend(toks, OldScan(src, p)) == Prepend(toks + [Token(Number, val, p, q - p)], OldScan(src, q))
  {
    OldScanEmits(src, toks, p, Token(Number, val, p, q - p));
  }

  lemma OldStepPunct(src: string, toks: seq<Token>, p: nat)
    requires p < |src| && !IsSpace(src[p]) && !IsDigit(src[p])
    ensures var n := ReadPunct(src, p);
      if n != 0 then Prepend(toks, OldScan(src, p)) == Prepend(toks + [Token(Punctuator, 0, p, n)], OldScan(src, p + n))
      else OldScan(src, p) == Err(InvalidToken(p))
  {
    var n := ReadPunct(src, p);
    if n != 0 {
      OldScanEmits(src, toks, p, Token(Punctuator, 0, p, n));
    }
  }

  lemma OldStepEnd(src: string, toks: seq<Token>)
    ensures Prepend(toks, OldScan(src, |src|)) == Ok(toks + [Token(EndOfFile, 0, |src|, 0)])
  {
  }

  /** tokenize() of chibicc.c: the scanning loop, one token per iteration. */
  method OldTokenize(src: string) returns (r: Result<seq<Token>>)
    ensures r == OldLex(src)
  {
    ghost var whole := OldLex(src);
    var p := 0;
    var toks: seq<Token> := [];
    assert OldScan(src, 0).Ok? ==> [] + OldScan(src, 0).value == OldScan(src, 0).value;
    while p < |src|
      invariant p <= |src|
      invariant whole == Prepend(toks, OldScan(src, p))
      decreases |src| - p
    {
      if IsSpace(src[p]) {
        OldStepSpace(src, p);
        p := p + 1;
      } else if IsDigit(src[p]) {
        var val, q := StrToL(src, p);
        OldStepNumber(src, toks, p, val, q);
        toks := toks + [Token(Number, val, p, q - p)];
        p := q;
      } else {
        var punctLen := ReadPunct(src, p);
        OldStepPunct(src, toks, p);
        if punctLen == 0 {
          return Err(InvalidToken(p));
        }
        toks := toks + [Token(Punctuator, 0, p, punctLen)];
        p := p + punctLen;
      }
    }
    OldStepEnd(src, toks);
    toks := toks + [Token(EndOfFile, 0, p, 0)];
    return Ok(toks);
  }

  /** A character some branch of the older scan accepts. */
  predicate OldValidChar(c: char) {
    IsSpace(c) || IsDigit(c) || IsPunct(c)
  }

  /** A letter starts an identifier in tokenize.c but is an invalid token
      here; `_` is an identifier there and a one-character punctuator here. */
  lemma LetterAndUnderscore(src: string, p: nat)
    requires p < |src| && IsIdent1(src[p])
    ensures src[p] == '_' ==> OldStepAt(src, p) == Emit(Token(Punctuator, 0, p, 1))
    ensures src[p] != '_' ==> OldScan(src, p) == Err(InvalidToken(p))
    ensures StepAt(src, p).Emit? && StepAt(src, p).tok.kind == Identifier
  {
  }

  /** On text without identifier characters both lexers agree. */
  lemma {:induction false} OldScanAgrees(src: string, p: nat)
    requires p <= |src| && forall k :: p <= k < |src| ==> !IsIdent1(src[k])
    ensures OldScan(src, p) == Scan(src, p)
    decreases |src| - p
  {
    if p < |src| {
      StepsAgree(src, p);
      match OldStepAt(src, p)
      case Skip => OldScanAgrees(src, p + 1);
      case Emit(t) => OldScanAgrees(src, p + t.len);
      case Fail(_) =>
    }
  }

  /** Away from an identifier character, one step of each lexer is the same. */
  lemma StepsAgree(src: string, p: nat)
    requires p < |src| && !IsIdent1(src[p])
    ensures OldStepAt(src, p) == StepAt(src, p)
  {
  }

  /** The characters an emitting step covers are all accepted. */
  lemma OldEmitFacts(src: string, p: nat)
    requires p < |src| && OldStepAt(src, p).Emit?
    ensures var t := OldStepAt(src, p).tok;
      forall k :: p <= k < p + t.len ==> OldValidChar(src[k]) && !IsSpace(src[k])
  {
    if IsDigit(src[p]) {
      DigitsEndRun(src, p);
    }
  }

  /** The older scan fails exactly when some character from `p` on is accepted
      by no branch, and then at the first such character: a letter, if one
      comes before any other unaccepted character. */
  predicate OldFailsAtFirstInvalid(src: string, p: nat)
    requires p <= |src|
  {
    && (OldScan(src, p).Ok? <==> forall k :: p <= k < |src| ==> OldValidChar(src[k]))
    && (OldScan(src, p).Err? ==>
         var e := OldScan(src, p).error;
         e.InvalidToken? && p <= e.loc < |src| && !OldValidChar(src[e.loc]) &&
         forall k :: p <= k < e.loc ==> OldValidChar(src[k]))
  }

  lemma {:induction false} OldScanError(src: string, p: nat)
    requires p <= |src|
    ensures OldFailsAtFirstInvalid(src, p)
    decreases |src| - p
  {
    if p == |src| {
    } else if IsSpace(src[p]) {
      OldScanError(src, p + 1);
      assert OldScan(src, p) == OldScan(src, p + 1);
    } else if !OldValidChar(src[p]) {
    } else {
      OldScanError(src, p + OldStepAt(src, p).tok.len);
      OldErrorAfterToken(src, p);
    }
  }

  lemma OldErrorAfterToken(src: string, p: nat)
    requires p < |src| && OldStepAt(src, p).Emit?
    requires OldFailsAtFirstInvalid(src, p + OldStepAt(src, p).tok.len)
    ensures OldFailsAtFirstInvalid(src, p)
  {
    OldEmitFacts(src, p);
    var t := OldStepAt(src, p).tok;
    assert OldScan(src, p) == Prepend([t], OldScan(src, p + t.len));
  }

  /** The list ends in exactly one end-of-file token, at the end of the input
      with length 0, and every token lies inside the input. */
  lemma {:induction false} OldScanEndsInEof(src: string, p: nat)
    requires p <= |src| && OldScan(src, p).Ok?
    ensures EndsInEof(src, OldScan(src, p).value) && AllInBounds(src, OldScan(src, p).value)
    decreases |src| - p
  {
    if p == |src| {
      assert OldScan(src, p).value == [Token(EndOfFile, 0, |src|, 0)];
    } else if IsSpace(src[p]) {
      assert OldScan(src, p) == OldScan(src, p + 1);
      OldScanEndsInEof(src, p + 1);
    } else {
      var t := OldStepAt(src, p).tok;
      var rest := OldScan(src, p + t.len).value;
      OldScanEndsInEof(src, p + t.len);
      assert OldScan(src, p).value == [t] + rest;
      EofCons(src, t, rest);
      InBoundsCons(src, t, rest);
    }
  }

  // ---------------------------------------------------------------------
  // The code generator

  /** gen_expr of chibicc.c: numbers, negation and the binary operators; a
      node of any other kind is an invalid expression. */
  function OldGenExpr(n: Node): (r: Result<seq<Instr>>)
    ensures r.Ok? <==> PureExpr(n)
  {
    match n
    case Num(v) => Ok([MovImm(v)])
    case Neg(x) =>
      var c :- OldGenExpr(x);
      Ok(c + [NegRax])
    case Binary(op, l, r) =>
      var rc :- OldGenExpr(r);
      var lc :- OldGenExpr(l);
      Ok(rc + [PushRax] + lc + [PopRdi] + Codegen.OpCode(op))
    case _ => Err(InvalidExpression)
  }

  /** On the trees both can take, the two generators emit the same code. */
  lemma {:induction false} OldGenAgrees(e: Node)
    requires PureExpr(e)
    ensures OldGenExpr(e) == Codegen.GenExpr(e)
  {
    match e
    case Num(_) =>
    case Neg(x) => OldGenAgrees(x);
    case Binary(_, l, r) =>
      OldGenAgrees(r);
      OldGenAgrees(l);
  }

  /** Every word at or above s's stack pointer is the same in t. */
  ghost predicate Above(s: State, t: State) {
    forall a :: s.rsp <= a ==> Read(t.mem, a) == Read(s.mem, a)
  }

  /** A block ended with `v` in rax, the stack and frame pointers where they
      were, and nothing at or above the stack pointer changed. */
  ghost predicate Leaves(v: int, s: State, t: State) {
    t.rax == v && t.rsp == s.rsp && t.rbp == s.rbp && Above(s, t)
  }

  /** The value of an arithmetic tree, when it has one. */
  function Evaluate(e: Node): Option<int> {
    match Semantics.Eval(e, map[])
    case None => None
    case Some(v) => Some(v.val)
  }

  /** The code of an arithmetic tree needs no frame: run from any state it
      faults exactly when the tree divides by zero, and otherwise leaves the
      tree's value in rax and the stack as it found it. */
  lemma {:induction false} OldGenCorrect(e: Node, code: seq<Instr>, s: State)
    requires OldGenExpr(e) == Ok(code)
    ensures Run(code, s).Some? <==> Evaluate(e).Some?
    ensures Run(code, s).Some? ==> Leaves(Evaluate(e).value, s, Run(code, s).value)
    decreases e, 2
  {
    match e {
      case Num(v) =>
        CodegenFacts.RunOne(MovImm(v), s);
      case Neg(x) =>
        var xc := OldGenExpr(x).value;
        OldGenCorrect(x, xc, s);
        RunAppend(xc, [NegRax], s);
        if Run(xc, s).Some? {
          CodegenFacts.RunOne(NegRax, Run(xc, s).value);
        }
      case Binary(op, l, r) =>
        OldBinaryCorrect(op, l, r, OldGenExpr(l).value, OldGenExpr(r).value, s);
    }
  }

  lemma {:induction false} OldBinaryCorrect(op: BinOp, l: Node, r: Node, lc: seq<Instr>, rc: seq<Instr>, s: State)
    requires OldGenExpr(l) == Ok(lc) && OldGenExpr(r) == Ok(rc)
    ensures var code := rc + [PushRax] + lc + [PopRdi] + Codegen.OpCode(op);
      var v := Evaluate(Binary(op, l, r));
      (Run(code, s).Some? <==> v.Some?) && (v.Some? ==> Leaves(v.value, s, Run(code, s).value))
    decreases Binary(op, l, r), 1
  {
    var tail := lc + [PopRdi] + Codegen.OpCode(op);
    assert rc + [PushRax] + lc + [PopRdi] + Codegen.OpCode(op) == rc + [PushRax] + tail;
    CodegenFacts.RunPush(rc, tail, s);
    OldGenCorrect(r, rc, s);
    if Run(rc, s).Some? {
      OldBinaryAfterRight(op, l, r, lc, s, Run(rc, s).value);
    }
  }

  /** The rest of a binary node's code, once the right operand's value is in
      rax: push, the left operand, pop, the operator. */
  lemma {:induction false} OldBinaryAfterRight(op: BinOp, l: Node, r: Node, lc: seq<Instr>, s: State, s1: State)
    requires OldGenExpr(l) == Ok(lc) && PureExpr(r) && Evaluate(r).Some? && Leaves(Evaluate(r).value, s, s1)
    ensures var u := Run(lc + [PopRdi] + Codegen.OpCode(op), CodegenFacts.Pushed(s1, s1.rax));
      var v := Evaluate(Binary(op, l, r));
      (u.Some? <==> v.Some?) && (v.Some? ==> Leaves(v.value, s, u.value))
    decreases Binary(op, l, r), 0
  {
    EvaluateBinary(op, l, r);
    var b := Evaluate(r).value;
    var s2 := CodegenFacts.Pushed(s1, b);
    CodegenFacts.RunPop(lc, Codegen.OpCode(op), s2);
    OldGenCorrect(l, lc, s2);
    if Run(lc, s2).Some? {
      OldBinaryFinish(op, Evaluate(l).value, b, s, s1, Run(lc, s2).value);
    }
  }

  /** A binary node's value from its operands' values, right operand first. */
  lemma EvaluateBinary(op: BinOp, l: Node, r: Node)
    requires PureExpr(r)
    ensures Evaluate(Binary(op, l, r)) ==
      if Evaluate(r).None? || Evaluate(l).None? then None
      else Semantics.Apply(op, Evaluate(l).value, Evaluate(r).value)
  {
    Semantics.PureEnvIrrelevant(r, map[], map[]);
  }

  lemma OldBinaryFinish(op: BinOp, a: int, b: int, s: State, s1: State, s3: State)
    requires Leaves(b, s, s1) && Leaves(a, CodegenFacts.Pushed(s1, b), s3)
    ensures var u := Run(Codegen.OpCode(op), CodegenFacts.Popped(s3));
      var v := Semantics.Apply(op, a, b);
      (u.Some? <==> v.Some?) && (v.Some? ==> Leaves(v.value, s, u.value))
  {
    var s2 := CodegenFacts.Pushed(s1, b);
    var s4 := CodegenFacts.Popped(s3);
    assert Read(s3.mem, s2.rsp) == b;
    CodegenFacts.RunOp(op, s4);
    forall x | s.rsp <= x
      ensures Read(s4.mem, x) == Read(s.mem, x)
    {
      assert Read(s3.mem, x) == Read(s2.mem, x);
    }
  }

  // ---------------------------------------------------------------------
  // main

  /** A successful older scan is a token list the parser accepts. */
  lemma OldLexValid(src: string)
    requires OldLex(src).Ok?
    ensures G.ValidStream(src, OldLex(src).value)
  {
    OldScanEndsInEof(src, 0);
  }

  /** main of chibicc.c without its argument handling: tokenize, parse one
      expression that must be followed by end-of-file, then the header, the
      expression's block and `ret`. */
  function Compile(src: string): (r: Result<seq<Instr>>)
    ensures r.Ok? ==> |r.value| > 4 && r.value[..3] == Codegen.Header && r.value[|r.value| - 1] == Ret
    ensures r.Err? ==>
      r.error.InvalidToken? || r.error.ExpectedToken? || r.error.ExpectedExpression? || r.error.ExtraToken?
  {
    OldScanError(src, 0);
    var toks :- OldLex(src);
    OldLexValid(src);
    var e :- G.Parse(src, toks);
    Ok(Codegen.Header + OldGenExpr(e).value + [Ret])
  }

  /** Only the digits, operators and spaces of a printed tree. */
  predicate NoIdentChar(s: string) {
    forall k :: 0 <= k < |s| ==> !IsIdent1(s[k])
  }

  lemma NoIdentAppend(a: string, b: string)
    requires NoIdentChar(a) && NoIdentChar(b)
    ensures NoIdentChar(a + b)
  {
    forall k | 0 <= k < |a + b|
      ensures !IsIdent1((a + b)[k])
    {
      if k >= |a| {
        assert (a + b)[k] == b[k - |a|];
      }
    }
  }

  lemma SpellNoIdent(l: Lexemes.Lexeme)
    requires Lexemes.Lexable(l)
    ensures NoIdentChar(Lexemes.Spell(l))
  {
  }

  lemma {:induction false} LayoutNoIdent(ls: seq<Lexemes.Lexeme>)
    requires Lexemes.AllLexable(ls)
    ensures NoIdentChar(Lexemes.Layout(ls))
    decreases ls
  {
    if ls != [] {
      var w := Lexemes.Spell(ls[0]);
      assert Lexemes.Lexable(ls[0]);
      SpellNoIdent(ls[0]);
      assert Lexemes.AllLexable(ls[1..]);
      LayoutNoIdent(ls[1..]);
      NoIdentAppend(w, " ");
      NoIdentAppend(w + " ", Lexemes.Layout(ls[1..]));
    }
  }

  /** A tree of the printer's shape is arithmetic. */
  lemma {:induction false} PrintablePure(e: Node)
    requires Printer.Printable(e)
    ensures PureExpr(e)
  {
    match e
    case Num(_) =>
    case Neg(x) => PrintablePure(x);
    case Binary(_, l, r) =>
      PrintablePure(l);
      PrintablePure(r);
  }

  /** The program main emits for an arithmetic tree, run from any state:
      it faults exactly when the tree divides by zero, and otherwise returns
      the tree's value in rax, with rbp as it was and rsp just above the
      return address. */
  lemma MainRuns(e: Node, code: seq<Instr>, s: State)
    requires OldGenExpr(e) == Ok(code)
    ensures var prog := Codegen.Header + code + [Ret];
      (Run(prog, s).Some? <==> Evaluate(e).Some?) &&
      (Run(prog, s).Some? ==>
         Run(prog, s).value.rax == Evaluate(e).value &&
         Run(prog, s).value.rsp == s.rsp + 8 && Run(prog, s).value.rbp == s.rbp)
  {
    var h := Codegen.Header;
    assert h == [IntelSyntax] + ([GlobalMain] + [MainLabel]);
    CodegenFacts.RunFirst(IntelSyntax, [GlobalMain] + [MainLabel], s);
    CodegenFacts.RunFirst(GlobalMain, [MainLabel], s);
    CodegenFacts.RunOne(MainLabel, s);
    assert Run(h, s) == Some(s);
    RunAppend(h + code, [Ret], s);
    RunAppend(h, code, s);
    OldGenCorrect(e, code, s);
    if Run(code, s).Some? {
      CodegenFacts.RunOne(Ret, Run(code, s).value);
    }
  }

  /** Whatever source main accepts, it emits the header, the block of the
      tree the parser built and `ret`; that program faults exactly when the
      tree divides by zero, and otherwise returns the tree's value. */
  lemma CompileCorrect(src: string, s: State)
    requires Compile(src).Ok?
    ensures OldLex(src).Ok? && G.ValidStream(src, OldLex(src).value)
    ensures G.Parse(src, OldLex(src).value).Ok?
    ensures var e := G.Parse(src, OldLex(src).value).value;
      PureExpr(e) && OldGenExpr(e).Ok? &&
      Compile(src).value == Codegen.Header + OldGenExpr(e).value + [Ret]
    ensures var e := G.Parse(src, OldLex(src).value).value;
      var prog := Compile(src).value;
      (Run(prog, s).Some? <==> Evaluate(e).Some?) &&
      (Run(prog, s).Some? ==>
         Run(prog, s).value.rax == Evaluate(e).value &&
         Run(prog, s).value.rsp == s.rsp + 8 && Run(prog, s).value.rbp == s.rbp)
  {
    OldLexValid(src);
    var e := G.Parse(src, OldLex(src).value).value;
    MainRuns(e, OldGenExpr(e).value, s);
  }

  /** The older compiler, given the printed text of a tree, emits the header,
      the tree's block and `ret`; run from any state, the program faults
      exactly when the tree divides by zero, and otherwise returns the tree's
      value in rax with rsp just above the return address. */
  lemma CompilePrinted(e: Node, s: State)
    requires Printer.Printable(e)
    ensures PureExpr(e) && OldGenExpr(e) == Codegen.GenExpr(e)
    ensures Compile(Printer.Print(e)) == Ok(Codegen.Header + Codegen.GenExpr(e).value + [Ret])
    ensures var prog := Codegen.Header + Codegen.GenExpr(e).value + [Ret];
      (Run(prog, s).Some? <==> Evaluate(e).Some?) &&
      (Run(prog, s).Some? ==> Run(prog, s).value.rax == Evaluate(e).value && Run(prog, s).value.rsp == s.rsp + 8)
  {
    var src := Printer.Print(e);
    Printer.WrapLexable(e, 1);
    LayoutNoIdent(Printer.Unparse(e));
    OldScanAgrees(src, 0);
    RoundTrip.ReadBack(e);
    PrintablePure(e);
    OldGenAgrees(e);
    MainRuns(e, Codegen.GenExpr(e).value, s);
  }
}
