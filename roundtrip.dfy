/** The parser of parse.c reads back what Unparse prints: for every printable
    tree `e`, the tokens of the text Print(e) parse to `e` itself, with the
    precedence and left associativity the grammar's loops give. The proof
    goes level by level: `Level(k, ..)` is the production of level `k`
    (1 equality .. 4 mul, 5 unary, 6 primary) and `Rest(k, ..)` the loop of a
    binary level. */
module RoundTrip {
  import opened Errors
  import opened Tokenize
  import opened Ast
  import opened Lexemes
  import opened Printer
  import TokenizeFacts
  import G = Grammar

  function Level(src: string, toks: seq<Token>, k: nat, pos: nat): (r: Result<G.Parsed>)
    requires G.ValidStream(src, toks) && pos < |toks| && 1 <= k <= 6
    ensures G.Production(toks, pos, r)
  {
    if k == 1 then G.Equality(src, toks, pos)
    else if k == 2 then G.Relational(src, toks, pos)
    else if k == 3 then G.Add(src, toks, pos)
    else if k == 4 then G.Mul(src, toks, pos)
    else if k == 5 then G.Unary(src, toks, pos)
    else G.Primary(src, toks, pos)
  }

  function Rest(src: string, toks: seq<Token>, k: nat, node: Node, pos: nat): (r: Result<G.Parsed>)
    requires G.ValidStream(src, toks) && pos < |toks| && 1 <= k <= 4
    ensures G.Continuation(toks, node, pos, r)
  {
    if k == 1 then G.EqualityRest(src, toks, node, pos)
    else if k == 2 then G.RelationalRest(src, toks, node, pos)
    else if k == 3 then G.AddRest(src, toks, node, pos)
    else G.MulRest(src, toks, node, pos)
  }

  /** The token at `i` continues no binary level from `k` up: it is none of
      the operators of levels `k` .. 4. */
  predicate NoOpAt(src: string, toks: seq<Token>, i: nat, k: nat)
    requires G.ValidStream(src, toks)
  {
    && i < |toks|
    && (k <= 1 ==> !G.At(src, toks, i, "==") && !G.At(src, toks, i, "!="))
    && (k <= 2 ==> !G.At(src, toks, i, "<") && !G.At(src, toks, i, "<=")
                   && !G.At(src, toks, i, ">") && !G.At(src, toks, i, ">="))
    && (k <= 3 ==> !G.At(src, toks, i, "+") && !G.At(src, toks, i, "-"))
    && (k <= 4 ==> !G.At(src, toks, i, "*") && !G.At(src, toks, i, "/"))
  }

  /** A binary level reads its first operand one level up, then loops. */
  lemma LevelSplit(src: string, toks: seq<Token>, k: nat, pos: nat)
    requires G.ValidStream(src, toks) && pos < |toks| && 1 <= k <= 4
    ensures Level(src, toks, k, pos) ==
      match Level(src, toks, k + 1, pos)
      case Ok(first) => Rest(src, toks, k, first.node, first.pos)
      case Err(e) => Err(e)
  {
  }

  /** At an operator of level `k` the loop reads the right operand one level
      up and goes on with the combined node. */
  lemma RestStep(src: string, toks: seq<Token>, k: nat, node: Node, pos: nat, op: BinOp)
    requires G.ValidStream(src, toks) && pos < |toks| && OpPrec(op) == k
    requires Matches(src, toks[pos], LPunct(Sym(op)))
    ensures pos + 1 < |toks|
    ensures Rest(src, toks, k, node, pos) ==
      match Level(src, toks, k + 1, pos + 1)
      case Ok(rhs) => Rest(src, toks, k, Binary(op, node, rhs.node), rhs.pos)
      case Err(e) => Err(e)
  {
    assert toks[pos].kind != EndOfFile;
  }

  /** Where no operator of its level follows, the loop stops. */
  lemma RestStop(src: string, toks: seq<Token>, k: nat, node: Node, pos: nat)
    requires G.ValidStream(src, toks) && 1 <= k <= 4 && NoOpAt(src, toks, pos, k)
    ensures Rest(src, toks, k, node, pos) == Ok(G.Parsed(node, pos))
  {
  }

  /** An operator of level `k` continues no level above `k`. */
  lemma OpNoOpAbove(src: string, toks: seq<Token>, i: nat, op: BinOp)
    requires G.ValidStream(src, toks) && i < |toks| && Matches(src, toks[i], LPunct(Sym(op)))
    ensures NoOpAt(src, toks, i, OpPrec(op) + 1)
  {
  }

  lemma CloseNoOp(src: string, toks: seq<Token>, i: nat)
    requires G.ValidStream(src, toks) && i < |toks| && Matches(src, toks[i], LPunct(")"))
    ensures NoOpAt(src, toks, i, 1)
  {
  }

  lemma EofNoOp(src: string, toks: seq<Token>, i: nat)
    requires G.ValidStream(src, toks) && i < |toks| && toks[i].kind == EndOfFile
    ensures NoOpAt(src, toks, i, 1)
  {
  }

  lemma {:induction false} ShowsSplit(src: string, toks: seq<Token>, pos: nat, a: seq<Lexeme>, b: seq<Lexeme>)
    requires Shows(src, toks, pos, a + b)
    ensures Shows(src, toks, pos, a) && Shows(src, toks, pos + |a|, b)
    decreases a
  {
    if a == [] {
      assert a + b == b;
    } else {
      assert (a + b)[0] == a[0];
      assert (a + b)[1..] == a[1..] + b;
      ShowsSplit(src, toks, pos + 1, a[1..], b);
    }
  }

  /** The tokens of `a`, then of the lexeme `x` at `mid`, then of `b`. */
  lemma ShowsSplit3(src: string, toks: seq<Token>, pos: nat, a: seq<Lexeme>, x: Lexeme, b: seq<Lexeme>, mid: nat)
    requires Shows(src, toks, pos, a + [x] + b) && mid == pos + |a|
    ensures Shows(src, toks, pos, a)
    ensures mid < |toks| && Matches(src, toks[mid], x)
    ensures Shows(src, toks, mid + 1, b)
  {
    ShowsSplit(src, toks, pos, a + [x], b);
    ShowsSplit(src, toks, pos, a, [x]);
    ShowsOne(src, toks, mid, x);
  }

  lemma ShowsOne(src: string, toks: seq<Token>, pos: nat, x: Lexeme)
    requires Shows(src, toks, pos, [x])
    ensures pos + 1 < |toks| && Matches(src, toks[pos], x)
  {
    assert [x][1..] == [];
  }

  /** The tokens of a parenthesised list: the opening parenthesis and the
      list inside. */
  lemma ShowsParenOpen(src: string, toks: seq<Token>, pos: nat, u: seq<Lexeme>)
    requires Shows(src, toks, pos, [LPunct("(")] + u + [LPunct(")")])
    ensures Matches(src, toks[pos], LPunct("("))
    ensures Shows(src, toks, pos + 1, u)
  {
    var open := [LPunct("(")];
    ShowsSplit(src, toks, pos, open + u, [LPunct(")")]);
    ShowsSplit(src, toks, pos, open, u);
    ShowsOne(src, toks, pos, LPunct("("));
  }

  /** The closing parenthesis of a parenthesised list. */
  lemma ShowsParenClose(src: string, toks: seq<Token>, pos: nat, u: seq<Lexeme>, close: nat)
    requires Shows(src, toks, pos, [LPunct("(")] + u + [LPunct(")")]) && close == pos + 1 + |u|
    ensures close < |toks| && Matches(src, toks[close], LPunct(")"))
  {
    var open := [LPunct("(")];
    ShowsSplit(src, toks, pos, open + u, [LPunct(")")]);
    assert pos + |open + u| == close;
    ShowsOne(src, toks, close, LPunct(")"));
  }

  /** A number token is a primary of its own. */
  lemma PrimaryNumber(src: string, toks: seq<Token>, pos: nat, v: nat, end: nat)
    requires G.ValidStream(src, toks) && pos < |toks| && Matches(src, toks[pos], LNum(v)) && end == pos + 1
    ensures end < |toks|
    ensures Level(src, toks, 6, pos) == Ok(G.Parsed(Num(v), end))
  {
    assert toks[pos].kind != EndOfFile;
  }

  /** "(" expr ")" is a primary. */
  lemma PrimaryParen(src: string, toks: seq<Token>, pos: nat, e: Node, close: nat, end: nat)
    requires G.ValidStream(src, toks) && pos + 1 < |toks| && Matches(src, toks[pos], LPunct("("))
    requires Level(src, toks, 1, pos + 1) == Ok(G.Parsed(e, close))
    requires close < |toks| && Matches(src, toks[close], LPunct(")")) && end == close + 1
    ensures Level(src, toks, 6, pos) == Ok(G.Parsed(e, end))
  {
    assert G.At(src, toks, pos, "(");
    assert G.Expr(src, toks, pos + 1) == Ok(G.Parsed(e, close));
    assert G.At(src, toks, close, ")");
  }

  /** "-" unary is a negation. */
  lemma UnaryMinus(src: string, toks: seq<Token>, pos: nat, x: Node, end: nat)
    requires G.ValidStream(src, toks) && pos + 1 < |toks| && Matches(src, toks[pos], LPunct("-"))
    requires Level(src, toks, 5, pos + 1) == Ok(G.Parsed(x, end))
    ensures Level(src, toks, 5, pos) == Ok(G.Parsed(Neg(x), end))
  {
    assert !G.At(src, toks, pos, "+");
    assert G.At(src, toks, pos, "-");
    assert G.Unary(src, toks, pos + 1) == Ok(G.Parsed(x, end));
  }

  /** A number or "(" starts a primary, which unary passes on. */
  lemma UnaryPrimary(src: string, toks: seq<Token>, pos: nat, l: Lexeme)
    requires G.ValidStream(src, toks) && pos < |toks| && Matches(src, toks[pos], l)
    requires l.LNum? || l == LPunct("(")
    ensures Level(src, toks, 5, pos) == Level(src, toks, 6, pos)
  {
  }

  /** How far a printed tree's level is from `k`, so that reading it one
      level up brings the proof closer to the level where it is read without
      parentheses; past 6 it wraps round to level 1 inside parentheses. */
  function Distance(k: nat, e: Node): nat
    requires 1 <= k <= 6
  {
    if Prec(e) < k then 13 - k else Prec(e) - k
  }

  /** Level `k` reads the tokens of `w` = Wrap(e, k), followed by a token
      that continues no level from `k` up, as `e`. */
  lemma {:induction false} ReadsLevel(src: string, toks: seq<Token>, k: nat, e: Node, w: seq<Lexeme>, pos: nat, end: nat)
    requires G.ValidStream(src, toks) && 1 <= k <= 6 && Printable(e) && w == Wrap(e, k)
    requires Shows(src, toks, pos, w) && end == pos + |w| && NoOpAt(src, toks, end, k)
    ensures Level(src, toks, k, pos) == Ok(G.Parsed(e, end))
    decreases e, Distance(k, e), 2
  {
    if k <= 4 {
      LevelSplit(src, toks, k, pos);
      ReadsOperand(src, toks, k, e, w, pos, end);
      RestStop(src, toks, k, e, end);
    } else if k == 5 {
      ReadsUnary(src, toks, e, w, pos, end);
    } else {
      ReadsPrimary(src, toks, e, w, pos, end);
    }
  }

  /** The first operand of a binary level: level `k + 1` reads the tokens of
      `w` = Wrap(e, k) so that the loop of level `k` goes on as it would after
      `e` itself. */
  lemma {:induction false} ReadsOperand(src: string, toks: seq<Token>, k: nat, e: Node, w: seq<Lexeme>, pos: nat, end: nat)
    requires G.ValidStream(src, toks) && 1 <= k <= 4 && Printable(e) && w == Wrap(e, k)
    requires Shows(src, toks, pos, w) && end == pos + |w| && NoOpAt(src, toks, end, k + 1)
    ensures Level(src, toks, k + 1, pos).Ok?
    ensures var first := Level(src, toks, k + 1, pos).value;
      Rest(src, toks, k, first.node, first.pos) == Rest(src, toks, k, e, end)
    decreases e, Distance(k, e), 0
  {
    if Prec(e) != k {
      assert w == Wrap(e, k + 1);
      ReadsLevel(src, toks, k + 1, e, w, pos, end);
    } else {
      var Binary(op, l, r) := e;
      var o := LPunct(Sym(op));
      var wl := Wrap(l, k);
      var wr := Wrap(r, k + 1);
      var mid := pos + |wl|;
      assert w == wl + [o] + wr;
      ShowsSplit3(src, toks, pos, wl, o, wr, mid);
      ReadsLevel(src, toks, k + 1, r, wr, mid + 1, end);
      OpNoOpAbove(src, toks, mid, op);
      ReadsOperand(src, toks, k, l, wl, pos, mid);
      RestStep(src, toks, k, l, mid, op);
    }
  }

  /** Level 5 reads a negation, or passes a primary on to level 6. */
  lemma {:induction false} ReadsUnary(src: string, toks: seq<Token>, e: Node, w: seq<Lexeme>, pos: nat, end: nat)
    requires G.ValidStream(src, toks) && Printable(e) && w == Wrap(e, 5)
    requires Shows(src, toks, pos, w) && end == pos + |w| && NoOpAt(src, toks, end, 5)
    ensures Level(src, toks, 5, pos) == Ok(G.Parsed(e, end))
    decreases e, Distance(5, e), 1
  {
    if e.Neg? {
      var x := e.lhs;
      var wx := Wrap(x, 5);
      assert w == [LPunct("-")] + wx;
      ShowsSplit(src, toks, pos, [LPunct("-")], wx);
      ShowsOne(src, toks, pos, LPunct("-"));
      ReadsLevel(src, toks, 5, x, wx, pos + 1, end);
      UnaryMinus(src, toks, pos, x, end);
    } else {
      assert w == Wrap(e, 6);
      ShowsSplit(src, toks, pos, [w[0]], w[1..]);
      ShowsOne(src, toks, pos, w[0]);
      UnaryPrimary(src, toks, pos, w[0]);
      ReadsLevel(src, toks, 6, e, w, pos, end);
    }
  }

  /** Level 6 reads a number, or a parenthesised tree through `expr`. */
  lemma {:induction false} ReadsPrimary(src: string, toks: seq<Token>, e: Node, w: seq<Lexeme>, pos: nat, end: nat)
    requires G.ValidStream(src, toks) && Printable(e) && w == Wrap(e, 6)
    requires Shows(src, toks, pos, w) && end == pos + |w| && NoOpAt(src, toks, end, 6)
    ensures Level(src, toks, 6, pos) == Ok(G.Parsed(e, end))
    decreases e, Distance(6, e), 1
  {
    if e.Num? {
      assert w == [LNum(e.val)];
      ShowsOne(src, toks, pos, LNum(e.val));
      PrimaryNumber(src, toks, pos, e.val, end);
    } else {
      var u := Unparse(e);
      var close := pos + 1 + |u|;
      assert w == [LPunct("(")] + u + [LPunct(")")];
      assert u == Wrap(e, 1);
      ShowsParenOpen(src, toks, pos, u);
      ShowsParenClose(src, toks, pos, u, close);
      CloseNoOp(src, toks, close);
      ReadsLevel(src, toks, 1, e, u, pos + 1, close);
      PrimaryParen(src, toks, pos, e, close, end);
    }
  }

  /** parse reads the tokens of a printed tree, followed by end-of-file, as
      the tree itself. */
  lemma ParseUnparse(src: string, toks: seq<Token>, e: Node)
    requires G.ValidStream(src, toks) && Printable(e)
    requires Shows(src, toks, 0, Unparse(e))
    requires |Unparse(e)| < |toks| && toks[|Unparse(e)|].kind == EndOfFile
    ensures G.Parse(src, toks) == Ok(e)
  {
    var u := Unparse(e);
    assert u == Wrap(e, 1);
    EofNoOp(src, toks, |u|);
    ReadsLevel(src, toks, 1, e, u, 0, |u|);
  }

  /** A successful scan is a token list the parser accepts. */
  lemma LexedStreamValid(src: string)
    requires Lex(src).Ok?
    ensures G.ValidStream(src, Lex(src).value)
  {
    TokenizeFacts.ScanEndsInEof(src, 0);
    TokenizeFacts.ScanOrdered(src, 0);
  }

  /** The whole front end reads back a printed tree: tokenize succeeds on
      Print(e) and parse builds `e` from its tokens. */
  lemma ReadBack(e: Node)
    requires Printable(e)
    ensures Lex(Print(e)).Ok?
    ensures G.ValidStream(Print(e), Lex(Print(e)).value)
    ensures G.Parse(Print(e), Lex(Print(e)).value) == Ok(e)
  {
    var src := Print(e);
    WrapLexable(e, 1);
    LexLayout(Unparse(e));
    LexedStreamValid(src);
    ParseUnparse(src, Lex(src).value, e);
  }

  /** A unary "+" is skipped at every level of the grammar. */
  lemma {:induction false} PlusSkipped(src: string, toks: seq<Token>, k: nat, pos: nat)
    requires G.ValidStream(src, toks) && pos < |toks| && 1 <= k <= 5
    requires Matches(src, toks[pos], LPunct("+"))
    ensures pos + 1 < |toks| && Level(src, toks, k, pos) == Level(src, toks, k, pos + 1)
    decreases 5 - k
  {
    assert toks[pos].kind != EndOfFile;
    if k <= 4 {
      PlusSkipped(src, toks, k + 1, pos);
      LevelSplit(src, toks, k, pos);
      LevelSplit(src, toks, k, pos + 1);
    } else {
      assert G.At(src, toks, pos, "+");
    }
  }

  /** "+" in front of a printed tree does not change what parse builds. */
  lemma ParseUnaryPlus(src: string, toks: seq<Token>, e: Node)
    requires G.ValidStream(src, toks) && Printable(e)
    requires Shows(src, toks, 0, [LPunct("+")] + Unparse(e))
    requires 1 + |Unparse(e)| < |toks| && toks[1 + |Unparse(e)|].kind == EndOfFile
    ensures G.Parse(src, toks) == Ok(e)
  {
    var u := Unparse(e);
    var end := 1 + |u|;
    assert u == Wrap(e, 1);
    ShowsSplit(src, toks, 0, [LPunct("+")], u);
    ShowsOne(src, toks, 0, LPunct("+"));
    EofNoOp(src, toks, end);
    ReadsLevel(src, toks, 1, e, u, 1, end);
    PlusSkipped(src, toks, 1, 0);
  }

  /** A failing primary, at a token that is not a unary operator, fails every
      level above it with the same error. */
  lemma {:induction false} ErrorRises(src: string, toks: seq<Token>, k: nat, pos: nat)
    requires G.ValidStream(src, toks) && pos < |toks| && 1 <= k <= 6
    requires !G.At(src, toks, pos, "+") && !G.At(src, toks, pos, "-")
    requires Level(src, toks, 6, pos).Err?
    ensures Level(src, toks, k, pos) == Level(src, toks, 6, pos)
    decreases 6 - k
  {
    if k <= 4 {
      ErrorRises(src, toks, k + 1, pos);
      LevelSplit(src, toks, k, pos);
    }
  }

  /** parse of a source without tokens: "expected an expression" at its end. */
  lemma ParseNothing(src: string, toks: seq<Token>)
    requires toks == [Token(EndOfFile, 0, |src|, 0)]
    ensures G.ValidStream(src, toks)
    ensures G.Parse(src, toks) == Err(ExpectedExpression(|src|))
  {
    assert Level(src, toks, 6, 0) == Err(ExpectedExpression(|src|));
    ErrorRises(src, toks, 1, 0);
  }

  /** A "(" whose expression runs into the end of the input: parse reports
      the missing ")" at the end of the source. */
  lemma ParseUnclosed(src: string, toks: seq<Token>, e: Node)
    requires G.ValidStream(src, toks) && Printable(e)
    requires Shows(src, toks, 0, [LPunct("(")] + Unparse(e))
    requires 1 + |Unparse(e)| < |toks| && toks[1 + |Unparse(e)|] == Token(EndOfFile, 0, |src|, 0)
    ensures G.Parse(src, toks) == Err(ExpectedToken(")", |src|))
  {
    var u := Unparse(e);
    var end := 1 + |u|;
    EofNoOp(src, toks, end);
    assert u == Wrap(e, 1);
    ShowsSplit(src, toks, 0, [LPunct("(")], u);
    ShowsOne(src, toks, 0, LPunct("("));
    ReadsLevel(src, toks, 1, e, u, 1, end);
    assert G.Expr(src, toks, 1) == Ok(G.Parsed(e, end));
    assert !G.At(src, toks, end, ")");
    assert Level(src, toks, 6, 0) == Err(ExpectedToken(")", |src|));
    ErrorRises(src, toks, 1, 0);
  }

  /** A printed tree followed by a stray ")": parse reports the extra token. */
  lemma ParseTrailing(src: string, toks: seq<Token>, e: Node)
    requires G.ValidStream(src, toks) && Printable(e)
    requires Shows(src, toks, 0, Unparse(e) + [LPunct(")")]) && |Unparse(e)| < |toks|
    ensures G.Parse(src, toks) == Err(ExtraToken(toks[|Unparse(e)|].loc))
  {
    var u := Unparse(e);
    var end := |u|;
    assert u == Wrap(e, 1);
    ShowsSplit(src, toks, 0, u, [LPunct(")")]);
    ShowsOne(src, toks, end, LPunct(")"));
    CloseNoOp(src, toks, end);
    ReadsLevel(src, toks, 1, e, u, 0, end);
  }

  /** ">" and ">=" have no node kind of their own: the relational loop builds
      "<" and "<=" with the operands swapped. */
  lemma RestGreater(src: string, toks: seq<Token>, node: Node, pos: nat, strict: bool)
    requires G.ValidStream(src, toks) && pos < |toks|
    requires Matches(src, toks[pos], LPunct(if strict then ">" else ">="))
    ensures pos + 1 < |toks|
    ensures Rest(src, toks, 2, node, pos) ==
      match Level(src, toks, 3, pos + 1)
      case Ok(lhs) => Rest(src, toks, 2, Binary(if strict then Lt else Le, lhs.node, node), lhs.pos)
      case Err(e) => Err(e)
  {
    assert toks[pos].kind != EndOfFile;
  }

  lemma GreaterNoOp(src: string, toks: seq<Token>, i: nat, strict: bool)
    requires G.ValidStream(src, toks) && i < |toks|
    requires Matches(src, toks[i], LPunct(if strict then ">" else ">="))
    ensures NoOpAt(src, toks, i, 3)
  {
  }

  /** `a > b` parses as `b < a`, and `a >= b` as `b <= a`. */
  lemma ParseGreater(src: string, toks: seq<Token>, a: Node, b: Node, strict: bool)
    requires G.ValidStream(src, toks) && Printable(a) && Printable(b)
    requires Shows(src, toks, 0, Wrap(a, 3) + [LPunct(if strict then ">" else ">=")] + Wrap(b, 3))
    requires |Wrap(a, 3)| + 1 + |Wrap(b, 3)| < |toks|
    requires toks[|Wrap(a, 3)| + 1 + |Wrap(b, 3)|].kind == EndOfFile
    ensures G.Parse(src, toks) == Ok(Binary(if strict then Lt else Le, b, a))
  {
    var end := |Wrap(a, 3)| + 1 + |Wrap(b, 3)|;
    var n := Binary(if strict then Lt else Le, b, a);
    EofNoOp(src, toks, end);
    RelationalGreater(src, toks, a, b, strict, end);
    LevelSplit(src, toks, 1, 0);
    RestStop(src, toks, 1, n, end);
  }

  /** The relational level alone reads `a > b` (or `a >= b`) up to `end`. */
  lemma RelationalGreater(src: string, toks: seq<Token>, a: Node, b: Node, strict: bool, end: nat)
    requires G.ValidStream(src, toks) && Printable(a) && Printable(b)
    requires Shows(src, toks, 0, Wrap(a, 3) + [LPunct(if strict then ">" else ">=")] + Wrap(b, 3))
    requires end == |Wrap(a, 3)| + 1 + |Wrap(b, 3)| && end < |toks| && NoOpAt(src, toks, end, 1)
    ensures Level(src, toks, 2, 0) == Ok(G.Parsed(Binary(if strict then Lt else Le, b, a), end))
  {
    var wa, wb := Wrap(a, 3), Wrap(b, 3);
    var g := LPunct(if strict then ">" else ">=");
    var mid := |wa|;
    var n := Binary(if strict then Lt else Le, b, a);
    ShowsSplit3(src, toks, 0, wa, g, wb, mid);
    GreaterNoOp(src, toks, mid, strict);
    ReadsLevel(src, toks, 3, a, wa, 0, mid);
    ReadsLevel(src, toks, 3, b, wb, mid + 1, end);
    RestGreater(src, toks, a, mid, strict);
    RestStop(src, toks, 2, n, end);
    LevelSplit(src, toks, 2, 0);
  }


  /** `1 + 2 * 3` (the lexemes laid out with single spaces):
      multiplication binds tighter than addition. */
  lemma PrecedenceExample(src: string)
    requires src == Layout([LNum(1), LPunct("+"), LNum(2), LPunct("*"), LNum(3)])
    ensures Lex(src).Ok? && G.ValidStream(src, Lex(src).value)
    ensures G.Parse(src, Lex(src).value) == Ok(Binary(Add, Num(1), Binary(Mul, Num(2), Num(3))))
  {
    var e := Binary(Add, Num(1), Binary(Mul, Num(2), Num(3)));
    assert Unparse(e) == [LNum(1), LPunct("+"), LNum(2), LPunct("*"), LNum(3)];
    ReadBack(e);
  }

  /** `1 - 2 - 3` groups to the left. */
  lemma LeftAssociativeExample(src: string)
    requires src == Layout([LNum(1), LPunct("-"), LNum(2), LPunct("-"), LNum(3)])
    ensures Lex(src).Ok? && G.ValidStream(src, Lex(src).value)
    ensures G.Parse(src, Lex(src).value) == Ok(Binary(Sub, Binary(Sub, Num(1), Num(2)), Num(3)))
  {
    var e := Binary(Sub, Binary(Sub, Num(1), Num(2)), Num(3));
    assert Unparse(e) == [LNum(1), LPunct("-"), LNum(2), LPunct("-"), LNum(3)];
    ReadBack(e);
  }

  /** `1 - ( 2 - 3 )`: parentheses group to the right. */
  lemma ParenthesesExample(src: string)
    requires src == Layout([LNum(1), LPunct("-"), LPunct("("), LNum(2), LPunct("-"), LNum(3), LPunct(")")])
    ensures Lex(src).Ok? && G.ValidStream(src, Lex(src).value)
    ensures G.Parse(src, Lex(src).value) == Ok(Binary(Sub, Num(1), Binary(Sub, Num(2), Num(3))))
  {
    ParenthesesPrinted();
    ReadBack(Binary(Sub, Num(1), Binary(Sub, Num(2), Num(3))));
  }

  /** The printer brackets a right operand of the same precedence. */
  lemma ParenthesesPrinted()
    ensures Unparse(Binary(Sub, Num(1), Binary(Sub, Num(2), Num(3))))
         == [LNum(1), LPunct("-"), LPunct("("), LNum(2), LPunct("-"), LNum(3), LPunct(")")]
  {
    assert Unparse(Binary(Sub, Num(2), Num(3))) == [LNum(2), LPunct("-"), LNum(3)];
  }
}
