/** The parser of parse.c as it runs: each production advances the cursor
    through the token list, and each binary level is a `for (;;)` loop that
    rebuilds its node one operator at a time. Every method is proved to
    return what the corresponding function of `Grammar` describes. Where the
    C code calls error_at and exits, the method returns the error. */
module Parse {
  import opened Errors
  import opened Tokenize
  import opened Ast
  import G = Grammar

  method Expr(src: string, toks: seq<Token>, pos: nat) returns (r: Result<G.Parsed>)
    requires G.ValidStream(src, toks) && pos < |toks|
    ensures r == G.Expr(src, toks, pos)
    decreases |toks| - pos, 6
  {
    r := Equality(src, toks, pos);
  }

  method Equality(src: string, toks: seq<Token>, pos: nat) returns (r: Result<G.Parsed>)
    requires G.ValidStream(src, toks) && pos < |toks|
    ensures r == G.Equality(src, toks, pos)
    decreases |toks| - pos, 5
  {
    var first := Relational(src, toks, pos);
    if first.Err? {
      return Err(first.error);
    }
    var node := first.value.node;
    var p := first.value.pos;
    while true
      invariant pos < p < |toks|
      invariant G.EqualityRest(src, toks, node, p) == G.Equality(src, toks, pos)
      decreases |toks| - p
    {
      if !(IsTokenPunct(src, toks[p], "==") || IsTokenPunct(src, toks[p], "!=")) {
        return Ok(G.Parsed(node, p));
      }
      var operand := Relational(src, toks, p + 1);
      if operand.Err? {
        return Err(operand.error);
      }
      if IsTokenPunct(src, toks[p], "==") {
        node := Binary(Eq, node, operand.value.node);
      } else {
        node := Binary(Ne, node, operand.value.node);
      }
      p := operand.value.pos;
    }
  }

  method Relational(src: string, toks: seq<Token>, pos: nat) returns (r: Result<G.Parsed>)
    requires G.ValidStream(src, toks) && pos < |toks|
    ensures r == G.Relational(src, toks, pos)
    decreases |toks| - pos, 4
  {
    var first := Add(src, toks, pos);
    if first.Err? {
      return Err(first.error);
    }
    var node := first.value.node;
    var p := first.value.pos;
    while true
      invariant pos < p < |toks|
      invariant G.RelationalRest(src, toks, node, p) == G.Relational(src, toks, pos)
      decreases |toks| - p
    {
      if !(IsTokenPunct(src, toks[p], "<") ||
           IsTokenPunct(src, toks[p], "<=") ||
           IsTokenPunct(src, toks[p], ">") ||
           IsTokenPunct(src, toks[p], ">=")) {
        return Ok(G.Parsed(node, p));
      }
      var operand := Add(src, toks, p + 1);
      if operand.Err? {
        return Err(operand.error);
      }
      if IsTokenPunct(src, toks[p], "<") {
        node := Binary(Lt, node, operand.value.node);
      } else if IsTokenPunct(src, toks[p], "<=") {
        node := Binary(Le, node, operand.value.node);
      } else if IsTokenPunct(src, toks[p], ">") {
        node := Binary(Lt, operand.value.node, node);
      } else {
        node := Binary(Le, operand.value.node, node);
      }
      p := operand.value.pos;
    }
  }

  method Add(src: string, toks: seq<Token>, pos: nat) returns (r: Result<G.Parsed>)
    requires G.ValidStream(src, toks) && pos < |toks|
    ensures r == G.Add(src, toks, pos)
    decreases |toks| - pos, 3
  {
    var first := Mul(src, toks, pos);
    if first.Err? {
      return Err(first.error);
    }
    var node := first.value.node;
    var p := first.value.pos;
    while true
      invariant pos < p < |toks|
      invariant G.AddRest(src, toks, node, p) == G.Add(src, toks, pos)
      decreases |toks| - p
    {
      if !(IsTokenPunct(src, toks[p], "+") || IsTokenPunct(src, toks[p], "-")) {
        return Ok(G.Parsed(node, p));
      }
      var operand := Mul(src, toks, p + 1);
      if operand.Err? {
        return Err(operand.error);
      }
      if IsTokenPunct(src, toks[p], "+") {
        node := Binary(Ast.Add, node, operand.value.node);
      } else {
        node := Binary(Sub, node, operand.value.node);
      }
      p := operand.value.pos;
    }
  }

  method Mul(src: string, toks: seq<Token>, pos: nat) returns (r: Result<G.Parsed>)
    requires G.ValidStream(src, toks) && pos < |toks|
    ensures r == G.Mul(src, toks, pos)
    decreases |toks| - pos, 2
  {
    var first := Unary(src, toks, pos);
    if first.Err? {
      return Err(first.error);
    }
    var node := first.value.node;
    var p := first.value.pos;
    while true
      invariant pos < p < |toks|
      invariant G.MulRest(src, toks, node, p) == G.Mul(src, toks, pos)
      decreases |toks| - p
    {
      if !(IsTokenPunct(src, toks[p], "*") || IsTokenPunct(src, toks[p], "/")) {
        return Ok(G.Parsed(node, p));
      }
      var operand := Unary(src, toks, p + 1);
      if operand.Err? {
        return Err(operand.error);
      }
      if IsTokenPunct(src, toks[p], "*") {
        node := Binary(Ast.Mul, node, operand.value.node);
      } else {
        node := Binary(Div, node, operand.value.node);
      }
      p := operand.value.pos;
    }
  }

  method Unary(src: string, toks: seq<Token>, pos: nat) returns (r: Result<G.Parsed>)
    requires G.ValidStream(src, toks) && pos < |toks|
    ensures r == G.Unary(src, toks, pos)
    decreases |toks| - pos, 1
  {
    if IsTokenPunct(src, toks[pos], "+") {
      r := Unary(src, toks, pos + 1);
      return;
    }

    if IsTokenPunct(src, toks[pos], "-") {
      var operand := Unary(src, toks, pos + 1);
      if operand.Err? {
        return Err(operand.error);
      }
      return Ok(G.Parsed(Neg(operand.value.node), operand.value.pos));
    }

    r := Primary(src, toks, pos);
  }

  method Primary(src: string, toks: seq<Token>, pos: nat) returns (r: Result<G.Parsed>)
    requires G.ValidStream(src, toks) && pos < |toks|
    ensures r == G.Primary(src, toks, pos)
    decreases |toks| - pos, 0
  {
    if IsTokenPunct(src, toks[pos], "(") {
      var inner := Expr(src, toks, pos + 1);
      if inner.Err? {
        return Err(inner.error);
      }
      var p := inner.value.pos;
      if !IsTokenPunct(src, toks[p], ")") {
        return Err(ExpectedToken(")", toks[p].loc));
      }
      return Ok(G.Parsed(inner.value.node, p + 1));
    }

    if IsTokenNumber(toks[pos]) {
      return Ok(G.Parsed(Num(toks[pos].val), pos + 1));
    }

    return Err(ExpectedExpression(toks[pos].loc));
  }

  /** parse(tok) */
  method Parse(src: string, toks: seq<Token>) returns (r: Result<Node>)
    requires G.ValidStream(src, toks)
    ensures r == G.Parse(src, toks)
  {
    var e := Expr(src, toks, 0);
    if e.Err? {
      return Err(e.error);
    }
    var p := e.value.pos;
    if toks[p].kind != EndOfFile {
      return Err(ExtraToken(toks[p].loc));
    }
    return Ok(e.value.node);
  }
}
