/** The lexer of tokenize.c: one left-to-right scan of the source buffer that
    produces the token list, ending in a single end-of-file token.

    The source buffer is the NUL-terminated string `src`; here it is the
    sequence of characters before the terminator, and positions are offsets
    into it. A token's `loc` pointer into the buffer becomes the offset `loc`. */
module Tokenize {
  import opened CType
  import opened Decimal
  import opened Errors

  datatype TokenKind = Identifier | Punctuator | Number | EndOfFile

  /** `val` is only meaningful for Number tokens; calloc leaves it 0 otherwise. */
  datatype Token = Token(kind: TokenKind, val: int, loc: nat, len: nat)

  predicate InBounds(src: string, tok: Token) {
    tok.loc + tok.len <= |src|
  }

  predicate AllInBounds(src: string, toks: seq<Token>) {
    forall i :: 0 <= i < |toks| ==> InBounds(src, toks[i])
  }

  lemma InBoundsCons(src: string, t: Token, rest: seq<Token>)
    requires InBounds(src, t) && AllInBounds(src, rest)
    ensures AllInBounds(src, [t] + rest)
  {
    var ts := [t] + rest;
    forall i | 0 <= i < |ts|
      ensures InBounds(src, ts[i])
    {
      if i > 0 {
        assert ts[i] == rest[i - 1];
      }
    }
  }

  /** The list ends in exactly one end-of-file token, located at the end of
      the input with length 0. */
  predicate EndsInEof(src: string, toks: seq<Token>) {
    && |toks| > 0
    && toks[|toks| - 1] == Token(EndOfFile, 0, |src|, 0)
    && forall i :: 0 <= i < |toks| - 1 ==> toks[i].kind != EndOfFile
  }

  lemma EofCons(src: string, t: Token, rest: seq<Token>)
    requires t.kind != EndOfFile && EndsInEof(src, rest)
    ensures EndsInEof(src, [t] + rest)
  {
    var ts := [t] + rest;
    forall i | 0 <= i < |ts| - 1
      ensures ts[i].kind != EndOfFile
    {
      if i > 0 {
        assert ts[i] == rest[i - 1];
      }
    }
  }

  /** The characters of the source a token spans. */
  function Text(src: string, tok: Token): string
    requires InBounds(src, tok)
  {
    src[tok.loc..tok.loc + tok.len]
  }

  /** startswith(p, q): strncmp(p, q, strlen(q)) == 0, compared character by
      character; the terminator of a shorter `p` never matches a character of `q`. */
  function StartsWith(p: string, q: string): (r: bool)
    ensures r <==> q <= p
  {
    if q == [] then true
    else if p == [] then false
    else p[0] == q[0] && StartsWith(p[1..], q[1..])
  }

  /** `a` followed by `b` is one of the punctuators "==", "!=", "<=", ">=". */
  predicate IsTwoCharPunct(a: char, b: char) {
    (a == '=' || a == '!' || a == '<' || a == '>') && b == '='
  }

  /** read_punct: the length of the punctuator at `p` in `src`, 0 if none.
      A two-character comparison operator wins over its first character alone. */
  function ReadPunct(src: string, p: nat): (n: nat)
    requires p <= |src|
    ensures p + n <= |src|
  {
    if p + 2 <= |src| && IsTwoCharPunct(src[p], src[p + 1]) then 2
    else if p < |src| && IsPunct(src[p]) then 1
    else 0
  }

  /** read_punct as tokenize.c writes it, with startswith against each
      two-character operator, returns the same length. */
  lemma ReadPunctByStartsWith(src: string, p: nat)
    requires p <= |src|
    ensures ReadPunct(src, p) ==
      var rest := src[p..];
      if StartsWith(rest, "==") || StartsWith(rest, "!=") || StartsWith(rest, "<=") || StartsWith(rest, ">=") then 2
      else if |rest| > 0 && IsPunct(rest[0]) then 1
      else 0
  {
    var rest := src[p..];
    assert |rest| >= 2 ==> rest[0] == src[p] && rest[1] == src[p + 1];
  }

  /** is_ident1: may start an identifier. */
  predicate IsIdent1(c: char) {
    ('a' <= c <= 'z') || ('A' <= c <= 'Z') || c == '_'
  }

  /** is_ident2: may continue an identifier. */
  predicate IsIdent2(c: char) {
    IsIdent1(c) || ('0' <= c <= '9')
  }

  /** is_token_punct(tok, s): the token is a punctuator, its first tok->len
      characters agree with `s` (memcmp) and `s` ends right there. The
      literal `s` is a C string: its terminator follows its last character. */
  predicate IsTokenPunct(src: string, tok: Token, s: string)
    requires InBounds(src, tok)
    requires '\0' !in s
    ensures IsTokenPunct(src, tok, s) <==> tok.kind == Punctuator && Text(src, tok) == s
  {
    var cs := s + ['\0'];
    tok.kind == Punctuator && tok.len <= |s| &&
    src[tok.loc..tok.loc + tok.len] == cs[..tok.len] && cs[tok.len] == '\0'
  }

  /** is_token_number */
  predicate IsTokenNumber(tok: Token) {
    tok.kind == Number
  }

  /** is_token_ident */
  predicate IsTokenIdent(tok: Token) {
    tok.kind == Identifier
  }

  /** is_token_eof */
  predicate IsTokenEof(tok: Token) {
    tok.kind == EndOfFile
  }

  /** The end of the run of digits that starts at `p` (what strtol stops at). */
  function DigitsEnd(src: string, p: nat): (q: nat)
    requires p <= |src|
    ensures p <= q <= |src|
    decreases |src| - p
  {
    if p < |src| && IsDigit(src[p]) then DigitsEnd(src, p + 1) else p
  }

  /** The run DigitsEnd finds is all digits and cannot be extended. */
  lemma {:induction false} DigitsEndRun(src: string, p: nat)
    requires p <= |src|
    ensures var q := DigitsEnd(src, p);
      (forall k :: p <= k < q ==> IsDigit(src[k])) && (q < |src| ==> !IsDigit(src[q]))
    decreases |src| - p
  {
    if p < |src| && IsDigit(src[p]) {
      DigitsEndRun(src, p + 1);
    }
  }

  /** The end of the run of identifier characters that starts at `p`. */
  function IdentEnd(src: string, p: nat): (q: nat)
    requires p <= |src|
    ensures p <= q <= |src|
    decreases |src| - p
  {
    if p < |src| && IsIdent2(src[p]) then IdentEnd(src, p + 1) else p
  }

  lemma IdentEndStep(src: string, p: nat)
    requires p < |src| && IsIdent2(src[p])
    ensures IdentEnd(src, p) == IdentEnd(src, p + 1)
  {
  }

  lemma IdentEndStop(src: string, p: nat)
    requires p <= |src| && !(p < |src| && IsIdent2(src[p]))
    ensures IdentEnd(src, p) == p
  {
  }

  /** The run IdentEnd finds is all identifier characters and cannot be extended. */
  lemma {:induction false} IdentEndRun(src: string, p: nat)
    requires p <= |src|
    ensures var q := IdentEnd(src, p);
      (forall k :: p <= k < q ==> IsIdent2(src[k])) && (q < |src| ==> !IsIdent2(src[q]))
    decreases |src| - p
  {
    if p < |src| && IsIdent2(src[p]) {
      IdentEndRun(src, p + 1);
    }
  }

  /** Puts `toks` in front of a successful result; an error stays as it is. */
  function Prepend(toks: seq<Token>, r: Result<seq<Token>>): Result<seq<Token>> {
    match r
    case Ok(rest) => Ok(toks + rest)
    case Err(e) => Err(e)
  }

  lemma PrependPrepend(a: seq<Token>, b: seq<Token>, r: Result<seq<Token>>)
    ensures Prepend(a, Prepend(b, r)) == Prepend(a + b, r)
  {
    if r.Ok? {
      assert a + (b + r.value) == (a + b) + r.value;
    }
  }

  /** What one iteration of the scanning loop does at offset `p`: skip a
      whitespace character, emit the token that starts there, or fail. */
  datatype Step = Skip | Emit(tok: Token) | Fail(error: CompileError)

  function StepAt(src: string, p: nat): (s: Step)
    requires p < |src|
    ensures s.Emit? ==> s.tok.loc == p && p < p + s.tok.len <= |src| && s.tok.kind != EndOfFile
  {
    if IsSpace(src[p]) then
      Skip
    else if IsDigit(src[p]) then
      var q := DigitsEnd(src, p);
      DigitsEndRun(src, p);
      Emit(Token(Number, Value(src[p..q]), p, q - p))
    else if IsIdent1(src[p]) then
      var q := IdentEnd(src, p + 1);
      Emit(Token(Identifier, 0, p, q - p))
    else
      var n := ReadPunct(src, p);
      if n != 0 then Emit(Token(Punctuator, 0, p, n)) else Fail(InvalidToken(p))
  }

  /** The tokens of src[p..] (with offsets into src), or the error the scan
      stops at: the specification the loop of `Tokenize` is proved against. */
  function Scan(src: string, p: nat): Result<seq<Token>>
    requires p <= |src|
    decreases |src| - p
  {
    if p == |src| then
      Ok([Token(EndOfFile, 0, p, 0)])
    else
      match StepAt(src, p)
      case Skip => Scan(src, p + 1)
      case Emit(t) => Prepend([t], Scan(src, p + t.len))
      case Fail(e) => Err(e)
  }

  /** An emitting step moves one token from the rest of the scan to the
      tokens already built. */
  lemma ScanEmits(src: string, toks: seq<Token>, p: nat, t: Token)
    requires p < |src| && StepAt(src, p) == Emit(t)
    ensures Prepend(toks, Scan(src, p)) == Prepend(toks + [t], Scan(src, p + t.len))
  {
    PrependPrepend(toks, [t], Scan(src, p + t.len));
  }

  /** The token list of the whole buffer, or the first error. */
  function Lex(src: string): Result<seq<Token>> {
    Scan(src, 0)
  }

  // One iteration of the scanning loop, for each kind of character.

  lemma StepSpace(src: string, p: nat)
    requires p < |src| && IsSpace(src[p])
    ensures Scan(src, p) == Scan(src, p + 1)
  {
  }

  lemma StepNumber(src: string, toks: seq<Token>, p: nat, val: int, q: nat)
    requires p < |src| && IsDigit(src[p]) && q == DigitsEnd(src, p) && AllDigits(src[p..q]) && val == Value(src[p..q])
    ensures Prepend(toks, Scan(src, p)) == Prepend(toks + [Token(Number, val, p, q - p)], Scan(src, q))
  {
    ScanEmits(src, toks, p, Token(Number, val, p, q - p));
  }

  lemma StepIdent(src: string, toks: seq<Token>, p: nat, q: nat)
    requires p < |src| && !IsSpace(src[p]) && !IsDigit(src[p]) && IsIdent1(src[p]) && q == IdentEnd(src, p + 1)
    ensures Prepend(toks, Scan(src, p)) == Prepend(toks + [Token(Identifier, 0, p, q - p)], Scan(src, q))
  {
    ScanEmits(src, toks, p, Token(Identifier, 0, p, q - p));
  }

  lemma StepPunct(src: string, toks: seq<Token>, p: nat)
    requires p < |src| && !IsSpace(src[p]) && !IsDigit(src[p]) && !IsIdent1(src[p])
    ensures var n := ReadPunct(src, p);
      if n != 0 then Prepend(toks, Scan(src, p)) == Prepend(toks + [Token(Punctuator, 0, p, n)], Scan(src, p + n))
      else Scan(src, p) == Err(InvalidToken(p))
  {
    var n := ReadPunct(src, p);
    if n != 0 {
      ScanEmits(src, toks, p, Token(Punctuator, 0, p, n));
    }
  }

  lemma StepEnd(src: string, toks: seq<Token>)
    ensures Prepend(toks, Scan(src, |src|)) == Ok(toks + [Token(EndOfFile, 0, |src|, 0)])
  {
  }

  /** strtol(p, &end, 10) at a digit: the value of the digit run and its end. */
  method StrToL(src: string, p: nat) returns (val: nat, q: nat)
    requires p < |src| && IsDigit(src[p])
    ensures q == DigitsEnd(src, p) && p < q
    ensures AllDigits(src[p..q]) && val == Value(src[p..q])
  {
    ghost var stop := DigitsEnd(src, p);
    q := p;
    val := 0;
    while q < |src| && IsDigit(src[q])
      invariant p <= q <= |src|
      invariant AllDigits(src[p..q])
      invariant val == Value(src[p..q])
      invariant DigitsEnd(src, q) == stop
      decreases |src| - q
    {
      ValueStep(src, p, q);
      val := val * 10 + DigitValue(src[q]);
      q := q + 1;
    }
  }

  /** One more digit: the run grows by it and its value by one decimal place. */
  lemma ValueStep(src: string, p: nat, q: nat)
    requires p <= q < |src| && AllDigits(src[p..q]) && IsDigit(src[q])
    ensures AllDigits(src[p..q + 1])
    ensures Value(src[p..q + 1]) == Value(src[p..q]) * 10 + DigitValue(src[q])
    ensures DigitsEnd(src, q) == DigitsEnd(src, q + 1)
  {
    assert src[p..q + 1][..q - p] == src[p..q];
  }

  /** tokenize(p): the scanning loop, appending one token per iteration. */
  method Tokenize(src: string) returns (r: Result<seq<Token>>)
    ensures r == Lex(src)
  {
    ghost var whole := Lex(src);
    var p := 0;
    var toks: seq<Token> := [];
    assert Scan(src, 0).Ok? ==> [] + Scan(src, 0).value == Scan(src, 0).value;
    while p < |src|
      invariant p <= |src|
      invariant whole == Prepend(toks, Scan(src, p))
      decreases |src| - p
    {
      // Skip whitespace characters.
      if IsSpace(src[p]) {
        StepSpace(src, p);
        p := p + 1;
        continue;
      }

      // Numeric literal: strtol reads the maximal run of digits.
      if IsDigit(src[p]) {
        var val, q := StrToL(src, p);
        StepNumber(src, toks, p, val, q);
        toks := toks + [Token(Number, val, p, q - p)];
        p := q;
        continue;
      }

      // Identifier: a do-while over the continuation characters.
      if IsIdent1(src[p]) {
        var start := p;
        ghost var stop := IdentEnd(src, start + 1);
        p := p + 1;
        while p < |src| && IsIdent2(src[p])
          invariant start < p <= |src|
          invariant IdentEnd(src, p) == stop
          decreases |src| - p
        {
          IdentEndStep(src, p);
          p := p + 1;
        }
        IdentEndStop(src, p);
        StepIdent(src, toks, start, p);
        toks := toks + [Token(Identifier, 0, start, p - start)];
        continue;
      }

      // Punctuator.
      var punctLen := ReadPunct(src, p);
      StepPunct(src, toks, p);
      if punctLen != 0 {
        toks := toks + [Token(Punctuator, 0, p, punctLen)];
        p := p + punctLen;
        continue;
      }

      return Err(InvalidToken(p));
    }
    StepEnd(src, toks);
    toks := toks + [Token(EndOfFile, 0, p, 0)];
    return Ok(toks);
  }
}
