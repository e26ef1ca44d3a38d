/** Source text for a list of lexemes, and the proof that tokenize reads the
    lexemes back: each lexeme is written out followed by one space, and the
    scan of that text produces one token per lexeme, of the right kind, value
    and text, at the offset where the lexeme was written, then end-of-file. */
module Lexemes {
  import opened CType
  import opened Decimal
  import opened Errors
  import opened Tokenize

  /** What a token stands for, without its position: a number or the text of
      a punctuator. */
  datatype Lexeme = LNum(n: nat) | LPunct(s: string)

  /** The punctuators the grammar of parse.c looks for. */
  predicate IsOperator(s: string) {
    || s == "==" || s == "!=" || s == "<" || s == "<=" || s == ">" || s == ">="
    || s == "+" || s == "-" || s == "*" || s == "/" || s == "(" || s == ")"
  }

  predicate Lexable(l: Lexeme) {
    l.LPunct? ==> IsOperator(l.s)
  }
  /** Every lexeme of the list has a spelling tokenize reads back. */
  predicate AllLexable(ls: seq<Lexeme>) {
    forall i :: 0 <= i < |ls| ==> Lexable(ls[i])
  }


  /** How a lexeme is written: a number as its shortest decimal numeral. */
  function Spell(l: Lexeme): string {
    match l
    case LNum(n) => Numeral(n)
    case LPunct(s) => s
  }

  /** The lexemes written out in order, each followed by one space. */
  function Layout(ls: seq<Lexeme>): string {
    if ls == [] then "" else Spell(ls[0]) + " " + Layout(ls[1..])
  }

  /** The token `t` of the source `src` stands for the lexeme `l`. */
  predicate Matches(src: string, t: Token, l: Lexeme) {
    && InBounds(src, t)
    && match l
       case LNum(n) => t.kind == Number && t.val == n
       case LPunct(s) => t.kind == Punctuator && Text(src, t) == s
  }

  /** The tokens from `pos` on stand for `ls`, and more tokens follow them. */
  predicate Shows(src: string, toks: seq<Token>, pos: nat, ls: seq<Lexeme>)
    decreases ls
  {
    && pos < |toks|
    && (ls != [] ==> Matches(src, toks[pos], ls[0]) && Shows(src, toks, pos + 1, ls[1..]))
  }

  /** Putting a token in front shifts what the list shows by one. */
  lemma {:induction false} ShowsCons(src: string, t: Token, rest: seq<Token>, k: nat, ls: seq<Lexeme>)
    requires Shows(src, rest, k, ls)
    ensures Shows(src, [t] + rest, k + 1, ls)
    decreases ls
  {
    assert ([t] + rest)[k + 1] == rest[k];
    if ls != [] {
      ShowsCons(src, t, rest, k + 1, ls[1..]);
    }
  }

  lemma SplitAt(src: string, p: nat, w: string, tail: string)
    requires p <= |src| && src[p..] == w + tail
    ensures p + |w| <= |src| && src[p..p + |w|] == w && src[p + |w|..] == tail
  {
    assert src[p..p + |w|] == (w + tail)[..|w|];
    assert src[p + |w|..] == (w + tail)[|w|..];
  }

  /** The digit run strtol reads ends where the numeral ends. */
  lemma {:induction false} DigitsEndAt(src: string, p: nat, q: nat)
    requires p <= q <= |src|
    requires forall k :: p <= k < q ==> IsDigit(src[k])
    requires q < |src| ==> !IsDigit(src[q])
    ensures DigitsEnd(src, p) == q
    decreases q - p
  {
    if p < q {
      DigitsEndAt(src, p + 1, q);
    }
  }

  /** The token the scan emits for a lexeme written at `p`. */
  function TokenOf(l: Lexeme, p: nat): (t: Token)
    ensures t.loc == p && t.len == |Spell(l)|
  {
    match l
    case LNum(n) => Token(Number, n, p, |Spell(l)|)
    case LPunct(s) => Token(Punctuator, 0, p, |Spell(l)|)
  }

  /** At a lexeme followed by a space, one step of the scan emits its token. */
  lemma StepLexeme(src: string, p: nat, l: Lexeme)
    requires Lexable(l)
    requires p + |Spell(l)| < |src| && src[p..p + |Spell(l)|] == Spell(l) && src[p + |Spell(l)|] == ' '
    ensures StepAt(src, p) == Emit(TokenOf(l, p))
    ensures Matches(src, TokenOf(l, p), l)
  {
    var w := Spell(l);
    var q := p + |w|;
    assert src[p] == w[0];
    match l
    case LNum(n) =>
      forall k | p <= k < q
        ensures IsDigit(src[k])
      {
        assert src[k] == w[k - p];
      }
      DigitsEndAt(src, p, q);
    case LPunct(s) =>
      assert src[p..][..|w|] == w;
      if |w| == 2 {
        assert src[p + 1] == w[1];
      }
  }

  /** `src` from `p` on holds the lexemes `ls`, each followed by one space,
      and nothing else. */
  predicate LaidOut(src: string, p: nat, ls: seq<Lexeme>)
    decreases ls
  {
    if ls == [] then p == |src|
    else
      var q := p + |Spell(ls[0])|;
      && q < |src| && src[p..q] == Spell(ls[0]) && src[q] == ' '
      && LaidOut(src, q + 1, ls[1..])
  }

  lemma {:induction false} LayoutLaidOut(src: string, p: nat, ls: seq<Lexeme>)
    requires p <= |src| && src[p..] == Layout(ls)
    ensures LaidOut(src, p, ls)
    decreases ls
  {
    if ls != [] {
      var w := Spell(ls[0]);
      var q := p + |w| + 1;
      LayoutStep(src, p, w, q, ls);
      LayoutLaidOut(src, q, ls[1..]);
      LaidOutCons(src, p, w, q, ls);
    } else {
      assert |src[p..]| == 0;
    }
  }

  /** The first lexeme of a layout, its space, and the layout of the rest. */
  lemma LayoutStep(src: string, p: nat, w: string, q: nat, ls: seq<Lexeme>)
    requires ls != [] && w == Spell(ls[0]) && q == p + |w| + 1
    requires p <= |src| && src[p..] == Layout(ls)
    ensures p + |w| < |src| && src[p..p + |w|] == w && src[p + |w|] == ' '
    ensures q <= |src| && src[q..] == Layout(ls[1..])
  {
    assert Layout(ls) == (w + " ") + Layout(ls[1..]);
    SplitAt(src, p, w + " ", Layout(ls[1..]));
    SpacedWord(src, p, w);
  }

  lemma SpacedWord(src: string, p: nat, w: string)
    requires p + |w| + 1 <= |src| && src[p..p + |w| + 1] == w + " "
    ensures src[p..p + |w|] == w && src[p + |w|] == ' '
  {
    assert src[p..p + |w|] == (w + " ")[..|w|];
    assert src[p + |w|] == (w + " ")[|w|];
  }

  lemma LaidOutCons(src: string, p: nat, w: string, q: nat, ls: seq<Lexeme>)
    requires ls != [] && w == Spell(ls[0]) && q == p + |w| + 1
    requires p + |w| < |src| && src[p..p + |w|] == w && src[p + |w|] == ' '
    requires LaidOut(src, q, ls[1..])
    ensures LaidOut(src, p, ls)
  {
  }

  /** At a text that starts with a lexeme, the scan emits the lexeme's token
      and then skips the space after it. */
  lemma StepsAtLexeme(src: string, p: nat, q: nat, ls: seq<Lexeme>)
    requires LaidOut(src, p, ls)
    requires ls != [] && Lexable(ls[0]) && q == p + |Spell(ls[0])|
    ensures q < |src|
    ensures StepAt(src, p) == Emit(TokenOf(ls[0], p))
    ensures StepAt(src, q) == Skip
    ensures Matches(src, TokenOf(ls[0], p), ls[0])
  {
    assert q < |src| && src[p..q] == Spell(ls[0]) && src[q] == ' ';
    StepLexeme(src, p, ls[0]);
    SpaceSkips(src, q);
  }

  lemma SpaceSkips(src: string, q: nat)
    requires q < |src| && src[q] == ' '
    ensures StepAt(src, q) == Skip
  {
  }

  /** A token followed by a whitespace character. */
  lemma ScanTokenThenSpace(src: string, p: nat, t: Token, m: nat, q: nat)
    requires p < |src| && StepAt(src, p) == Emit(t)
    requires m == p + t.len && m < |src| && StepAt(src, m) == Skip && q == m + 1
    ensures Scan(src, p) == Prepend([t], Scan(src, q))
  {
  }

  /** `r` is a successful scan with one token per lexeme of `ls`, standing for
      it, and then the end-of-file token at the end of the source. */
  predicate ReadsAs(src: string, r: Result<seq<Token>>, ls: seq<Lexeme>) {
    && r.Ok?
    && |r.value| == |ls| + 1
    && Shows(src, r.value, 0, ls)
    && r.value[|ls|] == Token(EndOfFile, 0, |src|, 0)
  }

  lemma ReadsAsCons(src: string, t: Token, r: Result<seq<Token>>, ls: seq<Lexeme>)
    requires ls != [] && Matches(src, t, ls[0]) && ReadsAs(src, r, ls[1..])
    ensures ReadsAs(src, Prepend([t], r), ls)
  {
    var ts := [t] + r.value;
    assert ts[|ls|] == r.value[|ls| - 1];
    ShowsCons(src, t, r.value, 0, ls[1..]);
  }

  /** tokenize reads back the text Layout writes: one token per lexeme,
      standing for it, then end-of-file. */
  lemma {:induction false} ScanLaidOut(src: string, p: nat, ls: seq<Lexeme>)
    requires p <= |src| && LaidOut(src, p, ls)
    requires AllLexable(ls)
    ensures ReadsAs(src, Scan(src, p), ls)
    decreases ls
  {
    if ls != [] {
      var q := p + |Spell(ls[0])| + 1;
      LaidOutTail(src, p, q, ls);
      ScanLaidOut(src, q, ls[1..]);
      ScanLexeme(src, p, q, ls);
    } else {
      ScanAtEnd(src, p);
    }
  }

  /** The text after the first lexeme and its space lays out the rest. */
  lemma LaidOutTail(src: string, p: nat, q: nat, ls: seq<Lexeme>)
    requires LaidOut(src, p, ls) && AllLexable(ls) && ls != [] && q == p + |Spell(ls[0])| + 1
    ensures q <= |src| && LaidOut(src, q, ls[1..]) && AllLexable(ls[1..]) && Lexable(ls[0])
  {
    assert forall i :: 0 <= i < |ls[1..]| ==> ls[1..][i] == ls[i + 1];
  }

  /** One lexeme more in front of a text the scan reads as the rest. */
  lemma ScanLexeme(src: string, p: nat, q: nat, ls: seq<Lexeme>)
    requires LaidOut(src, p, ls)
    requires ls != [] && Lexable(ls[0]) && q == p + |Spell(ls[0])| + 1 && q <= |src|
    requires ReadsAs(src, Scan(src, q), ls[1..])
    ensures ReadsAs(src, Scan(src, p), ls)
  {
    var t := TokenOf(ls[0], p);
    var m := p + t.len;
    StepsAtLexeme(src, p, m, ls);
    ScanTokenThenSpace(src, p, t, m, q);
    ReadsAsCons(src, t, Scan(src, q), ls);
  }

  /** At the end of the text the scan gives only end-of-file. */
  lemma ScanAtEnd(src: string, p: nat)
    requires p == |src|
    ensures ReadsAs(src, Scan(src, p), [])
  {
    assert Scan(src, p) == Ok([Token(EndOfFile, 0, |src|, 0)]);
  }

  /** The scan of the whole text. */
  lemma LexLayout(ls: seq<Lexeme>)
    requires AllLexable(ls)
    ensures ReadsAs(Layout(ls), Lex(Layout(ls)), ls)
  {
    LayoutLaidOut(Layout(ls), 0, ls);
    ScanLaidOut(Layout(ls), 0, ls);
  }
}
