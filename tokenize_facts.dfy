/** What the scan of tokenize.c guarantees about the token list it builds. */
module TokenizeFacts {
  import opened CType
  import opened Decimal
  import opened Errors
  import opened Tokenize

  /** The shape each kind of token has, by the branch of the scan that makes it. */
  ghost predicate WellFormedToken(src: string, t: Token) {
    InBounds(src, t) &&
    match t.kind
    case Number =>
      t.len > 0 && AllDigits(Text(src, t)) && t.val == Value(Text(src, t)) &&
      (t.loc + t.len < |src| ==> !IsDigit(src[t.loc + t.len]))
    case Identifier =>
      t.len > 0 && t.val == 0 && IsIdent1(src[t.loc]) &&
      (forall k :: t.loc < k < t.loc + t.len ==> IsIdent2(src[k])) &&
      (t.loc + t.len < |src| ==> !IsIdent2(src[t.loc + t.len]))
    case Punctuator =>
      t.len > 0 && t.val == 0 && t.len == ReadPunct(src, t.loc) &&
      !IsDigit(src[t.loc]) && !IsIdent1(src[t.loc])
    case EndOfFile =>
      t.loc == |src| && t.len == 0 && t.val == 0
  }

  /** A character some branch of the scan accepts. */
  predicate ValidChar(c: char) {
    IsSpace(c) || IsDigit(c) || IsIdent1(c) || IsPunct(c)
  }

  /** The source with its whitespace removed. */
  function Squeeze(s: string): (r: string)
    ensures NoSpace(r)
  {
    if s == [] then []
    else if IsSpace(s[0]) then Squeeze(s[1..])
    else [s[0]] + Squeeze(s[1..])
  }

  lemma {:induction false} SqueezeAppend(a: string, b: string)
    ensures Squeeze(a + b) == Squeeze(a) + Squeeze(b)
  {
    if a == [] {
      assert a + b == b;
    } else {
      assert (a + b)[1..] == a[1..] + b;
      SqueezeAppend(a[1..], b);
    }
  }

  lemma {:induction false} SqueezeNoSpace(s: string)
    requires NoSpace(s)
    ensures Squeeze(s) == s
  {
    if s != [] {
      SqueezeNoSpace(s[1..]);
    }
  }

  /** The concatenated text of a token list. */
  function Texts(src: string, ts: seq<Token>): string
    requires AllInBounds(src, ts)
  {
    if ts == [] then [] else Text(src, ts[0]) + Texts(src, ts[1..])
  }

  /** The facts of one token-producing step: the token starts at `p`, spans
      accepted non-space characters and has the shape of its kind. */
  lemma EmitFacts(src: string, p: nat)
    requires p < |src| && StepAt(src, p).Emit?
    ensures var t := StepAt(src, p).tok;
      t.kind != EndOfFile && WellFormedToken(src, t) && NoSpace(Text(src, t)) &&
      forall k :: p <= k < p + t.len ==> ValidChar(src[k])
  {
    if IsDigit(src[p]) {
      DigitsEndRun(src, p);
    } else if IsIdent1(src[p]) {
      IdentEndRun(src, p + 1);
    }
  }

  /** A step emits exactly at the characters that are accepted and not space,
      and fails at the others. */
  lemma StepKinds(src: string, p: nat)
    requires p < |src|
    ensures StepAt(src, p).Skip? <==> IsSpace(src[p])
    ensures StepAt(src, p).Fail? <==> !ValidChar(src[p])
    ensures StepAt(src, p).Fail? ==> StepAt(src, p).error == InvalidToken(p)
  {
  }

  /** An emitting step puts its token in front of the rest of the scan. */
  lemma ScanCons(src: string, p: nat)
    requires p < |src| && StepAt(src, p).Emit?
    ensures var t := StepAt(src, p).tok;
      Scan(src, p).Ok? <==> Scan(src, p + t.len).Ok?
    ensures var t := StepAt(src, p).tok;
      Scan(src, p).Ok? ==> Scan(src, p).value == [t] + Scan(src, p + t.len).value
  {
  }

  /** The list ends in exactly one end-of-file token, located at the end of
      the input with length 0. */
  lemma {:induction false} ScanEndsInEof(src: string, p: nat)
    requires p <= |src| && Scan(src, p).Ok?
    ensures EndsInEof(src, Scan(src, p).value)
    decreases |src| - p
  {
    if p == |src| {
      assert Scan(src, p).value == [Token(EndOfFile, 0, |src|, 0)];
    } else if IsSpace(src[p]) {
      assert Scan(src, p) == Scan(src, p + 1);
      ScanEndsInEof(src, p + 1);
    } else {
      StepKinds(src, p);
      ScanCons(src, p);
      var t := StepAt(src, p).tok;
      ScanEndsInEof(src, p + t.len);
      EofCons(src, t, Scan(src, p + t.len).value);
    }
  }

  /** Every token of `ts` is well formed and starts at or after `p`. */
  ghost predicate AllWellFormed(src: string, ts: seq<Token>, p: nat) {
    forall i :: 0 <= i < |ts| ==> p <= ts[i].loc && WellFormedToken(src, ts[i])
  }

  lemma WellFormedCons(src: string, t: Token, rest: seq<Token>, p: nat, q: nat)
    requires p <= t.loc && WellFormedToken(src, t) && p <= q && AllWellFormed(src, rest, q)
    ensures AllWellFormed(src, [t] + rest, p)
  {
    var ts := [t] + rest;
    forall i | 0 <= i < |ts|
      ensures p <= ts[i].loc && WellFormedToken(src, ts[i])
    {
      if i > 0 {
        assert ts[i] == rest[i - 1];
      }
    }
  }

  /** Every token is well formed and starts at or after `p`. */
  lemma {:induction false} ScanWellFormed(src: string, p: nat)
    requires p <= |src| && Scan(src, p).Ok?
    ensures AllWellFormed(src, Scan(src, p).value, p)
    decreases |src| - p
  {
    if p == |src| {
    } else if IsSpace(src[p]) {
      ScanWellFormed(src, p + 1);
    } else {
      StepKinds(src, p);
      EmitFacts(src, p);
      ScanCons(src, p);
      var t := StepAt(src, p).tok;
      ScanWellFormed(src, p + t.len);
      WellFormedCons(src, t, Scan(src, p + t.len).value, p, p + t.len);
    }
  }

  /** Every token lies within the input, at or after `p`, and ends before
      the next one starts. */
  predicate Ordered(src: string, ts: seq<Token>, p: nat) {
    (forall i :: 0 <= i < |ts| ==> p <= ts[i].loc && InBounds(src, ts[i])) &&
    (forall i :: 0 <= i < |ts| - 1 ==> ts[i].loc + ts[i].len <= ts[i + 1].loc)
  }

  lemma OrderedCons(src: string, t: Token, rest: seq<Token>, p: nat)
    requires t.loc == p && InBounds(src, t) && Ordered(src, rest, p + t.len)
    ensures Ordered(src, [t] + rest, p)
  {
    var ts := [t] + rest;
    forall i | 1 <= i < |ts|
      ensures p <= ts[i].loc && InBounds(src, ts[i])
    {
      assert ts[i] == rest[i - 1];
    }
    forall i | 0 <= i < |ts| - 1
      ensures ts[i].loc + ts[i].len <= ts[i + 1].loc
    {
      if i == 0 {
        assert ts[1] == rest[0];
      } else {
        assert ts[i] == rest[i - 1] && ts[i + 1] == rest[i];
      }
    }
  }

  lemma {:induction false} ScanOrdered(src: string, p: nat)
    requires p <= |src| && Scan(src, p).Ok?
    ensures Ordered(src, Scan(src, p).value, p)
    decreases |src| - p
  {
    if p == |src| {
      assert Scan(src, p).value == [Token(EndOfFile, 0, |src|, 0)];
    } else if IsSpace(src[p]) {
      assert Scan(src, p) == Scan(src, p + 1);
      ScanOrdered(src, p + 1);
    } else {
      StepKinds(src, p);
      ScanCons(src, p);
      var t := StepAt(src, p).tok;
      ScanOrdered(src, p + t.len);
      OrderedCons(src, t, Scan(src, p + t.len).value, p);
    }
  }

  /** The tokens' texts, in order, are the input from `p` on with its
      whitespace removed. */
  ghost predicate DropsOnlySpace(src: string, p: nat)
    requires p <= |src| && Scan(src, p).Ok?
  {
    var ts := Scan(src, p).value;
    AllInBounds(src, ts) && Texts(src, ts) == Squeeze(src[p..])
  }

  /** Whitespace produces no token: the tokens' texts, in order, are the
      input with its whitespace removed. */
  lemma {:induction false} ScanDropsOnlySpace(src: string, p: nat)
    requires p <= |src| && Scan(src, p).Ok?
    ensures DropsOnlySpace(src, p)
    decreases |src| - p
  {
    if p == |src| {
      DropsAtEnd(src, p);
    } else if IsSpace(src[p]) {
      assert Scan(src, p) == Scan(src, p + 1);
      ScanDropsOnlySpace(src, p + 1);
      DropsAtSpace(src, p);
    } else {
      StepKinds(src, p);
      ScanCons(src, p);
      ScanDropsOnlySpace(src, p + StepAt(src, p).tok.len);
      DropsAtToken(src, p);
    }
  }

  lemma DropsAtEnd(src: string, p: nat)
    requires p == |src|
    ensures Scan(src, p).Ok? && DropsOnlySpace(src, p)
  {
    var ts := Scan(src, p).value;
    assert ts == [Token(EndOfFile, 0, |src|, 0)];
    assert Text(src, ts[0]) == [];
    assert AllInBounds(src, ts);
  }

  lemma DropsAtSpace(src: string, p: nat)
    requires p < |src| && IsSpace(src[p]) && Scan(src, p + 1).Ok? && DropsOnlySpace(src, p + 1)
    ensures Scan(src, p).Ok? && DropsOnlySpace(src, p)
  {
    assert Scan(src, p) == Scan(src, p + 1);
    assert src[p..] == [src[p]] + src[p + 1..];
  }

  lemma DropsAtToken(src: string, p: nat)
    requires p < |src| && StepAt(src, p).Emit?
    requires var q := p + StepAt(src, p).tok.len; Scan(src, q).Ok? && DropsOnlySpace(src, q)
    ensures Scan(src, p).Ok? && DropsOnlySpace(src, p)
  {
    EmitFacts(src, p);
    ScanCons(src, p);
    var t := StepAt(src, p).tok;
    var rest := Scan(src, p + t.len).value;
    assert Scan(src, p).value == [t] + rest;
    TextsCons(src, t, rest);
  }

  /** A token of non-space text in front of tokens whose texts are the rest
      of the input without its whitespace. */
  lemma TextsCons(src: string, t: Token, rest: seq<Token>)
    requires InBounds(src, t) && NoSpace(Text(src, t))
    requires AllInBounds(src, rest) && Texts(src, rest) == Squeeze(src[t.loc + t.len..])
    ensures AllInBounds(src, [t] + rest)
    ensures Texts(src, [t] + rest) == Squeeze(src[t.loc..])
  {
    InBoundsCons(src, t, rest);
    TextsFirst(src, t, rest);
    SqueezeToken(src, t);
  }

  lemma TextsFirst(src: string, t: Token, rest: seq<Token>)
    requires InBounds(src, t) && AllInBounds(src, rest) && AllInBounds(src, [t] + rest)
    ensures Texts(src, [t] + rest) == Text(src, t) + Texts(src, rest)
  {
    assert ([t] + rest)[1..] == rest;
  }

  lemma SqueezeToken(src: string, t: Token)
    requires InBounds(src, t) && NoSpace(Text(src, t))
    ensures Squeeze(src[t.loc..]) == Text(src, t) + Squeeze(src[t.loc + t.len..])
  {
    assert src[t.loc..] == Text(src, t) + src[t.loc + t.len..];
    SqueezeAppend(Text(src, t), src[t.loc + t.len..]);
    SqueezeNoSpace(Text(src, t));
  }

  /** The scan fails exactly when some character from `p` on is accepted by
      no branch, and then it fails at the first such character. */
  predicate FailsAtFirstInvalid(src: string, p: nat)
    requires p <= |src|
  {
    && (Scan(src, p).Ok? <==> forall k :: p <= k < |src| ==> ValidChar(src[k]))
    && (Scan(src, p).Err? ==>
         var e := Scan(src, p).error;
         e.InvalidToken? && p <= e.loc < |src| && !ValidChar(src[e.loc]) &&
         forall k :: p <= k < e.loc ==> ValidChar(src[k]))
  }

  lemma {:induction false} ScanError(src: string, p: nat)
    requires p <= |src|
    ensures FailsAtFirstInvalid(src, p)
    decreases |src| - p
  {
    if p == |src| {
    } else if IsSpace(src[p]) {
      ScanError(src, p + 1);
      ErrorAfterSpace(src, p);
    } else if !ValidChar(src[p]) {
      StepKinds(src, p);
    } else {
      StepKinds(src, p);
      ScanError(src, p + StepAt(src, p).tok.len);
      ErrorAfterToken(src, p);
    }
  }

  lemma ErrorAfterSpace(src: string, p: nat)
    requires p < |src| && IsSpace(src[p]) && FailsAtFirstInvalid(src, p + 1)
    ensures FailsAtFirstInvalid(src, p)
  {
    assert Scan(src, p) == Scan(src, p + 1);
  }

  lemma ErrorAfterToken(src: string, p: nat)
    requires p < |src| && StepAt(src, p).Emit?
    requires FailsAtFirstInvalid(src, p + StepAt(src, p).tok.len)
    ensures FailsAtFirstInvalid(src, p)
  {
    EmitFacts(src, p);
    var t := StepAt(src, p).tok;
    assert Scan(src, p) == Prepend([t], Scan(src, p + t.len));
  }
}
