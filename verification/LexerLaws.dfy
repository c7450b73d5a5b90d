/** The lexer loses nothing, and its tokens lex to themselves again. */
module LexerLaws {
  import opened Tokens
  import opened Lexer

  // ----- block comments -----

  /** A character inside a comment that opens and closes nothing. */
  ghost predicate Plain(s: string, p: nat) {
    p < |s| && !Pair(s, p, '/', '*') && !Pair(s, p, '*', '/')
  }

  /** The grammar of a comment's inside: plain characters and whole comments. */
  ghost predicate Inside(s: string, a: nat, b: nat)
    decreases b - a, 1
  {
    || a == b
    || (a < b && Plain(s, a) && Inside(s, a + 1, b))
    || exists m: nat :: a < m <= b && Comment(s, a, m) && Inside(s, m, b)
  }

  ghost predicate Comment(s: string, a: nat, b: nat)
    decreases b - a, 0
  {
    a + 4 <= b <= |s| && Pair(s, a, '/', '*') && Pair(s, b - 2, '*', '/') && Inside(s, a + 2, b - 2)
  }

  /** Counting brackets passes over what the grammar calls the inside of a comment. */
  lemma {:induction false} InsidePasses(s: string, a: nat, b: nat, depth: nat)
    requires a <= b <= |s| && Inside(s, a, b) && depth > 0
    ensures Close(s, a, depth) == Close(s, b, depth)
    decreases b - a
  {
    if a < b && Plain(s, a) && Inside(s, a + 1, b) {
      InsidePasses(s, a + 1, b, depth);
    } else if a < b {
      var m: nat :| a < m <= b && Comment(s, a, m) && Inside(s, m, b);
      InsidePasses(s, a + 2, m - 2, depth + 1);
      InsidePasses(s, m, b, depth);
    }
  }

  /** Where the innermost open comment closes. */
  lemma {:induction false} ClosesInside(s: string, p: nat, depth: nat) returns (m: nat)
    requires p <= |s| && depth > 0 && Close(s, p, depth).1
    ensures p <= m && Pair(s, m, '*', '/') && Inside(s, p, m)
    ensures Close(s, m + 2, depth - 1) == Close(s, p, depth)
    decreases |s| - p
  {
    if Pair(s, p, '/', '*') {
      var n := ClosesInside(s, p + 2, depth + 1);
      m := ClosesInside(s, n + 2, depth);
      assert Comment(s, p, n + 2);
    } else if Pair(s, p, '*', '/') {
      m := p;
    } else {
      m := ClosesInside(s, p + 1, depth);
    }
  }

  /** The counter ends a comment exactly where the nesting grammar does. */
  lemma CommentExact(s: string, p: nat, q: nat)
    requires Pair(s, p, '/', '*')
    ensures Comment(s, p, q) <==> Close(s, p + 2, 1) == (q, true)
  {
    if Comment(s, p, q) {
      InsidePasses(s, p + 2, q - 2, 1);
    }
    if Close(s, p + 2, 1) == (q, true) {
      var m := ClosesInside(s, p + 2, 1);
    }
  }

  // ----- what lies between tokens -----

  ghost predicate LineComment(s: string, a: nat, b: nat) {
    && Pair(s, a, '/', '/') && a + 2 <= b <= |s| && (b == |s| || s[b] == '\n')
    && forall i: nat :: a + 2 <= i < b ==> s[i] != '\n'
  }

  ghost predicate Unclosed(s: string, a: nat) {
    Pair(s, a, '/', '*') && forall q: nat :: !Comment(s, a, q)
  }

  ghost predicate TriviaItem(s: string, a: nat, b: nat) {
    || (b == a + 1 <= |s| && Space(s[a]))
    || LineComment(s, a, b)
    || Comment(s, a, b)
    || (b == |s| && Unclosed(s, a))
  }

  /** White space and comments only; an unclosed comment can only be the last. */
  ghost predicate Trivia(s: string, a: nat, b: nat)
    decreases b - a
  {
    a == b || exists m: nat :: a < m <= b && TriviaItem(s, a, m) && Trivia(s, m, b)
  }

  lemma SkipsComment(s: string, p: nat)
    requires Pair(s, p, '/', '*')
    ensures TriviaItem(s, p, Close(s, p + 2, 1).0)
  {
    hide Comment;
    var (e, closed) := Close(s, p + 2, 1);
    forall q: nat ensures Comment(s, p, q) <==> closed && q == e { CommentExact(s, p, q); }
  }

  /** No white space and no comment starts here. */
  ghost predicate TokenStarts(s: string, p: nat) {
    p < |s| && !Space(s[p]) && !Pair(s, p, '/', '/') && !Pair(s, p, '/', '*')
  }

  /** Skipping stops at the first thing that is not trivia. */
  lemma {:induction false} SkipIsTrivia(s: string, p: nat)
    requires p <= |s|
    ensures Trivia(s, p, SkipTrivia(s, p))
    ensures SkipTrivia(s, p) == |s| || TokenStarts(s, SkipTrivia(s, p))
    decreases |s| - p
  {
    hide Comment, Close, LineEnd, Unclosed;
    if p < |s| {
      if Space(s[p]) {
        SkipIsTrivia(s, p + 1);
        assert TriviaItem(s, p, p + 1);
      } else if Pair(s, p, '/', '/') {
        var m := LineEnd(s, p + 2);
        SkipIsTrivia(s, m);
        assert TriviaItem(s, p, m);
      } else if Pair(s, p, '/', '*') {
        var m := Close(s, p + 2, 1).0;
        SkipIsTrivia(s, m);
        SkipsComment(s, p);
      }
    }
  }

  // ----- losslessness -----

  /** Where the text before token i ends: the previous token's end, or p. */
  function GapStart(ts: seq<Token>, p: nat, i: nat): nat
    requires i <= |ts|
  {
    if i == 0 then p else ts[i - 1].end
  }

  ghost predicate Placed(s: string, p: nat, ts: seq<Token>, i: nat)
    requires i < |ts|
  {
    && GapStart(ts, p, i) <= ts[i].start < ts[i].end <= |s| && ts[i].text == s[ts[i].start..ts[i].end]
    && Trivia(s, GapStart(ts, p, i), ts[i].start) && TokenStarts(s, ts[i].start)
  }

  /** Every source is its tokens' texts, in order, with only trivia before, between
      and after them; every token is non-empty and none starts inside trivia. */
  lemma {:induction false} Lossless(u: Unicode, s: string, p: nat)
    requires p <= |s| && u.Lawful()
    ensures var ts := TokensFrom(u, s, p);
      && (forall i: nat :: i < |ts| ==> Placed(s, p, ts, i))
      && GapStart(ts, p, |ts|) <= |s| && Trivia(s, GapStart(ts, p, |ts|), |s|)
    decreases |s| - p
  {
    hide SkipTrivia, Munch, Trivia, TokenStarts, Tokens.Unicode.Lawful;
    SkipIsTrivia(s, p);
    var b := SkipTrivia(s, p);
    if b < |s| {
      MunchMoves(u, s, b);
      var e := Munch(u, s, b).1;
      Lossless(u, s, e);
      var ts, rest := TokensFrom(u, s, p), TokensFrom(u, s, e);
      assert ts == [Token(Munch(u, s, b).0, b, e, s[b..e])] + rest;
      forall i: nat | i < |ts| ensures Placed(s, p, ts, i) {
        if i > 0 { assert Placed(s, e, rest, i - 1); }
      }
    }
  }

  // ----- quoted literals -----

  /** The grammar of a literal's body: characters other than the quote and the backslash,
      and pairs of a backslash and any character. */
  ghost predicate Body(s: string, quote: char, a: nat, b: nat)
    decreases b - a
  {
    || a == b
    || (a < b <= |s| && s[a] != quote && s[a] != '\\' && Body(s, quote, a + 1, b))
    || (a + 2 <= b <= |s| && s[a] == '\\' && Body(s, quote, a + 2, b))
  }

  /** A body and its closing quote. */
  ghost predicate Closed(s: string, quote: char, p: nat, e: nat) {
    p < e <= |s| && s[e - 1] == quote && Body(s, quote, p, e - 1)
  }

  /** Scanning passes over what the grammar calls a body. */
  lemma {:induction false} BodyPassed(s: string, quote: char, a: nat, b: nat)
    requires a <= b <= |s| && Body(s, quote, a, b) && quote != '\\'
    ensures Quoted(s, quote, a) == Quoted(s, quote, b)
    decreases b - a
  {
    if a < b {
      if s[a] == '\\' { BodyPassed(s, quote, a + 2, b); } else { BodyPassed(s, quote, a + 1, b); }
    }
  }

  /** What scanning has passed when it ends short of the source. */
  lemma {:induction false} ScannedBody(s: string, quote: char, p: nat)
    requires p <= |s| && quote != '\\'
    ensures Quoted(s, quote, p) < |s| ==> Closed(s, quote, p, Quoted(s, quote, p))
    decreases |s| - p
  {
    if p < |s| && s[p] != quote {
      if s[p] == '\\' && p + 1 < |s| { ScannedBody(s, quote, p + 2); } else { ScannedBody(s, quote, p + 1); }
    }
  }

  /** A literal ends at its closing quote as the escape grammar has it, and with the source
      exactly if that has none before. */
  lemma QuotedExact(s: string, quote: char, p: nat, e: nat)
    requires p <= |s| && quote != '\\'
    ensures Closed(s, quote, p, e) ==> Quoted(s, quote, p) == e
    ensures Quoted(s, quote, p) == e < |s| ==> Closed(s, quote, p, e)
    ensures (forall k: nat :: !Closed(s, quote, p, k)) ==> Quoted(s, quote, p) == |s|
  {
    if Closed(s, quote, p, e) { BodyPassed(s, quote, p, e - 1); }
    ScannedBody(s, quote, p);
  }

  // ----- numbers -----

  lemma NoDotInRun(u: Unicode, k: Class, s: string, p: nat)
    requires u.Lawful() && p <= |s|
    ensures forall j: nat :: p <= j < Run(u, k, s, p) ==> s[j] != '.'
  {
    assert '.' < 128 as char;
    RunIsMaximal(u, k, s, p);
  }

  /** A literal without a fraction holds no dot. */
  lemma NoDotWithoutFraction(u: Unicode, s: string, p: nat)
    requires u.Lawful() && p < |s| && Radix(s, p) == Decimal
    requires var i := Run(u, Decimal, s, p); Fraction(u, s, i) == i
    ensures forall j: nat :: p <= j < Number(u, s, p).1 ==> s[j] != '.'
  {
    hide Run, Fraction, Tokens.Unicode.Lawful;
    var i := Run(u, Decimal, s, p);
    NoDotInRun(u, Decimal, s, p);
    NoDotInRun(u, Word, s, i);
    if ExponentMark(s, i) {
      var d := Sign(s, i + 1);
      NoDotInRun(u, Decimal, s, d);
      NoDotInRun(u, Word, s, Run(u, Decimal, s, d));
    }
  }

  /** A literal without a radix prefix is a float exactly if it holds a dot or its leading
      digits are followed, inside it, by an exponent mark; with a prefix it is an integer. */
  lemma FloatExactly(u: Unicode, s: string, p: nat)
    requires u.Lawful() && p < |s|
    ensures var (kind, e) := Number(u, s, p);
      var i := Run(u, Decimal, s, p);
      && (kind == FloatLit || kind == IntLit)
      && (kind == FloatLit <==>
            Radix(s, p) == Decimal &&
            ((exists j: nat :: p <= j < e && s[j] == '.') || (i < e && ExponentMark(s, i))))
  {
    hide Run, Tokens.Unicode.Lawful;
    var i := Run(u, Decimal, s, p);
    if Radix(s, p) == Decimal {
      if Fraction(u, s, i) == i {
        NoDotWithoutFraction(u, s, p);
      } else {
        RunMoves(u, Decimal, s, i + 1);
        assert s[i] == '.';
      }
    }
  }

  // ----- lexing again -----

  /** t holds at q what s holds in [p, e), followed by a space or by nothing; by
      nothing if that is what follows in s. */
  ghost predicate Copied(s: string, p: nat, e: nat, t: string, q: nat) {
    && p <= e <= |s| && q + (e - p) <= |t|
    && (forall i: nat :: p <= i < e ==> s[i] == t[q + i - p])
    && (q + (e - p) == |t| || (e < |s| && t[q + (e - p)] == ' '))
  }

  lemma NoSpace(u: Unicode, k: Class)
    requires u.Lawful()
    ensures !In(u, k, ' ')
  {
    assert ' ' < 128 as char;
  }

  /** A run of one class inside the copied text ends at the same place. */
  lemma {:induction false} RunCopied(u: Unicode, k: Class, s: string, p: nat, e: nat, t: string, q: nat)
    requires u.Lawful() && Copied(s, p, e, t, q) && Run(u, k, s, p) <= e
    ensures Run(u, k, t, q) == q + Run(u, k, s, p) - p
    ensures Copied(s, Run(u, k, s, p), e, t, q + Run(u, k, s, p) - p)
    decreases e - p
  {
    NoSpace(u, k);
    hide In, Tokens.Unicode.Lawful;
    if p < e {
      assert s[p] == t[q + p - p];
      if In(u, k, s[p]) {
        RunCopied(u, k, s, p + 1, e, t, q + 1);
      }
    }
  }

  lemma {:induction false} QuotedCopied(s: string, quote: char, p: nat, e: nat, t: string, q: nat)
    requires Copied(s, p, e, t, q) && Quoted(s, quote, p) == e
    ensures Quoted(t, quote, q) == q + (e - p)
    decreases e - p
  {
    if p < |s| {
      assert s[p] == t[q + p - p];
      if s[p] != quote {
        if s[p] == '\\' && p + 1 < |s| {
          assert s[p + 1] == t[q + (p + 1) - p];
          QuotedCopied(s, quote, p + 2, e, t, q + 2);
        } else {
          QuotedCopied(s, quote, p + 1, e, t, q + 1);
        }
      }
    }
  }

  lemma CopiedAt(s: string, p: nat, e: nat, t: string, q: nat, i: nat)
    requires Copied(s, p, e, t, q) && p <= i <= e
    ensures i < e ==> q + (i - p) < |t| && t[q + (i - p)] == s[i]
    ensures i == e && q + (i - p) < |t| ==> t[q + (i - p)] == ' '
    ensures Copied(s, i, e, t, q + (i - p))
  {
    assert i < e ==> s[i] == t[q + i - p];
  }

  lemma FractionCopied(u: Unicode, s: string, p: nat, e: nat, t: string, q: nat)
    requires u.Lawful() && Copied(s, p, e, t, q) && Fraction(u, s, p) <= e
    ensures Fraction(u, t, q) == q + (Fraction(u, s, p) - p)
    ensures Copied(s, Fraction(u, s, p), e, t, q + (Fraction(u, s, p) - p))
  {
    hide Copied, Tokens.Unicode.Lawful;
    CopiedAt(s, p, e, t, q, p);
    if Fraction(u, s, p) > p {
      RunMoves(u, Decimal, s, p + 1);
      CopiedAt(s, p, e, t, q, p + 1);
      RunCopied(u, Decimal, s, p + 1, e, t, q + 1);
    } else if p < e {
      CopiedAt(s, p, e, t, q, p + 1);
    }
  }

  lemma ExponentCopied(u: Unicode, s: string, p: nat, e: nat, t: string, q: nat)
    requires u.Lawful() && Copied(s, p, e, t, q) && ExponentMark(s, p) && p < Exponent(u, s, p) <= e
    ensures ExponentMark(t, q) && Exponent(u, t, q) == q + (Exponent(u, s, p) - p)
    ensures Copied(s, Exponent(u, s, p), e, t, q + (Exponent(u, s, p) - p))
  {
    hide Copied, Run, Tokens.Unicode.Lawful;
    CopiedAt(s, p, e, t, q, p);
    CopiedAt(s, p, e, t, q, p + 1);
    var d := Sign(s, p + 1);
    CopiedAt(s, p, e, t, q, d);
    RunCopied(u, Decimal, s, d, e, t, q + (d - p));
  }

  lemma RunAtEnd(u: Unicode, k: Class, s: string, e: nat, t: string, q: nat)
    requires u.Lawful() && Copied(s, e, e, t, q)
    ensures Run(u, k, t, q) == q && !ExponentMark(t, q)
  {
    NoSpace(u, k);
  }

  lemma DecimalCopied(u: Unicode, s: string, p: nat, e: nat, kind: Kind, t: string, q: nat)
    requires u.Lawful() && p < |s| && Radix(s, p) == Decimal && Number(u, s, p) == (kind, e)
    requires Copied(s, p, e, t, q) && q < |t| && Radix(t, q) == Decimal
    ensures Number(u, t, q) == (kind, q + (e - p))
  {
    hide Copied, Run, Fraction, Exponent, ExponentMark, Radix, Tokens.Unicode.Lawful;
    var i := Run(u, Decimal, s, p);
    RunCopied(u, Decimal, s, p, e, t, q);
    FractionCopied(u, s, i, e, t, q + (i - p));
    var f := Fraction(u, s, i);
    var q' := q + (f - p);
    if ExponentMark(s, f) && Exponent(u, s, f) > f {
      ExponentCopied(u, s, f, e, t, q');
      var x := Exponent(u, s, f);
      RunCopied(u, Word, s, x, e, t, q + (x - p));
    } else if e == f {
      RunAtEnd(u, Word, s, e, t, q');
    } else {
      MarkCopied(s, f, e, t, q');
      RunCopied(u, Word, s, f, e, t, q');
    }
  }

  lemma MarkCopied(s: string, p: nat, e: nat, t: string, q: nat)
    requires Copied(s, p, e, t, q) && p < e
    ensures ExponentMark(t, q) == ExponentMark(s, p)
  {
    CopiedAt(s, p, e, t, q, p);
  }

  lemma RadixCopied(u: Unicode, s: string, p: nat, e: nat, t: string, q: nat)
    requires u.Lawful() && p < e <= |s| && Digit(s[p]) && Number(u, s, p).1 == e && Copied(s, p, e, t, q)
    ensures Radix(t, q) == Radix(s, p) && (Radix(s, p) != Decimal ==> p + 2 <= e)
  {
    hide Copied, Run, Tokens.Unicode.Lawful;
    CopiedAt(s, p, e, t, q, p);
    CopiedAt(s, p, e, t, q, p + 1);
  }

  lemma NumberCopied(u: Unicode, s: string, p: nat, e: nat, kind: Kind, t: string, q: nat)
    requires u.Lawful() && p < e <= |s| && Digit(s[p]) && Number(u, s, p) == (kind, e)
    requires Copied(s, p, e, t, q) && q < |t|
    ensures Number(u, t, q) == (kind, q + (e - p))
  {
    hide Copied, Run, Radix, Tokens.Unicode.Lawful;
    RadixCopied(u, s, p, e, t, q);
    var k := Radix(s, p);
    if k == Decimal {
      DecimalCopied(u, s, p, e, kind, t, q);
    } else {
      CopiedAt(s, p, e, t, q, p + 2);
      RadixInside(s, p);
      var m := Run(u, k, s, p + 2);
      RunCopied(u, k, s, p + 2, e, t, q + 2);
      RunCopied(u, Word, s, m, e, t, q + (m - p));
    }
  }

  lemma RadixInside(s: string, p: nat)
    requires Radix(s, p) != Decimal
    ensures p + 2 <= |s|
  {
  }

  lemma NoAlphabeticSpace(u: Unicode)
    requires u.Lawful()
    ensures !u.alphabetic(' ')
  {
    assert ' ' < 128 as char;
  }

  lemma AlphabeticRuns(u: Unicode, s: string, p: nat)
    requires u.Lawful() && p < |s| && (u.alphabetic(s[p]) || s[p] == '_')
    ensures Run(u, Word, s, p) == Run(u, Word, s, p + 1)
  {
  }

  /** A word up to a closing quote holds no earlier quote and no escape. */
  lemma {:induction false} WordQuoted(u: Unicode, s: string, p: nat, w: nat)
    requires u.Lawful() && p <= |s| && Run(u, Word, s, p) == w < |s| && s[w] == '\''
    ensures Quoted(s, '\'', p) == w + 1
    decreases |s| - p
  {
    assert '\'' < 128 as char && '\\' < 128 as char;
    if p < w { WordQuoted(u, s, p + 1, w); }
  }

  /** Whether a quote at p starts a word. */
  ghost predicate WordFollows(u: Unicode, s: string, p: nat) {
    p + 1 < |s| && (u.alphabetic(s[p + 1]) || s[p + 1] == '_')
  }

  /** A word after a quote, up to where it ends. */
  lemma WordCopiedTo(u: Unicode, s: string, p: nat, e: nat, t: string, q: nat)
    requires u.Lawful() && WordFollows(u, s, p) && Copied(s, p, e, t, q) && Run(u, Word, s, p + 2) <= e
    ensures WordFollows(u, t, q) && Run(u, Word, t, q + 2) == q + (Run(u, Word, s, p + 2) - p)
  {
    hide Copied, Run, Tokens.Unicode.Lawful;
    CopiedAt(s, p, e, t, q, p + 1);
    CopiedAt(s, p, e, t, q, p + 2);
    RunCopied(u, Word, s, p + 2, e, t, q + 2);
  }

  lemma QuoteCopied(u: Unicode, s: string, p: nat, e: nat, kind: Kind, t: string, q: nat)
    requires u.Lawful() && p < e <= |s| && s[p] == '\'' && Quote(u, s, p) == (kind, e)
    requires Copied(s, p, e, t, q) && q < |t|
    ensures Quote(u, t, q) == (kind, q + (e - p))
  {
    hide Copied, Run, Quoted, Tokens.Unicode.Lawful;
    CopiedAt(s, p, e, t, q, p + 1);
    NoAlphabeticSpace(u);
    if WordFollows(u, s, p) {
      var w := Run(u, Word, s, p + 2);
      AlphabeticRuns(u, s, p + 1);
      if kind != Lifetime { WordQuoted(u, s, p + 1, w); }
      WordCopiedTo(u, s, p, e, t, q);
      CopiedAt(s, p, e, t, q, w);
    }
    if kind != Lifetime { QuotedCopied(s, '\'', p + 1, e, t, q + 1); }
  }

  lemma OperatorCopied(s: string, p: nat, e: nat, kind: Kind, t: string, q: nat)
    requires p < e <= |s| && Operator(s, p) == (kind, e) && Copied(s, p, e, t, q) && q < |t|
    ensures Operator(t, q) == (kind, q + (e - p))
  {
    hide Copied, Three, Two, One;
    CopiedAt(s, p, e, t, q, p);
    CopiedAt(s, p, e, t, q, p + 1);
    if p + 2 <= e { CopiedAt(s, p, e, t, q, p + 2); } else { ThreeNeedsTwo(s[p], t, q); }
  }

  lemma ThreeNeedsTwo(c: char, t: string, q: nat)
    ensures q + 2 < |t| && t[q + 1] == ' ' ==> Three(c, t[q + 1], t[q + 2]) == Error
  {
  }

  lemma WordCopied(u: Unicode, s: string, p: nat, e: nat, t: string, q: nat)
    requires u.Lawful() && p < e <= |s| && Run(u, Word, s, p) == e && Copied(s, p, e, t, q) && !ByteLiteral(s, p)
    ensures Run(u, Word, t, q) == q + (e - p) && t[q..q + (e - p)] == s[p..e] && !ByteLiteral(t, q)
  {
    CopiedAt(s, p, e, t, q, p);
    CopiedAt(s, p, e, t, q, p + 1);
    RunCopied(u, Word, s, p, e, t, q);
  }

  lemma ByteCopied(s: string, p: nat, e: nat, t: string, q: nat)
    requires ByteLiteral(s, p) && Quoted(s, s[p + 1], p + 2) == e && Copied(s, p, e, t, q)
    ensures ByteLiteral(t, q) && Quoted(t, t[q + 1], q + 2) == q + (e - p)
  {
    hide Quoted, Copied;
    CopiedAt(s, p, e, t, q, p);
    CopiedAt(s, p, e, t, q, p + 1);
    CopiedAt(s, p, e, t, q, p + 2);
    QuotedCopied(s, s[p + 1], p + 2, e, t, q + 2);
  }

  lemma NameCopied(u: Unicode, s: string, p: nat, e: nat, kind: Kind, t: string, q: nat)
    requires u.Lawful() && p < e <= |s| && (Letter(s[p]) || s[p] == '_') && Munch(u, s, p) == (kind, e)
    requires Copied(s, p, e, t, q) && q < |t| && t[q] == s[p]
    ensures Munch(u, t, q) == (kind, q + (e - p))
  {
    hide Copied, Run, Quoted, Number, Quote, Operator, LookupKeyword, ByteLiteral, Tokens.Unicode.Lawful;
    if ByteLiteral(s, p) {
      ByteCopied(s, p, e, t, q);
    } else {
      WordCopied(u, s, p, e, t, q);
    }
  }

  /** A token's kind and extent depend on nothing a following space would change. */
  lemma MunchCopied(u: Unicode, s: string, p: nat, e: nat, kind: Kind, t: string, q: nat)
    requires u.Lawful() && p < e <= |s| && Munch(u, s, p) == (kind, e) && Copied(s, p, e, t, q)
    ensures q < |t| && Munch(u, t, q) == (kind, q + (e - p))
  {
    hide Copied, Run, Quoted, Number, Quote, Operator, LookupKeyword, ByteLiteral, Tokens.Unicode.Lawful;
    CopiedAt(s, p, e, t, q, p);
    CopiedAt(s, p, e, t, q, p + 1);
    var c := s[p];
    if Letter(c) || c == '_' {
      NameCopied(u, s, p, e, kind, t, q);
    } else if Digit(c) {
      NumberCopied(u, s, p, e, kind, t, q);
    } else if c == '"' {
      QuotedCopied(s, '"', p + 1, e, t, q + 1);
    } else if c == '\'' {
      QuoteCopied(u, s, p, e, kind, t, q);
    } else {
      OperatorCopied(s, p, e, kind, t, q);
    }
  }

  lemma TextCopied(s: string, p: nat, e: nat, t: string, q: nat)
    requires Copied(s, p, e, t, q)
    ensures t[q..q + (e - p)] == s[p..e]
  {
    var w := s[p..e];
    forall j: nat | j < |w| ensures t[q..q + (e - p)][j] == w[j] { assert s[p + j] == t[q + (p + j) - p]; }
  }

  /** A slash that starts a token is the slash operator or its assignment. */
  lemma StartCopied(u: Unicode, s: string, p: nat, e: nat, t: string, q: nat)
    requires u.Lawful() && p < e <= |s| && Munch(u, s, p).1 == e && TokenStarts(s, p) && Copied(s, p, e, t, q)
    ensures SkipTrivia(t, q) == q < |t|
  {
    hide Copied, Tokens.Unicode.Lawful, Run, Quoted, Number, Quote, LookupKeyword, ByteLiteral;
    CopiedAt(s, p, e, t, q, p);
    CopiedAt(s, p, e, t, q, p + 1);
  }

  /** The token texts with single spaces between them. */
  function Joined(ts: seq<Token>): string {
    if ts == [] then "" else if |ts| == 1 then ts[0].text else ts[0].text + " " + Joined(ts[1..])
  }

  /** The same kinds and texts, wherever they lie. */
  ghost predicate SameTokens(a: seq<Token>, b: seq<Token>) {
    |a| == |b| && forall i: nat :: i < |a| ==> a[i].kind == b[i].kind && a[i].text == b[i].text
  }

  lemma JoinedCopies(s: string, p: nat, e: nat, more: bool, rest: string, t: string, q: nat)
    requires p < e <= |s| && (more ==> e < |s|) && q <= |t|
    requires t[q..] == if more then s[p..e] + " " + rest else s[p..e]
    ensures Copied(s, p, e, t, q) && (more ==> t[q + (e - p)] == ' ' && t[q + (e - p) + 1..] == rest)
  {
    var w := s[p..e];
    assert forall i: nat :: p <= i < e ==> t[q..][i - p] == s[i];
    if more {
      assert (w + " " + rest)[|w|] == ' ' && (w + " " + rest)[|w| + 1..] == rest;
      assert t[q..][|w|] == ' ' && t[q..][|w| + 1..] == t[q + |w| + 1..];
    }
  }

  lemma TokensUnfold(u: Unicode, s: string, p: nat)
    requires u.Lawful() && p <= |s|
    ensures var b := SkipTrivia(s, p);
      && (b == |s| ==> TokensFrom(u, s, p) == [])
      && (b < |s| ==> var e := Munch(u, s, b).1;
            b < e <= |s| && TokensFrom(u, s, p) == [Token(Munch(u, s, b).0, b, e, s[b..e])] + TokensFrom(u, s, e))
  {
    hide SkipTrivia, Munch, Tokens.Unicode.Lawful;
    if SkipTrivia(s, p) < |s| { MunchMoves(u, s, SkipTrivia(s, p)); }
  }

  lemma JoinedUnfold(first: Token, rest: seq<Token>)
    ensures Joined([first] + rest) == if rest == [] then first.text else first.text + " " + Joined(rest)
  {
    assert ([first] + rest)[1..] == rest;
  }

  lemma SameCons(a: Token, b: Token, as_: seq<Token>, bs: seq<Token>)
    requires a.kind == b.kind && a.text == b.text && SameTokens(as_, bs)
    ensures SameTokens([a] + as_, [b] + bs)
  {
  }

  lemma {:induction false} Relexed(u: Unicode, s: string, p: nat, t: string, q: nat)
    requires u.Lawful() && p <= |s| && q <= |t| && t[q..] == Joined(TokensFrom(u, s, p))
    ensures SameTokens(TokensFrom(u, s, p), TokensFrom(u, t, q))
    decreases |s| - p
  {
    hide Copied, Munch, Tokens.Unicode.Lawful, SkipTrivia, TokensFrom, Joined, SameTokens, TokenStarts, Trivia;
    var b := SkipTrivia(s, p);
    TokensUnfold(u, s, p);
    if b == |s| {
      NothingJoined(u, s, p, t, q);
    } else {
      var (kind, e) := Munch(u, s, b);
      var rest, first := TokensFrom(u, s, e), Token(kind, b, e, s[b..e]);
      JoinedUnfold(first, rest);
      MoreMeansInside(u, s, e);
      JoinedCopies(s, b, e, rest != [], Joined(rest), t, q);
      SkipIsTrivia(s, p);
      StartCopied(u, s, b, e, t, q);
      MunchCopied(u, s, b, e, kind, t, q);
      TextCopied(s, b, e, t, q);
      var q' := q + (e - b);
      TokensUnfold(u, t, q);
      if rest != [] {
        Relexed(u, s, e, t, q' + 1);
        SkipSpace(u, t, q');
      } else {
        assert |t[q..]| == e - b;
        NothingLeft(u, t, rest);
      }
      SameCons(first, Token(kind, q, q', s[b..e]), rest, TokensFrom(u, t, q'));
    }
  }

  lemma NothingJoined(u: Unicode, s: string, p: nat, t: string, q: nat)
    requires u.Lawful() && p <= |s| && q <= |t| && TokensFrom(u, s, p) == [] && t[q..] == Joined([])
    ensures SameTokens(TokensFrom(u, s, p), TokensFrom(u, t, q))
  {
    assert |t[q..]| == 0;
    SkipAtEnd(t);
  }

  lemma NothingLeft(u: Unicode, t: string, rest: seq<Token>)
    requires u.Lawful() && rest == []
    ensures SameTokens(rest, TokensFrom(u, t, |t|))
  {
    SkipAtEnd(t);
  }

  lemma MoreMeansInside(u: Unicode, s: string, e: nat)
    requires u.Lawful() && e <= |s|
    ensures TokensFrom(u, s, e) != [] ==> e < |s|
  {
  }

  lemma SkipSpace(u: Unicode, t: string, q: nat)
    requires u.Lawful() && q < |t| && t[q] == ' '
    ensures TokensFrom(u, t, q) == TokensFrom(u, t, q + 1)
  {
    hide Munch;
    assert SkipTrivia(t, q) == SkipTrivia(t, q + 1);
  }

  /** Joining the token texts of any source with single spaces and lexing the result
      gives the same kinds and texts again. */
  lemma RelexingIsStable(u: Unicode, s: string)
    requires u.Lawful()
    ensures SameTokens(TokensFrom(u, s, 0), TokensFrom(u, Joined(TokensFrom(u, s, 0)), 0))
  {
    var t := Joined(TokensFrom(u, s, 0));
    assert t[0..] == t;
    Relexed(u, s, 0, t, 0);
  }
}
