/** The hand-written lexer (crates/glyim-frontend/src/lexer.rs). Positions count
    characters. */
module Lexer {
  import opened Tokens

  /** The two characters at p. */
  predicate Pair(s: string, p: nat, a: char, b: char) {
    p + 1 < |s| && s[p] == a && s[p + 1] == b
  }

  // ----- trivia -----

  /** The end of the line that p lies on. */
  function LineEnd(s: string, p: nat): (e: nat)
    requires p <= |s|
    ensures p <= e <= |s| && (e == |s| || s[e] == '\n') && forall i: nat :: p <= i < e ==> s[i] != '\n'
    decreases |s| - p
  {
    if p == |s| || s[p] == '\n' then p else LineEnd(s, p + 1)
  }

  /** Counting comment brackets from p with depth of them open: where the count
      reaches 0, or the end of the source. */
  function Close(s: string, p: nat, depth: nat): (r: (nat, bool))
    requires p <= |s|
    ensures p <= r.0 <= |s| && (!r.1 ==> r.0 == |s|)
    decreases |s| - p
  {
    if depth == 0 then (p, true)
    else if p == |s| then (p, false)
    else if Pair(s, p, '/', '*') then Close(s, p + 2, depth + 1)
    else if Pair(s, p, '*', '/') then Close(s, p + 2, depth - 1)
    else Close(s, p + 1, depth)
  }

  function SkipTrivia(s: string, p: nat): (e: nat)
    requires p <= |s|
    ensures p <= e <= |s|
    decreases |s| - p
  {
    if p == |s| then p
    else if Space(s[p]) then SkipTrivia(s, p + 1)
    else if Pair(s, p, '/', '/') then SkipTrivia(s, LineEnd(s, p + 2))
    else if Pair(s, p, '/', '*') then SkipTrivia(s, Close(s, p + 2, 1).0)
    else p
  }

  // ----- tokens -----

  /** The first position from p on whose character is outside the class. */
  function Run(u: Unicode, k: Class, s: string, p: nat): (e: nat)
    requires p <= |s|
    ensures p <= e <= |s|
    decreases |s| - p
  {
    if p < |s| && In(u, k, s[p]) then Run(u, k, s, p + 1) else p
  }

  /** A run takes every character of the class and stops at the first other one. */
  lemma {:induction false} RunIsMaximal(u: Unicode, k: Class, s: string, p: nat)
    requires p <= |s|
    ensures var e := Run(u, k, s, p);
      (e == |s| || !In(u, k, s[e])) && forall i: nat :: p <= i < e ==> In(u, k, s[i])
    decreases |s| - p
  {
    if p < |s| && In(u, k, s[p]) { RunIsMaximal(u, k, s, p + 1); }
  }

  /** Just past the first unescaped quote from p on, or the end of the source. */
  function Quoted(s: string, quote: char, p: nat): (e: nat)
    requires p <= |s|
    ensures p <= e <= |s| && (e == |s| || (p < e && s[e - 1] == quote))
    decreases |s| - p
  {
    if p == |s| then p
    else if s[p] == quote then p + 1
    else if s[p] == '\\' && p + 1 < |s| then Quoted(s, quote, p + 2)
    else Quoted(s, quote, p + 1)
  }

  function Radix(s: string, p: nat): (k: Class) {
    if p + 1 < |s| && s[p] == '0' then
      match s[p + 1]
      case 'x' => Hexadecimal case 'X' => Hexadecimal
      case 'b' => Binary case 'B' => Binary
      case 'o' => Octal case 'O' => Octal
      case _ => Decimal
    else Decimal
  }

  function Fraction(u: Unicode, s: string, p: nat): (e: nat)
    requires p <= |s|
    ensures p <= e <= |s|
  {
    if p + 1 < |s| && s[p] == '.' && Digit(s[p + 1]) then Run(u, Decimal, s, p + 1) else p
  }

  function Sign(s: string, p: nat): (e: nat)
    requires p <= |s|
    ensures p <= e <= |s|
  {
    if p < |s| && (s[p] == '+' || s[p] == '-') then p + 1 else p
  }

  predicate ExponentMark(s: string, p: nat) {
    p < |s| && (s[p] == 'e' || s[p] == 'E')
  }

  /** The end of an exponent that starts at p; p itself when it has no digits. */
  function Exponent(u: Unicode, s: string, p: nat): (e: nat)
    requires ExponentMark(s, p)
    ensures p <= e <= |s|
  {
    var d := Sign(s, p + 1);
    var e := Run(u, Decimal, s, d);
    if e == d then p else e
  }

  function Number(u: Unicode, s: string, p: nat): (r: (Kind, nat))
    requires p < |s|
    ensures p <= r.1 <= |s|
  {
    var k := Radix(s, p);
    if k != Decimal then (IntLit, Run(u, Word, s, Run(u, k, s, p + 2)))
    else
      var i := Run(u, Decimal, s, p);
      var f := Fraction(u, s, i);
      var kind := if f > i then FloatLit else IntLit;
      if !ExponentMark(s, f) then (kind, Run(u, Word, s, f))
      else
        var e := Exponent(u, s, f);
        if e == f then (kind, f) else (FloatLit, Run(u, Word, s, e))
  }

  /** A quote starts a lifetime when a word follows that is not itself followed by a
      quote, and a character literal otherwise. */
  function Quote(u: Unicode, s: string, p: nat): (r: (Kind, nat))
    requires p < |s|
    ensures p < r.1 <= |s|
  {
    if p + 1 < |s| && (u.alphabetic(s[p + 1]) || s[p + 1] == '_') then
      var e := Run(u, Word, s, p + 2);
      if e < |s| && s[e] == '\'' then (CharLit, Quoted(s, '\'', p + 1)) else (Lifetime, e)
    else (CharLit, Quoted(s, '\'', p + 1))
  }

  /** The longest operator at p. */
  function Operator(s: string, p: nat): (r: (Kind, nat))
    requires p < |s|
    ensures p < r.1 <= |s|
  {
    if p + 2 < |s| && Three(s[p], s[p + 1], s[p + 2]) != Error then (Three(s[p], s[p + 1], s[p + 2]), p + 3)
    else if p + 1 < |s| && Two(s[p], s[p + 1]) != Error then (Two(s[p], s[p + 1]), p + 2)
    else (One(s[p]), p + 1)
  }

  predicate ByteLiteral(s: string, p: nat) {
    p + 1 < |s| && (s[p] == 'b' || s[p] == 'B') && (s[p + 1] == '\'' || s[p + 1] == '"')
  }

  /** The token that starts at p, with its end. */
  function Munch(u: Unicode, s: string, p: nat): (r: (Kind, nat))
    requires p < |s|
    ensures p <= r.1 <= |s|
  {
    var c := s[p];
    if Letter(c) || c == '_' then
      if ByteLiteral(s, p) then (ByteLit, Quoted(s, s[p + 1], p + 2))
      else var e := Run(u, Word, s, p); (LookupKeyword(s[p..e]), e)
    else if Digit(c) then Number(u, s, p)
    else if c == '"' then (StringLit, Quoted(s, '"', p + 1))
    else if c == '\'' then Quote(u, s, p)
    else Operator(s, p)
  }

  lemma RunMoves(u: Unicode, k: Class, s: string, p: nat)
    requires p < |s| && In(u, k, s[p])
    ensures Run(u, k, s, p) > p
  {
  }

  lemma MunchMoves(u: Unicode, s: string, p: nat)
    requires p < |s| && u.Lawful()
    ensures Munch(u, s, p).1 > p
  {
    hide Run;
    var c := s[p];
    if Letter(c) || c == '_' {
      assert c < 128 as char;
      RunMoves(u, Word, s, p);
    } else if Digit(c) {
      RunMoves(u, Decimal, s, p);
    }
  }

  /** The tokens of the source from p on. */
  function TokensFrom(u: Unicode, s: string, p: nat): (ts: seq<Token>)
    requires p <= |s| && u.Lawful()
    decreases |s| - p
  {
    var b := SkipTrivia(s, p);
    if b == |s| then [] else
    var (kind, e) := Munch(u, s, b);
    MunchMoves(u, s, b);
    [Token(kind, b, e, s[b..e])] + TokensFrom(u, s, e)
  }

  // ----- the lexer -----

  /** Alone, with an equals sign, doubled, and doubled with an equals sign. */
  function AngleKinds(c: char): (Kind, Kind, Kind, Kind) {
    if c == '<' then (Lt, LtEq, Shl, ShlEq) else (Gt, GtEq, Shr, ShrEq)
  }

  class Scanner {
    const source: string
    const u: Unicode
    var pos: nat

    constructor (source: string, u: Unicode)
      ensures this.source == source && this.u == u && pos == 0
    {
      this.source, this.u, pos := source, u, 0;
    }

    predicate Peek(c: char)
      reads this
    {
      pos < |source| && source[pos] == c
    }

    predicate PeekIn(k: Class)
      reads this
    {
      pos < |source| && In(u, k, source[pos])
    }

    method Advance()
      modifies this`pos
      ensures pos == if old(pos) < |source| then old(pos) + 1 else old(pos)
    {
      if pos < |source| { pos := pos + 1; }
    }

    /** Consumes the next character if it is c. */
    method Eat(c: char) returns (eaten: bool)
      modifies this`pos
      ensures eaten == old(Peek(c)) && pos == if eaten then old(pos) + 1 else old(pos)
    {
      eaten := Peek(c);
      if eaten { Advance(); }
    }

    method SkipLine()
      requires pos <= |source|
      modifies this`pos
      ensures pos == LineEnd(source, old(pos))
    {
      while pos < |source|
        invariant pos <= |source| && LineEnd(source, pos) == LineEnd(source, old(pos))
      {
        if source[pos] == '\n' { break; }
        Advance();
      }
    }

    method SkipBlockComment()
      requires pos <= |source|
      modifies this`pos
      ensures pos == Close(source, old(pos), 1).0
    {
      var depth: nat := 1;
      while depth > 0
        invariant pos <= |source| && Close(source, pos, depth) == Close(source, old(pos), 1)
        decreases |source| - pos, depth
      {
        if Pair(source, pos, '/', '*') {
          Advance();
          Advance();
          depth := depth + 1;
        } else if Pair(source, pos, '*', '/') {
          Advance();
          Advance();
          depth := depth - 1;
        } else if pos < |source| {
          Advance();
        } else {
          break;
        }
      }
    }

    method LexTrivia() returns (moved: bool)
      requires pos <= |source|
      modifies this`pos
      ensures pos == SkipTrivia(source, old(pos)) && moved == (pos > old(pos))
    {
      var start := pos;
      while pos < |source|
        invariant start <= pos <= |source| && SkipTrivia(source, pos) == SkipTrivia(source, start)
        decreases |source| - pos
      {
        if Space(source[pos]) {
          Advance();
        } else if Pair(source, pos, '/', '/') {
          Advance();
          Advance();
          SkipLine();
        } else if Pair(source, pos, '/', '*') {
          Advance();
          Advance();
          SkipBlockComment();
        } else {
          break;
        }
      }
      moved := pos > start;
    }

    method SkipRun(k: Class)
      requires pos <= |source|
      modifies this`pos
      ensures pos == Run(u, k, source, old(pos))
    {
      while PeekIn(k)
        invariant pos <= |source| && Run(u, k, source, pos) == Run(u, k, source, old(pos))
        decreases |source| - pos
      {
        Advance();
      }
    }

    method LexNumber() returns (kind: Kind)
      requires pos < |source|
      modifies this`pos
      ensures (kind, pos) == Number(u, source, old(pos))
    {
      hide Run;
      var radix := Radix(source, pos);
      if radix != Decimal {
        Advance();
        Advance();
        SkipRun(radix);
        SkipRun(Word);
        return IntLit;
      }
      var isFloat := false;
      SkipRun(Decimal);
      if Peek('.') && pos + 1 < |source| && Digit(source[pos + 1]) {
        isFloat := true;
        Advance();
        ghost var i := pos;
        SkipRun(Decimal);
        RunMoves(u, Decimal, source, i);
      }
      if Peek('e') || Peek('E') {
        var expStart := pos;
        Advance();
        if Peek('+') || Peek('-') { Advance(); }
        var digits := pos;
        SkipRun(Decimal);
        if pos == digits {
          pos := expStart;
          return if isFloat then FloatLit else IntLit;
        }
        isFloat := true;
      }
      SkipRun(Word);
      return if isFloat then FloatLit else IntLit;
    }

    /** The body of a literal, after its opening quote. */
    method LexQuoted(quote: char)
      requires pos <= |source| && quote != '\\'
      modifies this`pos
      ensures pos == Quoted(source, quote, old(pos))
    {
      while pos < |source|
        invariant pos <= |source| && Quoted(source, quote, pos) == Quoted(source, quote, old(pos))
        decreases |source| - pos
      {
        if Peek(quote) {
          Advance();
          return;
        } else if Peek('\\') {
          Advance();
          Advance();
        } else {
          Advance();
        }
      }
    }

    method LexQuote() returns (kind: Kind)
      requires Peek('\'')
      modifies this`pos
      ensures (kind, pos) == Quote(u, source, old(pos))
    {
      var lifetime, identEnd := false, pos + 1;
      if identEnd < |source| && (u.alphabetic(source[identEnd]) || source[identEnd] == '_') {
        identEnd := identEnd + 1;
        while identEnd < |source| && In(u, Word, source[identEnd])
          invariant identEnd <= |source| && Run(u, Word, source, identEnd) == Run(u, Word, source, pos + 2)
        {
          identEnd := identEnd + 1;
        }
        lifetime := !(identEnd < |source| && source[identEnd] == '\'');
      }
      Advance();
      if lifetime {
        ghost var start := pos;
        while pos < identEnd
          invariant start <= pos <= identEnd <= |source|
        {
          Advance();
        }
        kind := Lifetime;
      } else {
        LexQuoted('\'');
        kind := CharLit;
      }
    }

    /** The operators that can be three characters long. */
    method LexLong() returns (kind: Kind)
      requires pos < |source| && source[pos] in ".<>"
      modifies this`pos
      ensures (kind, pos) == Operator(source, old(pos))
    {
      hide Operator;
      var c, start := source[pos], pos;
      LongMeans(source, start);
      Advance();
      if c == '.' {
        kind := LexDot();
      } else {
        var k := AngleKinds(c);
        kind := LexAngle(c, k.0, k.1, k.2, k.3);
      }
    }

    method LexOperator() returns (kind: Kind)
      requires pos < |source|
      modifies this`pos
      ensures (kind, pos) == Operator(source, old(pos))
    {
      hide One, Two, Operator, SecondOf;
      var c, start := source[pos], pos;
      if c in ".<>" {
        kind := LexLong();
      } else {
        SecondMeans(source, start);
        var k := SecondOf(c);
        Advance();
        if k.NoSecond? {
          kind := One(c);
        } else if k.OneSecond? {
          kind := LexOne(k.c, k.withC, One(c));
        } else {
          kind := LexTwo(k.c, k.withC, k.d, k.withD, One(c));
        }
      }
    }

    /** One optional second character. */
    method LexOne(c: char, with: Kind, without: Kind) returns (kind: Kind)
      modifies this`pos
      ensures if old(Peek(c)) then kind == with && pos == old(pos) + 1 else kind == without && pos == old(pos)
    {
      var b := Eat(c);
      kind := if b then with else without;
    }

    /** Two alternatives for the second character. */
    method LexTwo(c: char, withC: Kind, d: char, withD: Kind, without: Kind) returns (kind: Kind)
      modifies this`pos
      ensures if old(Peek(c)) then kind == withC && pos == old(pos) + 1
              else if old(Peek(d)) then kind == withD && pos == old(pos) + 1
              else kind == without && pos == old(pos)
    {
      var b := Eat(c);
      if b { return withC; }
      kind := LexOne(d, withD, without);
    }

    method LexDot() returns (kind: Kind)
      modifies this`pos
      ensures if !old(Peek('.')) then kind == Dot && pos == old(pos)
              else if Pair(source, old(pos), '.', '=') then kind == DotDotEq && pos == old(pos) + 2
              else kind == DotDot && pos == old(pos) + 1
    {
      var b := Eat('.');
      if !b { return Dot; }
      kind := LexOne('=', DotDotEq, DotDot);
    }

    method LexAngle(c: char, plain: Kind, eq: Kind, shift: Kind, shiftEq: Kind) returns (kind: Kind)
      requires c != '='
      modifies this`pos
      ensures if old(Peek('=')) then kind == eq && pos == old(pos) + 1
              else if !old(Peek(c)) then kind == plain && pos == old(pos)
              else if Pair(source, old(pos), c, '=') then kind == shiftEq && pos == old(pos) + 2
              else kind == shift && pos == old(pos) + 1
    {
      var b := Eat('=');
      if b { return eq; }
      b := Eat(c);
      if !b { return plain; }
      kind := LexOne('=', shiftEq, shift);
    }

    /** One token. */
    method LexToken() returns (kind: Kind)
      requires pos < |source|
      modifies this`pos
      ensures (kind, pos) == Munch(u, source, old(pos))
    {
      hide Number, Quote, Operator, Quoted, Run, LookupKeyword;
      var c, start := source[pos], pos;
      if Letter(c) || c == '_' {
        if ByteLiteral(source, pos) {
          Advance();
          var open := source[pos];
          Advance();
          LexQuoted(open);
          kind := ByteLit;
        } else {
          SkipRun(Word);
          kind := LookupKeyword(source[start..pos]);
        }
      } else if Digit(c) {
        kind := LexNumber();
      } else if c == '"' {
        Advance();
        LexQuoted('"');
        kind := StringLit;
      } else if c == '\'' {
        kind := LexQuote();
      } else {
        kind := LexOperator();
      }
    }

    method Lex() returns (tokens: seq<Token>)
      requires pos == 0 && u.Lawful()
      modifies this`pos
      ensures tokens == TokensFrom(u, source, 0)
    {
      hide SkipTrivia, Munch;
      tokens := [];
      while pos < |source|
        invariant pos <= |source| && tokens + TokensFrom(u, source, pos) == TokensFrom(u, source, 0)
        decreases |source| - pos
      {
        ghost var before := pos;
        var moved := LexTrivia();
        if moved {
          SkipTwice(source, before);
          continue;
        }
        var start := pos;
        MunchMoves(u, source, start);
        var kind := LexToken();
        tokens := tokens + [Token(kind, start, pos, source[start..pos])];
      }
      SkipAtEnd(source);
    }
  }

  lemma OnlyTwo(s: string, p: nat)
    requires p < |s| && s[p] !in ".<>"
    ensures Operator(s, p) == if p + 1 < |s| && Two(s[p], s[p + 1]) != Error then (Two(s[p], s[p + 1]), p + 2)
                              else (One(s[p]), p + 1)
  {
    hide Two, One;
  }

  /** The operator at p by what may follow its first character. */
  lemma SecondMeans(s: string, p: nat)
    requires p < |s| && s[p] !in ".<>"
    ensures var k := SecondOf(s[p]);
      Operator(s, p) ==
        if !k.NoSecond? && p + 1 < |s| && s[p + 1] == k.c then (k.withC, p + 2)
        else if k.TwoSeconds? && p + 1 < |s| && s[p + 1] == k.d then (k.withD, p + 2)
        else (One(s[p]), p + 1)
  {
    hide One, Operator, SecondOf, Two;
    OnlyTwo(s, p);
    if p + 1 < |s| { SecondTable(s[p], s[p + 1]); }
  }

  lemma SecondTable(c: char, d: char)
    requires c !in ".<>"
    ensures var k := SecondOf(c);
      Two(c, d) == if !k.NoSecond? && d == k.c then k.withC else if k.TwoSeconds? && d == k.d then k.withD else Error
  {
    hide SecondOf;
  }

  lemma LongMeans(s: string, p: nat)
    requires p < |s| && s[p] in ".<>"
    ensures s[p] == '.' ==>
      Operator(s, p) ==
        if !(p + 1 < |s| && s[p + 1] == '.') then (Dot, p + 1)
        else if Pair(s, p + 1, '.', '=') then (DotDotEq, p + 3) else (DotDot, p + 2)
    ensures s[p] != '.' ==>
      var k := AngleKinds(s[p]);
      Operator(s, p) ==
        if p + 1 < |s| && s[p + 1] == '=' then (k.1, p + 2)
        else if !(p + 1 < |s| && s[p + 1] == s[p]) then (k.0, p + 1)
        else if Pair(s, p + 1, s[p], '=') then (k.3, p + 3) else (k.2, p + 2)
  {
  }

  lemma SkipAtEnd(s: string)
    ensures SkipTrivia(s, |s|) == |s|
  {
  }

  lemma {:induction false} SkipTwice(s: string, p: nat)
    requires p <= |s|
    ensures SkipTrivia(s, SkipTrivia(s, p)) == SkipTrivia(s, p)
    decreases |s| - p
  {
    if p < |s| {
      if Space(s[p]) { SkipTwice(s, p + 1); }
      else if Pair(s, p, '/', '/') { SkipTwice(s, LineEnd(s, p + 2)); }
      else if Pair(s, p, '/', '*') { SkipTwice(s, Close(s, p + 2, 1).0); }
    }
  }
}
