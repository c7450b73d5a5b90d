/** What each kind of token looks like, independently of how it is scanned. */
module TokenLaws {
  import opened Mir
  import opened Tokens
  import opened Lexer

  // ----- reserved words -----

  function ItemText(k: Kind): Option<string> {
    match k
    case KwFn => Some("fn") case KwStruct => Some("struct") case KwEnum => Some("enum")
    case KwMod => Some("mod") case KwTrait => Some("trait") case KwImpl => Some("impl")
    case _ => None
  }

  function BindText(k: Kind): Option<string> {
    match k
    case KwWhere => Some("where") case KwType => Some("type") case KwUse => Some("use")
    case KwConst => Some("const") case KwStatic => Some("static") case KwLet => Some("let")
    case _ => None
  }

  function BranchText(k: Kind): Option<string> {
    match k
    case KwIf => Some("if") case KwElse => Some("else") case KwReturn => Some("return")
    case KwMatch => Some("match") case KwBreak => Some("break") case KwContinue => Some("continue")
    case _ => None
  }

  function LoopText(k: Kind): Option<string> {
    match k
    case KwWhile => Some("while") case KwFor => Some("for") case KwIn => Some("in")
    case KwLoop => Some("loop") case KwAsync => Some("async") case KwAwait => Some("await")
    case _ => None
  }

  function ValueText(k: Kind): Option<string> {
    match k
    case KwSelf => Some("self") case KwSuper => Some("super") case KwCrate => Some("crate")
    case KwTrue => Some("true") case KwFalse => Some("false") case Underscore => Some("_")
    case _ => None
  }

  function BorrowText(k: Kind): Option<string> {
    match k
    case KwMut => Some("mut") case KwMove => Some("move") case KwRef => Some("ref")
    case KwAs => Some("as") case KwDyn => Some("dyn") case KwComptime => Some("comptime")
    case _ => None
  }

  function ModifierText(k: Kind): Option<string> {
    match k
    case KwPub => Some("pub") case KwPriv => Some("priv") case KwExtern => Some("extern")
    case KwUnsafe => Some("unsafe") case KwMacro => Some("macro") case KwMacroRules => Some("macro_rules")
    case _ => None
  }

  /** The word is reserved for the kind. */
  predicate Reserves(k: Kind, w: string) {
    || ItemText(k) == Some(w) || BindText(k) == Some(w) || BranchText(k) == Some(w) || LoopText(k) == Some(w)
    || ValueText(k) == Some(w) || BorrowText(k) == Some(w) || ModifierText(k) == Some(w)
  }

  lemma ItemSpelled(w: string)
    ensures ItemWord(w) != Ident ==> ItemText(ItemWord(w)) == Some(w)
  {
  }

  lemma ItemFound(k: Kind)
    requires ItemText(k).Some?
    ensures ItemWord(ItemText(k).value) != Ident
  {
  }

  lemma BindSpelled(w: string)
    ensures BindWord(w) != Ident ==> BindText(BindWord(w)) == Some(w)
  {
  }

  lemma BindFound(k: Kind)
    requires BindText(k).Some?
    ensures BindWord(BindText(k).value) != Ident
  {
  }

  lemma BranchSpelled(w: string)
    ensures BranchWord(w) != Ident ==> BranchText(BranchWord(w)) == Some(w)
  {
  }

  lemma BranchFound(k: Kind)
    requires BranchText(k).Some?
    ensures BranchWord(BranchText(k).value) != Ident
  {
  }

  lemma LoopSpelled(w: string)
    ensures LoopWord(w) != Ident ==> LoopText(LoopWord(w)) == Some(w)
  {
  }

  lemma LoopFound(k: Kind)
    requires LoopText(k).Some?
    ensures LoopWord(LoopText(k).value) != Ident
  {
  }

  lemma ValueSpelled(w: string)
    ensures ValueWord(w) != Ident ==> ValueText(ValueWord(w)) == Some(w)
  {
  }

  lemma ValueFound(k: Kind)
    requires ValueText(k).Some?
    ensures ValueWord(ValueText(k).value) != Ident
  {
  }

  lemma BorrowSpelled(w: string)
    ensures BorrowWord(w) != Ident ==> BorrowText(BorrowWord(w)) == Some(w)
  {
  }

  lemma BorrowFound(k: Kind)
    requires BorrowText(k).Some?
    ensures BorrowWord(BorrowText(k).value) != Ident
  {
  }

  lemma ModifierSpelled(w: string)
    ensures ModifierWord(w) != Ident ==> ModifierText(ModifierWord(w)) == Some(w)
  {
  }

  lemma ModifierFound(k: Kind)
    requires ModifierText(k).Some?
    ensures ModifierWord(ModifierText(k).value) != Ident
  {
  }

  lemma KeywordFound(k: Kind, w: string)
    requires Reserves(k, w)
    ensures LookupKeyword(w) != Ident
  {
    hide ItemText, BindText, BranchText, LoopText, ValueText, BorrowText, ModifierText;
    hide ItemWord, BindWord, BranchWord, LoopWord, ValueWord, BorrowWord, ModifierWord;
    if ItemText(k) == Some(w) { ItemFound(k); }
    if BindText(k) == Some(w) { BindFound(k); }
    if BranchText(k) == Some(w) { BranchFound(k); }
    if LoopText(k) == Some(w) { LoopFound(k); }
    if ValueText(k) == Some(w) { ValueFound(k); }
    if BorrowText(k) == Some(w) { BorrowFound(k); }
    if ModifierText(k) == Some(w) { ModifierFound(k); }
  }

  /** A word is the reserved word spelled like it, and an identifier exactly if there is
      none. */
  lemma KeywordsExact(w: string)
    ensures LookupKeyword(w) != Ident ==> Reserves(LookupKeyword(w), w)
    ensures LookupKeyword(w) == Ident <==> forall k: Kind :: !Reserves(k, w)
  {
    hide ItemText, BindText, BranchText, LoopText, ValueText, BorrowText, ModifierText;
    hide ItemWord, BindWord, BranchWord, LoopWord, ValueWord, BorrowWord, ModifierWord;
    ItemSpelled(w);
    BindSpelled(w);
    BranchSpelled(w);
    LoopSpelled(w);
    ValueSpelled(w);
    BorrowSpelled(w);
    ModifierSpelled(w);
    if LookupKeyword(w) != Ident { assert Reserves(LookupKeyword(w), w); }
    forall k: Kind | Reserves(k, w) ensures LookupKeyword(w) != Ident { KeywordFound(k, w); }
  }

  // ----- symbols -----

  function BracketText(k: Kind): Option<char> {
    match k
    case LParen => Some('(') case RParen => Some(')') case LBrace => Some('{') case RBrace => Some('}')
    case LBracket => Some('[') case RBracket => Some(']')
    case _ => None
  }

  function SeparatorText(k: Kind): Option<char> {
    match k
    case Comma => Some(',') case Semicolon => Some(';') case Dot => Some('.') case Colon => Some(':')
    case _ => None
  }

  function ArithmeticText(k: Kind): Option<char> {
    match k
    case Plus => Some('+') case Minus => Some('-') case Star => Some('*') case Slash => Some('/')
    case Percent => Some('%')
    case _ => None
  }

  function RelationText(k: Kind): Option<char> {
    match k
    case Eq => Some('=') case Bang => Some('!') case Lt => Some('<') case Gt => Some('>')
    case _ => None
  }

  function GateText(k: Kind): Option<char> {
    match k
    case And => Some('&') case Or => Some('|') case Caret => Some('^') case Tilde => Some('~')
    case _ => None
  }

  function MarkText(k: Kind): Option<char> {
    match k
    case At => Some('@') case Hash => Some('#') case Dollar => Some('$') case Question => Some('?')
    case _ => None
  }

  predicate Spells1(k: Kind, c: char) {
    || BracketText(k) == Some(c) || SeparatorText(k) == Some(c) || ArithmeticText(k) == Some(c)
    || RelationText(k) == Some(c) || GateText(k) == Some(c) || MarkText(k) == Some(c)
  }

  /** Symbols that start with a dot or an angle, those whose first character has one
      possible second, and those whose first has two. */
  function DottedText(k: Kind): Option<(char, char)> {
    match k
    case DotDot => Some(('.', '.')) case LtEq => Some(('<', '=')) case Shl => Some(('<', '<'))
    case GtEq => Some(('>', '=')) case Shr => Some(('>', '>'))
    case _ => None
  }

  function SingleText(k: Kind): Option<(char, char)> {
    match k
    case ColonColon => Some((':', ':')) case PlusEq => Some(('+', '=')) case StarEq => Some(('*', '='))
    case SlashEq => Some(('/', '=')) case BangEq => Some(('!', '=')) case CaretEq => Some(('^', '='))
    case _ => None
  }

  function DoubleText(k: Kind): Option<(char, char)> {
    match k
    case Arrow => Some(('-', '>')) case MinusEq => Some(('-', '=')) case EqEq => Some(('=', '='))
    case FatArrow => Some(('=', '>')) case AndAnd => Some(('&', '&')) case AndEq => Some(('&', '='))
    case OrOr => Some(('|', '|')) case OrEq => Some(('|', '='))
    case _ => None
  }

  predicate Spells2(k: Kind, a: char, b: char) {
    DottedText(k) == Some((a, b)) || SingleText(k) == Some((a, b)) || DoubleText(k) == Some((a, b))
  }

  predicate Spells3(k: Kind, a: char, b: char, c: char) {
    match k
    case DotDotEq => a == '.' && b == '.' && c == '='
    case ShlEq => a == '<' && b == '<' && c == '='
    case ShrEq => a == '>' && b == '>' && c == '='
    case _ => false
  }

  /** The text is the symbol of the kind. */
  predicate Spells(k: Kind, w: string) {
    || (|w| == 1 && Spells1(k, w[0]))
    || (|w| == 2 && Spells2(k, w[0], w[1]))
    || (|w| == 3 && Spells3(k, w[0], w[1], w[2]))
  }

  lemma BracketSpelled(c: char)
    ensures Bracket(c) != Error ==> BracketText(Bracket(c)) == Some(c)
  {
  }

  lemma BracketFound(k: Kind)
    requires BracketText(k).Some?
    ensures Bracket(BracketText(k).value) != Error
  {
  }

  lemma SeparatorSpelled(c: char)
    ensures Separator(c) != Error ==> SeparatorText(Separator(c)) == Some(c)
  {
  }

  lemma SeparatorFound(k: Kind)
    requires SeparatorText(k).Some?
    ensures Separator(SeparatorText(k).value) != Error
  {
  }

  lemma ArithmeticSpelled(c: char)
    ensures Arithmetic(c) != Error ==> ArithmeticText(Arithmetic(c)) == Some(c)
  {
  }

  lemma ArithmeticFound(k: Kind)
    requires ArithmeticText(k).Some?
    ensures Arithmetic(ArithmeticText(k).value) != Error
  {
  }

  lemma RelationSpelled(c: char)
    ensures Relation(c) != Error ==> RelationText(Relation(c)) == Some(c)
  {
  }

  lemma RelationFound(k: Kind)
    requires RelationText(k).Some?
    ensures Relation(RelationText(k).value) != Error
  {
  }

  lemma GateSpelled(c: char)
    ensures Gate(c) != Error ==> GateText(Gate(c)) == Some(c)
  {
  }

  lemma GateFound(k: Kind)
    requires GateText(k).Some?
    ensures Gate(GateText(k).value) != Error
  {
  }

  lemma MarkSpelled(c: char)
    ensures Mark(c) != Error ==> MarkText(Mark(c)) == Some(c)
  {
  }

  lemma MarkFound(k: Kind)
    requires MarkText(k).Some?
    ensures Mark(MarkText(k).value) != Error
  {
  }

  lemma OneSpelled(c: char)
    ensures One(c) != Error ==> Spells1(One(c), c)
  {
    hide Bracket, Separator, Arithmetic, Relation, Gate, Mark;
    hide BracketText, SeparatorText, ArithmeticText, RelationText, GateText, MarkText;
    BracketSpelled(c);
    SeparatorSpelled(c);
    ArithmeticSpelled(c);
    RelationSpelled(c);
    GateSpelled(c);
    MarkSpelled(c);
  }

  lemma OneFound(k: Kind, c: char)
    requires Spells1(k, c)
    ensures One(c) != Error
  {
    hide Bracket, Separator, Arithmetic, Relation, Gate, Mark;
    hide BracketText, SeparatorText, ArithmeticText, RelationText, GateText, MarkText;
    if BracketText(k) == Some(c) { BracketFound(k); }
    if SeparatorText(k) == Some(c) { SeparatorFound(k); }
    if ArithmeticText(k) == Some(c) { ArithmeticFound(k); }
    if RelationText(k) == Some(c) { RelationFound(k); }
    if GateText(k) == Some(c) { GateFound(k); }
    if MarkText(k) == Some(c) { MarkFound(k); }
  }

  lemma Dotted(a: char, b: char)
    requires a == '.' || a == '<' || a == '>'
    ensures Two(a, b) != Error ==> DottedText(Two(a, b)) == Some((a, b))
  {
    hide SecondOf;
  }

  lemma Single(a: char)
    ensures SecondOf(a).OneSecond? ==> SingleText(SecondOf(a).withC) == Some((a, SecondOf(a).c))
  {
    hide DoubleSecond;
  }

  lemma Double(a: char)
    ensures SecondOf(a).TwoSeconds? ==> DoubleText(SecondOf(a).withC) == Some((a, SecondOf(a).c))
  {
    hide SingleSecond;
  }

  lemma DoubleOther(a: char)
    ensures SecondOf(a).TwoSeconds? ==> DoubleText(SecondOf(a).withD) == Some((a, SecondOf(a).d))
  {
    hide SingleSecond;
  }

  lemma TwoSpelled(a: char, b: char)
    ensures Two(a, b) != Error ==> Spells2(Two(a, b), a, b)
  {
    hide SecondOf, DottedText, SingleText, DoubleText;
    if a == '.' || a == '<' || a == '>' {
      Dotted(a, b);
    } else {
      Single(a);
      Double(a);
      DoubleOther(a);
    }
  }

  lemma DottedFound(k: Kind)
    requires DottedText(k).Some?
    ensures Two(DottedText(k).value.0, DottedText(k).value.1) == k != Error
  {
    hide SecondOf;
  }

  lemma SingleFound(k: Kind)
    requires SingleText(k).Some?
    ensures Two(SingleText(k).value.0, SingleText(k).value.1) == k != Error
  {
    hide DoubleSecond;
  }

  lemma DoubleStarts(k: Kind)
    requires DoubleText(k).Some?
    ensures var a := DoubleText(k).value.0; SingleSecond(a).NoSecond? && a != '.' && a != '<' && a != '>'
  {
  }

  lemma DoubleGoesOn(k: Kind)
    requires DoubleText(k).Some?
    ensures var (a, b) := DoubleText(k).value;
      var r := DoubleSecond(a);
      r.TwoSeconds? && if b == r.c then k == r.withC else b == r.d && k == r.withD
  {
  }

  lemma DoubleFound(k: Kind)
    requires DoubleText(k).Some?
    ensures Two(DoubleText(k).value.0, DoubleText(k).value.1) == k != Error
  {
    hide SingleSecond, DoubleSecond, DoubleText;
    DoubleStarts(k);
    DoubleGoesOn(k);
  }

  lemma TwoFound(k: Kind, a: char, b: char)
    requires Spells2(k, a, b)
    ensures Two(a, b) != Error
  {
    hide Two, DottedText, SingleText, DoubleText;
    if DottedText(k) == Some((a, b)) {
      DottedFound(k);
    } else if SingleText(k) == Some((a, b)) {
      SingleFound(k);
    } else {
      DoubleFound(k);
    }
  }

  lemma ThreeExact(k: Kind, a: char, b: char, c: char)
    ensures Spells3(k, a, b, c) <==> Three(a, b, c) == k != Error
  {
  }

  /** A symbol token is spelled as its kind says. */
  lemma OperatorSpelled(s: string, p: nat)
    requires p < |s|
    ensures var (k, e) := Operator(s, p); k != Error ==> Spells(k, s[p..e])
  {
    var (k, e) := Operator(s, p);
    hide Three, Two, One, Spells1, Spells2, Spells3;
    if e == p + 3 {
      ThreeExact(k, s[p], s[p + 1], s[p + 2]);
      assert s[p..e] == [s[p], s[p + 1], s[p + 2]];
    } else if e == p + 2 {
      TwoSpelled(s[p], s[p + 1]);
      assert s[p..e] == [s[p], s[p + 1]];
    } else {
      OneSpelled(s[p]);
      assert s[p..e] == [s[p]];
    }
  }

  /** No longer symbol starts there, and if any symbol does, one is found. */
  lemma OperatorLongest(s: string, p: nat, k: Kind, w: string)
    requires p + |w| <= |s| && Spells(k, w) && s[p..p + |w|] == w
    ensures var (found, e) := Operator(s, p); found != Error && p + |w| <= e
  {
    hide Three, Two, One, Spells1, Spells2, Spells3;
    assert w[0] == s[p] && (|w| > 1 ==> w[1] == s[p + 1]) && (|w| > 2 ==> w[2] == s[p + 2]);
    if |w| == 1 {
      OneFound(k, w[0]);
    } else if |w| == 2 {
      TwoFound(k, w[0], w[1]);
    } else {
      ThreeExact(k, w[0], w[1], w[2]);
    }
  }

  // ----- kinds by their first character -----

  predicate IsNumber(k: Kind) { k == IntLit || k == FloatLit }

  predicate IsQuoted(k: Kind) { k == CharLit || k == Lifetime }

  lemma NumberKind(u: Unicode, s: string, p: nat)
    requires p < |s|
    ensures IsNumber(Number(u, s, p).0)
  {
  }

  ghost predicate IsReserved(k: Kind) { exists w :: Reserves(k, w) }

  ghost predicate IsSymbol(k: Kind) { exists w :: Spells(k, w) }

  lemma WordKind(w: string)
    ensures LookupKeyword(w) == Ident || IsReserved(LookupKeyword(w))
  {
    hide LookupKeyword, Reserves;
    KeywordsExact(w);
  }

  lemma SymbolKind(s: string, p: nat)
    requires p < |s|
    ensures Operator(s, p).0 == Error || IsSymbol(Operator(s, p).0)
  {
    hide Operator, Spells;
    OperatorSpelled(s, p);
  }

  /** What a token is follows from how it starts. */
  lemma KindByStart(u: Unicode, s: string, p: nat)
    requires p < |s|
    ensures var (k, c) := (Munch(u, s, p).0, s[p]);
      && (ByteLiteral(s, p) ==> k == ByteLit)
      && ((Letter(c) || c == '_') && !ByteLiteral(s, p) ==> k == Ident || IsReserved(k))
      && (Digit(c) ==> IsNumber(k))
      && (c == '"' ==> k == StringLit)
      && (c == '\'' ==> IsQuoted(k))
      && (!Letter(c) && c != '_' && !Digit(c) && c != '"' && c != '\'' ==> k == Error || IsSymbol(k))
  {
    hide LookupKeyword, Number, Operator, Run, Quoted, IsReserved, IsSymbol;
    NumberKind(u, s, p);
    SymbolKind(s, p);
    WordKind(s[p..Run(u, Word, s, p)]);
  }

  // ----- lifetimes and numbers -----

  /** Only characters of the class from a to b. */
  ghost predicate AllIn(u: Unicode, k: Class, s: string, a: nat, b: nat) {
    b <= |s| && forall i: nat :: a <= i < b ==> In(u, k, s[i])
  }

  /** The source ends at b or goes on with a character outside the class. */
  predicate Stops(u: Unicode, k: Class, s: string, b: nat) {
    b == |s| || (b < |s| && !In(u, k, s[b]))
  }

  lemma RunIs(u: Unicode, k: Class, s: string, p: nat, e: nat)
    requires p <= e <= |s|
    ensures Run(u, k, s, p) == e <==> AllIn(u, k, s, p, e) && Stops(u, k, s, e)
  {
    RunIsMaximal(u, k, s, p);
  }

  /** A quote starts a lifetime exactly if a word follows it that no quote follows; the
      lifetime is that word. */
  lemma LifetimeExactly(u: Unicode, s: string, p: nat, e: nat)
    requires p + 2 <= e <= |s|
    ensures Quote(u, s, p) == (Lifetime, e) <==>
      && (u.alphabetic(s[p + 1]) || s[p + 1] == '_') && AllIn(u, Word, s, p + 2, e) && Stops(u, Word, s, e)
      && !(e < |s| && s[e] == '\'')
  {
    hide Run, Quoted, In;
    RunIs(u, Word, s, p + 2, e);
  }

  lemma {:induction false} RadixRunsOn(u: Unicode, k: Class, s: string, p: nat)
    requires p <= |s| && u.Lawful()
    ensures Run(u, Word, s, Run(u, k, s, p)) == Run(u, Word, s, p)
    decreases |s| - p
  {
    if p < |s| && In(u, k, s[p]) {
      assert k != Word ==> s[p] < 128 as char;
      RadixRunsOn(u, k, s, p + 1);
    }
  }

  /** A number with a radix prefix is an integer and takes the whole word. */
  lemma PrefixedNumber(u: Unicode, s: string, p: nat)
    requires u.Lawful() && p + 1 < |s| && s[p] == '0' && s[p + 1] in "xXbBoO"
    ensures var (k, e) := Number(u, s, p);
      k == IntLit && p + 2 <= e && AllIn(u, Word, s, p + 2, e) && Stops(u, Word, s, e)
  {
    hide Run, In;
    RadixRunsOn(u, Radix(s, p), s, p + 2);
    RunIs(u, Word, s, p + 2, Run(u, Word, s, p + 2));
  }

  /** Where the exponent's digits start, after its mark and sign. */
  function AfterSign(s: string, f: nat): nat
    requires f < |s|
  {
    if f + 1 < |s| && (s[f + 1] == '+' || s[f + 1] == '-') then f + 2 else f + 1
  }

  /** The parts of any other number: digits to i; a point and digits to f, or none; a mark,
      a sign and digits to x, or none; and a suffix to the end, unless the mark had no
      digits, in which case the number ends before the mark. */
  lemma NumberParts(u: Unicode, s: string, p: nat) returns (i: nat, f: nat, x: nat)
    requires p < |s| && Digit(s[p]) && Radix(s, p) == Decimal
    ensures p < i <= f <= x <= Number(u, s, p).1 <= |s|
    ensures AllIn(u, Decimal, s, p, i) && Stops(u, Decimal, s, i)
    ensures i < f <==> i + 1 < |s| && s[i] == '.' && Digit(s[i + 1])
    ensures i < f ==> AllIn(u, Decimal, s, i + 1, f) && Stops(u, Decimal, s, f)
    ensures f < x ==> (s[f] == 'e' || s[f] == 'E') && AfterSign(s, f) < x
    ensures f < x ==> AllIn(u, Decimal, s, AfterSign(s, f), x) && Stops(u, Decimal, s, x)
    ensures f == x && f < |s| && (s[f] == 'e' || s[f] == 'E') ==>
      Number(u, s, p).1 == f && Stops(u, Decimal, s, AfterSign(s, f))
    ensures !(f == x && f < |s| && (s[f] == 'e' || s[f] == 'E')) ==>
      AllIn(u, Word, s, x, Number(u, s, p).1) && Stops(u, Word, s, Number(u, s, p).1)
    ensures Number(u, s, p).0 == if i < f || f < x then FloatLit else IntLit
  {
    hide Run, In, AllIn, Stops;
    i := Run(u, Decimal, s, p);
    DigitRuns(u, s, p);
    RunIs(u, Decimal, s, p, i);
    f := Fraction(u, s, i);
    if i + 1 < |s| && s[i] == '.' && Digit(s[i + 1]) {
      DigitRuns(u, s, i + 1);
      RunIs(u, Decimal, s, i + 1, f);
    }
    x := f;
    if ExponentMark(s, f) {
      var d := AfterSign(s, f);
      x := Exponent(u, s, f);
      RunIs(u, Decimal, s, d, Run(u, Decimal, s, d));
    }
    RunIs(u, Word, s, x, Run(u, Word, s, x));
  }

  lemma DigitRuns(u: Unicode, s: string, p: nat)
    requires p < |s| && Digit(s[p])
    ensures Run(u, Decimal, s, p) > p
  {
  }
}
