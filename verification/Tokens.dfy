/** Token kinds and the character tables of the lexer
    (crates/glyim-frontend/src/lexer.rs). */
module Tokens {
  datatype Kind =
    | Ident | Lifetime | IntLit | FloatLit | StringLit | CharLit | ByteLit | Error
    | LParen | RParen | LBrace | RBrace | LBracket | RBracket | Comma | Semicolon
    | Dot | DotDot | DotDotEq | Colon | ColonColon | Plus | PlusEq | Minus | MinusEq | Arrow
    | Star | StarEq | Slash | SlashEq | Percent | Eq | EqEq | FatArrow | Bang | BangEq
    | Lt | LtEq | Shl | ShlEq | Gt | GtEq | Shr | ShrEq
    | And | AndAnd | AndEq | Or | OrOr | OrEq | Caret | CaretEq
    | At | Hash | Dollar | Tilde | Question | Underscore
    | KwFn | KwLet | KwStruct | KwEnum | KwIf | KwElse | KwReturn | KwMatch | KwMod | KwComptime
    | KwSelf | KwSuper | KwCrate | KwTrue | KwFalse | KwMut | KwMove | KwRef | KwAs | KwWhile
    | KwFor | KwIn | KwBreak | KwContinue | KwLoop | KwTrait | KwImpl | KwWhere | KwDyn | KwType
    | KwUse | KwPub | KwPriv | KwExtern | KwUnsafe | KwConst | KwStatic | KwAsync | KwAwait
    | KwMacro | KwMacroRules

  datatype Token = Token(kind: Kind, start: nat, end: nat, text: string)

  /** The operators of three, two and one characters. None contains a space. */
  function Three(a: char, b: char, c: char): (k: Kind)
    ensures c == ' ' ==> k == Error
  {
    if a == '.' && b == '.' && c == '=' then DotDotEq
    else if a == '<' && b == '<' && c == '=' then ShlEq
    else if a == '>' && b == '>' && c == '=' then ShrEq
    else Error
  }

  /** What may follow the first character of an operator other than a dot or an angle. */
  datatype Second = NoSecond | OneSecond(c: char, withC: Kind) | TwoSeconds(c: char, withC: Kind, d: char, withD: Kind)

  function SingleSecond(a: char): (r: Second)
    ensures r.NoSecond? || (r.OneSecond? && r.withC != Error && r.c != ' ')
  {
    match a
    case ':' => OneSecond(':', ColonColon) case '+' => OneSecond('=', PlusEq) case '*' => OneSecond('=', StarEq)
    case '/' => OneSecond('=', SlashEq) case '!' => OneSecond('=', BangEq) case '^' => OneSecond('=', CaretEq)
    case _ => NoSecond
  }

  function DoubleSecond(a: char): (r: Second)
    ensures r.NoSecond? || (r.TwoSeconds? && r.withC != Error && r.c != ' ' && r.withD != Error && r.d != ' ')
  {
    match a
    case '-' => TwoSeconds('>', Arrow, '=', MinusEq) case '=' => TwoSeconds('=', EqEq, '>', FatArrow)
    case '&' => TwoSeconds('&', AndAnd, '=', AndEq) case '|' => TwoSeconds('|', OrOr, '=', OrEq)
    case _ => NoSecond
  }

  function SecondOf(a: char): (r: Second)
    ensures !r.NoSecond? ==> r.withC != Error && r.c != ' '
    ensures r.TwoSeconds? ==> r.withD != Error && r.d != ' '
  {
    if SingleSecond(a).OneSecond? then SingleSecond(a) else DoubleSecond(a)
  }

  function Two(a: char, b: char): (k: Kind)
    ensures b == ' ' ==> k == Error
  {
    if a == '.' then (if b == '.' then DotDot else Error)
    else if a == '<' then (if b == '=' then LtEq else if b == '<' then Shl else Error)
    else if a == '>' then (if b == '=' then GtEq else if b == '>' then Shr else Error)
    else
      match SecondOf(a)
      case NoSecond => Error
      case OneSecond(c, k) => if b == c then k else Error
      case TwoSeconds(c, k, d, l) => if b == c then k else if b == d then l else Error
  }

  function Bracket(c: char): Kind {
    match c
    case '(' => LParen case ')' => RParen case '{' => LBrace case '}' => RBrace case '[' => LBracket
    case ']' => RBracket
    case _ => Error
  }

  function Separator(c: char): Kind {
    match c
    case ',' => Comma case ';' => Semicolon case '.' => Dot case ':' => Colon
    case _ => Error
  }

  function Arithmetic(c: char): Kind {
    match c
    case '+' => Plus case '-' => Minus case '*' => Star case '/' => Slash case '%' => Percent
    case _ => Error
  }

  function Relation(c: char): Kind {
    match c
    case '=' => Eq case '!' => Bang case '<' => Lt case '>' => Gt
    case _ => Error
  }

  function Gate(c: char): Kind {
    match c
    case '&' => And case '|' => Or case '^' => Caret case '~' => Tilde
    case _ => Error
  }

  function Mark(c: char): Kind {
    match c
    case '@' => At case '#' => Hash case '$' => Dollar case '?' => Question
    case _ => Error
  }

  function One(c: char): Kind {
    if Bracket(c) != Error then Bracket(c)
    else if Separator(c) != Error then Separator(c)
    else if Arithmetic(c) != Error then Arithmetic(c)
    else if Relation(c) != Error then Relation(c)
    else if Gate(c) != Error then Gate(c)
    else Mark(c)
  }

  function ItemWord(word: string): Kind {
    if word == "fn" then KwFn else if word == "struct" then KwStruct else if word == "enum" then KwEnum
    else if word == "mod" then KwMod else if word == "trait" then KwTrait else if word == "impl" then KwImpl
    else Ident
  }

  function BindWord(word: string): Kind {
    if word == "where" then KwWhere else if word == "type" then KwType else if word == "use" then KwUse
    else if word == "const" then KwConst else if word == "static" then KwStatic else if word == "let" then KwLet
    else Ident
  }

  function BranchWord(word: string): Kind {
    if word == "if" then KwIf else if word == "else" then KwElse else if word == "return" then KwReturn
    else if word == "match" then KwMatch else if word == "break" then KwBreak else if word == "continue" then KwContinue
    else Ident
  }

  function LoopWord(word: string): Kind {
    if word == "while" then KwWhile else if word == "for" then KwFor else if word == "in" then KwIn
    else if word == "loop" then KwLoop else if word == "async" then KwAsync else if word == "await" then KwAwait
    else Ident
  }

  function ValueWord(word: string): Kind {
    if word == "self" then KwSelf else if word == "super" then KwSuper else if word == "crate" then KwCrate
    else if word == "true" then KwTrue else if word == "false" then KwFalse else if word == "_" then Underscore
    else Ident
  }

  function BorrowWord(word: string): Kind {
    if word == "mut" then KwMut else if word == "move" then KwMove else if word == "ref" then KwRef
    else if word == "as" then KwAs else if word == "dyn" then KwDyn else if word == "comptime" then KwComptime
    else Ident
  }

  function ModifierWord(word: string): Kind {
    if word == "pub" then KwPub else if word == "priv" then KwPriv else if word == "extern" then KwExtern
    else if word == "unsafe" then KwUnsafe else if word == "macro" then KwMacro
    else if word == "macro_rules" then KwMacroRules
    else Ident
  }

  /** The kind of a word: the reserved word it spells, or an identifier. */
  function LookupKeyword(word: string): Kind {
    if ItemWord(word) != Ident then ItemWord(word)
    else if BindWord(word) != Ident then BindWord(word)
    else if BranchWord(word) != Ident then BranchWord(word)
    else if LoopWord(word) != Ident then LoopWord(word)
    else if ValueWord(word) != Ident then ValueWord(word)
    else if BorrowWord(word) != Ident then BorrowWord(word)
    else ModifierWord(word)
  }

  // ----- characters -----

  predicate Space(c: char) { c == ' ' || c == '\t' || c == '\n' || c == '\r' }

  predicate Letter(c: char) { 'a' <= c <= 'z' || 'A' <= c <= 'Z' }

  predicate Digit(c: char) { '0' <= c <= '9' }

  /** The Unicode classes the lexer consults, as parameters. */
  datatype Unicode = Unicode(alphabetic: char -> bool, alphanumeric: char -> bool) {
    /** They agree with ASCII, and what is alphabetic is alphanumeric. */
    ghost predicate Lawful() {
      && (forall c: char :: c < 128 as char ==> (alphabetic(c) <==> Letter(c)))
      && (forall c: char :: c < 128 as char ==> (alphanumeric(c) <==> Letter(c) || Digit(c)))
      && (forall c: char :: alphabetic(c) ==> alphanumeric(c))
    }
  }

  /** The character sets the lexer's loops run over. */
  datatype Class = Word | Decimal | Hexadecimal | Binary | Octal

  predicate In(u: Unicode, k: Class, c: char) {
    c == '_' ||
    match k
    case Word => u.alphanumeric(c)
    case Decimal => Digit(c)
    case Hexadecimal => Digit(c) || 'a' <= c <= 'f' || 'A' <= c <= 'F'
    case Binary => c == '0' || c == '1'
    case Octal => '0' <= c <= '7'
  }
}
