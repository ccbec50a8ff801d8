/**
 * Token kinds and the character and keyword classifiers of the D Flat lexer
 * (transpiler.cpp:16-59, 212-288).
 */
module Tokens {

  import opened Wrappers

  /** One byte of the input buffer, as the C program reads it. */
  type Byte = c: char | c as int < 256

  const NUL: Byte := 0 as char
  const FormFeed: Byte := 12 as char

  /**
   * The kind of a token. Every character without a multi-character form is its own
   * kind (the C program uses the character's code, below TOKEN_eof = 256); the
   * named kinds are the enumerators of `enum token`.
   */
  datatype TokenKind =
    | Single(c: Byte)
    | Eof
    | ParseError
    | Id
    | IntNumber
    | RealNumber
    | CharNumber
    | StringText
      // Types
    | CharKw
    | IntKw
    | FloatKw
    | StringKw
      // Control
    | IfKw
    | ElseKw
    | ForKw
    | ReturnKw
      // Operators
    | DoubleColon
    | ColonEq
    | PlusEq
    | MinusEq
    | MulEq
    | DivEq
    | ModEq
    | PlusPlus
    | MinusMinus
    | Arrow
    | Eq
    | NotEq
    | LessEq
    | MoreEq
    | AndAnd
    | OrOr
    | Inline

  predicate IsWhitespace(c: Byte) {
    c == ' ' || c == '\t' || c == '\r' || c == '\n' || c == FormFeed
  }

  predicate IsUppercase(c: Byte) {
    'A' <= c <= 'Z'
  }

  predicate IsLowercase(c: Byte) {
    'a' <= c <= 'z'
  }

  predicate IsLetter(c: Byte) {
    IsUppercase(c) || IsLowercase(c) || c == '_'
  }

  predicate IsDigit(c: Byte) {
    '0' <= c <= '9'
  }

  predicate IsSymbol(c: Byte) {
    IsLetter(c) || IsDigit(c)
  }

  /**
   * The classes the lexer dispatches on are disjoint where its tests rely on it: a
   * byte starts either an identifier or a number, and neither a symbol byte nor the
   * NUL is skipped as whitespace.
   */
  lemma CharacterClasses(c: Byte)
    ensures IsLetter(c) ==> !IsDigit(c)
    ensures IsSymbol(c) || c == NUL ==> !IsWhitespace(c)
    ensures !(IsUppercase(c) && IsLowercase(c))
  {
  }

  /** The four declared-type keywords. */
  predicate IsType(k: TokenKind) {
    k == CharKw || k == IntKw || k == FloatKw || k == StringKw
  }

  /**
   * The operators the C program lists as binary (transpiler.cpp:284-288). The parser
   * never calls it; it decides by precedence instead, which also admits `=`.
   */
  predicate IsBinaryOperator(k: TokenKind) {
    k == Single('+') || k == Single('-') || k == Single('*') || k == Single('/') || k == Single('%')
    || k == Single('<') || k == Single('>') || k == Eq || k == NotEq || k == LessEq || k == MoreEq
    || k == AndAnd || k == OrOr
  }

  predicate IsKeyword(k: TokenKind) {
    IsType(k) || k == IfKw || k == ElseKw || k == ForKw || k == ReturnKw
  }

  /** The type keywords are keywords, and no keyword is an operator. */
  lemma KeywordClasses(k: TokenKind)
    ensures IsType(k) ==> IsKeyword(k)
    ensures IsKeyword(k) ==> !IsTwoCharOperator(k) && !IsBinaryOperator(k) && !k.Single?
  {
  }

  /** The spelling of each keyword kind. */
  function KeywordText(k: TokenKind): (s: seq<Byte>)
    requires IsKeyword(k)
    ensures |s| >= 2 && forall i :: 0 <= i < |s| ==> IsLowercase(s[i])
  {
    match k
    case CharKw => "char"
    case IntKw => "int"
    case FloatKw => "float"
    case StringKw => "string"
    case IfKw => "if"
    case ElseKw => "else"
    case ForKw => "for"
    case ReturnKw => "return"
  }

  /** The keywords, in the order MatchToken compares them (transpiler.cpp:214-245). */
  const Keywords: seq<TokenKind> := [CharKw, IntKw, FloatKw, StringKw, IfKw, ElseKw, ForKw, ReturnKw]

  /** Every entry of a keyword table is a keyword kind. */
  predicate AllKeywords(table: seq<TokenKind>) {
    forall i :: 0 <= i < |table| ==> IsKeyword(table[i])
  }

  /**
   * Classifies the text of an identifier (MatchToken, transpiler.cpp:212-247): the
   * first keyword in `Keywords` that it spells, otherwise `Id`.
   */
  function MatchToken(text: seq<Byte>): (k: TokenKind)
    ensures k == Id || (IsKeyword(k) && KeywordText(k) == text)
  {
    MatchIn(text, Keywords)
  }

  /** The string comparisons of MatchToken against the keywords of `table`, in order. */
  function MatchIn(text: seq<Byte>, table: seq<TokenKind>): (k: TokenKind)
    requires AllKeywords(table)
    ensures k == Id || (k in table && KeywordText(k) == text)
  {
    if table == [] then Id
    else if KeywordText(table[0]) == text then table[0]
    else MatchIn(text, table[1..])
  }

  /** `Keywords` lists every keyword kind. */
  lemma KeywordsComplete(k: TokenKind)
    requires IsKeyword(k)
    ensures k in Keywords
  {
  }

  /** Text that classifies as `Id` against a table spells none of its keywords. */
  lemma {:induction false} MatchInMisses(text: seq<Byte>, table: seq<TokenKind>, k: TokenKind)
    requires AllKeywords(table) && MatchIn(text, table) == Id && k in table
    ensures KeywordText(k) != text
  {
    if table[0] != k {
      MatchInMisses(text, table[1..], k);
    }
  }

  /** MatchToken answers `Id` exactly for text that spells no keyword. */
  lemma MatchTokenIdIffNoKeyword(text: seq<Byte>)
    ensures MatchToken(text) == Id <==> forall k :: IsKeyword(k) ==> KeywordText(k) != text
  {
    if MatchToken(text) == Id {
      forall k | IsKeyword(k)
        ensures KeywordText(k) != text
      {
        KeywordsComplete(k);
        MatchInMisses(text, Keywords, k);
      }
    }
  }

  /**
   * The two-character operator that starts with `c` and continues with `d`, if any
   * (the `case` arms of GetToken, transpiler.cpp:388-550).
   */
  function TwoCharKind(c: Byte, d: Byte): (k: Option<TokenKind>)
    ensures k.Some? ==> IsTwoCharOperator(k.value) && OperatorText(k.value) == [c, d]
  {
    match c
    case ':' => if d == ':' then Some(DoubleColon) else if d == '=' then Some(ColonEq) else None
    case '+' => if d == '+' then Some(PlusPlus) else if d == '=' then Some(PlusEq) else None
    case '-' =>
      if d == '-' then Some(MinusMinus) else if d == '=' then Some(MinusEq)
      else if d == '>' then Some(Arrow) else None
    case '*' => if d == '=' then Some(MulEq) else None
    case '/' => if d == '=' then Some(DivEq) else None
    case '%' => if d == '=' then Some(ModEq) else None
    case '=' => if d == '=' then Some(Eq) else None
    case '!' => if d == '=' then Some(NotEq) else None
    case '<' => if d == '=' then Some(LessEq) else if d == '>' then Some(Inline) else None
    case '>' => if d == '=' then Some(MoreEq) else None
    case '|' => if d == '|' then Some(OrOr) else None
    case '&' => if d == '&' then Some(AndAnd) else None
    case _ => None
  }

  /** The kinds GetToken produces from two characters. */
  predicate IsTwoCharOperator(k: TokenKind) {
    k in {DoubleColon, ColonEq, PlusEq, MinusEq, MulEq, DivEq, ModEq, PlusPlus, MinusMinus, Arrow,
          Eq, NotEq, LessEq, MoreEq, AndAnd, OrOr, Inline}
  }

  /** The source spelling of each two-character operator. */
  function OperatorText(k: TokenKind): (s: seq<Byte>)
    requires IsTwoCharOperator(k)
    ensures |s| == 2
  {
    match k
    case DoubleColon => "::"
    case ColonEq => ":="
    case PlusEq => "+="
    case MinusEq => "-="
    case MulEq => "*="
    case DivEq => "/="
    case ModEq => "%="
    case PlusPlus => "++"
    case MinusMinus => "--"
    case Arrow => "->"
    case Eq => "=="
    case NotEq => "!="
    case LessEq => "<="
    case MoreEq => ">="
    case AndAnd => "&&"
    case OrOr => "||"
    case Inline => "<>"
  }

  /** Every two-character operator is recognised from its own spelling. */
  lemma TwoCharKindRecognisesSpelling(k: TokenKind)
    requires IsTwoCharOperator(k)
    ensures TwoCharKind(OperatorText(k)[0], OperatorText(k)[1]) == Some(k)
  {
  }
}
