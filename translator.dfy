/**
 * The translator (transpiler.cpp:1852-2242): the tree rendered as C text. Each
 * function returns what the C function writes to the output file and whether it
 * returns 1. A failure stops the rendering where it happens; what was written
 * before it stays in the file.
 */
module Translator {

  import opened Wrappers
  import opened Tokens
  import opened LexerSpec
  import opened Ast
  import opened ParserSpec

  /** The text written to the file, and whether the call reported success. */
  datatype Emitted = Emitted(text: seq<Byte>, ok: bool)

  function Ok(text: seq<Byte>): Emitted {
    Emitted(text, true)
  }

  /** Two writes in sequence: the second happens only when the first succeeded. */
  function Then(a: Emitted, b: Emitted): (r: Emitted)
    ensures r.ok <==> a.ok && b.ok
    ensures a.text <= r.text
  {
    if a.ok then Emitted(a.text + b.text, b.ok) else a
  }

  /** The four characters TranslateString writes as two-character escapes. */
  predicate IsFormatting(c: Byte) {
    c == '\n' || c == '\r' || c == '\t' || c == FormFeed
  }

  /**
   * The switch of TranslateString as written (transpiler.cpp:1857-1877) on one byte:
   * `\n`, `\r`, `\t` and `\f` become the escapes ParseChar decodes back into them,
   * and every other byte, `"` and `\` included, is copied as it is.
   */
  function EscapeAsWritten(c: Byte): (r: seq<Byte>)
    ensures IsFormatting(c) ==> |r| == 2 && r[0] == '\\' && ParseChar(r, 0) == (c, 2)
    ensures !IsFormatting(c) ==> r == [c]
  {
    match c
    case '\n' => "\\n"
    case '\r' => "\\r"
    case '\t' => "\\t"
    case _ => if c == FormFeed then "\\f" else [c]
  }

  /** What TranslateString as written emits for `s`, up to the first NUL. */
  function EscapedTextAsWritten(s: seq<Byte>): (r: seq<Byte>)
    ensures |r| <= 2 * |s|
  {
    if s == [] || s[0] == NUL then [] else EscapeAsWritten(s[0]) + EscapedTextAsWritten(s[1..])
  }

  /**
   * The literal `"a\"b"` decodes to the text `a"b`, and TranslateString as written
   * emits the quote bare: the C literal `"a"b"` then ends after `a`.
   */
  lemma EscapedTextAsWrittenEndsLiteralEarly()
    ensures var s: seq<Byte> := ['a', '"', 'b'];
      var input := ['"'] + EscapedTextAsWritten(s) + ['"'];
      input == ['"', 'a', '"', 'b', '"'] && DecodeString(input, 1, [], 8) == Closed(['a'], 2) && ['a'] != s
  {
    var s: seq<Byte> := ['a', '"', 'b'];
    assert EscapedTextAsWritten(s) == s by {
      assert s[1..] == ['"', 'b'] && s[1..][1..] == ['b'] && s[1..][1..][1..] == [];
    }
    var input := ['"'] + EscapedTextAsWritten(s) + ['"'];
    assert input == ['"', 'a', '"', 'b', '"'];
    assert DecodeString(input, 2, ['a'], 8) == Closed(['a'], 2);
  }

  /** The bytes the corrected TranslateString writes as two-character escapes. */
  predicate NeedsEscape(c: Byte) {
    IsFormatting(c) || c == '"' || c == '\\'
  }

  /**
   * TranslateString's switch with `"` and `\` escaped as well: every escaped byte
   * becomes an escape ParseChar decodes back into it, and the other bytes are copied.
   * On every byte but `"` and `\` it writes what the source writes.
   */
  function Escape(c: Byte): (r: seq<Byte>)
    ensures NeedsEscape(c) ==> |r| == 2 && r[0] == '\\' && ParseChar(r, 0) == (c, 2)
    ensures !NeedsEscape(c) ==> r == [c]
    ensures c != '"' && c != '\\' ==> r == EscapeAsWritten(c)
  {
    match c
    case '"' => "\\\""
    case '\\' => "\\\\"
    case _ => EscapeAsWritten(c)
  }

  /**
   * The other direction: a source escape other than `\'` that ParseChar decodes is
   * written back by TranslateString as the same two characters.
   */
  lemma EscapeRestoresSource(input: seq<Byte>, i: nat)
    requires IsEscape(input, i) && At(input, i + 1) in "nrtf\"\\"
    ensures i + 1 < |input| && Escape(ParseChar(input, i).0) == input[i..i + 2]
  {
    ParseCharEscapes(input, i);
    assert input[i..i + 2] == [input[i], input[i + 1]];
  }

  /** What TranslateString writes for `s`: each byte escaped, up to the first NUL. */
  function EscapedText(s: seq<Byte>): (r: seq<Byte>)
    ensures NUL !in r && |r| <= 2 * |s|
  {
    if s == [] || s[0] == NUL then [] else Escape(s[0]) + EscapedText(s[1..])
  }

  /** On text without `"` and `\` the correction writes what the source writes. */
  lemma {:induction false} EscapedTextAgreesWithoutQuotes(s: seq<Byte>)
    requires forall k :: 0 <= k < |s| ==> s[k] != '"' && s[k] != '\\'
    ensures EscapedText(s) == EscapedTextAsWritten(s)
  {
    if s != [] && s[0] != NUL {
      EscapedTextAgreesWithoutQuotes(s[1..]);
    }
  }

  /** Text without NUL and without a byte that needs an escape is written unchanged. */
  lemma {:induction false} EscapedTextKeepsPlainText(s: seq<Byte>)
    requires forall k :: 0 <= k < |s| ==> !NeedsEscape(s[k]) && s[k] != NUL
    ensures EscapedText(s) == s
  {
    if s != [] {
      EscapedTextKeepsPlainText(s[1..]);
      assert s == [s[0]] + s[1..];
    }
  }

  /** TranslateString (transpiler.cpp:1852-1882), with the corrected switch. */
  method TranslateString(s: seq<Byte>) returns (out: seq<Byte>)
    ensures out == EscapedText(s)
  {
    out := [];
    var i := 0;
    while i < |s| && s[i] != NUL
      invariant 0 <= i <= |s|
      invariant out + EscapedText(s[i..]) == EscapedText(s)
    {
      assert s[i..][1..] == s[i + 1..];
      assert EscapedText(s[i..]) == Escape(s[i]) + EscapedText(s[i + 1..]);
      out := out + Escape(s[i]);
      i := i + 1;
    }
  }

  /** A string the lexer decodes back from its translation: one without NUL. */
  predicate Reescapable(s: seq<Byte>) {
    forall k :: 0 <= k < |s| ==> s[k] != NUL
  }

  /**
   * Where the translation of `s` sits in the lexer's input, ParseString's loop reads
   * `s` back from it and stops right after it.
   */
  lemma {:induction false} DecodeEscapedText(input: seq<Byte>, i: nat, j: nat, s: seq<Byte>, out: seq<Byte>, cap: nat)
    requires Reescapable(s) && |out| + |s| < cap
    requires i <= j <= |input| && input[i..j] == EscapedText(s)
    ensures DecodeString(input, i, out, cap) == DecodeString(input, j, out + s, cap)
    decreases s
  {
    if s != [] {
      var n := DecodeFirstEscaped(input, i, j, s, out, cap);
      DecodeEscapedText(input, n, j, s[1..], out + [s[0]], cap);
      AppendFirst(out, s);
    } else {
      assert out + s == out;
    }
  }

  /** The first character of a translated text decodes back, and the rest follows it. */
  lemma DecodeFirstEscaped(input: seq<Byte>, i: nat, j: nat, s: seq<Byte>, out: seq<Byte>, cap: nat)
    returns (n: nat)
    requires s != [] && Reescapable(s) && |out| + |s| < cap
    requires i <= j <= |input| && input[i..j] == EscapedText(s)
    ensures Reescapable(s[1..]) && |out + [s[0]]| + |s[1..]| < cap
    ensures i <= n <= j && input[n..j] == EscapedText(s[1..])
    ensures DecodeString(input, i, out, cap) == DecodeString(input, n, out + [s[0]], cap)
  {
    var e := Escape(s[0]);
    n := i + |e|;
    SplitSlice(input, i, j, e, EscapedText(s[1..]));
    DecodeEscapedChar(input, i, s[0], out, cap);
  }

  /** One character of the translation decodes back into that character. */
  lemma DecodeEscapedChar(input: seq<Byte>, i: nat, c: Byte, out: seq<Byte>, cap: nat)
    requires c != NUL && |out| + 1 < cap
    requires i + |Escape(c)| <= |input| && input[i..i + |Escape(c)|] == Escape(c)
    ensures DecodeString(input, i, out, cap) == DecodeString(input, i + |Escape(c)|, out + [c], cap)
  {
    var e := Escape(c);
    if NeedsEscape(c) {
      assert input[i] == e[0] && input[i + 1] == e[1];
      ParseCharEscapes(input, i);
    } else {
      assert input[i] == e[0];
    }
    DecodeStringStep(input, i, out, cap, c, i + |e|);
  }

  lemma SplitSlice(input: seq<Byte>, i: nat, j: nat, x: seq<Byte>, y: seq<Byte>)
    requires i <= j <= |input| && input[i..j] == x + y
    ensures input[i..i + |x|] == x && input[i + |x|..j] == y
  {
    assert input[i..i + |x|] == input[i..j][..|x|];
    assert input[i + |x|..j] == input[i..j][|x|..];
  }

  lemma AppendFirst(out: seq<Byte>, s: seq<Byte>)
    requires s != []
    ensures out + [s[0]] + s[1..] == out + s
  {
    assert s == [s[0]] + s[1..];
  }

  /**
   * A string literal the translator writes is lexed back into the same text, when
   * that text holds no NUL and fits the lexer's buffer.
   */
  lemma StringLiteralRoundTrip(s: seq<Byte>, cap: nat)
    requires Reescapable(s) && |s| + 1 < cap
    ensures var input := ['"'] + EscapedText(s) + ['"'];
      DecodeString(input, 1, [], cap) == Closed(s, |input| - 1)
      && ScanString(input, 1, cap).kind == StringText
  {
    var input := ['"'] + EscapedText(s) + ['"'];
    assert input[1..|input| - 1] == EscapedText(s);
    DecodeEscapedText(input, 1, |input| - 1, s, [], cap);
    assert [] + s == s;
  }

  /** TranslateType (transpiler.cpp:1884-1910): nothing is written for a non-type. */
  function TypeText(t: TokenKind): (r: seq<Byte>)
    ensures r == [] <==> !IsType(t)
  {
    if t == CharKw then "char "
    else if t == IntKw then "int "
    else if t == FloatKw then "float "
    else if t == StringKw then "char* "
    else []
  }

  /** The operators TranslateOperator has a spelling for besides single characters. */
  predicate HasSpelling(op: TokenKind) {
    op in {PlusEq, MinusEq, MulEq, DivEq, ModEq, Eq, NotEq, LessEq, MoreEq, AndAnd, OrOr}
  }

  /**
   * TranslateOperator (transpiler.cpp:1912-1973): a single-character token is written
   * as that character; the assignment and comparison operators as their source
   * spelling; any other kind fails and writes nothing.
   */
  function TranslateOperator(op: TokenKind): (r: Emitted)
    ensures r.ok <==> op.Single? || HasSpelling(op)
    ensures op.Single? ==> r.text == [op.c]
    ensures HasSpelling(op) ==> IsTwoCharOperator(op) && r.text == OperatorText(op)
    ensures !r.ok ==> r.text == []
  {
    match op
    case Single(c) => Ok([c])
    case PlusEq => Ok("+=")
    case MinusEq => Ok("-=")
    case MulEq => Ok("*=")
    case DivEq => Ok("/=")
    case ModEq => Ok("%=")
    case Eq => Ok("==")
    case NotEq => Ok("!=")
    case LessEq => Ok("<=")
    case MoreEq => Ok(">=")
    case AndAnd => Ok("&&")
    case OrOr => Ok("||")
    case _ => Emitted([], false)
  }

  /**
   * Every operator the parser puts in a tree is written back in a spelling the
   * lexer reads as the same token.
   */
  lemma OperatorRoundTrip(op: TokenKind)
    requires Precedence(op) >= 0
    ensures TranslateOperator(op).ok
    ensures op.Single? || TwoCharKind(TranslateOperator(op).text[0], TranslateOperator(op).text[1]) == Some(op)
  {
    if !op.Single? {
      TwoCharKindRecognisesSpelling(op);
    }
  }

  function DigitChar(d: nat): (c: Byte)
    requires d < 10
    ensures IsDigit(c) && DigitValue(c) == d
  {
    ('0' as int + d) as char
  }

  /** `%llu`: the decimal digits of `n`, without leading zeros. */
  function NatToString(n: nat): (r: seq<Byte>)
    ensures |r| >= 1 && (forall k :: 0 <= k < |r| ==> IsDigit(r[k]))
    ensures |r| > 1 ==> r[0] != '0'
  {
    if n < 10 then [DigitChar(n)] else NatToString(n / 10) + [DigitChar(n % 10)]
  }

  /** The lexer reads an integer the translator writes back as the same value. */
  lemma {:induction false} IntegerRoundTrip(n: nat)
    ensures DecimalValue(NatToString(n)) == n
  {
    var r := NatToString(n);
    if n >= 10 {
      IntegerRoundTrip(n / 10);
      assert r[..|r| - 1] == NatToString(n / 10);
    } else {
      assert r[..|r| - 1] == [];
    }
  }

  /**
   * The inline node's loop (transpiler.cpp:2165-2177): the text up to its first NUL
   * with `\r`, `\t` and `\f` dropped.
   */
  function InlineText(s: seq<Byte>): (r: seq<Byte>)
    ensures |r| <= |s|
    ensures forall k :: 0 <= k < |r| ==> r[k] != '\r' && r[k] != '\t' && r[k] != FormFeed && r[k] != NUL
    ensures (forall k :: 0 <= k < |s| ==> s[k] != '\r' && s[k] != '\t' && s[k] != FormFeed && s[k] != NUL) ==> r == s
  {
    if s == [] || s[0] == NUL then []
    else if s[0] == '\r' || s[0] == '\t' || s[0] == FormFeed then InlineText(s[1..])
    else [s[0]] + InlineText(s[1..])
  }

  /**
   * The inline loop keeps every other byte, in order: the text of a concatenation is
   * the concatenation of the texts, as long as the first part holds no NUL.
   */
  lemma {:induction false} InlineTextAppend(a: seq<Byte>, b: seq<Byte>)
    requires NUL !in a
    ensures InlineText(a + b) == InlineText(a) + InlineText(b)
    decreases |a|
  {
    if a != [] {
      assert (a + b)[0] == a[0];
      assert (a + b)[1..] == a[1..] + b;
      assert NUL !in a[1..] by {
        assert forall k :: 0 <= k < |a[1..]| ==> a[1..][k] == a[k + 1];
      }
      InlineTextAppend(a[1..], b);
    } else {
      assert a + b == b;
    }
  }

  /** The inline loop stops at the first NUL: nothing after it is written. */
  lemma InlineTextStopsAtNul(a: seq<Byte>, b: seq<Byte>)
    requires NUL !in a
    ensures InlineText(a + [NUL] + b) == InlineText(a)
  {
    assert a + [NUL] + b == a + ([NUL] + b);
    InlineTextAppend(a, [NUL] + b);
    assert InlineText([NUL] + b) == [];
  }

  /**
   * The nodes that end their line when written as a statement; a literal, a name or a
   * parenthesised expression standing alone is written without `;`.
   */
  predicate IsStatementForm(e: Expr) {
    !(e.CharLit? || e.IntLit? || e.RealLit? || e.StringLit? || e.Ident? || e.Paren?)
  }

  /** `;\n` after a statement, nothing inside an expression. */
  function Terminator(isParent: bool): seq<Byte> {
    if isParent then ";\n" else []
  }

  /** An optional part of a loop header: nothing is written when it is absent. */
  function TranslateOptional(e: Option<Expr>): (r: Emitted)
    decreases e, 1
  {
    if e.Some? then TranslateExpression(e.value, false) else Ok([])
  }

  /**
   * The loops over arguments, parameters and statements: each element in turn,
   * `sep` between two elements, stopping at the first failure.
   */
  function TranslateList(es: seq<Expr>, isParent: bool, sep: seq<Byte>): (r: Emitted)
    ensures r.ok <==> forall i :: 0 <= i < |es| ==> TranslateExpression(es[i], isParent).ok
    decreases es, 0
  {
    if es == [] then Ok([])
    else
      var first := TranslateExpression(es[0], isParent);
      var rest := TranslateList(es[1..], isParent, sep);
      Then(first, Emitted((if |es| > 1 then sep else []) + rest.text, rest.ok))
  }

  /**
   * TranslateExpression (transpiler.cpp:1975-2180). `isParent` marks a statement:
   * declarations and binary expressions then end in `;\n` and calls in `);\n`.
   * Integers are written in decimal; a real literal is written as its source text
   * followed by `f`.
   */
  function TranslateExpression(e: Expr, isParent: bool): (r: Emitted)
    ensures r.ok && isParent && IsStatementForm(e) ==> |r.text| > 0 && r.text[|r.text| - 1] == '\n'
    decreases e, 2
  {
    match e
    case CharLit(c) => Ok("'" + [c] + "'")
    case IntLit(n) => Ok(NatToString(n))
    case RealLit(lexeme) => Ok(lexeme + "f")
    case StringLit(s) => Ok("\"" + EscapedText(s) + "\"")
    case Ident(name) => Ok(name)
    case VarDecl(t, name, init) =>
      var decl := Ok(TypeText(t) + name);
      var withInit := if init.Some? then Then(Ok(decl.text + "="), TranslateExpression(init.value, false)) else decl;
      Then(withInit, Ok(Terminator(isParent)))
    case Paren(inner) => Then(Then(Ok("("), TranslateExpression(inner, false)), Ok(")"))
    case Binary(op, lhs, rhs) =>
      Then(Then(Then(TranslateExpression(lhs, false), TranslateOperator(op)), TranslateExpression(rhs, false)),
           Ok(Terminator(isParent)))
    case Call(name, args) =>
      Then(Then(Ok(name + "("), TranslateList(args, false, ", ")), Ok(if isParent then ");\n" else ")"))
    case If(cond, thenBody, elseBody) =>
      var first := Then(Then(Then(Then(Ok("if("), TranslateExpression(cond, false)), Ok(")\n{\n")),
                             TranslateList(thenBody, true, [])), Ok("}\n"));
      if |elseBody| > 0 then Then(first, Then(Then(Ok("else\n{\n"), TranslateList(elseBody, true, [])), Ok("}\n")))
      else first
    case For(definition, condition, action, body) =>
      var header :=
        if condition.Some? && definition.None? && action.None? then
          Then(Ok("while("), TranslateExpression(condition.value, false))
        else
          Then(Then(Then(Then(Then(Ok("for("), TranslateOptional(definition)), Ok(";")), TranslateOptional(condition)),
                    Ok(";")), TranslateOptional(action));
      Then(Then(Then(header, Ok(")\n{\n")), TranslateList(body, true, [])), Ok("}\n"))
    case Return(result) => Then(Then(Ok("return "), TranslateExpression(result, false)), Ok(";\n"))
    case InlineCode(text) => Ok(InlineText(text) + "\n")
  }

  /**
   * The `IsParent` flag only adds the terminator: a declaration, a binary expression
   * or a call written as a statement is the same text followed by `;\n`, and every
   * other node is written the same either way.
   */
  lemma IsParentAddsTerminator(e: Expr)
    ensures e.VarDecl? || e.Binary? || e.Call? ==>
      TranslateExpression(e, true) == Then(TranslateExpression(e, false), Ok(";\n"))
    ensures e.VarDecl? || e.Binary? || e.Call? ==>
      TranslateExpression(e, false).ok ==> TranslateExpression(e, true).text == TranslateExpression(e, false).text + ";\n"
    ensures !(e.VarDecl? || e.Binary? || e.Call?) ==> TranslateExpression(e, true) == TranslateExpression(e, false)
  {
    match e
    case VarDecl(t, name, init) =>
      var decl := Ok(TypeText(t) + name);
      var withInit := if init.Some? then Then(Ok(decl.text + "="), TranslateExpression(init.value, false)) else decl;
      assert withInit.ok ==> withInit.text + [] == withInit.text;
    case Binary(op, lhs, rhs) =>
      var operands := Then(Then(TranslateExpression(lhs, false), TranslateOperator(op)), TranslateExpression(rhs, false));
      assert operands.ok ==> operands.text + [] == operands.text;
    case Call(name, args) =>
      var head := Then(Ok(name + "("), TranslateList(args, false, ", "));
      assert head.ok ==> head.text + ");\n" == head.text + ")" + ";\n";
    case _ =>
  }

  /**
   * TranslateFunction (transpiler.cpp:2182-2221): a NULL function fails; otherwise
   * the signature, then `);` for a function without statements and the body in
   * braces for one with statements.
   */
  function TranslateFunction(f: Option<Func>): (r: Emitted)
    ensures f.None? ==> !r.ok
  {
    if f.None? then Emitted([], false)
    else
      var fn := f.value;
      var signature := Then(Ok(TypeText(fn.returnType) + fn.name + "("), TranslateList(fn.params, false, ","));
      var rest :=
        if |fn.body| == 0 then Ok(");")
        else Then(Then(Ok(")\n{\n"), TranslateList(fn.body, true, [])), Ok("}"));
      Then(Then(signature, rest), Ok("\n"))
  }

  /** Translate (transpiler.cpp:2223-2242): a top-level expression is a statement. */
  function Translate(u: Unit): (r: Emitted)
    ensures (u.ExprUnit? && u.expr.None?) || (u.FuncUnit? && u.func.None?) ==> !r.ok
  {
    match u
    case ExprUnit(e) => if e.Some? then TranslateExpression(e.value, true) else Emitted([], false)
    case FuncUnit(f) => TranslateFunction(f)
  }
}
