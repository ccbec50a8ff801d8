/**
 * What one call of GetToken does, as pure functions of the input buffer and the
 * cursor (transpiler.cpp:88-576). The imperative lexer in lexer.dfy is proved
 * against `Advance`; the parser specification in parser_spec.dfy is written with it.
 *
 * Reads that the C code makes past the end of the buffer (`ParsePoint[1]` in the
 * comment tests, `ParsePoint[Length]` in the identifier loop, the character after
 * a quote or a backslash) read NUL here: see `At`.
 */
module LexerSpec {

  import opened Wrappers
  import opened Tokens

  /** The byte at offset `i`, or NUL at or past the end of the buffer. */
  function At(input: seq<Byte>, i: int): Byte {
    if 0 <= i < |input| then input[i] else NUL
  }

  predicate IsLineBreak(c: Byte) {
    c == '\r' || c == '\n'
  }

  /** A line or block comment opener (slash-slash or slash-star) starts at `q`. */
  predicate OpensComment(input: seq<Byte>, q: nat) {
    q < |input| && input[q] == '/' && (At(input, q + 1) == '/' || At(input, q + 1) == '*')
  }

  /** A block comment closer (star-slash) starts at `q`. */
  predicate ClosesComment(input: seq<Byte>, q: nat) {
    q < |input| && input[q] == '*' && At(input, q + 1) == '/'
  }

  /** The first offset at or after `p` that is not whitespace. */
  function WhitespaceEnd(input: seq<Byte>, p: nat): (q: nat)
    ensures p <= q && (q <= |input| || q == p)
    ensures q < |input| ==> !IsWhitespace(input[q])
    decreases |input| - p
  {
    if p < |input| && IsWhitespace(input[p]) then WhitespaceEnd(input, p + 1) else p
  }

  /** The first offset at or after `p` holding a line break, or the end. */
  function LineCommentEnd(input: seq<Byte>, p: nat): (q: nat)
    ensures p <= q && (q <= |input| || q == p)
    ensures q < |input| ==> IsLineBreak(input[q])
    decreases |input| - p
  {
    if p < |input| && !IsLineBreak(input[p]) then LineCommentEnd(input, p + 1) else p
  }

  /** The first offset at or after `p` where a block comment closer starts, or the end. */
  function BlockCommentEnd(input: seq<Byte>, p: nat): (q: nat)
    ensures p <= q && (q <= |input| || q == p)
    ensures q < |input| ==> ClosesComment(input, q)
    decreases |input| - p
  {
    if p < |input| && !ClosesComment(input, p) then BlockCommentEnd(input, p + 1) else p
  }

  /** Everything `WhitespaceEnd` steps over is whitespace. */
  lemma {:induction false} WhitespaceEndSkipsWhitespace(input: seq<Byte>, p: nat, k: nat)
    requires p <= k < WhitespaceEnd(input, p)
    ensures k < |input| && IsWhitespace(input[k])
    decreases |input| - p
  {
    if k > p {
      WhitespaceEndSkipsWhitespace(input, p + 1, k);
    }
  }

  /** A line comment never extends over a line break. */
  lemma {:induction false} LineCommentEndSkipsNoBreak(input: seq<Byte>, p: nat, k: nat)
    requires p <= k < LineCommentEnd(input, p)
    ensures k < |input| && !IsLineBreak(input[k])
    decreases |input| - p
  {
    if k > p {
      LineCommentEndSkipsNoBreak(input, p + 1, k);
    }
  }

  /** A block comment ends at the first closer after its opener. */
  lemma {:induction false} BlockCommentEndSkipsNoCloser(input: seq<Byte>, p: nat, k: nat)
    requires p <= k < BlockCommentEnd(input, p)
    ensures k < |input| && !ClosesComment(input, k)
    decreases |input| - p
  {
    if k > p {
      BlockCommentEndSkipsNoCloser(input, p + 1, k);
    }
  }

  /** Where the skipping loop of GetToken stops. */
  datatype Trivia = Skipped(at: nat) | OpenComment(start: nat)

  /**
   * The skipping loop of GetToken (transpiler.cpp:295-331): whitespace, line comments
   * up to the line break, and block comments. It stops at the first byte that is
   * neither, or reports the start of a block comment that is never closed.
   */
  function SkipTrivia(input: seq<Byte>, p: nat): (t: Trivia)
    ensures t.Skipped? ==> p <= t.at && (t.at <= |input| || t.at == p)
    ensures t.Skipped? && t.at < |input| ==> !IsWhitespace(input[t.at]) && !OpensComment(input, t.at)
    ensures t.OpenComment? ==> p <= t.start && t.start + 2 <= |input|
    ensures t.OpenComment? ==> input[t.start] == '/' && input[t.start + 1] == '*'

    decreases |input| - p
  {
    var q := WhitespaceEnd(input, p);
    if q < |input| && input[q] == '/' && At(input, q + 1) == '/' then
      SkipTrivia(input, LineCommentEnd(input, q))
    else if q < |input| && input[q] == '/' && At(input, q + 1) == '*' then
      var e := BlockCommentEnd(input, q + 2);
      if e >= |input| then OpenComment(q) else SkipTrivia(input, e + 2)
    else
      Skipped(q)
  }

  /** After a line comment the skipping loop starts over at the line break. */
  lemma {:induction false} SkipTriviaPastLineComment(input: seq<Byte>, p: nat, q: nat, r: nat)
    requires q == WhitespaceEnd(input, p) && q < |input| && input[q] == '/' && At(input, q + 1) == '/'
    requires r == LineCommentEnd(input, q)
    ensures SkipTrivia(input, p) == SkipTrivia(input, r)
  {
  }

  /** After a closed block comment the skipping loop starts over past its closer. */
  lemma {:induction false} SkipTriviaPastBlockComment(input: seq<Byte>, p: nat, q: nat, r: nat)
    requires q == WhitespaceEnd(input, p) && q < |input| && input[q] == '/' && At(input, q + 1) == '*'
    requires BlockCommentEnd(input, q + 2) < |input| && r == BlockCommentEnd(input, q + 2) + 2
    ensures SkipTrivia(input, p) == SkipTrivia(input, r)
  {
  }

  /**
   * The parse error for an unclosed block comment is right: no closer follows its
   * opener anywhere in the rest of the buffer.
   */
  lemma {:induction false} OpenCommentIsUnclosed(input: seq<Byte>, p: nat, k: nat)
    requires SkipTrivia(input, p).OpenComment? && SkipTrivia(input, p).start + 2 <= k < |input|
    ensures !ClosesComment(input, k)
    decreases |input| - p
  {
    var q := WhitespaceEnd(input, p);
    if q < |input| && input[q] == '/' && At(input, q + 1) == '/' {
      OpenCommentIsUnclosed(input, LineCommentEnd(input, q), k);
    } else {
      var e := BlockCommentEnd(input, q + 2);
      if e >= |input| {
        BlockCommentEndSkipsNoCloser(input, q + 2, k);
      } else {
        OpenCommentIsUnclosed(input, e + 2, k);
      }
    }
  }

  /** What a token leaves in the lexer besides its kind and span. */
  datatype Payload =
    | NoPayload
      /** Bytes written to the scratch buffer from index 0, and the new StringLength if it is set. */
    | Scratch(written: seq<Byte>, newLength: Option<nat>)
      /** The new IntNumber. */
    | IntValue(n: nat)
      /** The characters strtod reads; the real value itself is not modelled. */
    | RealValue(lexeme: seq<Byte>)

  /** The outcome of one GetToken call. */
  datatype Scanned =
    | AtEnd
    | Token(kind: TokenKind, first: nat, last: int, payload: Payload)

  /** Scratch writes stay inside a buffer of `cap` bytes. */
  predicate Fits(r: Scanned, cap: nat) {
    r.Token? && r.payload.Scratch? ==>
      |r.payload.written| <= cap
      && (r.payload.newLength.Some? ==> r.payload.newLength.value <= |r.payload.written|)
  }

  /** The first offset at or after `p` that is not a letter, digit or underscore. */
  function SymbolEnd(input: seq<Byte>, p: nat): (e: nat)
    ensures p <= e && (e <= |input| || e == p)
    ensures !IsSymbol(At(input, e))
    decreases |input| - p
  {
    if p < |input| && IsSymbol(input[p]) then SymbolEnd(input, p + 1) else p
  }

  /** Everything `SymbolEnd` steps over is a letter, digit or underscore. */
  lemma {:induction false} SymbolEndSkipsSymbols(input: seq<Byte>, p: nat, k: nat)
    requires p <= k < SymbolEnd(input, p)
    ensures k < |input| && IsSymbol(input[k])
    decreases |input| - p
  {
    if k > p {
      SymbolEndSkipsSymbols(input, p + 1, k);
    }
  }

  /**
   * An identifier or keyword starting at `q` (transpiler.cpp:342-360). The text is
   * copied into the scratch buffer with a NUL after it and StringLength counts that
   * NUL; a run that would reach the end of the buffer is a parse error.
   */
  function ScanIdentifier(input: seq<Byte>, q: nat, cap: nat): (r: Scanned)
    requires q < |input| && IsLetter(input[q]) && cap >= 1
    ensures Fits(r, cap) && r.Token? && r.first == q && q <= r.last < |input|
  {
    var len := SymbolEnd(input, q + 1) - q;
    if len >= cap then
      Token(ParseError, q, q + cap - 1, Scratch(input[q..q + cap - 1], Some(0)))
    else
      var name := input[q..q + len];
      Token(MatchToken(name), q, q + len - 1, Scratch(name + [NUL], Some(len + 1)))
  }

  /** An identifier whose symbol run leaves no room for the NUL is a parse error. */
  lemma ScanIdentifierTooLong(input: seq<Byte>, q: nat, cap: nat)
    requires q < |input| && IsLetter(input[q]) && cap >= 1 && SymbolEnd(input, q + 1) - q >= cap
    ensures ScanIdentifier(input, q, cap) == Token(ParseError, q, q + cap - 1, Scratch(input[q..q + cap - 1], Some(0)))
  {
  }

  /**
   * An identifier that fits is classified by MatchToken, ends where its symbol run
   * ends, and is copied with a NUL after it that StringLength counts.
   */
  lemma ScanIdentifierFits(input: seq<Byte>, q: nat, cap: nat, n: nat)
    requires q < |input| && IsLetter(input[q]) && n == SymbolEnd(input, q + 1) - q && n < cap
    ensures ScanIdentifier(input, q, cap)
      == Token(MatchToken(input[q..q + n]), q, q + n - 1, Scratch(input[q..q + n] + [NUL], Some(n + 1)))
  {
  }

  /** The first offset at or after `p` that is not a decimal digit. */
  function DigitEnd(input: seq<Byte>, p: nat): (e: nat)
    ensures p <= e && (e <= |input| || e == p)
    ensures e < |input| ==> !IsDigit(input[e])
    decreases |input| - p
  {
    if p < |input| && IsDigit(input[p]) then DigitEnd(input, p + 1) else p
  }

  function DigitValue(c: Byte): (d: nat)
    requires IsDigit(c)
    ensures d < 10
  {
    c as int - '0' as int
  }

  /** Everything `DigitEnd` steps over is a decimal digit. */
  lemma {:induction false} DigitEndSkipsDigits(input: seq<Byte>, p: nat, k: nat)
    requires p <= k < DigitEnd(input, p)
    ensures k < |input| && IsDigit(input[k])
    decreases |input| - p
  {
    if k > p {
      DigitEndSkipsDigits(input, p + 1, k);
    }
  }

  /** The digit run from `p` to `DigitEnd`, as a sequence of digits. */
  lemma DigitRun(input: seq<Byte>, p: nat)
    requires p <= |input|
    ensures forall k :: 0 <= k < |input[p..DigitEnd(input, p)]| ==> IsDigit(input[p..DigitEnd(input, p)][k])
  {
    forall k | 0 <= k < |input[p..DigitEnd(input, p)]|
      ensures IsDigit(input[p..DigitEnd(input, p)][k])
    {
      DigitEndSkipsDigits(input, p, p + k);
    }
  }

  /** The value of a run of decimal digits. */
  function DecimalValue(digits: seq<Byte>): nat
    requires forall k :: 0 <= k < |digits| ==> IsDigit(digits[k])
  {
    if digits == [] then 0
    else DecimalValue(digits[..|digits| - 1]) * 10 + DigitValue(digits[|digits| - 1])
  }

  /**
   * Where strtod stops when it reads a real literal whose integer digits end at the
   * `.` at `e`: fraction digits, then an exponent if one with digits follows.
   */
  function RealEnd(input: seq<Byte>, e: nat): (f: nat)
    requires e < |input| && input[e] == '.'
    ensures e < f <= |input|
  {
    var frac := DigitEnd(input, e + 1);
    if At(input, frac) == 'e' || At(input, frac) == 'E' then
      var g := if At(input, frac + 1) == '+' || At(input, frac + 1) == '-' then frac + 2 else frac + 1;
      if IsDigit(At(input, g)) then DigitEnd(input, g) else frac
    else
      frac
  }

  /**
   * A number starting at `q` (transpiler.cpp:361-386): a digit run followed by `.` is
   * a real, otherwise an integer; a digit run that reaches the end of the buffer
   * falls through to a one-character token for its first digit.
   */
  function ScanNumber(input: seq<Byte>, q: nat): (r: Scanned)
    requires q < |input| && IsDigit(input[q])
    ensures r.Token? && r.first == q && q <= r.last < |input|
    ensures DigitEnd(input, q) >= |input| ==> r == Token(Single(input[q]), q, q, NoPayload)
    ensures r.kind == IntNumber ==>
      r.last + 1 == DigitEnd(input, q) && At(input, r.last + 1) != '.'
      && (forall k :: q <= k <= r.last ==> IsDigit(input[k]))
      && r.payload == IntValue(DecimalValue(input[q..r.last + 1]))
    ensures r.kind == RealNumber ==> At(input, DigitEnd(input, q)) == '.' && r.payload == RealValue(input[q..r.last + 1])
    ensures r.kind == IntNumber || r.kind == RealNumber || r.kind == Single(input[q])
  {
    var e := DigitEnd(input, q);
    if e < |input| then
      if input[e] == '.' then
        var f := RealEnd(input, e);
        Token(RealNumber, q, f - 1, RealValue(input[q..f]))
      else
        DigitRun(input, q);
        Token(IntNumber, q, e - 1, IntValue(DecimalValue(input[q..e])))
    else
      Token(Single(input[q]), q, q, NoPayload)
  }

  /**
   * One possibly escaped character at `i` (ParseChar, transpiler.cpp:135-174): the
   * seven escapes decode to one character and advance by two; anything else,
   * including a backslash before another character, is returned as it stands and
   * advances by one.
   */
  function ParseChar(input: seq<Byte>, i: nat): (r: (Byte, nat))
    ensures r.1 == i + 2 <==> IsEscape(input, i)
    ensures r.1 != i + 2 ==> r == (At(input, i), i + 1)
  {
    if At(input, i) == '\\' then
      match At(input, i + 1)
      case '\\' => ('\\', i + 2)
      case '\'' => ('\'', i + 2)
      case '"' => ('"', i + 2)
      case 't' => ('\t', i + 2)
      case 'r' => ('\r', i + 2)
      case 'n' => ('\n', i + 2)
      case 'f' => (FormFeed, i + 2)
      case _ => (At(input, i), i + 1)
    else
      (At(input, i), i + 1)
  }

  /** A backslash followed by one of the seven escape letters. */
  predicate IsEscape(input: seq<Byte>, i: nat) {
    At(input, i) == '\\' && At(input, i + 1) in "\\'\"trnf"
  }

  /** Each of the seven escapes decodes to its character. */
  lemma ParseCharEscapes(input: seq<Byte>, i: nat)
    requires At(input, i) == '\\'
    ensures At(input, i + 1) == '\\' ==> ParseChar(input, i) == ('\\', i + 2)
    ensures At(input, i + 1) == '\'' ==> ParseChar(input, i) == ('\'', i + 2)
    ensures At(input, i + 1) == '"' ==> ParseChar(input, i) == ('"', i + 2)
    ensures At(input, i + 1) == 't' ==> ParseChar(input, i) == ('\t', i + 2)
    ensures At(input, i + 1) == 'r' ==> ParseChar(input, i) == ('\r', i + 2)
    ensures At(input, i + 1) == 'n' ==> ParseChar(input, i) == ('\n', i + 2)
    ensures At(input, i + 1) == 'f' ==> ParseChar(input, i) == (FormFeed, i + 2)
  {
  }

  /** Where the body of a string literal ends. */
  datatype StringScan =
    | Closed(text: seq<Byte>, close: nat)
    | Overflow(text: seq<Byte>, stop: nat)
    | Unterminated(text: seq<Byte>)

  /**
   * The loop of ParseString (transpiler.cpp:181-205) from offset `i`, having decoded
   * `out` so far into a scratch buffer of `cap` bytes. A character is stored only
   * while a byte is left after it for the terminating NUL (the C test,
   * `Output + 1 > OutputEnd`, lets the NUL land one past the buffer: see
   * `DecodeStringAsWritten`). Running out of input is a parse error here; the C loop
   * does not test for the end of the buffer.
   */
  function DecodeString(input: seq<Byte>, i: nat, out: seq<Byte>, cap: nat): (r: StringScan)
    requires |out| < cap
    ensures |r.text| < cap && out <= r.text
    ensures r.Closed? ==> i <= r.close < |input| && input[r.close] == '"'
    ensures r.Overflow? ==> |r.text| == cap - 1 && i < r.stop <= |input|
    decreases |input| - i
  {
    if i >= |input| then Unterminated(out)
    else if input[i] == '"' then Closed(out, i)
    else
      var step := if input[i] == '\\' then ParseChar(input, i) else (input[i], i + 1);
      if |out| + 1 >= cap then Overflow(out, step.1)
      else DecodeString(input, step.1, out + [step.0], cap)
  }

  /**
   * The loop of ParseString as written: the test `Output + 1 > OutputEnd` stores a
   * character while one byte of the buffer is left for it, so the text can fill all
   * `cap` bytes and the NUL written after the loop then lands at index `cap`.
   */
  function DecodeStringAsWritten(input: seq<Byte>, i: nat, out: seq<Byte>, cap: nat): (r: StringScan)
    requires |out| <= cap
    ensures |r.text| <= cap && out <= r.text
    decreases |input| - i
  {
    if i >= |input| then Unterminated(out)
    else if input[i] == '"' then Closed(out, i)
    else
      var step := if input[i] == '\\' then ParseChar(input, i) else (input[i], i + 1);
      if |out| + 1 > cap then Overflow(out, step.1)
      else DecodeStringAsWritten(input, step.1, out + [step.0], cap)
  }

  /**
   * With a one-byte buffer, the literal `"a"` is accepted as written, and its
   * terminating NUL needs a second byte; the corrected loop reports the overflow.
   * Whatever the input, the corrected loop leaves room for the NUL.
   */
  lemma DecodeStringAsWrittenOverrunsBuffer()
    ensures var r := DecodeStringAsWritten("a\"", 0, [], 1);
      r == Closed("a", 1) && |r.text + [NUL]| == 2
    ensures DecodeString("a\"", 0, [], 1).Overflow?
  {
    assert DecodeStringAsWritten("a\"", 1, "a", 1) == Closed("a", 1);
  }

  /**
   * Where the correction departs from the source: the two loops agree whenever the
   * text as written leaves a byte of the buffer for the NUL. When the text as written
   * fills all `cap` bytes, whether or not the literal then closes, the corrected loop
   * reports the overflow one character earlier, with the first `cap - 1` characters.
   */
  lemma {:induction false} DecodeStringAgreesBelowCapacity(input: seq<Byte>, i: nat, out: seq<Byte>, cap: nat)
    requires |out| < cap
    ensures |DecodeStringAsWritten(input, i, out, cap).text| < cap ==>
      DecodeString(input, i, out, cap) == DecodeStringAsWritten(input, i, out, cap)
    ensures |DecodeStringAsWritten(input, i, out, cap).text| == cap ==>
      DecodeString(input, i, out, cap).Overflow?
      && DecodeString(input, i, out, cap).text == DecodeStringAsWritten(input, i, out, cap).text[..cap - 1]
    decreases |input| - i
  {
    if i < |input| && input[i] != '"' {
      var step := if input[i] == '\\' then ParseChar(input, i) else (input[i], i + 1);
      if |out| + 1 < cap {
        DecodeStringAgreesBelowCapacity(input, step.1, out + [step.0], cap);
      } else {
        var w := DecodeStringAsWritten(input, step.1, out + [step.0], cap);
        assert out + [step.0] <= w.text;
        assert w.text[..cap - 1] == out;
      }
    }
  }

  /** One step of DecodeString past a byte that is neither the end nor the closing quote. */
  lemma DecodeStringStep(input: seq<Byte>, i: nat, out: seq<Byte>, cap: nat, c: Byte, next: nat)
    requires i < |input| && input[i] != '"' && |out| < cap
    requires (c, next) == if input[i] == '\\' then ParseChar(input, i) else (input[i], i + 1)
    ensures |out| + 1 >= cap ==> DecodeString(input, i, out, cap) == Overflow(out, next)
    ensures |out| + 1 < cap ==> DecodeString(input, i, out, cap) == DecodeString(input, next, out + [c], cap)
  {
  }

  /**
   * A string literal whose body starts at `start`, just after the opening quote
   * (transpiler.cpp:176-210). The decoded text and a NUL go to the scratch buffer,
   * StringLength counting the NUL; the token spans from `start` to the closing quote.
   */
  function ScanString(input: seq<Byte>, start: nat, cap: nat): (r: Scanned)
    requires 1 <= start <= |input| && cap >= 1
    ensures Fits(r, cap) && r.Token? && r.first == start && start <= r.last + 1 <= |input| + 1
    ensures r.kind == StringText || r.kind == ParseError
    ensures r.kind == StringText <==> DecodeString(input, start, [], cap).Closed?
    ensures r.kind == StringText ==>
      var text := DecodeString(input, start, [], cap).text;
      0 <= r.last < |input| && input[r.last] == '"' && r.payload == Scratch(text + [NUL], Some(|text| + 1))
  {
    match DecodeString(input, start, [], cap)
    case Closed(t, c) => Token(StringText, start, c, Scratch(t + [NUL], Some(|t| + 1)))
    case Overflow(t, f) => Token(ParseError, start, f, Scratch(t, None))
    case Unterminated(t) => Token(ParseError, start, |input| - 1, Scratch(t, None))
  }

  /**
   * A character literal at `q` (transpiler.cpp:558-573): IntNumber receives the
   * decoded character even when the closing quote is missing.
   */
  function ScanCharLiteral(input: seq<Byte>, q: nat): (r: Scanned)
    requires q < |input| && input[q] == '\''
    ensures r.Token? && r.first == q && q + 2 <= r.last <= |input| + 1
    ensures r.payload == IntValue(ParseChar(input, q + 1).0 as nat)
    ensures r.kind == CharNumber <==> r.last < |input| && input[r.last] == '\''
    ensures r.kind == CharNumber || r.kind == ParseError
  {
    var c := ParseChar(input, q + 1);
    if c.1 == |input| || At(input, c.1) != '\'' then Token(ParseError, q, c.1, IntValue(c.0 as nat))
    else Token(CharNumber, q, c.1, IntValue(c.0 as nat))
  }

  /**
   * An operator or any other character at `q` (transpiler.cpp:385-550): a
   * two-character operator when a second character exists before the end of the
   * buffer and completes one, otherwise a token whose kind is the character itself.
   */
  function ScanOperator(input: seq<Byte>, q: nat): (r: Scanned)
    requires q < |input|
    ensures r.Token? && r.first == q && r.payload == NoPayload
    ensures r.last == q + 1 <==> q + 1 < |input| && TwoCharKind(input[q], input[q + 1]).Some?
    ensures r.last == q + 1 ==> r.kind == TwoCharKind(input[q], input[q + 1]).value && OperatorText(r.kind) == input[q..q + 2]
    ensures r.last != q + 1 ==> r.last == q && r.kind == Single(input[q])
  {
    var k := if q + 1 < |input| then TwoCharKind(input[q], input[q + 1]) else None;
    if k.Some? then Token(k.value, q, q + 1, NoPayload) else Token(Single(input[q]), q, q, NoPayload)
  }

  /**
   * One GetToken call from cursor `p` with a scratch buffer of `cap` bytes
   * (transpiler.cpp:290-576): end of file once only trivia remain, a parse error for
   * an unterminated block comment spanning to the last byte, otherwise the token
   * that starts at the first byte the skipping loop stops on.
   */
  function Scan(input: seq<Byte>, p: nat, cap: nat): (r: Scanned)
    requires cap >= 1
    ensures Fits(r, cap)
    ensures r.AtEnd? <==> SkipTrivia(input, p).Skipped? && SkipTrivia(input, p).at >= |input|
    ensures SkipTrivia(input, p).OpenComment? ==>
      r == Token(ParseError, SkipTrivia(input, p).start, |input| - 1, NoPayload)
    ensures r.Token? ==> r.kind != Eof && p <= r.first && p < r.last + 1 <= |input| + 2
  {
    match SkipTrivia(input, p)
    case OpenComment(s) => Token(ParseError, s, |input| - 1, NoPayload)
    case Skipped(q) => if q >= |input| then AtEnd else ScanAt(input, q, cap)
  }

  /**
   * The token that starts at the byte `q` the skipping loop stopped on, chosen by
   * that byte's class (the dispatch of GetToken, transpiler.cpp:338-575).
   */
  function ScanAt(input: seq<Byte>, q: nat, cap: nat): (r: Scanned)
    requires q < |input| && cap >= 1
    ensures Fits(r, cap) && r.Token? && r.kind != Eof && r.first >= q && q < r.last + 1 <= |input| + 2
  {
    if IsLetter(input[q]) then ScanIdentifier(input, q, cap)
    else if IsDigit(input[q]) then ScanNumber(input, q)
    else if input[q] == '"' then ScanString(input, q + 1, cap)
    else if input[q] == '\'' then ScanCharLiteral(input, q)
    else ScanOperator(input, q)
  }

  /** The fields of `struct lexer` that GetToken reads or writes, as one value. */
  datatype LexState = LexState(
    input: seq<Byte>,       // InputStream .. EndOfFile
    pos: nat,               // ParsePoint
    token: TokenKind,       // Token
    first: int,             // FirstChar
    last: int,              // LastChar
    intNumber: nat,         // IntNumber
    realLexeme: seq<Byte>,  // stands for RealNumber
    scratch: seq<Byte>,     // StringStorage[0 .. StringStorageLength)
    strLen: nat             // StringLength
  )

  /** The cursor is at most two past the end, and the scratch buffer holds a NUL at least. */
  predicate LexValid(s: LexState) {
    s.pos <= |s.input| + 2 && 1 <= |s.scratch| && s.strLen <= |s.scratch|
  }

  /** InitLexer: the cursor at the start; fields the C code leaves uninitialised start empty. */
  function InitLexer(input: seq<Byte>, cap: nat): (s: LexState)
    requires cap >= 1
    ensures LexValid(s) && s.pos == 0 && s.input == input && |s.scratch| == cap
  {
    LexState(input, 0, Eof, 0, 0, 0, [], seq(cap, _ => NUL), 0)
  }

  /** The text the last identifier or string token left for interning: String[0 .. StringLength). */
  function StringValue(s: LexState): seq<Byte>
    requires LexValid(s)
  {
    s.scratch[..s.strLen]
  }

  /**
   * A measure that every GetToken call from a token other than end-of-file lowers:
   * the cursor only moves forward, and end-of-file leaves it where it is.
   */
  function Rank(s: LexState): nat
    requires LexValid(s)
  {
    2 * (|s.input| + 2 - s.pos) + (if s.token == Eof then 0 else 1)
  }

  /**
   * Tokenize and the payload writes of one GetToken outcome (transpiler.cpp:120-133):
   * at the end only the token kind changes; otherwise the span is recorded, the
   * cursor ends one past the token's last character, and the payload fields are
   * written.
   */
  function Apply(r: Scanned, s: LexState): (t: LexState)
    requires LexValid(s) && Fits(r, |s.scratch|)
    requires r.Token? ==> r.kind != Eof && s.pos < r.last + 1 <= |s.input| + 2
    ensures LexValid(t) && t.input == s.input && |t.scratch| == |s.scratch|
    ensures r.AtEnd? ==> t == s.(token := Eof)
    ensures r.Token? ==> t.token == r.kind && t.first == r.first && t.last == r.last && t.pos == r.last + 1
    ensures Rank(t) <= Rank(s) && (s.token != Eof || r.Token? ==> Rank(t) < Rank(s))
  {
    match r
    case AtEnd => s.(token := Eof)
    case Token(k, f, l, pl) =>
      var t := s.(token := k, first := f, last := l, pos := l + 1);
      match pl
      case NoPayload => t
      case Scratch(w, n) =>
        t.(scratch := w + s.scratch[|w|..], strLen := if n.Some? then n.value else s.strLen)
      case IntValue(v) => t.(intNumber := v)
      case RealValue(x) => t.(realLexeme := x)
  }

  /** A buffer whose first `n` bytes are `w` and whose others are those of `before`. */
  lemma Overwritten(buffer: seq<Byte>, w: seq<Byte>, before: seq<Byte>)
    requires |buffer| == |before| && |w| <= |buffer|
    requires forall k :: 0 <= k < |w| ==> buffer[k] == w[k]
    requires forall k :: |w| <= k < |buffer| ==> buffer[k] == before[k]
    ensures buffer == w + before[|w|..]
  {
  }

  /** Applying a token that writes the scratch buffer and sets StringLength. */
  lemma ApplyScratchToken(s: LexState, k: TokenKind, f: nat, l: int, w: seq<Byte>, m: nat)
    requires LexValid(s) && |w| <= |s.scratch| && m <= |w| && k != Eof && s.pos < l + 1 <= |s.input| + 2
    ensures Apply(Token(k, f, l, Scratch(w, Some(m))), s)
      == s.(token := k, first := f, last := l, pos := l + 1, scratch := w + s.scratch[|w|..], strLen := m)
  {
  }

  /** The state an identifier that does not fit in the scratch buffer leaves. */
  lemma ApplyIdentifierOverflow(s: LexState, input: seq<Byte>, q: nat, cap: nat, k: nat)
    requires LexValid(s) && input == s.input && cap == |s.scratch| && k == cap - 1
    requires s.pos <= q < |input| && IsLetter(input[q]) && SymbolEnd(input, q + 1) - q >= cap
    ensures Apply(ScanIdentifier(input, q, cap), s)
      == s.(token := ParseError, first := q, last := q + k, pos := q + k + 1,
            scratch := input[q..q + k] + s.scratch[k..], strLen := 0)
  {
    var w := input[q..q + k];
    assert |w| == k;
    ScanIdentifierTooLong(input, q, cap);
    ApplyScratchToken(s, ParseError, q, q + k, w, 0);
  }

  /** The state an identifier or keyword that fits in the scratch buffer leaves. */
  lemma ApplyIdentifier(s: LexState, input: seq<Byte>, q: nat, cap: nat, n: nat)
    requires LexValid(s) && input == s.input && cap == |s.scratch|
    requires s.pos <= q < |input| && IsLetter(input[q]) && n == SymbolEnd(input, q + 1) - q && n < cap
    ensures Apply(ScanIdentifier(input, q, cap), s)
      == s.(token := MatchToken(input[q..q + n]), first := q, last := q + n - 1, pos := q + n,
            scratch := input[q..q + n] + [NUL] + s.scratch[n + 1..], strLen := n + 1)
  {
    var w := input[q..q + n] + [NUL];
    assert |w| == n + 1;
    ScanIdentifierFits(input, q, cap, n);
    ApplyScratchToken(s, MatchToken(input[q..q + n]), q, q + n - 1, w, n + 1);
  }

  /** The state a closed string literal leaves. */
  lemma ApplyStringClosed(s: LexState, input: seq<Byte>, start: nat, cap: nat, text: seq<Byte>, close: nat)
    requires LexValid(s) && input == s.input && cap == |s.scratch| && s.pos < start <= |input|
    requires DecodeString(input, start, [], cap) == Closed(text, close)
    ensures |text| + 1 <= cap
    ensures Apply(ScanString(input, start, cap), s)
      == s.(token := StringText, first := start, last := close, pos := close + 1,
            scratch := text + [NUL] + s.scratch[|text| + 1..], strLen := |text| + 1)
  {
  }

  /** The state a string literal too long for the scratch buffer leaves. */
  lemma ApplyStringOverflow(s: LexState, input: seq<Byte>, start: nat, cap: nat, text: seq<Byte>, stop: nat)
    requires LexValid(s) && input == s.input && cap == |s.scratch| && s.pos < start <= |input|
    requires DecodeString(input, start, [], cap) == Overflow(text, stop)
    ensures |text| <= cap
    ensures Apply(ScanString(input, start, cap), s)
      == s.(token := ParseError, first := start, last := stop, pos := stop + 1,
            scratch := text + s.scratch[|text|..])
  {
  }

  /** The state a string literal without a closing quote leaves. */
  lemma ApplyStringUnterminated(s: LexState, input: seq<Byte>, start: nat, cap: nat, text: seq<Byte>)
    requires LexValid(s) && input == s.input && cap == |s.scratch| && s.pos < start <= |input|
    requires DecodeString(input, start, [], cap) == Unterminated(text)
    ensures |text| <= cap
    ensures Apply(ScanString(input, start, cap), s)
      == s.(token := ParseError, first := start, last := |input| - 1, pos := |input|,
            scratch := text + s.scratch[|text|..])
  {
  }

  /** The lexer state after one GetToken call. */
  function Advance(s: LexState): (t: LexState)
    requires LexValid(s)
    ensures LexValid(t) && t.input == s.input && |t.scratch| == |s.scratch|
    ensures t.token == Eof <==> Scan(s.input, s.pos, |s.scratch|).AtEnd?
    ensures t.token == Eof ==> t == s.(token := Eof)
    ensures t.token != Eof ==> t.pos == t.last + 1 && s.pos < t.pos && Rank(t) < Rank(s)
    ensures Rank(t) <= Rank(s) && (s.token != Eof ==> Rank(t) < Rank(s))
  {
    Apply(Scan(s.input, s.pos, |s.scratch|), s)
  }

  /**
   * PeekToken (transpiler.cpp:1129-1138): the kind the next GetToken would produce,
   * with ParsePoint and Token put back. The other fields keep what the look-ahead
   * wrote into them.
   */
  function Peek(s: LexState): (r: (TokenKind, LexState))
    requires LexValid(s)
    ensures LexValid(r.1) && r.1.input == s.input && Rank(r.1) == Rank(s)
    ensures r.1.pos == s.pos && r.1.token == s.token && r.0 == Advance(s).token
  {
    var t := Advance(s);
    (t.token, t.(pos := s.pos, token := s.token))
  }

  /** A line number and a column, as GetLocation reports them. */
  datatype Location = Location(line: int, column: int)

  /**
   * GetLocation treats `\r\n` and `\n\r` as one break: it compares the sum of the
   * two bytes with `'\r' + '\n'`, which at a break holds exactly when the next byte
   * is the other break character.
   */
  predicate IsBreakPair(input: seq<Byte>, p: nat)
    requires p < |input|
    ensures IsLineBreak(input[p]) ==>
      (IsBreakPair(input, p) <==> p + 1 < |input| && IsLineBreak(input[p + 1]) && input[p + 1] != input[p])
  {
    input[p] as int + At(input, p + 1) as int == '\r' as int + '\n' as int
  }

  /**
   * The scan of GetLocation (transpiler.cpp:97-118) from offset `p` with the counts
   * so far: it stops at a NUL or once past `target`.
   */
  function LocationFrom(input: seq<Byte>, p: nat, target: int, line: int, column: int): (r: Location)
    ensures r.line >= line && (column >= 0 ==> r.column >= 0)
    decreases |input| - p
  {
    if At(input, p) == NUL || p > target then Location(line, column)
    else if IsLineBreak(input[p]) then
      LocationFrom(input, p + (if IsBreakPair(input, p) then 2 else 1), target, line + 1, 0)
    else
      LocationFrom(input, p + 1, target, line, column + 1)
  }

  /** The location of offset `target`: line 1, column 0 at the start of the buffer. */
  function LocationOf(input: seq<Byte>, target: int): (r: Location)
    ensures r.line >= 1 && r.column >= 0
  {
    LocationFrom(input, 0, target, 1, 0)
  }

  /** No NUL among the bytes `lo` to `hi`, inclusive. */
  predicate NoNulBetween(input: seq<Byte>, lo: nat, hi: nat) {
    forall k :: lo <= k <= hi ==> At(input, k) != NUL
  }

  /** No line break among the bytes `lo` to `hi`, inclusive. */
  predicate NoBreakBetween(input: seq<Byte>, lo: nat, hi: int) {
    forall k :: lo <= k <= hi ==> !IsLineBreak(At(input, k))
  }

  /**
   * The line breaks the scan passes from `p` through `target`, a `\r\n` or `\n\r`
   * pair counted once. Like the scan, the count stops at a NUL.
   */
  function Breaks(input: seq<Byte>, p: nat, target: int): nat
    decreases |input| - p
  {
    if At(input, p) == NUL || p > target then 0
    else if IsLineBreak(input[p]) then 1 + Breaks(input, p + (if IsBreakPair(input, p) then 2 else 1), target)
    else Breaks(input, p + 1, target)
  }

  /** The reported location depends only on the bytes up to and including the target. */
  lemma {:induction false} LocationFromPrefix(input: seq<Byte>, p: nat, target: nat, line: int, column: int)
    requires target < |input|
    ensures LocationFrom(input, p, target, line, column) == LocationFrom(input[..target + 1], p, target, line, column)
    decreases |input| - p
  {
    var prefix := input[..target + 1];
    if At(input, p) == NUL || p > target {
    } else if IsLineBreak(input[p]) {
      if p < target {
        assert IsBreakPair(input, p) == IsBreakPair(prefix, p);
        LocationFromPrefix(input, p + (if IsBreakPair(input, p) then 2 else 1), target, line + 1, 0);
      } else {
        LocationFromPrefix(input, p + (if IsBreakPair(input, p) then 2 else 1), target, line + 1, 0);
      }
    } else {
      LocationFromPrefix(input, p + 1, target, line, column + 1);
    }
  }

  /**
   * Within one line the column counts every byte scanned, the target included: with no
   * NUL and no line break from `p` up to the target, the line stays and the column
   * grows by the number of bytes.
   */
  lemma {:induction false} LocationWithinLine(input: seq<Byte>, p: nat, target: nat, line: int, column: int)
    requires p <= target + 1 && NoNulBetween(input, p, target) && NoBreakBetween(input, p, target)
    ensures LocationFrom(input, p, target, line, column) == Location(line, column + target + 1 - p)
    decreases target + 1 - p
  {
    if p <= target {
      LocationWithinLine(input, p + 1, target, line, column + 1);
    }
  }

  /**
   * The first line break the scan meets at or before the target, a lone `\n` or `\r`
   * or a `\r\n` or `\n\r` pair, adds exactly one line and resets the column; the
   * scan goes on after the break.
   */
  lemma {:induction false} LocationAcrossBreak(input: seq<Byte>, p: nat, k: nat, target: nat, line: int, column: int)
    requires p <= k <= target && k < |input| && IsLineBreak(input[k])
    requires NoNulBetween(input, p, k) && NoBreakBetween(input, p, k - 1)
    ensures LocationFrom(input, p, target, line, column)
      == LocationFrom(input, k + (if IsBreakPair(input, k) then 2 else 1), target, line + 1, 0)
    decreases k - p
  {
    if p < k {
      LocationAcrossBreak(input, p + 1, k, target, line, column + 1);
    }
  }

  /**
   * After the last line break at or before the target, at offset `b`, the column is
   * the number of bytes from `b` to the target: 0 when the target is the break itself.
   */
  lemma {:induction false} LocationAfterLastBreak(input: seq<Byte>, p: nat, b: nat, target: nat, line: int, column: int)
    requires p <= b <= target < |input| && IsLineBreak(input[b])
    requires NoNulBetween(input, p, target) && NoBreakBetween(input, b + 1, target)
    ensures LocationFrom(input, p, target, line, column).column == target - b
    decreases b - p
  {
    var next := p + (if IsLineBreak(input[p]) && IsBreakPair(input, p) then 2 else 1);
    if !IsLineBreak(input[p]) {
      LocationAfterLastBreak(input, p + 1, b, target, line, column + 1);
    } else if next > target {
    } else if next <= b {
      LocationAfterLastBreak(input, next, b, target, line + 1, 0);
    } else {
      LocationWithinLine(input, next, target, line + 1, 0);
    }
  }

  /** The line is the first line's number plus every break passed, a pair counted once. */
  lemma {:induction false} LocationCountsBreaks(input: seq<Byte>, p: nat, target: int, line: int, column: int)
    ensures LocationFrom(input, p, target, line, column).line == line + Breaks(input, p, target)
    decreases |input| - p
  {
    if At(input, p) == NUL || p > target {
    } else if IsLineBreak(input[p]) {
      LocationCountsBreaks(input, p + (if IsBreakPair(input, p) then 2 else 1), target, line + 1, 0);
    } else {
      LocationCountsBreaks(input, p + 1, target, line, column + 1);
    }
  }

  /**
   * The loop test `*ParsePoint` stops the scan at the first NUL: a target at or past a
   * NUL at `k` has the location of the byte before it.
   */
  lemma {:induction false} LocationStopsAtNul(input: seq<Byte>, p: nat, k: nat, target: int, line: int, column: int)
    requires p <= k <= target && At(input, k) == NUL
    ensures LocationFrom(input, p, target, line, column) == LocationFrom(input, p, k - 1, line, column)
    decreases k - p
  {
    if At(input, p) != NUL {
      if IsLineBreak(input[p]) {
        LocationStopsAtNul(input, p + (if IsBreakPair(input, p) then 2 else 1), k, target, line + 1, 0);
      } else {
        LocationStopsAtNul(input, p + 1, k, target, line, column + 1);
      }
    }
  }

  /**
   * The inclusive test makes a line break count as soon as it is the target: the
   * location of a line break byte is column 0 of a following line, the next one when
   * no break comes before it.
   */
  lemma LocationOfBreakIsColumnZero(input: seq<Byte>, p: nat, target: nat, line: int, column: int)
    requires p <= target < |input| && IsLineBreak(input[target]) && NoNulBetween(input, p, target)
    ensures LocationFrom(input, p, target, line, column).column == 0
    ensures LocationFrom(input, p, target, line, column).line == line + Breaks(input, p, target)
    ensures NoBreakBetween(input, p, target - 1) ==> LocationFrom(input, p, target, line, column).line == line + 1
  {
    LocationAfterLastBreak(input, p, target, target, line, column);
    LocationCountsBreaks(input, p, target, line, column);
    if NoBreakBetween(input, p, target - 1) {
      LocationAcrossBreak(input, p, target, target, line, column);
    }
  }
}
