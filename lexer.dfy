/**
 * The lexer object of the C program (`struct lexer` and the functions that update
 * it, transpiler.cpp:60-576 and 1129-1138). Each method is proved against the
 * specification in lexer_spec.dfy: the new `State()` is the specification applied
 * to the old one.
 */
module LexerImpl {

  import opened Wrappers
  import opened Tokens
  import opened LexerSpec

  class Lexer {
    /** InputStream .. EndOfFile. */
    const input: seq<Byte>
    /** StringStorage, StringStorageLength bytes long. */
    const scratch: array<Byte>

    var parsePoint: nat
    var token: TokenKind
    var firstChar: int
    var lastChar: int
    var intNumber: nat
    /** The characters strtod converted into RealNumber. */
    var realLexeme: seq<Byte>
    var stringLength: nat

    /** The fields as one value, to compare with the specification. */
    function State(): LexState
      reads this, scratch
    {
      LexState(input, parsePoint, token, firstChar, lastChar, intNumber, realLexeme, scratch[..], stringLength)
    }

    /** InitLexer (transpiler.cpp:88-95), with a fresh scratch buffer of `cap` bytes. */
    constructor (input: seq<Byte>, cap: nat)
      requires cap >= 1
      ensures State() == InitLexer(input, cap) && fresh(scratch)
    {
      this.input := input;
      scratch := new Byte[cap](_ => NUL);
      parsePoint := 0;
      token := Eof;
      firstChar := 0;
      lastChar := 0;
      intNumber := 0;
      realLexeme := [];
      stringLength := 0;
    }

    /** Tokenize (transpiler.cpp:120-127): records the span and moves the cursor past it. */
    method Tokenize(kind: TokenKind, start: nat, end: int)
      requires end + 1 >= 0
      modifies this
      ensures token == kind && firstChar == start && lastChar == end && parsePoint == end + 1
      ensures intNumber == old(intNumber) && realLexeme == old(realLexeme) && stringLength == old(stringLength)
    {
      token := kind;
      firstChar := start;
      lastChar := end;
      parsePoint := end + 1;
    }

    /** The whitespace loop of GetToken (transpiler.cpp:297-300). */
    method SkipWhitespace(p: nat) returns (q: nat)
      ensures q == WhitespaceEnd(input, p)
    {
      q := p;
      while q < |input| && IsWhitespace(input[q])
        invariant p <= q
        invariant WhitespaceEnd(input, q) == WhitespaceEnd(input, p)
        decreases |input| - q
      {
        q := q + 1;
      }
    }

    /** The loop that skips the rest of a line comment (transpiler.cpp:304-307). */
    method SkipLineComment(p: nat) returns (q: nat)
      ensures q == LineCommentEnd(input, p)
    {
      q := p;
      while q < |input| && input[q] != '\r' && input[q] != '\n'
        invariant p <= q
        invariant LineCommentEnd(input, q) == LineCommentEnd(input, p)
        decreases |input| - q
      {
        q := q + 1;
      }
    }

    /** The loop that looks for the end of a block comment (transpiler.cpp:316-319). */
    method SkipBlockComment(p: nat) returns (q: nat)
      ensures q == BlockCommentEnd(input, p)
    {
      q := p;
      while q < |input| && (input[q] != '*' || At(input, q + 1) != '/')
        invariant p <= q
        invariant BlockCommentEnd(input, q) == BlockCommentEnd(input, p)
        decreases |input| - q
      {
        q := q + 1;
      }
    }

    /**
     * The skipping loop of GetToken (transpiler.cpp:295-331), from offset `p`: where
     * the next token starts (or the end), or the start of a block comment that is
     * never closed.
     */
    method SkipWhitespaceAndComments(p: nat) returns (t: Trivia)
      requires p <= |input| + 2
      ensures t == SkipTrivia(input, p)
    {
      var q := p;
      while true
        invariant p <= q <= |input| + 2
        invariant SkipTrivia(input, q) == SkipTrivia(input, p)
        decreases |input| + 2 - q
      {
        ghost var q0 := q;
        q := SkipWhitespace(q);
        if q < |input| && input[q] == '/' && At(input, q + 1) == '/' {
          ghost var start := q;
          q := SkipLineComment(q);
          SkipTriviaPastLineComment(input, q0, start, q);
          continue;
        }
        if q < |input| && input[q] == '/' && At(input, q + 1) == '*' {
          var start := q;
          q := SkipBlockComment(q + 2);
          if q == |input| {
            return OpenComment(start);
          }
          q := q + 2;
          SkipTriviaPastBlockComment(input, q0, start, q);
          continue;
        }
        return Skipped(q);
      }
    }

    /**
     * The do-while loop of the identifier case (transpiler.cpp:348-356): copies the
     * run of letters, digits and underscores at `p` into the scratch buffer, stopping
     * early when only the byte for the NUL would be left.
     */
    method CopySymbolRun(p: nat) returns (length: nat, overflow: bool)
      requires p < |input| && IsLetter(input[p]) && scratch.Length >= 1
      modifies scratch
      ensures overflow <==> SymbolEnd(input, p + 1) - p >= scratch.Length
      ensures overflow ==> length == scratch.Length - 1
      ensures !overflow ==> p + length == SymbolEnd(input, p + 1)
      ensures length < scratch.Length && p + length <= |input|
      ensures scratch[..] == input[p..p + length] + old(scratch[..])[length..]
    {
      ghost var e := SymbolEnd(input, p + 1);
      length, overflow := 0, false;
      while true
        invariant 0 <= length < scratch.Length && p + length <= e
        invariant length == 0 || p + length < e
        invariant IsSymbol(At(input, p + length))
        invariant forall k :: 0 <= k < length ==> scratch[k] == input[p + k]
        invariant forall k :: length <= k < scratch.Length ==> scratch[k] == old(scratch[k])
        decreases |input| - length
      {
        if length + 1 >= scratch.Length {
          overflow := true;
          break;
        }
        scratch[length] := input[p + length];
        length := length + 1;
        if !IsSymbol(At(input, p + length)) {
          if p + length < e {
            SymbolEndSkipsSymbols(input, p + 1, p + length);
          }
          break;
        }
      }
      Overwritten(scratch[..], input[p..p + length], old(scratch[..]));
    }

    /**
     * An identifier or keyword at `p` (transpiler.cpp:342-360): its text and a NUL in
     * the scratch buffer, StringLength counting the NUL.
     */
    method LexIdentifier(p: nat)
      requires LexValid(State()) && parsePoint <= p < |input| && IsLetter(input[p])
      modifies this, scratch
      ensures State() == Apply(ScanIdentifier(input, p, scratch.Length), old(State()))
    {
      ghost var s0 := State();
      stringLength := 0;
      var length, overflow := CopySymbolRun(p);
      if overflow {
        ApplyIdentifierOverflow(s0, input, p, scratch.Length, length);
        ghost var written := scratch[..];
        Tokenize(ParseError, p, p + length);
        assert scratch[..] == written;
        return;
      }
      ApplyIdentifier(s0, input, p, scratch.Length, length);
      TerminateIdentifier(p, length, s0.scratch);
    }

    /** The end of the identifier case (transpiler.cpp:357-359): the NUL, StringLength and the kind. */
    method TerminateIdentifier(p: nat, length: nat, ghost before: seq<Byte>)
      requires 1 <= length < scratch.Length && p + length <= |input| && |before| == scratch.Length
      requires scratch[..] == input[p..p + length] + before[length..]
      modifies this, scratch
      ensures State() == old(State()).(token := MatchToken(input[p..p + length]), first := p,
        last := p + length - 1, pos := p + length,
        scratch := input[p..p + length] + [NUL] + before[length + 1..], strLen := length + 1)
    {
      stringLength := length;
      scratch[stringLength] := NUL;
      stringLength := stringLength + 1;
      assert scratch[..length] == input[p..p + length];
      assert scratch[..] == input[p..p + length] + [NUL] + before[length + 1..];
      Tokenize(MatchToken(scratch[..length]), p, p + length - 1);
    }

    /**
     * A number at `p` (transpiler.cpp:361-386). strtod and strtoul are not modelled
     * as loops: `RealEnd` says where strtod stops and `DecimalValue` what strtoul returns.
     */
    method LexNumber(p: nat)
      requires LexValid(State()) && parsePoint <= p < |input| && IsDigit(input[p])
      modifies this
      ensures State() == Apply(ScanNumber(input, p), old(State()))
    {
      var next := p;
      while next < |input| && IsDigit(input[next])
        invariant p <= next <= |input|
        invariant DigitEnd(input, next) == DigitEnd(input, p)
        decreases |input| - next
      {
        next := next + 1;
      }
      if next < |input| {
        if input[next] == '.' {
          var stop := RealEnd(input, next);
          assert ScanNumber(input, p) == Token(RealNumber, p, stop - 1, RealValue(input[p..stop]));
          realLexeme := input[p..stop];
          Tokenize(RealNumber, p, stop - 1);
          return;
        } else {
          DigitRun(input, p);
          var value := DecimalValue(input[p..next]);
          assert ScanNumber(input, p) == Token(IntNumber, p, next - 1, IntValue(value));
          intNumber := value;
          Tokenize(IntNumber, p, next - 1);
          return;
        }
      }
      assert ScanNumber(input, p) == Token(Single(input[p]), p, p, NoPayload);
      Tokenize(Single(input[p]), p, p);
    }

    /**
     * The loop of ParseString (transpiler.cpp:181-205): decodes the body of a string
     * literal from `start` into the scratch buffer. It stops at the closing quote
     * (`stop` is its offset), at the end of the buffer, or, with `overflow` set, when
     * no byte would be left for the NUL (`stop` is then where the cursor had got to).
     */
    method DecodeBody(start: nat) returns (stop: nat, output: nat, overflow: bool)
      requires start <= |input| && scratch.Length >= 1
      modifies scratch
      ensures var d := DecodeString(input, start, [], scratch.Length);
        && output == |d.text| && scratch[..] == d.text + old(scratch[..])[output..]
        && (overflow ==> d == Overflow(d.text, stop))
        && (!overflow && stop < |input| ==> d == Closed(d.text, stop))
        && (!overflow && stop >= |input| ==> d == Unterminated(d.text))
    {
      var p := start;
      output := 0;
      while p < |input| && input[p] != '"'
        invariant start <= p <= |input| && output < scratch.Length
        invariant DecodeString(input, p, scratch[..output], scratch.Length) == DecodeString(input, start, [], scratch.Length)
        invariant forall k :: output <= k < scratch.Length ==> scratch[k] == old(scratch[k])
        decreases |input| - p
      {
        var character: Byte;
        var next: nat;
        if input[p] == '\\' {
          var decoded := ParseChar(input, p);
          character, next := decoded.0, decoded.1;
        } else {
          character, next := input[p], p + 1;
        }
        DecodeStringStep(input, p, scratch[..output], scratch.Length, character, next);
        if output + 1 >= scratch.Length {
          Overwritten(scratch[..], scratch[..output], old(scratch[..]));
          return next, output, true;
        }
        ghost var prefix := scratch[..output];
        scratch[output] := character;
        output := output + 1;
        assert scratch[..output] == prefix + [character];
        p := next;
      }
      Overwritten(scratch[..], scratch[..output], old(scratch[..]));
      return p, output, false;
    }

    /**
     * ParseString (transpiler.cpp:176-210) from the byte after the opening quote:
     * the decoded text and a NUL, which StringLength counts, in the scratch buffer.
     */
    method ParseString(start: nat)
      requires LexValid(State()) && parsePoint < start <= |input|
      modifies this, scratch
      ensures State() == Apply(ScanString(input, start, scratch.Length), old(State()))
    {
      ghost var s0 := State();
      ghost var d := DecodeString(input, start, [], scratch.Length);
      var stop, output, overflow := DecodeBody(start);
      ghost var written := scratch[..];
      if overflow {
        ApplyStringOverflow(s0, input, start, scratch.Length, d.text, stop);
        Tokenize(ParseError, start, stop);
        assert scratch[..] == written;
        return;
      }
      if stop >= |input| {
        ApplyStringUnterminated(s0, input, start, scratch.Length, d.text);
        Tokenize(ParseError, start, |input| - 1);
        assert scratch[..] == written;
        return;
      }
      ApplyStringClosed(s0, input, start, scratch.Length, d.text, stop);
      TerminateString(start, stop, output, d.text, s0.scratch);
    }

    /** The end of ParseString for a closed literal (transpiler.cpp:206-209): the NUL and StringLength. */
    method TerminateString(start: nat, stop: nat, output: nat, ghost text: seq<Byte>, ghost before: seq<Byte>)
      requires output + 1 <= scratch.Length && |text| == output && |before| == scratch.Length
      requires scratch[..] == text + before[output..]
      modifies this, scratch
      ensures State() == old(State()).(token := StringText, first := start, last := stop, pos := stop + 1,
        scratch := text + [NUL] + before[output + 1..], strLen := output + 1)
    {
      scratch[output] := NUL;
      stringLength := output + 1;
      assert scratch[..] == text + [NUL] + before[output + 1..];
      ghost var terminated := scratch[..];
      Tokenize(StringText, start, stop);
      assert scratch[..] == terminated;
    }

    /**
     * A character literal at `p` (transpiler.cpp:558-573). IntNumber receives the
     * decoded character before the closing quote is checked.
     */
    method LexCharLiteral(p: nat)
      requires LexValid(State()) && parsePoint <= p < |input| && input[p] == '\''
      modifies this
      ensures State() == Apply(ScanCharLiteral(input, p), old(State()))
    {
      var start := p;
      var decoded := ParseChar(input, p + 1);
      intNumber := decoded.0 as nat;
      var next := decoded.1;
      if next == |input| || At(input, next) != '\'' {
        assert ScanCharLiteral(input, p) == Token(ParseError, start, next, IntValue(decoded.0 as nat));
        Tokenize(ParseError, start, next);
        return;
      }
      assert ScanCharLiteral(input, p) == Token(CharNumber, start, next, IntValue(decoded.0 as nat));
      Tokenize(CharNumber, start, next);
    }

    /** The operator cases of GetToken's switch and its `single_char` fallback (transpiler.cpp:385-550). */
    method LexOperator(p: nat)
      requires LexValid(State()) && parsePoint <= p < |input|
      modifies this
      ensures State() == Apply(ScanOperator(input, p), old(State()))
    {
      if p + 1 < |input| {
        var kind := TwoCharKind(input[p], input[p + 1]);
        if kind.Some? {
          Tokenize(kind.value, p, p + 1);
          return;
        }
      }
      Tokenize(Single(input[p]), p, p);
    }

    /**
     * GetToken (transpiler.cpp:290-576): the next token from the cursor. Returns
     * whether a token other than end-of-file was produced.
     */
    method GetToken() returns (more: bool)
      requires LexValid(State())
      modifies this, scratch
      ensures State() == Advance(old(State()))
      ensures more <==> token != Eof
    {
      ghost var s0 := State();
      var trivia := SkipWhitespaceAndComments(parsePoint);
      if trivia.OpenComment? {
        assert Scan(input, s0.pos, scratch.Length) == Token(ParseError, trivia.start, |input| - 1, NoPayload);
        Tokenize(ParseError, trivia.start, |input| - 1);
        return true;
      }
      var p := trivia.at;
      if p >= |input| {
        assert Scan(input, s0.pos, scratch.Length) == AtEnd;
        token := Eof;
        return false;
      }
      assert Scan(input, s0.pos, scratch.Length) == ScanAt(input, p, scratch.Length);
      LexAt(p);
      return true;
    }

    /** The dispatch of GetToken on the class of the byte at `p` (transpiler.cpp:338-575). */
    method LexAt(p: nat)
      requires LexValid(State()) && parsePoint <= p < |input|
      modifies this, scratch
      ensures State() == Apply(ScanAt(input, p, scratch.Length), old(State()))
    {
      if IsLetter(input[p]) {
        LexIdentifier(p);
      } else if IsDigit(input[p]) {
        LexNumber(p);
      } else if input[p] == '"' {
        ParseString(p + 1);
      } else if input[p] == '\'' {
        LexCharLiteral(p);
      } else {
        LexOperator(p);
      }
    }

    /**
     * PeekToken (transpiler.cpp:1129-1138): the kind of the next token, with the
     * cursor and the current kind restored.
     */
    method PeekToken() returns (next: TokenKind)
      requires LexValid(State())
      modifies this, scratch
      ensures next == Advance(old(State())).token
      ensures State() == Peek(old(State())).1
      ensures parsePoint == old(parsePoint) && token == old(token)
    {
      var savedPoint := parsePoint;
      var oldToken := token;
      var _ := GetToken();
      next := token;
      parsePoint := savedPoint;
      token := oldToken;
    }

    /**
     * GetLocation (transpiler.cpp:97-118): the line and column of offset
     * `currentPoint`, counting `\r\n` and `\n\r` as one line break.
     */
    method GetLocation(currentPoint: int) returns (location: Location)
      ensures location == LocationOf(input, currentPoint)
    {
      var p := 0;
      var lineNumber := 1;
      var charOffset := 0;
      while At(input, p) != NUL && p <= currentPoint
        invariant LocationFrom(input, p, currentPoint, lineNumber, charOffset) == LocationOf(input, currentPoint)
        decreases |input| - p
      {
        if input[p] == '\n' || input[p] == '\r' {
          p := p + (if input[p] as int + At(input, p + 1) as int == '\r' as int + '\n' as int then 2 else 1);
          lineNumber := lineNumber + 1;
          charOffset := 0;
        } else {
          p := p + 1;
          charOffset := charOffset + 1;
        }
      }
      location := Location(lineNumber, charOffset);
    }
  }
}
