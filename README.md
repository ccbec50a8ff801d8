# D Flat transpiler core in Dafny

This project models `transpiler.cpp`, the single-file D Flat to C transpiler. The file has four parts:

- **Lexer.** A cursor walks the input buffer. It skips whitespace and comments, then classifies the next token: an identifier or keyword, a number, a string or character literal, a two-character operator, or a single character. Identifier and string text goes into a fixed scratch buffer (`String`).
- **String arena.** An append-only byte buffer with a table of string starts (`string_storage`). The parser copies every name and string literal into it.
- **Parser.** Recursive descent with precedence climbing. It builds `expr` and `func` trees, drives the lexer through `GetToken` and `PeekToken`, and fills fixed-size child arrays.
- **Translator.** Writes each tree back out as C text.

The model follows the same split.

- `tokens.dfy`: token kinds, the character classifiers, `MatchToken` and the two-character operator table.
- `lexer_spec.dfy`: one GetToken step as pure functions. `Scan` reads the input from the cursor and says what GetToken sets; `Apply` and `Advance` give the lexer's next state. Also `Peek` and the line/column computation of GetLocation.
- `lexer.dfy`: class `Lexer`. Its fields are the fields of `struct lexer`, and `String` is an `array`. `GetToken`, `ParseString`, `PeekToken` and `GetLocation` are methods with the source's loops, each proved to compute the state `Advance`/`Peek`/`LocationOf` describe.
- `arena_spec.dfy` and `arena.dfy`: the arena as a value and as class `StringStorage` over two arrays. `AddStringToStorage` is proved against `AddSpec`.
- `ast.dfy`: the tree as datatypes. A child the C code may leave NULL is an `Option`; the fixed arrays are sequences.
- `parser_spec.dfy`: every parse routine as a function on the state `PState(lexer state, arena)`. It returns the tree (`None` for NULL) and the state after it. Each proves well-formedness of the trees it builds and how far the cursor has moved.
- `parser.dfy`: class `Parser` over a `Lexer` and a `StringStorage`. Its methods carry the source's `for(;;)` loops, and each is proved to return the tree and leave the state that the function of the same name gives.
- `parser_lemmas.dfy`: how precedence climbing groups `a op1 b op2 c`, what the main loop collects, and the lost-token finding below.
- `translator.dfy` and `translator_lemmas.dfy`: the translator as functions. Each returns the text written to `result.c` and whether the C function returned 1. The lemmas are round trips back through the lexer and the success of translation on every tree the parser builds.
- `program.dfy`: the two loops of `main`. Parse items until end of file, then translate each item and report the failures.

The model corrects four defects of the source; they are listed under Findings. In each case the as-written behaviour is modelled and exhibited next to the corrected definition, and the rest of the model uses the corrected one.

## Model

| member | source | states |
|---|---|---|
| Tokens.KeywordText | transpiler.cpp:214-245 | every keyword's spelling is at least two lower-case letters |
| Tokens.MatchToken | transpiler.cpp:212-247 | the result is `Id` or a keyword whose spelling is exactly the text |
| Tokens.MatchIn | transpiler.cpp:214-246 | the comparisons in table order yield `Id` or a keyword of the table that the text spells |
| Tokens.KeywordsComplete | transpiler.cpp:214-245 | MatchToken compares against every keyword kind |
| Tokens.MatchInMisses | transpiler.cpp:214-246 | text classified as `Id` spells none of the table's keywords |
| Tokens.MatchTokenIdIffNoKeyword | transpiler.cpp:212-247 | MatchToken returns `TOKEN_id` exactly when the text spells no keyword |
| Tokens.TwoCharKind | transpiler.cpp:388-550 | a two-character operator is recognised only when its spelling is exactly those two characters |
| Tokens.OperatorText | transpiler.cpp:388-550 | every two-character operator is spelled with two characters |
| Tokens.TwoCharKindRecognisesSpelling | transpiler.cpp:388-550 | each two-character operator is recognised from its own spelling |
| Tokens.IsWhitespace | transpiler.cpp:249-252 | space, `\t`, `\r`, `\n` and `\f` are whitespace; no contract of its own, its relation to the other classes is stated in CharacterClasses |
| Tokens.IsUppercase | transpiler.cpp:254-257 | the bytes `A` to `Z`; no contract of its own, see CharacterClasses |
| Tokens.IsLowercase | transpiler.cpp:259-262 | the bytes `a` to `z`; no contract of its own, see CharacterClasses |
| Tokens.IsLetter | transpiler.cpp:264-267 | an upper- or lower-case letter or `_`; no contract of its own, see CharacterClasses |
| Tokens.IsDigit | transpiler.cpp:269-272 | the bytes `0` to `9`; no contract of its own, see CharacterClasses |
| Tokens.IsSymbol | transpiler.cpp:274-277 | a letter or a digit; no contract of its own, see CharacterClasses |
| Tokens.CharacterClasses | transpiler.cpp:249-277 | no byte is both a letter and a digit, no letter, digit, `_` or NUL is whitespace, and no byte is both upper and lower case |
| Tokens.IsType | transpiler.cpp:279-282 | the four type keywords; no contract of its own, see KeywordClasses |
| Tokens.IsBinaryOperator | transpiler.cpp:284-288 | the thirteen operators the source lists as binary; no contract of its own, its relation to the precedence table is stated in BinaryOperatorsHavePrecedence |
| Tokens.KeywordClasses | transpiler.cpp:214-245 | every type keyword is a keyword, and no keyword is a single-character kind, a two-character operator or a binary operator |
| LexerSpec.WhitespaceEnd | transpiler.cpp:297-300 | the whitespace loop stops at the end or at a non-whitespace byte |
| LexerSpec.WhitespaceEndSkipsWhitespace | transpiler.cpp:297-300 | every byte the whitespace loop passes is whitespace |
| LexerSpec.LineCommentEnd | transpiler.cpp:304-307 | a line comment ends at the end or at a `\r`/`\n` |
| LexerSpec.LineCommentEndSkipsNoBreak | transpiler.cpp:304-307 | no byte skipped inside a line comment is a line break |
| LexerSpec.BlockCommentEnd | transpiler.cpp:316-319 | the closer search stops at the end or at `*/` |
| LexerSpec.BlockCommentEndSkipsNoCloser | transpiler.cpp:316-319 | no `*/` starts at a byte the closer search passes |
| LexerSpec.SkipTrivia | transpiler.cpp:295-331 | after skipping, the cursor is at the end or at a byte that is neither whitespace nor a comment opener; an unclosed `/*` is reported at its opener |
| LexerSpec.SkipTriviaPastLineComment | transpiler.cpp:302-308 | a line comment is skipped up to its line break and skipping continues there |
| LexerSpec.SkipTriviaPastBlockComment | transpiler.cpp:311-327 | a closed block comment is skipped past its `*/` and skipping continues there |
| LexerSpec.OpenCommentIsUnclosed | transpiler.cpp:316-324 | an unclosed block comment really has no `*/` after its opener |
| LexerSpec.SymbolEnd | transpiler.cpp:348-356 | the identifier run ends at the first byte that is not a letter, digit or `_` |
| LexerSpec.SymbolEndSkipsSymbols | transpiler.cpp:348-356 | every byte of the identifier run is a letter, digit or `_` |
| LexerSpec.ScanIdentifier | transpiler.cpp:342-360 | an identifier token starts at its first letter, its text fits the scratch buffer, and the cursor moves past its last byte |
| LexerSpec.ScanIdentifierTooLong | transpiler.cpp:350-353 | an identifier that reaches the buffer capacity is a parse error spanning `cap - 1` bytes, with those bytes copied and StringLength 0 |
| LexerSpec.ScanIdentifierFits | transpiler.cpp:354-359 | a shorter identifier gets MatchToken's kind, its text plus NUL in String, and a StringLength that counts the NUL |
| LexerSpec.DigitEnd | transpiler.cpp:365-368 | the digit loop stops at the end or at a non-digit |
| LexerSpec.DigitEndSkipsDigits | transpiler.cpp:365-368 | every byte the digit loop passes is a digit |
| LexerSpec.RealEnd | transpiler.cpp:371-374 | the real literal extends past its `.` and stays inside the input |
| LexerSpec.ScanNumber | transpiler.cpp:361-386 | a digit run reaching the end of the buffer is the single-character token of its first digit; otherwise a run followed by `.` is a real literal and any other run an integer literal ending right after its last digit, whose value is the decimal value of that run |
| LexerSpec.ParseChar | transpiler.cpp:135-174 | the cursor advances by 2 exactly for a backslash followed by one of the seven escape letters; anything else returns the first byte and advances by 1 |
| LexerSpec.ParseCharEscapes | transpiler.cpp:137-170 | each of `\\ \' \" \t \r \n \f` decodes to its character |
| LexerSpec.DecodeString | transpiler.cpp:181-205 | the decoded text always leaves room for the NUL; a closed literal stops at a `"`; an overflow has filled the buffer minus one byte |
| LexerSpec.DecodeStringAsWritten | transpiler.cpp:181-205 | the loop as written keeps the decoded text within the buffer, with no room promised for the NUL |
| LexerSpec.DecodeStringAsWrittenOverrunsBuffer | transpiler.cpp:200-206 | with a one-byte buffer, `"a"` is accepted as written and its NUL needs a second byte; the corrected loop reports an overflow |
| LexerSpec.DecodeStringAgreesBelowCapacity | transpiler.cpp:181-205 | the corrected loop gives the same result as the loop as written whenever the text as written leaves a byte for the NUL; when that text fills all `cap` bytes, the corrected loop reports an overflow with its first `cap - 1` characters |
| LexerSpec.DecodeStringStep | transpiler.cpp:181-204 | one decoding step either overflows or stores the decoded character and continues after it |
| LexerSpec.ScanString | transpiler.cpp:176-210 | a string literal is `TOKEN_string_text` exactly when decoding reaches a closing `"`; String then holds the text plus NUL and StringLength counts the NUL; otherwise it is a parse error |
| LexerSpec.ScanCharLiteral | transpiler.cpp:558-573 | IntNumber is the decoded character; the token is a char literal exactly when a `'` follows, otherwise a parse error |
| LexerSpec.ScanOperator | transpiler.cpp:385-550 | a two-character token is produced exactly when the second byte is inside the buffer and completes an operator; otherwise the token is the first byte's own kind |
| LexerSpec.Scan | transpiler.cpp:290-336 | end of file exactly when only trivia remain; an unclosed `/*` is a parse error up to the last byte; every token lies after the cursor |
| LexerSpec.ScanAt | transpiler.cpp:338-575 | the switch produces a token, never end of file, that starts at or after the cursor and whose last byte is at most one past the end of the input (a character literal at the end of the input reads past it) |
| LexerSpec.InitLexer | transpiler.cpp:88-95 | the cursor starts at offset 0 over the given input with a scratch buffer of the given size |
| LexerSpec.Apply | transpiler.cpp:120-133 | Tokenize sets the kind and span and moves the cursor one past the token's last byte; end of file sets only the kind |
| LexerSpec.ApplyIdentifierOverflow | transpiler.cpp:350-353 | the state after a too-long identifier: parse error, partial copy in String, StringLength 0 |
| LexerSpec.ApplyIdentifier | transpiler.cpp:354-359 | the state after an identifier: its kind, text plus NUL in String, StringLength counting the NUL |
| LexerSpec.ApplyStringClosed | transpiler.cpp:206-209 | the state after a closed string literal: text plus NUL in String, StringLength counting the NUL, cursor past the `"` |
| LexerSpec.ApplyStringOverflow | transpiler.cpp:200-203 | the state after a string that overflows String: parse error, the bytes stored so far, StringLength unchanged |
| LexerSpec.ApplyStringUnterminated | transpiler.cpp:181-205 | the state after a string with no closing quote: parse error up to the last byte |
| LexerSpec.Advance | transpiler.cpp:290-576 | GetToken yields end of file exactly when only trivia remain, and then changes nothing else; any other token leaves the cursor one past its last byte and strictly further on |
| LexerSpec.Peek | transpiler.cpp:1129-1138 | PeekToken returns the kind GetToken would produce and restores the cursor and token kind |
| LexerSpec.IsBreakPair | transpiler.cpp:106 | at a line break, the sum test holds exactly when the next byte is the other line-break character, that is for `\r\n` and `\n\r` |
| LexerSpec.LocationFrom | transpiler.cpp:97-118 | the scan never decreases the line and keeps a non-negative column |
| LexerSpec.LocationOf | transpiler.cpp:97-118 | every location has a line of at least 1 and a non-negative column |
| LexerSpec.LocationFromPrefix | transpiler.cpp:97-118 | the location depends only on the bytes up to and including the target |
| LexerSpec.LocationWithinLine | transpiler.cpp:102-115 | with no line break or NUL from the scan point to the target, the line stays and the column grows by every byte up to and including the target |
| LexerSpec.LocationAcrossBreak | transpiler.cpp:104-108 | the first line break the scan meets, a lone `\n` or `\r` or a `\r\n` or `\n\r` pair, adds exactly one line, resets the column to 0, and the scan goes on after it |
| LexerSpec.LocationAfterLastBreak | transpiler.cpp:102-115 | after the last line break at or before the target, the column is the number of bytes from that break to the target |
| LexerSpec.LocationCountsBreaks | transpiler.cpp:102-115 | the line is the starting line plus the number of breaks passed, a pair counted once |
| LexerSpec.LocationStopsAtNul | transpiler.cpp:102 | a NUL at or before the target stops the scan: the target gets the location of the byte before the NUL |
| LexerSpec.LocationOfBreakIsColumnZero | transpiler.cpp:102-108 | a line break byte is at column 0 of the line after the breaks passed, the next line when no break precedes it |
| LexerImpl.Lexer.constructor | transpiler.cpp:88-95 | the new lexer's state is InitLexer's |
| LexerImpl.Lexer.Tokenize | transpiler.cpp:120-127 | sets the kind and span, moves the cursor past the token, and leaves the payload fields unchanged |
| LexerImpl.Lexer.SkipWhitespace | transpiler.cpp:297-300 | the loop returns WhitespaceEnd |
| LexerImpl.Lexer.SkipLineComment | transpiler.cpp:304-307 | the loop returns LineCommentEnd |
| LexerImpl.Lexer.SkipBlockComment | transpiler.cpp:316-319 | the loop returns BlockCommentEnd |
| LexerImpl.Lexer.SkipWhitespaceAndComments | transpiler.cpp:295-331 | the `for(;;)` loop returns SkipTrivia's outcome |
| LexerImpl.Lexer.CopySymbolRun | transpiler.cpp:348-356 | the do-while copies the identifier into String and reports an overflow exactly when the identifier reaches the capacity |
| LexerImpl.Lexer.LexIdentifier | transpiler.cpp:342-360 | the identifier case leaves the state ScanIdentifier describes |
| LexerImpl.Lexer.TerminateIdentifier | transpiler.cpp:357-359 | writes the NUL and sets the kind, span and StringLength |
| LexerImpl.Lexer.LexNumber | transpiler.cpp:361-386 | the number case leaves the state ScanNumber describes |
| LexerImpl.Lexer.DecodeBody | transpiler.cpp:181-205 | the loop writes DecodeString's text into String and stops where DecodeString stops |
| LexerImpl.Lexer.ParseString | transpiler.cpp:176-210 | ParseString leaves the state ScanString describes |
| LexerImpl.Lexer.TerminateString | transpiler.cpp:206-209 | writes the NUL and sets the kind, span and StringLength |
| LexerImpl.Lexer.LexCharLiteral | transpiler.cpp:558-573 | the `'` case leaves the state ScanCharLiteral describes |
| LexerImpl.Lexer.LexOperator | transpiler.cpp:385-550 | the operator cases leave the state ScanOperator describes |
| LexerImpl.Lexer.GetToken | transpiler.cpp:290-576 | GetToken leaves the state Advance describes and returns 0 exactly at end of file |
| LexerImpl.Lexer.LexAt | transpiler.cpp:338-575 | the switch leaves the state ScanAt describes |
| LexerImpl.Lexer.PeekToken | transpiler.cpp:1129-1138 | returns the next token's kind, leaves the cursor and token kind as they were, and leaves the rest as Peek describes |
| LexerImpl.Lexer.GetLocation | transpiler.cpp:97-118 | the loop returns LocationOf the target offset |
| ArenaSpec.InitStorage | transpiler.cpp:738-746 | the arena starts empty and valid |
| ArenaSpec.AddSpec | transpiler.cpp:748-766 | the previous StringCount is returned exactly when a table slot and the bytes fit, and then the bytes are appended and the slot points at them; with a full table the call returns -1 and changes nothing; when the bytes do not fit the call returns -1 but keeps the new slot and the bytes that fit |
| ArenaSpec.CString | transpiler.cpp:1171-1172 | the string a `char*` designates is the longest NUL-free prefix |
| ArenaSpec.AddThenLookup | transpiler.cpp:748-766 | the slot of the returned index designates the added string |
| ArenaSpec.CStringExtends | transpiler.cpp:752-756 | bytes appended after a NUL do not change an earlier string |
| ArenaSpec.AddKeepsEarlier | transpiler.cpp:748-766 | adding a string does not change what an earlier NUL-terminated slot designates |
| ArenaSpec.AddAsWritten | transpiler.cpp:748-766 | as written, every call takes a new table slot at the current length |
| ArenaSpec.AddAsWrittenOverrunsBuffer | transpiler.cpp:754-756 | as written, a full buffer still receives one byte at index Capacity; the corrected check refuses it |
| ArenaSpec.AddAsWrittenOverrunsTable | transpiler.cpp:750 | as written, a full table still takes slot MAX_STRING_COUNT; the corrected check returns -1 |
| ArenaImpl.StringStorage.constructor | transpiler.cpp:738-746 | the new storage is InitStorage's arena |
| ArenaImpl.StringStorage.AddStringToStorage | transpiler.cpp:748-766 | the in-place append returns the index and leaves the arena AddSpec describes |
| ParserSpec.Next | transpiler.cpp:290-576 | a GetToken call keeps the arena and never moves the cursor back |
| ParserSpec.Intern | transpiler.cpp:1171-1172 | AddStringToStorage on the current String changes only the arena |
| ParserSpec.Precedence | transpiler.cpp:1048-1113 | every token has precedence -1, 10, 20, 30 or 40 |
| ParserSpec.BinaryOperatorsHavePrecedence | transpiler.cpp:1048-1113 | a kind has a precedence exactly when IsBinaryOperator admits it or it is `=` |
| ParserSpec.ParseCharExpr | transpiler.cpp:1140-1147 | a char node holding IntNumber modulo 256, the cursor moved on and the arena unchanged |
| ParserSpec.ParseIntExpr | transpiler.cpp:1149-1156 | an int node holding IntNumber, the cursor moved on and the arena unchanged |
| ParserSpec.ParseRealExpr | transpiler.cpp:1158-1165 | a real node holding the literal, the cursor moved on and the arena unchanged |
| ParserSpec.ParseStringExpr | transpiler.cpp:1167-1175 | a string node holding String's NUL-free text; the arena only grows |
| ParserSpec.ParseIdExpr | transpiler.cpp:1179-1261 | a name, declaration or call carries the identifier's text, and every tree it returns is well formed |
| ParserSpec.ParseArguments | transpiler.cpp:1233-1259 | the argument loop returns a well-formed call of the callee whose arguments extend the ones already parsed |
| ParserSpec.ArgumentsAfter | transpiler.cpp:1246-1257 | after an argument, `)` closes the call with the arguments so far and is consumed, any token but `,` fails where it stands, and a call that `,` continues keeps the arguments so far |
| ParserSpec.ParseParenExpr | transpiler.cpp:1263-1282 | returns a well-formed parenthesised tree |
| ParserSpec.ParseStatements | transpiler.cpp:1306-1339 | a block ends at `}`, keeps the statements before it, and holds at most 30 well-formed statements |
| ParserSpec.ParseStatement | transpiler.cpp:1313-1337 | a nested `if`/`for` must be followed by `}` and any other statement by `;` |
| ParserSpec.ParseIfExpr | transpiler.cpp:1284-1392 | returns a well-formed `if` tree, with `}` current |
| ParserSpec.ParseElse | transpiler.cpp:1341-1391 | when PeekToken sees no `else`, the node is the `if` with an empty else-block and only the peek's cursor and kind change; otherwise the condition and then-block are kept |
| ParserSpec.ParseElseBlock | transpiler.cpp:1346-1389 | an `else` block is parsed into the `if`, keeping its condition and then-block |
| ParserSpec.ParseForHeader | transpiler.cpp:1396-1451 | a loop header is accepted only as `cond {` or `init ; cond ; step {`: the condition is present, and the definition and action are both present or both absent |
| ParserSpec.ParseForExpr | transpiler.cpp:1394-1491 | returns a well-formed loop tree, with `}` current |
| ParserSpec.ParseReturnExpr | transpiler.cpp:1493-1509 | returns a well-formed `return` tree, with the `;` left current |
| ParserSpec.ParseInlineExpr | transpiler.cpp:1511-1532 | an inline block exists exactly when a string literal follows `<>` |
| ParserSpec.ParsePrimary | transpiler.cpp:1534-1586 | a token that starts no primary yields NULL and consumes nothing; every tree returned is well formed |
| ParserSpec.ParseBinaryRHS | transpiler.cpp:1588-1631 | on success the token left current binds less tightly than the threshold |
| ParserSpec.ParseOperand | transpiler.cpp:1597-1622 | the operator and its right-hand side are consumed, so the cursor moves strictly forward |
| ParserSpec.ParseExpression | transpiler.cpp:1633-1642 | the expression stops at a token that is no operator |
| ParserSpec.ParseParameter | transpiler.cpp:1644-1682 | a parameter is a typed declaration without initialiser that starts with a name |
| ParserSpec.ParseParameters | transpiler.cpp:1709-1733 | the parameter loop ends at `)` with at most 10 parameters, extending the ones already parsed |
| ParserSpec.ParametersAfter | transpiler.cpp:1720-1732 | after a parameter, `)` ends the list with the parameters so far and stays current, any token but `,` fails where it stands, and a list that `,` continues keeps the parameters so far |
| ParserSpec.ParseFunctionDeclaration | transpiler.cpp:1684-1815 | a function carries the name it starts with and is well formed; it ends at `}`, or at `;` with no statements |
| ParserSpec.ParseFunctionTail | transpiler.cpp:1735-1812 | after `-> type`, `;` gives a prototype and `{` a body; the name and parameters are kept |
| ParserSpec.ParseAll | transpiler.cpp:2274-2291 | the main loop only appends items, in order, to those already collected |
| ParserSpec.ParseFunctionDeclarationAsWritten | transpiler.cpp:1756-1761 | as written, the same function is returned but the `;` is consumed |
| ParserSpec.ParseUnit | transpiler.cpp:1817-1846 | Parse returns no item exactly when the token is neither a name nor `<>`; a tree or function it returns is well formed |
| ParserLemmas.LeftAssociative | transpiler.cpp:1588-1631 | `a op1 b op2 c` with prec(op2) <= prec(op1) groups as `(a op1 b) op2 c` |
| ParserLemmas.TighterBindsRight | transpiler.cpp:1588-1631 | `a op1 b op2 c` with prec(op2) > prec(op1) groups as `a op1 (b op2 c)` |
| ParserLemmas.PrototypeSkipsNextToken | transpiler.cpp:1756-1761 | as written, a prototype gives the same function but leaves the state one GetToken further on than with the `;` left current |
| ParserLemmas.ParseAllWellFormed | transpiler.cpp:2274-2291 | every tree and function the main loop collects is well formed |
| ParserImpl.Parser.constructor | transpiler.cpp:2265-2269 | a parser over a fresh lexer and arena, in their initial states |
| ParserImpl.Parser.NextToken | transpiler.cpp:290-576 | a GetToken call through the parser, returning 0 exactly at end of file |
| ParserImpl.Parser.InternString | transpiler.cpp:1171-1172 | copies String into the arena |
| ParserImpl.Parser.CurrentText | transpiler.cpp:1171-1172 | returns the text String designates |
| ParserImpl.Parser.ParseCharExpr | transpiler.cpp:1140-1147 | a char node with the low byte of IntNumber, then GetToken |
| ParserImpl.Parser.ParseIntExpr | transpiler.cpp:1149-1156 | an int node with IntNumber, then GetToken |
| ParserImpl.Parser.ParseRealExpr | transpiler.cpp:1158-1165 | a real node with the literal, then GetToken |
| ParserImpl.Parser.ParseStringExpr | transpiler.cpp:1167-1175 | a string node whose text is interned, then GetToken |
| ParserImpl.Parser.ParseIdExpr | transpiler.cpp:1179-1261 | returns the tree and leaves the state ParserSpec.ParseIdExpr gives |
| ParserImpl.Parser.ParseArguments | transpiler.cpp:1233-1259 | the `for(;;)` argument loop agrees with ParserSpec.ParseArguments |
| ParserImpl.Parser.ParseParenExpr | transpiler.cpp:1263-1282 | agrees with ParserSpec.ParseParenExpr |
| ParserImpl.Parser.ParseStatements | transpiler.cpp:1306-1339 | the statement loop agrees with ParserSpec.ParseStatements |
| ParserImpl.Parser.ParseStatement | transpiler.cpp:1313-1337 | one iteration of the statement loop agrees with ParserSpec.ParseStatement |
| ParserImpl.Parser.ParseIfExpr | transpiler.cpp:1284-1392 | agrees with ParserSpec.ParseIfExpr |
| ParserImpl.Parser.ParseElse | transpiler.cpp:1341-1391 | the PeekToken for `else` agrees with ParserSpec.ParseElse |
| ParserImpl.Parser.ParseElseBlock | transpiler.cpp:1346-1389 | agrees with ParserSpec.ParseElseBlock |
| ParserImpl.Parser.ParseForHeader | transpiler.cpp:1396-1451 | agrees with ParserSpec.ParseForHeader |
| ParserImpl.Parser.ParseForExpr | transpiler.cpp:1394-1491 | agrees with ParserSpec.ParseForExpr |
| ParserImpl.Parser.ParseReturnExpr | transpiler.cpp:1493-1509 | agrees with ParserSpec.ParseReturnExpr |
| ParserImpl.Parser.ParseInlineExpr | transpiler.cpp:1511-1532 | agrees with ParserSpec.ParseInlineExpr |
| ParserImpl.Parser.ParsePrimary | transpiler.cpp:1534-1586 | agrees with ParserSpec.ParsePrimary |
| ParserImpl.Parser.ParseBinaryRHS | transpiler.cpp:1588-1631 | the precedence-climbing loop agrees with ParserSpec.ParseBinaryRHS |
| ParserImpl.Parser.ParseOperand | transpiler.cpp:1597-1622 | one iteration of the climbing loop agrees with ParserSpec.ParseOperand |
| ParserImpl.Parser.ParseExpression | transpiler.cpp:1633-1642 | agrees with ParserSpec.ParseExpression |
| ParserImpl.Parser.ParseParameter | transpiler.cpp:1644-1682 | agrees with ParserSpec.ParseParameter |
| ParserImpl.Parser.ParseParameters | transpiler.cpp:1709-1733 | the parameter loop agrees with ParserSpec.ParseParameters |
| ParserImpl.Parser.ParseFunctionDeclaration | transpiler.cpp:1684-1815 | agrees with ParserSpec.ParseFunctionDeclaration |
| ParserImpl.Parser.ParseFunctionTail | transpiler.cpp:1735-1812 | agrees with ParserSpec.ParseFunctionTail |
| ParserImpl.Parser.Parse | transpiler.cpp:1817-1846 | agrees with ParserSpec.ParseUnit, with the prototype's `;` left current |
| ParserImpl.Parser.ParseProgram | transpiler.cpp:2274-2291 | the main parsing loop stops at end of file, having collected ParseAll's items |
| Translator.Then | transpiler.cpp:1975-2180 | a sequence of writes succeeds exactly when both parts do, and the text written first stays |
| Translator.EscapeAsWritten | transpiler.cpp:1857-1877 | `\n \r \t \f` become two-character escapes that ParseChar decodes back; every other byte, `"` and `\` included, is copied unchanged |
| Translator.EscapedTextAsWritten | transpiler.cpp:1852-1882 | what TranslateString as written emits, at most twice as long as the input |
| Translator.EscapedTextAsWrittenEndsLiteralEarly | transpiler.cpp:1857-1877 | the text `a"b` is emitted as the C literal `"a"b"`, which ParseString reads back as `a` alone |
| Translator.Escape | transpiler.cpp:1857-1877 | the corrected switch: `\n \r \t \f`, `"` and `\` become two-character escapes that ParseChar decodes back, every other byte is copied, and only `"` and `\` are written differently from the source |
| Translator.EscapeRestoresSource | transpiler.cpp:1857-1877 | a source escape other than `\'` decoded by ParseChar is written back as the same two characters |
| Translator.EscapedText | transpiler.cpp:1852-1882 | what TranslateString writes holds no NUL and is at most twice as long as the input |
| Translator.EscapedTextAgreesWithoutQuotes | transpiler.cpp:1852-1882 | on text without `"` and `\` the corrected text is what the source writes |
| Translator.EscapedTextKeepsPlainText | transpiler.cpp:1857-1877 | text without NUL and without a byte that needs an escape is written unchanged |
| Translator.TranslateString | transpiler.cpp:1852-1882 | the loop writes EscapedText, each byte escaped with the corrected switch up to the first NUL |
| Translator.DecodeEscapedText | transpiler.cpp:1852-1882 | ParseString's loop reads a translated text back into the original text |
| Translator.DecodeFirstEscaped | transpiler.cpp:1852-1882 | the first character of a translated text decodes back, and ParseString's loop resumes where the rest of the translation starts |
| Translator.DecodeEscapedChar | transpiler.cpp:1857-1877 | ParseString's loop reads one translated character back into that character |
| Translator.StringLiteralRoundTrip | transpiler.cpp:1852-1882 | a written string literal without NUL is lexed back into the same text |
| Translator.TypeText | transpiler.cpp:1884-1910 | a type keyword is written as a non-empty C type and any other kind writes nothing |
| Translator.TranslateOperator | transpiler.cpp:1912-1973 | succeeds exactly for single characters and the assignment and comparison operators, writing their source spelling; otherwise fails and writes nothing |
| Translator.OperatorRoundTrip | transpiler.cpp:1912-1973 | every operator with a precedence is written in a spelling the lexer reads back as the same token |
| Translator.NatToString | transpiler.cpp:1992-1995 | `%llu` writes at least one decimal digit, without leading zeros |
| Translator.IntegerRoundTrip | transpiler.cpp:1992-1995 | the lexer's decimal value of the written digits is the integer written |
| Translator.InlineText | transpiler.cpp:2165-2177 | the inline text holds no `\r`, `\t`, `\f` or NUL, is no longer than the input, and is unchanged when the input holds none of them |
| Translator.InlineTextAppend | transpiler.cpp:2165-2177 | the other bytes are kept in order: the text of `a + b` is the text of `a` followed by the text of `b` when `a` holds no NUL |
| Translator.InlineTextStopsAtNul | transpiler.cpp:2167 | nothing after the first NUL is written |
| Translator.TranslateList | transpiler.cpp:2058-2068 | the argument and statement loops succeed exactly when every element's translation succeeds |
| Translator.TranslateExpression | transpiler.cpp:1975-2180 | a successful statement other than a bare literal, name or parenthesised expression ends its line with `\n` |
| Translator.IsParentAddsTerminator | transpiler.cpp:2010-2077 | with IsParent set, a declaration, binary expression or call is its expression text followed by `;\n`, with the same success; every other node is written the same either way |
| Translator.TranslateFunction | transpiler.cpp:2182-2221 | a NULL function fails |
| Translator.Translate | transpiler.cpp:2223-2242 | a NULL item fails |
| TranslatorLemmas.WellFormedTranslates | transpiler.cpp:1975-2180 | every tree the parser can build is written without failure |
| TranslatorLemmas.WellFormedListTranslates | transpiler.cpp:1975-2180 | the argument and statement loops succeed on well-formed elements |
| TranslatorLemmas.FunctionTranslates | transpiler.cpp:2182-2221 | every function the parser can build is written without failure |
| TranslatorLemmas.WellFormedUnitTranslates | transpiler.cpp:2223-2242 | Translate fails on an item Parse returns exactly when the item's pointer is NULL |
| TranslatorLemmas.ParsedUnitTranslates | transpiler.cpp:1817-1846 | for the item Parse returns, a NULL pointer is the only way translation fails |
| TranslatorLemmas.LoopHeaderForm | transpiler.cpp:2107-2145 | a loop is written as `while(` exactly when only the condition is present, and as `for(` otherwise |
| TranslatorLemmas.PrototypeIffEmptyBody | transpiler.cpp:2203-2216 | a function is written ending in `);` exactly when it has no statements |
| Driver.Output | transpiler.cpp:2295-2302 | the text for the first k items is a prefix of the text for all of them: items are written in order and never rewritten |
| Driver.Failures | transpiler.cpp:2295-2302 | every reported index is the index of an item |
| Driver.TranslateAll | transpiler.cpp:2295-2302 | the loop writes every item's text in order and reports each failed index |
| Driver.FailuresAreNullItems | transpiler.cpp:2295-2302 | among the items Parse can return, the reported failures are exactly the NULL items |
| Driver.Transpile | transpiler.cpp:2244-2315 | main parses the whole input, writes every item, and reports exactly the NULL items as failed |

## Left out

- Reading the input file, the 1 MiB read limit, `result.c`, argument checks and `free` in `main` (transpiler.cpp:2244-2315): I/O. `Driver.Transpile` takes the input bytes and returns the output text.
- `PrintToken`: debug output only.
- `FreeExpression`, `FreeFunction`, `FreeAst` and every `malloc`: memory is structural with datatypes.
- Diagnostics: `PrintLocationError`, `ExpressionExpectedError` and the `GetLocation` calls on error paths only write to stderr. Each error path is modelled as its result, a NULL tree. `ExpressionExpectedError` applies `strcat` to a string literal, which is undefined behaviour; the model does not capture it.
- The value of a real literal: `strtod` and the `%ff` format are floating point. A real literal keeps its source text, and the translator writes that text followed by `f`. C's `%f` prints six decimals, so the program writes `1.5` as `1.500000f` where the model writes `1.5f`: the text differs on every real literal, the value does not.
- `LexerSpec.ScanNumber`: IntNumber is the natural value of the digit run; `strtoul` saturates at ULONG_MAX and sets ERANGE for a larger value, which is not modelled.
- The C code reads bytes past `EndOfFile` in ParseString (transpiler.cpp:181), in the identifier loop (transpiler.cpp:356), in the comment tests (transpiler.cpp:302, 311), in the block-comment closer test, which reads `ParsePoint[1]` at the last byte (transpiler.cpp:316), and in `strtod`, which scans on past the buffer when a real literal ends at `EndOfFile` (transpiler.cpp:373). The model reads NUL past the end. A string literal with no closing quote is a parse error at the end of the input.
- `ParserSpec.ParseStatements`, `ParserSpec.ParseArguments` and `ParserSpec.ParseParameters`: C fills the fixed arrays (30 statements, 10 arguments or parameters) without a bound check. The model reports a parse error (NULL) instead of writing past the array.
- `ParserSpec.ParseAll`: the `Results[100]` array is a sequence without that bound; C writes past it after 100 items.
- `ParserSpec.Intern`: when AddStringToStorage returns -1, the C code reads `StringArray[-1]`, which is undefined behaviour. The model keeps the lexed text in the node.
- `LexerImpl.Lexer.PeekToken`: FirstChar, LastChar, String and StringLength keep the peeked token's values, as in C. Only the cursor and the token kind are restored.
- `LexerSpec.DecodeString`: the corrected test keeps a byte for the NUL, so a literal whose decoded text reaches the size of String is a parse error one character earlier than in the source: the error token's last byte, the cursor after it and the bytes left in String differ there. `LexerSpec.DecodeStringAgreesBelowCapacity` states that the two agree on every other input.
- `Translator.TranslateString`: writes `"` and `\` as escapes where the source copies them (see Findings); `EscapedTextAgreesWithoutQuotes` states that the two agree on every other text.
- `Translator.TranslateFunction` and `Translator.Translate`: these state only the failure on NULL. Success on parser output is stated by the TranslatorLemmas members.
- Single-token loops of the source appear as separate methods, one iteration each: `ParseStatement`, `ParseOperand`, `ParseElseBlock`, `ArgumentsAfter`, `ParametersAfter`. The loop that calls each of them is in the method of the enclosing routine.
- `IsBinaryOperator` is modelled but unused, as in the source; the parser decides by precedence, which also admits `=`.

## Findings

| source | as written | input that shows it | evidently intended | confidence | as-written member | corrected member |
|---|---|---|---|---|---|---|
| transpiler.cpp:754 | `Length <= Capacity` lets one byte be written at index `Capacity`, past the buffer | a buffer already holding `Capacity` bytes, then adding `"x"` | refuse the write once `Length == Capacity` | not executed | ArenaSpec.AddAsWrittenOverrunsBuffer | ArenaSpec.AddSpec |
| transpiler.cpp:750 | `StringCount` is never checked against MAX_STRING_COUNT, so slot 10000 of `StringArray[10000]` is written | adding a string to an arena that already holds 10000 strings | return -1 when the table is full | not executed | ArenaSpec.AddAsWrittenOverrunsTable | ArenaSpec.AddSpec |
| transpiler.cpp:200-206 | `Output + 1 > OutputEnd` lets the text fill all of String, so the NUL after the loop lands one byte past it | the literal `"a"` with a one-byte String buffer | keep one byte free for the NUL; the corrected test then also reports a longer literal one character earlier, and agrees with the source otherwise (DecodeStringAgreesBelowCapacity) | not executed | LexerSpec.DecodeStringAsWrittenOverrunsBuffer | LexerSpec.DecodeString |
| transpiler.cpp:1857-1877 | TranslateString copies `"` and `\` unescaped, so a string holding either is written as a C literal that ends early or does not end | the source literal `"a\"b"`, written as `"a"b"` | escape `"` and `\` as ParseChar reads them, so that every text without NUL is read back unchanged (StringLiteralRoundTrip) | not executed | Translator.EscapedTextAsWrittenEndsLiteralEarly | Translator.Escape |
| transpiler.cpp:1756-1761 | a prototype consumes its `;`, and the main loop's GetToken then skips the token after it, losing the next item's first token | `f :: () -> int; g :: () -> int { }` | leave the `;` current, as every other item leaves its terminator | not executed | ParserLemmas.PrototypeSkipsNextToken | ParserSpec.ParseFunctionDeclaration |
