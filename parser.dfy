/**
 * The parser of the C program (transpiler.cpp:1129-1846) as methods over the lexer
 * object and the string storage, which every C parse function receives by pointer
 * and advances in place. Each method is proved against the function of the same
 * name in parser_spec.dfy: the node it returns and the state it leaves are the
 * ones that function gives for the state the method started in.
 */
module ParserImpl {

  import opened Wrappers
  import opened Tokens
  import opened LexerSpec
  import opened ArenaSpec
  import opened Ast
  import opened ParserSpec
  import opened LexerImpl
  import opened ArenaImpl

  class Parser {
    /** The `lexer` every parse function advances. */
    const lexer: Lexer
    /** The `string_storage` the names and string literals are copied into. */
    const storage: StringStorage

    ghost predicate Valid()
      reads this, lexer, lexer.scratch, storage, storage.strings, storage.stringArray
    {
      lexer.scratch != storage.strings && storage.Valid()
      && LexValid(lexer.State()) && ArenaValid(storage.Value())
    }

    /** The lexer's fields and the stored strings, as the specification sees them. */
    function State(): PState
      requires Valid()
      reads this, lexer, lexer.scratch, storage, storage.strings, storage.stringArray
    {
      PState(lexer.State(), storage.Value())
    }

    /**
     * The setup in main (transpiler.cpp:2265-2269): a lexer over `input` with a
     * scratch buffer of `scratchSize` bytes, and an empty string storage of
     * `storageSize` bytes.
     */
    constructor (input: seq<Byte>, scratchSize: nat, storageSize: nat)
      requires scratchSize >= 1
      ensures Valid() && State() == PState(InitLexer(input, scratchSize), InitStorage(storageSize))
      ensures fresh(lexer) && fresh(lexer.scratch) && fresh(storage) && fresh(storage.strings) && fresh(storage.stringArray)
    {
      lexer := new Lexer(input, scratchSize);
      storage := new StringStorage(storageSize);
    }

    /** A GetToken call; returns whether a token other than end-of-file was read. */
    method NextToken() returns (more: bool)
      requires Valid()
      modifies lexer, lexer.scratch
      ensures Valid() && State() == Next(old(State()))
      ensures more <==> Tok(State()) != Eof
    {
      more := lexer.GetToken();
    }

    /** AddStringToStorage of String[0 .. StringLength); the index is not used. */
    method InternString()
      requires Valid()
      modifies storage, storage.strings, storage.stringArray
      ensures Valid() && State() == Intern(old(State()))
    {
      var _ := storage.AddStringToStorage(lexer.scratch[..lexer.stringLength]);
    }

    /** The text a node receives from String: the bytes up to the first NUL. */
    method CurrentText() returns (text: seq<Byte>)
      requires Valid()
      ensures text == Text(State())
    {
      text := CString(lexer.scratch[..lexer.stringLength]);
    }

    /** ParseCharExpr (transpiler.cpp:1140-1147). */
    method ParseCharExpr() returns (e: Option<Expr>)
      requires Valid()
      modifies lexer, lexer.scratch
      ensures Valid() && Parsed(e, State()) == ParserSpec.ParseCharExpr(old(State()))
    {
      e := Some(CharLit(ToByte(lexer.intNumber)));
      var _ := NextToken();
    }

    /** ParseIntExpr (transpiler.cpp:1149-1156). */
    method ParseIntExpr() returns (e: Option<Expr>)
      requires Valid()
      modifies lexer, lexer.scratch
      ensures Valid() && Parsed(e, State()) == ParserSpec.ParseIntExpr(old(State()))
    {
      e := Some(IntLit(lexer.intNumber));
      var _ := NextToken();
    }

    /** ParseRealExpr (transpiler.cpp:1158-1165). */
    method ParseRealExpr() returns (e: Option<Expr>)
      requires Valid()
      modifies lexer, lexer.scratch
      ensures Valid() && Parsed(e, State()) == ParserSpec.ParseRealExpr(old(State()))
    {
      e := Some(RealLit(lexer.realLexeme));
      var _ := NextToken();
    }

    /** ParseStringExpr (transpiler.cpp:1167-1175). */
    method ParseStringExpr() returns (e: Option<Expr>)
      requires Valid()
      modifies lexer, lexer.scratch, storage, storage.strings, storage.stringArray
      ensures Valid() && Parsed(e, State()) == ParserSpec.ParseStringExpr(old(State()))
    {
      var text := CurrentText();
      InternString();
      e := Some(StringLit(text));
      var _ := NextToken();
    }

    /** ParseIdExpr (transpiler.cpp:1179-1261). */
    method ParseIdExpr() returns (e: Option<Expr>)
      requires Valid()
      modifies lexer, lexer.scratch, storage, storage.strings, storage.stringArray
      ensures Valid() && Parsed(e, State()) == ParserSpec.ParseIdExpr(old(State()))
      decreases Rank(lexer.State()), 1
    {
      ghost var p := State();
      var name := CurrentText();
      InternString();
      var _ := NextToken();
      assert State() == Next(Intern(p));
      if lexer.token != Single('(') && lexer.token != Single(':') {
        return Some(Ident(name));
      }
      if lexer.token == Single(':') {
        var _ := NextToken();
        if !IsType(lexer.token) {
          return None;
        }
        var varType := lexer.token;
        var _ := NextToken();
        if lexer.token == Single(';') {
          return Some(VarDecl(varType, name, None));
        }
        if lexer.token != Single('=') {
          return None;
        }
        var _ := NextToken();
        var init := ParseExpression();
        return Some(VarDecl(varType, name, init));
      }
      var _ := NextToken();
      e := ParseArguments(name);
    }

    /** The argument loop of ParseIdExpr (transpiler.cpp:1233-1259). */
    method ParseArguments(callee: seq<Byte>) returns (e: Option<Expr>)
      requires Valid()
      modifies lexer, lexer.scratch, storage, storage.strings, storage.stringArray
      ensures Valid() && Parsed(e, State()) == ParserSpec.ParseArguments(old(State()), callee, [])
      decreases Rank(lexer.State()), 5
    {
      ghost var target := ParserSpec.ParseArguments(State(), callee, []);
      ghost var start := Rank(lexer.State());
      var args: seq<Expr> := [];
      while true
        invariant Valid() && |args| <= MaxParameterCount && AllWellFormed(args)
        invariant Rank(lexer.State()) <= start
        invariant ParserSpec.ParseArguments(State(), callee, args) == target
        decreases Rank(lexer.State())
      {
        ghost var s := State();
        if |args| >= MaxParameterCount {
          return None;
        }
        var arg := ParseExpression();
        if arg.None? {
          return None;
        }
        ghost var q := State();
        AppendWellFormed(args, arg.value);
        assert ParserSpec.ParseArguments(s, callee, args) == ArgumentsAfter(q, callee, args + [arg.value]);
        args := args + [arg.value];
        if lexer.token == Single(')') {
          var _ := NextToken();
          return Some(Call(callee, args));
        }
        if lexer.token != Single(',') {
          return None;
        }
        var _ := NextToken();
      }
    }

    /** ParseParenExpr (transpiler.cpp:1263-1282). */
    method ParseParenExpr() returns (e: Option<Expr>)
      requires Valid() && lexer.token == Single('(')
      modifies lexer, lexer.scratch, storage, storage.strings, storage.stringArray
      ensures Valid() && Parsed(e, State()) == ParserSpec.ParseParenExpr(old(State()))
      decreases Rank(lexer.State()), 1
    {
      var _ := NextToken();
      var inner := ParseExpression();
      if inner.None? || lexer.token != Single(')') {
        return None;
      }
      var _ := NextToken();
      return Some(Paren(inner.value));
    }

    /**
     * The statement loop of ParseIfExpr, ParseForExpr and ParseFunctionDeclaration
     * (transpiler.cpp:1306-1339, 1356-1389, 1455-1488, 1773-1812).
     */
    method ParseStatements() returns (body: Option<seq<Expr>>)
      requires Valid()
      modifies lexer, lexer.scratch, storage, storage.strings, storage.stringArray
      ensures Valid() && Parsed(body, State()) == ParserSpec.ParseStatements(old(State()), [])
      decreases Rank(lexer.State()), 6
    {
      ghost var target := ParserSpec.ParseStatements(State(), []);
      ghost var start := Rank(lexer.State());
      var statements: seq<Expr> := [];
      while lexer.token != Single('}')
        invariant Valid() && |statements| <= MaxExpressionCount && AllWellFormed(statements)
        invariant Rank(lexer.State()) <= start
        invariant ParserSpec.ParseStatements(State(), statements) == target
        decreases Rank(lexer.State())
      {
        if |statements| >= MaxExpressionCount {
          return None;
        }
        var statement := ParseStatement();
        if statement.None? {
          return None;
        }
        AppendWellFormed(statements, statement.value);
        statements := statements + [statement.value];
        var _ := NextToken();
      }
      return Some(statements);
    }

    /** One pass of a statement loop: the statement, and the check of its terminator. */
    method ParseStatement() returns (statement: Option<Expr>)
      requires Valid()
      modifies lexer, lexer.scratch, storage, storage.strings, storage.stringArray
      ensures Valid() && Parsed(statement, State()) == ParserSpec.ParseStatement(old(State()))
      decreases Rank(lexer.State()), 5
    {
      statement := ParseExpression();
      if statement.None? {
        return None;
      }
      if IsCompound(statement.value) && lexer.token != Single('}') {
        return None;
      }
      if !IsCompound(statement.value) && lexer.token != Single(';') {
        return None;
      }
    }

    /** ParseIfExpr (transpiler.cpp:1284-1339). */
    method ParseIfExpr() returns (e: Option<Expr>)
      requires Valid() && lexer.token == IfKw
      modifies lexer, lexer.scratch, storage, storage.strings, storage.stringArray
      ensures Valid() && Parsed(e, State()) == ParserSpec.ParseIfExpr(old(State()))
      decreases Rank(lexer.State()), 1
    {
      var _ := NextToken();
      var cond := ParseExpression();
      if cond.None? || lexer.token != Single('{') {
        return None;
      }
      var _ := NextToken();
      var thenBody := ParseStatements();
      if thenBody.None? {
        return None;
      }
      e := ParseElse(cond.value, thenBody.value);
    }

    /** The `else` part of ParseIfExpr (transpiler.cpp:1341-1391). */
    method ParseElse(cond: Expr, thenBody: seq<Expr>) returns (e: Option<Expr>)
      requires Valid() && lexer.token == Single('}')
      requires WellFormed(cond) && |thenBody| <= MaxExpressionCount && AllWellFormed(thenBody)
      modifies lexer, lexer.scratch, storage, storage.strings, storage.stringArray
      ensures Valid() && Parsed(e, State()) == ParserSpec.ParseElse(cond, thenBody, old(State()))
      decreases Rank(lexer.State()), 1
    {
      var next := lexer.PeekToken();
      if next != ElseKw {
        return Some(If(cond, thenBody, []));
      }
      e := ParseElseBlock(cond, thenBody);
    }

    /** The second block of ParseIfExpr (transpiler.cpp:1346-1389). */
    method ParseElseBlock(cond: Expr, thenBody: seq<Expr>) returns (e: Option<Expr>)
      requires Valid() && lexer.token == Single('}')
      requires WellFormed(cond) && |thenBody| <= MaxExpressionCount && AllWellFormed(thenBody)
      modifies lexer, lexer.scratch, storage, storage.strings, storage.stringArray
      ensures Valid() && Parsed(e, State()) == ParserSpec.ParseElseBlock(cond, thenBody, old(State()))
      decreases Rank(lexer.State()), 0
    {
      ghost var q := State();
      var _ := NextToken();
      var _ := NextToken();
      ghost var q2 := State();
      assert q2 == Next(Next(q));
      if lexer.token != Single('{') {
        return None;
      }
      var _ := NextToken();
      assert State() == Next(q2);
      var elseBody := ParseStatements();
      if elseBody.None? {
        return None;
      }
      return Some(If(cond, thenBody, elseBody.value));
    }

    /** The header part of ParseForExpr (transpiler.cpp:1396-1451). */
    method ParseForHeader() returns (h: Option<Header>)
      requires Valid() && lexer.token == ForKw
      modifies lexer, lexer.scratch, storage, storage.strings, storage.stringArray
      ensures Valid() && Parsed(h, State()) == ParserSpec.ParseForHeader(old(State()))
      decreases Rank(lexer.State()), 0
    {
      var _ := NextToken();
      var definition := ParseExpression();
      if definition.None? {
        return None;
      }
      if lexer.token == Single(';') {
        var _ := NextToken();
        var condition := ParseExpression();
        if condition.None? || lexer.token != Single(';') {
          return None;
        }
        var _ := NextToken();
        var action := ParseExpression();
        if action.None? || lexer.token != Single('{') {
          return None;
        }
        return Some(Header(definition, condition, action));
      } else if lexer.token == Single('{') {
        return Some(Header(None, definition, None));
      }
      return None;
    }

    /** ParseForExpr (transpiler.cpp:1394-1491). */
    method ParseForExpr() returns (e: Option<Expr>)
      requires Valid() && lexer.token == ForKw
      modifies lexer, lexer.scratch, storage, storage.strings, storage.stringArray
      ensures Valid() && Parsed(e, State()) == ParserSpec.ParseForExpr(old(State()))
      decreases Rank(lexer.State()), 1
    {
      var header := ParseForHeader();
      if header.None? {
        return None;
      }
      var _ := NextToken();
      var body := ParseStatements();
      if body.None? {
        return None;
      }
      var h := header.value;
      return Some(For(h.definition, h.condition, h.action, body.value));
    }

    /** ParseReturnExpr (transpiler.cpp:1493-1509). */
    method ParseReturnExpr() returns (e: Option<Expr>)
      requires Valid() && lexer.token == ReturnKw
      modifies lexer, lexer.scratch, storage, storage.strings, storage.stringArray
      ensures Valid() && Parsed(e, State()) == ParserSpec.ParseReturnExpr(old(State()))
      decreases Rank(lexer.State()), 1
    {
      var _ := NextToken();
      var result := ParseExpression();
      if result.None? || lexer.token != Single(';') {
        return None;
      }
      return Some(Return(result.value));
    }

    /** ParseInlineExpr (transpiler.cpp:1511-1532). */
    method ParseInlineExpr() returns (e: Option<Expr>)
      requires Valid() && lexer.token == TokenKind.Inline
      modifies lexer, lexer.scratch, storage, storage.strings, storage.stringArray
      ensures Valid() && Parsed(e, State()) == ParserSpec.ParseInlineExpr(old(State()))
    {
      var _ := NextToken();
      if lexer.token != StringText {
        return None;
      }
      var text := CurrentText();
      InternString();
      var _ := NextToken();
      return Some(InlineCode(text));
    }

    /** ParsePrimaryExpression (transpiler.cpp:1534-1586). */
    method ParsePrimary() returns (e: Option<Expr>)
      requires Valid()
      modifies lexer, lexer.scratch, storage, storage.strings, storage.stringArray
      ensures Valid() && Parsed(e, State()) == ParserSpec.ParsePrimary(old(State()))
      decreases Rank(lexer.State()), 2
    {
      var token := lexer.token;
      if token == CharNumber {
        e := ParseCharExpr();
      } else if token == IntNumber {
        e := ParseIntExpr();
      } else if token == RealNumber {
        e := ParseRealExpr();
      } else if token == StringText {
        e := ParseStringExpr();
      } else if token == Id {
        e := ParseIdExpr();
      } else if token == Single('(') {
        e := ParseParenExpr();
      } else if token == IfKw {
        e := ParseIfExpr();
      } else if token == ForKw {
        e := ParseForExpr();
      } else if token == ReturnKw {
        e := ParseReturnExpr();
      } else if token == TokenKind.Inline {
        e := ParseInlineExpr();
      } else {
        e := None;
      }
    }

    /** ParseBinaryExpressionRHS (transpiler.cpp:1588-1631). */
    method ParseBinaryRHS(minPrec: int, first: Expr) returns (e: Option<Expr>)
      requires Valid() && minPrec >= 0 && WellFormed(first)
      modifies lexer, lexer.scratch, storage, storage.strings, storage.stringArray
      ensures Valid() && Parsed(e, State()) == ParserSpec.ParseBinaryRHS(minPrec, old(State()), first)
      decreases Rank(lexer.State()), 3
    {
      ghost var target := ParserSpec.ParseBinaryRHS(minPrec, State(), first);
      ghost var start := Rank(lexer.State());
      var lhs := first;
      while Precedence(lexer.token) >= minPrec
        invariant Valid() && WellFormed(lhs) && Rank(lexer.State()) <= start
        invariant ParserSpec.ParseBinaryRHS(minPrec, State(), lhs) == target
        decreases Rank(lexer.State())
      {
        var op := lexer.token;
        var rhs := ParseOperand();
        if rhs.None? {
          return None;
        }
        lhs := Binary(op, lhs, rhs.value);
      }
      return Some(lhs);
    }

    /** The right operand in ParseBinaryExpressionRHS (transpiler.cpp:1597-1622). */
    method ParseOperand() returns (e: Option<Expr>)
      requires Valid() && Precedence(lexer.token) >= 0
      modifies lexer, lexer.scratch, storage, storage.strings, storage.stringArray
      ensures Valid() && Parsed(e, State()) == ParserSpec.ParseOperand(old(State()))
      decreases Rank(lexer.State()), 0
    {
      var prec := Precedence(lexer.token);
      var _ := NextToken();
      e := ParsePrimary();
      if e.None? {
        return None;
      }
      if prec < Precedence(lexer.token) {
        e := ParseBinaryRHS(prec + 1, e.value);
      }
    }

    /** ParseExpression (transpiler.cpp:1633-1642). */
    method ParseExpression() returns (e: Option<Expr>)
      requires Valid()
      modifies lexer, lexer.scratch, storage, storage.strings, storage.stringArray
      ensures Valid() && Parsed(e, State()) == ParserSpec.ParseExpression(old(State()))
      decreases Rank(lexer.State()), 4
    {
      var lhs := ParsePrimary();
      if lhs.None? {
        return None;
      }
      e := ParseBinaryRHS(0, lhs.value);
    }

    /** ParseFunctionDeclarationVariable (transpiler.cpp:1644-1682). */
    method ParseParameter() returns (e: Option<Expr>)
      requires Valid()
      modifies lexer, lexer.scratch, storage, storage.strings, storage.stringArray
      ensures Valid() && Parsed(e, State()) == ParserSpec.ParseParameter(old(State()))
    {
      if lexer.token != Id {
        return None;
      }
      var name := CurrentText();
      InternString();
      var _ := NextToken();
      if lexer.token != Single(':') {
        return None;
      }
      var _ := NextToken();
      if !IsType(lexer.token) {
        return None;
      }
      e := Some(VarDecl(lexer.token, name, None));
      var _ := NextToken();
    }

    /** The parameter loop of ParseFunctionDeclaration (transpiler.cpp:1709-1733). */
    method ParseParameters() returns (params: Option<seq<Expr>>)
      requires Valid()
      modifies lexer, lexer.scratch, storage, storage.strings, storage.stringArray
      ensures Valid() && Parsed(params, State()) == ParserSpec.ParseParameters(old(State()), [])
    {
      ghost var target := ParserSpec.ParseParameters(State(), []);
      var parsed: seq<Expr> := [];
      while true
        invariant Valid() && |parsed| <= MaxParameterCount && AllParameters(parsed)
        invariant ParserSpec.ParseParameters(State(), parsed) == target
        decreases Rank(lexer.State())
      {
        ghost var s := State();
        if |parsed| >= MaxParameterCount {
          return None;
        }
        var parameter := ParseParameter();
        if parameter.None? {
          return None;
        }
        AppendParameter(parsed, parameter.value);
        assert ParserSpec.ParseParameters(s, parsed) == ParametersAfter(State(), parsed + [parameter.value]);
        parsed := parsed + [parameter.value];
        if lexer.token == Single(')') {
          return Some(parsed);
        }
        if lexer.token != Single(',') {
          return None;
        }
        var _ := NextToken();
      }
    }

    /**
     * ParseFunctionDeclaration (transpiler.cpp:1684-1733): the name, `::`, and the
     * parameter list up to its `)`.
     */
    method ParseFunctionDeclaration() returns (f: Option<Func>)
      requires Valid()
      modifies lexer, lexer.scratch, storage, storage.strings, storage.stringArray
      ensures Valid() && Parsed(f, State()) == ParserSpec.ParseFunctionDeclaration(old(State()))
    {
      var name := CurrentText();
      InternString();
      var _ := NextToken();
      var _ := NextToken();
      if lexer.token != Single('(') {
        return None;
      }
      var _ := NextToken();
      var params: seq<Expr> := [];
      if lexer.token != Single(')') {
        var parsed := ParseParameters();
        if parsed.None? {
          return None;
        }
        params := parsed.value;
      }
      f := ParseFunctionTail(name, params);
    }

    /**
     * The rest of ParseFunctionDeclaration (transpiler.cpp:1735-1812), with a
     * prototype's `;` left current.
     */
    method ParseFunctionTail(name: seq<Byte>, params: seq<Expr>) returns (f: Option<Func>)
      requires Valid() && lexer.token == Single(')')
      requires |params| <= MaxParameterCount && AllParameters(params)
      modifies lexer, lexer.scratch, storage, storage.strings, storage.stringArray
      ensures Valid() && Parsed(f, State()) == ParserSpec.ParseFunctionTail(name, params, old(State()))
    {
      var _ := NextToken();
      if lexer.token != Arrow {
        return None;
      }
      var _ := NextToken();
      if !IsType(lexer.token) {
        return None;
      }
      var returnType := lexer.token;
      var _ := NextToken();
      if lexer.token == Single(';') {
        return Some(Func(returnType, name, params, []));
      }
      if lexer.token != Single('{') {
        return None;
      }
      var _ := NextToken();
      var body := ParseStatements();
      if body.None? {
        return None;
      }
      return Some(Func(returnType, name, params, body.value));
    }

    /** Parse (transpiler.cpp:1817-1846): None where the C function returns 0. */
    method Parse() returns (unit: Option<Unit>)
      requires Valid()
      modifies lexer, lexer.scratch, storage, storage.strings, storage.stringArray
      ensures Valid() && Parsed(unit, State()) == ParseUnit(old(State()), false)
    {
      if lexer.token != Id && lexer.token != TokenKind.Inline {
        return None;
      }
      ghost var p := State();
      var next := lexer.PeekToken();
      assert State() == p.(lex := Peek(p.lex).1) && next == Peek(p.lex).0;
      if next == DoubleColon {
        var f := ParseFunctionDeclaration();
        unit := Some(FuncUnit(f));
      } else {
        var e := ParseExpression();
        unit := Some(ExprUnit(e));
      }
    }

    /**
     * The parsing loop of main (transpiler.cpp:2274-2291): the items Parse
     * returned, in order, up to end-of-file.
     */
    method ParseProgram() returns (units: seq<Unit>)
      requires Valid()
      modifies lexer, lexer.scratch, storage, storage.strings, storage.stringArray
      ensures Valid() && Tok(State()) == Eof && units == ParseAll(old(State()), false, [])
    {
      ghost var target := ParseAll(State(), false, []);
      units := [];
      while true
        invariant Valid() && ParseAll(State(), false, units) == target
        decreases Rank(lexer.State())
      {
        var more := NextToken();
        if !more {
          return;
        }
        var unit := Parse();
        if unit.Some? {
          units := units + [unit.value];
        }
      }
    }
  }
}
