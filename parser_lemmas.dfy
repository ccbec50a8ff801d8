/**
 * What the parser functions promise across several steps: the shape precedence
 * climbing gives to `a op1 b op2 c`, and what a prototype's `;` costs the items
 * that follow it.
 */
module ParserLemmas {

  import opened Wrappers
  import opened Tokens
  import opened LexerSpec
  import opened Ast
  import opened ParserSpec

  /**
   * `a op1 b op2 c` where op2 does not bind more tightly than op1 groups to the
   * left, `(a op1 b) op2 c` (transpiler.cpp:1588-1631). Here `p` is at op1, `b` is
   * the primary after it ending at op2 (state `q`), `c` the primary after op2
   * ending at a token below the threshold.
   */
  lemma LeftAssociative(minPrec: int, p: PState, a: Expr)
    requires PValid(p) && minPrec >= 0 && WellFormed(a)
    requires Precedence(Tok(p)) >= minPrec
    requires ParsePrimary(Next(p)).node.Some?
    requires var q := ParsePrimary(Next(p)).state;
      minPrec <= Precedence(Tok(q)) <= Precedence(Tok(p))
      && ParsePrimary(Next(q)).node.Some?
      && Precedence(Tok(ParsePrimary(Next(q)).state)) < minPrec
    ensures var b := ParsePrimary(Next(p));
      var c := ParsePrimary(Next(b.state));
      ParseBinaryRHS(minPrec, p, a)
        == Parsed(Some(Binary(Tok(b.state), Binary(Tok(p), a, b.node.value), c.node.value)), c.state)
  {
    var b := ParsePrimary(Next(p));
    var c := ParsePrimary(Next(b.state));
    assert ParseOperand(p) == b;
    var ab := Binary(Tok(p), a, b.node.value);
    assert ParseBinaryRHS(minPrec, p, a) == ParseBinaryRHS(minPrec, b.state, ab);
    assert ParseOperand(b.state) == c;
    var abc := Binary(Tok(b.state), ab, c.node.value);
    assert ParseBinaryRHS(minPrec, b.state, ab) == ParseBinaryRHS(minPrec, c.state, abc);
  }

  /**
   * `a op1 b op2 c` where op2 binds more tightly than op1 groups to the right,
   * `a op1 (b op2 c)`: the inner call at op1's precedence + 1 absorbs `b op2 c`.
   */
  lemma TighterBindsRight(minPrec: int, p: PState, a: Expr)
    requires PValid(p) && minPrec >= 0 && WellFormed(a)
    requires Precedence(Tok(p)) >= minPrec
    requires ParsePrimary(Next(p)).node.Some?
    requires var q := ParsePrimary(Next(p)).state;
      Precedence(Tok(q)) > Precedence(Tok(p))
      && ParsePrimary(Next(q)).node.Some?
      && Precedence(Tok(ParsePrimary(Next(q)).state)) < minPrec
    ensures var b := ParsePrimary(Next(p));
      var c := ParsePrimary(Next(b.state));
      ParseBinaryRHS(minPrec, p, a)
        == Parsed(Some(Binary(Tok(p), a, Binary(Tok(b.state), b.node.value, c.node.value))), c.state)
  {
    var prec := Precedence(Tok(p));
    var b := ParsePrimary(Next(p));
    var c := ParsePrimary(Next(b.state));
    var bc := Binary(Tok(b.state), b.node.value, c.node.value);
    assert ParseOperand(b.state) == c;
    assert ParseBinaryRHS(prec + 1, c.state, bc) == Parsed(Some(bc), c.state);
    assert ParseBinaryRHS(prec + 1, b.state, b.node.value) == Parsed(Some(bc), c.state);
    assert ParseOperand(p) == Parsed(Some(bc), c.state);
    var abc := Binary(Tok(p), a, bc);
    assert ParseBinaryRHS(minPrec, p, a) == ParseBinaryRHS(minPrec, c.state, abc);
  }

  /**
   * A prototype as written leaves the token after its `;` current, so the main
   * loop's GetToken (transpiler.cpp:2274) moves past that token before Parse sees
   * it: the item that starts there is lost. With the `;` left current, as every
   * other item leaves its terminator, the main loop resumes at that token.
   */
  lemma PrototypeSkipsNextToken(p: PState)
    requires PValid(p)
    requires var r := ParseUnit(p, false);
      r.node.Some? && r.node.value.FuncUnit? && r.node.value.func.Some? && Tok(r.state) == Single(';')
    ensures var s := ParseUnit(p, false).state;
      ParseUnit(p, true).node == ParseUnit(p, false).node
      && ParseUnit(p, true).state == Next(s)
  {
    var peek := Peek(p.lex);
    var q := p.(lex := peek.1);
    assert peek.0 == DoubleColon;
    assert ParseUnit(p, false).state == ParseFunctionDeclaration(q).state;
  }

  /** Every tree and function among the items main collects is well formed. */
  lemma {:induction false} ParseAllWellFormed(p: PState, asWritten: bool, units: seq<Unit>)
    requires PValid(p) && AllUnitsWellFormed(units)
    ensures AllUnitsWellFormed(ParseAll(p, asWritten, units))
    decreases Rank(p.lex)
  {
    var q := Next(p);
    if Tok(q) != Eof {
      var u := ParseUnit(q, asWritten);
      KeepWellFormed(units, u.node);
      ParseAllWellFormed(u.state, asWritten, Keep(units, u.node));
    }
  }

  lemma KeepWellFormed(units: seq<Unit>, u: Option<Unit>)
    requires AllUnitsWellFormed(units) && (u.Some? ==> UnitWellFormed(u.value))
    ensures AllUnitsWellFormed(Keep(units, u))
  {
    if u.Some? {
      assert forall i :: 0 <= i < |units| ==> (units + [u.value])[i] == units[i];
    }
  }
}
