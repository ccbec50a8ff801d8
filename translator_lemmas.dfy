/**
 * What the translator promises about the trees the parser builds: every such tree
 * is written out in full, a loop header is written as `while` exactly when only
 * its condition is present, and a function is written as a prototype exactly when
 * it has no statements.
 */
module TranslatorLemmas {

  import opened Wrappers
  import opened Tokens
  import opened Ast
  import opened ParserSpec
  import opened Translator

  /**
   * TranslateExpression (transpiler.cpp:1975-2180) succeeds on every well-formed
   * tree: its only failures are an operator it has no spelling for and a NULL child,
   * and the parser never builds either.
   */
  lemma {:induction false} WellFormedTranslates(e: Expr, isParent: bool)
    requires WellFormed(e)
    ensures TranslateExpression(e, isParent).ok
    decreases e, 1
  {
    match e
    case VarDecl(_, _, init) =>
      if init.Some? {
        WellFormedTranslates(init.value, false);
      }
    case Paren(inner) =>
      WellFormedTranslates(inner, false);
    case Binary(op, lhs, rhs) =>
      WellFormedTranslates(lhs, false);
      OperatorRoundTrip(op);
      WellFormedTranslates(rhs, false);
    case Call(_, args) =>
      WellFormedListTranslates(args, false, ", ");
    case If(cond, thenBody, elseBody) =>
      WellFormedTranslates(cond, false);
      WellFormedListTranslates(thenBody, true, []);
      WellFormedListTranslates(elseBody, true, []);
    case For(definition, condition, action, body) =>
      if definition.Some? {
        WellFormedTranslates(definition.value, false);
      }
      WellFormedTranslates(condition.value, false);
      if action.Some? {
        WellFormedTranslates(action.value, false);
      }
      WellFormedListTranslates(body, true, []);
    case Return(result) =>
      WellFormedTranslates(result, false);
    case CharLit(_) =>
    case IntLit(_) =>
    case RealLit(_) =>
    case StringLit(_) =>
    case Ident(_) =>
    case InlineCode(_) =>
  }

  /** The loops over arguments and statements succeed on well-formed elements. */
  lemma {:induction false} WellFormedListTranslates(es: seq<Expr>, isParent: bool, sep: seq<Byte>)
    requires AllWellFormed(es)
    ensures TranslateList(es, isParent, sep).ok
    decreases es, 0
  {
    if es != [] {
      WellFormedTranslates(es[0], isParent);
      assert AllWellFormed(es[1..]) by {
        forall i | 0 <= i < |es[1..]|
          ensures WellFormed(es[1..][i])
        {
          assert es[1..][i] == es[i + 1];
        }
      }
      WellFormedListTranslates(es[1..], isParent, sep);
    }
  }

  /** TranslateFunction (transpiler.cpp:2182-2221) succeeds on every function the parser returns. */
  lemma FunctionTranslates(f: Func)
    requires FuncWellFormed(f)
    ensures TranslateFunction(Some(f)).ok
  {
    assert AllWellFormed(f.params) by {
      forall i | 0 <= i < |f.params|
        ensures WellFormed(f.params[i])
      {
        assert IsParameter(f.params[i]);
      }
    }
    WellFormedListTranslates(f.params, false, ",");
    WellFormedListTranslates(f.body, true, []);
  }

  /** An item with no tree or function behind it: Parse returned 1 with a NULL pointer. */
  predicate IsNull(u: Unit) {
    (u.ExprUnit? && u.expr.None?) || (u.FuncUnit? && u.func.None?)
  }

  /**
   * Translate (transpiler.cpp:2223-2242) fails on an item Parse returned exactly
   * when the item's pointer is NULL.
   */
  lemma WellFormedUnitTranslates(u: Unit)
    requires UnitWellFormed(u)
    ensures Translate(u).ok <==> !IsNull(u)
  {
    if u.ExprUnit? && u.expr.Some? {
      WellFormedTranslates(u.expr.value, true);
    } else if u.FuncUnit? && u.func.Some? {
      FunctionTranslates(u.func.value);
    }
  }

  /**
   * So for an item Parse (transpiler.cpp:1817-1846) returns, the NULL pointer is
   * the only way Translate can fail.
   */
  lemma ParsedUnitTranslates(p: PState, asWritten: bool)
    requires PValid(p) && ParseUnit(p, asWritten).node.Some?
    ensures Translate(ParseUnit(p, asWritten).node.value).ok <==> !IsNull(ParseUnit(p, asWritten).node.value)
  {
    WellFormedUnitTranslates(ParseUnit(p, asWritten).node.value);
  }

  /**
   * A loop is written as `while(` exactly when it has a condition and neither a
   * definition nor an action (transpiler.cpp:2107-2138), and as `for(` otherwise.
   */
  lemma LoopHeaderForm(e: Expr, isParent: bool)
    requires e.For?
    ensures var t := TranslateExpression(e, isParent).text;
      var whileForm := e.condition.Some? && e.definition.None? && e.action.None?;
      ("while(" <= t <==> whileForm) && ("for(" <= t <==> !whileForm)
  {
    var t := TranslateExpression(e, isParent).text;
    if e.condition.Some? && e.definition.None? && e.action.None? {
      assert "while(" <= t;
      assert t[0] == 'w';
    } else {
      assert "for(" <= t;
      assert t[0] == 'f';
    }
  }

  /**
   * A function without statements is written as a prototype ending in `);` and a
   * function with statements as a body ending in `}` (transpiler.cpp:2203-2216).
   */
  lemma PrototypeIffEmptyBody(f: Func)
    requires TranslateFunction(Some(f)).ok
    ensures var t := TranslateFunction(Some(f)).text;
      |t| >= 3 && (f.body == [] <==> t[|t| - 3..] == ");\n")
  {
    var signature := Then(Ok(TypeText(f.returnType) + f.name + "("), TranslateList(f.params, false, ","));
    var t := TranslateFunction(Some(f)).text;
    if f.body == [] {
      assert t == signature.text + ");" + "\n";
      assert t[|t| - 3..] == ");\n";
    } else {
      var body := TranslateList(f.body, true, []);
      assert t == signature.text + (")\n{\n" + body.text + "}") + "\n";
      assert t[|t| - 2] == '}';
    }
  }
}
