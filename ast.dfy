/**
 * The syntax tree (`expr`, `func` and `ast`, transpiler.cpp:770-905). The C tagged
 * union with owned pointers becomes a datatype; a child the C code may leave NULL
 * is an `Option`, and the fixed child arrays with their counts are sequences.
 * Strings are the bytes the arena pointer designates, up to the NUL.
 */
module Ast {

  import opened Wrappers
  import opened Tokens

  datatype Expr =
    | CharLit(value: Byte)                       // EXPR_char
    | IntLit(number: nat)                       // EXPR_int
    | RealLit(lexeme: seq<Byte>)                 // EXPR_real, the literal's text
    | StringLit(text: seq<Byte>)                 // EXPR_string
    | Ident(name: seq<Byte>)                     // EXPR_id
    | VarDecl(varType: TokenKind, name: seq<Byte>, init: Option<Expr>)   // EXPR_var
    | Paren(inner: Expr)                         // EXPR_paren
    | Binary(op: TokenKind, lhs: Expr, rhs: Expr)                        // EXPR_binary
    | Call(callee: seq<Byte>, args: seq<Expr>)   // EXPR_call
    | If(cond: Expr, thenBody: seq<Expr>, elseBody: seq<Expr>)           // EXPR_if
    | For(definition: Option<Expr>, condition: Option<Expr>, action: Option<Expr>, body: seq<Expr>)  // EXPR_for
    | Return(result: Expr)                      // EXPR_return
    | InlineCode(text: seq<Byte>)                  // EXPR_inline

  /** A function definition or prototype (`func`). */
  datatype Func = Func(returnType: TokenKind, name: seq<Byte>, params: seq<Expr>, body: seq<Expr>)

  /**
   * One element of the `Results` array: a top-level expression or a function. The
   * C code keeps the element even when the parse failed and left its pointer NULL.
   */
  datatype Unit = ExprUnit(expr: Option<Expr>) | FuncUnit(func: Option<Func>)

  /** The statements that the block loops expect to be followed by `}` rather than `;`. */
  predicate IsCompound(e: Expr) {
    e.If? || e.For?
  }
}
