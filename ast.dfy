/**
 * The slice of go/ast and go/types the analyzer looks at. Positions are
 * opaque numbers; identifiers carry a number that keys the `Uses` table.
 */
module Ast {
  import opened Wrappers

  /** A node's Pos() and End(). */
  datatype Span = Span(pos: int, end: int)

  /** token.INT, FLOAT, IMAG, CHAR, STRING: the kinds of a BasicLit. */
  datatype LitKind = INT | FLOAT | IMAG | CHAR | STRING

  /** Only token.ADD matters; every other binary operator is `OtherOp`. */
  datatype BinOp = Add | OtherOp

  /** Expressions. A node kind the analyzer does not look into is an
      `OtherExpr` holding its child expressions in ast.Inspect order.
      `value` is the literal's source text, delimiters included. */
  datatype Expr =
    | BasicLit(kind: LitKind, value: string, span: Span)
    | Ident(id: nat, name: string, span: Span)
    | BinaryExpr(x: Expr, op: BinOp, y: Expr, span: Span)
    | ParenExpr(x: Expr, span: Span)
    | SelectorExpr(x: Expr, selId: nat, selName: string, span: Span)
    | CallExpr(fun: Expr, args: seq<Expr>, span: Span)
    | OtherExpr(children: seq<Expr>, span: Span)

  /** A types.Object: a constant with the text of its value
      (constant.Value.String()), or any other object; either may have no
      package (`Pkg() == nil`). */
  datatype Object =
    | ConstObj(pkg: Option<string>, valueText: string)
    | OtherObj(pkg: Option<string>)

  /** TypesInfo.Uses: identifier number to object. An absent key is a failed
      lookup; a `None` entry is a nil object. */
  type Uses = map<nat, Option<Object>>
}
