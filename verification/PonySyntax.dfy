/**
 The syntax trees the expression parser and the statement parser build, for the
 fragment the Wasm back end compiles, in the node shapes the back end looks at.
 */
module PonySyntax {
  import opened Wrappers

  datatype BinOp =
    | OrOp | AndOp | BitOrOp | BitXorOp | BitAndOp
    | EqOp | NeOp | LtOp | GtOp | LeOp | GeOp
    | ShlOp | ShrOp | AddOp | SubOp | MulOp | DivOp | RemOp

  datatype UnOp = NotOp | NegOp | BitNotOp

  datatype Expr =
    | EInt(value: nat)
    | EBool(b: bool)
    | EIdent(name: string)
    | EUn(op: UnOp, arg: Expr)
    | EUnMissing(op: UnOp)                       // an operator whose operand did not parse
    | EBin(bop: BinOp, left: Expr, right: Expr)
    | ERange(lo: nat, hi: nat)

  /**
   The type annotation of a local: the statement parser wraps the type in a "type"
   node; the back end looks only at the annotation's own text.
   */
  datatype Ann = NoAnn | Wrapped(ty: string) | Bare(ty: string)

  /** The statement parser builds a labelled node for break/continue; the back end matches an identifier. */
  datatype JumpForm = AsIdent | AsLabel

  datatype Stmt =
    | SVar(name: string, ann: Ann, init: Option<Expr>)
    | SAssign(name: string, value: Expr)
    | SCompound(name: string, op: BinOp, value: Expr)
    | SIf(cond: Expr, thn: Stmt, els: Option<Stmt>)
    | SWhile(cond: Expr, body: Stmt)
    | SReturn(result: Option<Expr>)
    | SBreak(form: JumpForm)
    | SContinue(form: JumpForm)
    | SBlock(stmts: seq<Stmt>)
    | SExpr(expr: Expr)
}
