/**
 What the back end emits, as structured code: the functions the emitting methods of
 WasmGen are proved against.
 */
module WasmCompiler {
  import opened Wrappers
  import opened I32
  import opened WasmMachine
  import opened PonySyntax

  const MAX_LOCALS: nat := 64
  const MAX_LOOPS: nat := 32

  /** The emitter's tables: local names and U32 marks, the if nesting, and the open loops' if nestings. */
  datatype Gen = Gen(names: seq<string>, u32s: seq<bool>, ifDepth: nat, loops: seq<nat>)

  function Lookup(names: seq<string>, x: string): (i: nat)
    ensures i <= |names|
    ensures i < |names| ==> names[i] == x
    ensures i == |names| ==> x !in names
    ensures forall k :: 0 <= k < i ==> names[k] != x
  {
    if names == [] then 0
    else if names[0] == x then 0
    else
      var i := Lookup(names[1..], x);
      assert forall k :: 1 <= k < i + 1 ==> names[k] == names[1..][k - 1];
      assert x in names ==> x in names[1..];
      i + 1
  }

  /** A name slot holds 63 characters. */
  function Stored(x: string): string {
    if |x| <= 63 then x else x[..63]
  }

  /** The local of that name, created if there is room. */
  function Ensure(g: Gen, x: string): (r: (Gen, Option<nat>)) {
    var i := Lookup(g.names, x);
    if i < |g.names| then (g, Some(i))
    else if |g.names| >= MAX_LOCALS then (g, None)
    else (g.(names := g.names + [Stored(x)], u32s := g.u32s + [false]), Some(i))
  }

  function MarkU32(g: Gen, i: Option<nat>, mark: bool): Gen {
    if mark && i.Some? && i.value < |g.u32s| then g.(u32s := g.u32s[i.value := true]) else g
  }

  /** The annotation or the initializer is literally the word U32. */
  predicate SaysU32(ann: Ann, init: Option<Expr>) {
    ann == Bare("U32") || (ann != Bare("String") && init == Some(EIdent("U32")))
  }

  /** A bare annotation without initializer is taken for the initializer. */
  function Initializer(ann: Ann, init: Option<Expr>): Option<Expr> {
    if init.Some? then init else if ann.Bare? then Some(EIdent(ann.ty)) else None
  }

  predicate IsU32(e: Expr, g: Gen) {
    match e
    case EInt(v) => v > 2147483647
    case EIdent(x) => var i := Lookup(g.names, x); i < |g.names| && i < |g.u32s| && g.u32s[i]
    case _ => false
  }

  /** The instruction for a binary operator; None for those that fall through to constant 0. */
  function OpCode(op: BinOp, unsigned: bool): Option<NumOp> {
    match op
    case AddOp => Some(Add)
    case SubOp => Some(Sub)
    case MulOp => Some(Mul)
    case DivOp => Some(DivS)
    case EqOp => Some(Eq)
    case NeOp => Some(Ne)
    case LtOp => Some(if unsigned then LtU else LtS)
    case GtOp => Some(if unsigned then GtU else GtS)
    case LeOp => Some(if unsigned then LeU else LeS)
    case GeOp => Some(if unsigned then GeU else GeS)
    case AndOp => Some(And)
    case OrOp => Some(Or)
    case _ => None
  }

  /** `br` operand for break and continue: ifs opened since the innermost recorded loop, plus 1 for break. */
  function JumpDepth(g: Gen, isBreak: bool): nat
    requires g.loops != []
  {
    var base := g.loops[|g.loops| - 1];
    var rel := if g.ifDepth < base then 0 else g.ifDepth - base;
    if isBreak then rel + 1 else rel
  }

  function CompileExpr(e: Expr, g: Gen): seq<Instr> {
    match e
    case EInt(v) => [Const(Signed(ToU32(v)))]
    case EBool(b) => [Const(if b then 1 else 0)]
    case EIdent(x) =>
      if g.loops != [] && (x == "break" || x == "continue") then [Br(JumpDepth(g, x == "break"))]
      else
        var i := Lookup(g.names, x);
        if i < |g.names| then [LocalGet(i)] else [Const(0)]
    case EUn(NotOp, a) => CompileExpr(a, g) + [Eqz]
    case EUn(NegOp, a) => [Const(0)] + CompileExpr(a, g) + [Num(Sub)]
    case EUn(BitNotOp, a) => [Const(0)]
    case EUnMissing(_) => [Const(0)]
    case ERange(_, _) => [Const(0)]
    case EBin(op, l, r) =>
      (match OpCode(op, IsU32(l, g) || IsU32(r, g))
       case None => [Const(0)]
       case Some(o) => CompileExpr(l, g) + CompileExpr(r, g) + [Num(o)])
  }

  function StoreLocal(i: Option<nat>): seq<Instr> {
    match i
    case Some(k) => [LocalSet(k)]
    case None => [Drop]
  }

  function CompoundOp(op: BinOp): NumOp {
    match op
    case SubOp => Sub
    case MulOp => Mul
    case DivOp => DivS
    case _ => Add
  }

  function OpenLoop(g: Gen): Gen {
    if |g.loops| < MAX_LOOPS then g.(loops := g.loops + [g.ifDepth]) else g
  }

  function CloseLoop(g: Gen, ifDepth: nat): Gen {
    g.(ifDepth := ifDepth, loops := if g.loops == [] then [] else g.loops[..|g.loops| - 1])
  }

  /** Inside one more `if`. */
  function Deeper(g: Gen): Gen {
    g.(ifDepth := g.ifDepth + 1)
  }

  function IfElseCode(cond: seq<Instr>, thn: seq<Instr>, els: (seq<Instr>, Gen), g: Gen): (seq<Instr>, Gen) {
    (cond + [IfElse(thn, els.0)], els.1.(ifDepth := g.ifDepth))
  }

  function CompileStmt(s: Stmt, g: Gen): (seq<Instr>, Gen)
    decreases s
  {
    match s
    case SVar(x, ann, init) =>
      var (g1, i) := Ensure(g, x);
      var g2 := MarkU32(g1, i, SaysU32(ann, init));
      (match Initializer(ann, init)
       case None => ([], g2)
       case Some(e) => (CompileExpr(e, g2) + StoreLocal(i), g2))
    case SAssign(x, e) =>
      var (g1, i) := Ensure(g, x);
      (CompileExpr(e, g) + StoreLocal(i), g1)
    case SCompound(x, op, e) =>
      var (g1, i) := Ensure(g, x);
      (match i
       case None => ([], g1)
       case Some(k) => ([LocalGet(k)] + CompileExpr(e, g1) + [Num(CompoundOp(op)), LocalSet(k)], g1))
    case SIf(c, t, els) =>
      var thn := CompileStmt(t, Deeper(g));
      (match els
       case None => (CompileExpr(c, g) + [If(thn.0)], thn.1.(ifDepth := g.ifDepth))
       case Some(e) =>
         IfElseCode(CompileExpr(c, g), thn.0, CompileStmt(e, Deeper(thn.1.(ifDepth := g.ifDepth))), g))
    case SWhile(c, b) =>
      var (cb, g1) := CompileStmt(b, OpenLoop(g));
      ([Block([Loop(LoopBody(CompileExpr(c, g), cb))])], CloseLoop(g1, g.ifDepth))
    case SReturn(r) =>
      ((match r case Some(e) => CompileExpr(e, g) case None => [Const(0)]) + [Return, Drop], g)
    case SBreak(form) =>
      ((if form.AsIdent? then CompileExpr(EIdent("break"), g) else [Const(0)]) + [Drop], g)
    case SContinue(form) =>
      ((if form.AsIdent? then CompileExpr(EIdent("continue"), g) else [Const(0)]) + [Drop], g)
    case SBlock(ss) => CompileBlock(ss, g)
    case SExpr(e) => (CompileExpr(e, g) + [Drop], g)
  }

  /** cond; i32.eqz; br_if 1; body; br 0 */
  function LoopBody(cond: seq<Instr>, body: seq<Instr>): seq<Instr> {
    cond + ([Eqz, BrIf(1)] + (body + [Br(0)]))
  }

  function CompileBlock(ss: seq<Stmt>, g: Gen): (seq<Instr>, Gen)
    decreases ss
  {
    if ss == [] then ([], g)
    else
      var (c0, g1) := CompileStmt(ss[0], g);
      var (c1, g2) := CompileBlock(ss[1..], g1);
      (c0 + c1, g2)
  }

  /**
   A new variable is marked U32 exactly when its annotation is the bare word, or, under any
   annotation but the bare word String, its initializer is.
   */
  lemma MarkedWhen(x: string, ann: Ann, init: Option<Expr>, g: Gen)
    requires x !in g.names && |g.names| < 64 && |g.u32s| == |g.names|
    ensures var h := CompileStmt(SVar(x, ann, init), g).1;
            && |h.u32s| == |h.names| == |g.names| + 1 && h.u32s[..|g.names|] == g.u32s
            && (h.u32s[|g.names|] <==> ann == Bare("U32") || (ann != Bare("String") && init == Some(EIdent("U32"))))
  {
  }

  /** A bare annotation without an initializer stands in for one; without any, nothing is stored. */
  lemma InitializedWith(x: string, ty: string, g: Gen)
    ensures CompileStmt(SVar(x, Bare(ty), None), g).0 == CompileStmt(SVar(x, Bare(ty), Some(EIdent(ty))), g).0
    ensures CompileStmt(SVar(x, NoAnn, None), g).0 == [] && CompileStmt(SVar(x, Wrapped(ty), None), g).0 == []
  {
  }
}
