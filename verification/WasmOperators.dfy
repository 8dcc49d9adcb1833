/** Operator by operator: which the emitted code gets right, and when its signedness is the native one. */
module WasmOperators {
  import opened Wrappers
  import opened I32
  import opened WasmMachine
  import opened PonySyntax
  import opened WasmCompiler
  import opened WasmScope
  import opened SourceSemantics
  import opened WasmCorrect
  import Bits

  // ------------------------------------------------------------ operators the emitter knows

  /** Exactly these operators compile to constant 0, operands and all. */
  lemma UnsupportedReadsZero(op: BinOp, l: Expr, r: Expr, g: Gen)
    ensures CompileExpr(EBin(op, l, r), g) == [Const(0)]
            <==> op == BitOrOp || op == BitXorOp || op == BitAndOp || op == ShlOp || op == ShrOp || op == RemOp
    ensures CompileExpr(EBin(op, l, r), g) == [Const(0)] <==> !Supported(op)
  {
    SupportedEitherWay(op, IsU32(l, g) || IsU32(r, g));
    if OpCode(op, IsU32(l, g) || IsU32(r, g)).Some? {
      var c := CompileExpr(EBin(op, l, r), g);
      assert c[|c| - 1] != Const(0);
    }
  }

  /** Where an expression is compiled and run. */
  datatype Place = Place(g: Gen, u32s: set<string>, all: seq<string>, env: Env,
                         rest: seq<Instr>, stack: seq<u32>, fuel: nat)
  {
    ghost predicate Sound() {
      Tables(g, u32s) && g.names <= all && Distinct(all)
    }

    /** The code of `e` pushes its value, or traps if it has none. */
    ghost predicate Computes(e: Expr) {
      Yields(CompileExpr(e, g), Eval(e, env, u32s), Locals(env, all), rest, stack, fuel)
    }
  }

  const Nowhere := Place(Gen([], [], 0, []), {}, [], map[], [], [], 0)

  /** The code of `l op r` is right for all operands, everywhere, if and only if `op` is none of the six. */
  lemma BinaryRightIff(op: BinOp)
    ensures (forall l, r, p: Place | p.Sound() && GoodExpr(l, p.g.names) && GoodExpr(r, p.g.names) ::
               p.Computes(EBin(op, l, r)))
            <==> Supported(op)
  {
    if Supported(op) {
      forall l, r, p: Place | p.Sound() && GoodExpr(l, p.g.names) && GoodExpr(r, p.g.names)
        ensures p.Computes(EBin(op, l, r))
      {
        ExprCorrect(EBin(op, l, r), p.g, p.u32s, p.all, p.env, p.rest, p.stack, p.fuel);
      }
    } else {
      var l, r := EInt(3), if op == RemOp then EInt(2) else EInt(1);
      NotZero(op);
      ReadsZero(EBin(op, l, r));
      assert GoodExpr(l, []) && GoodExpr(r, []) && !Nowhere.Computes(EBin(op, l, r));
    }
  }

  lemma NotZero(op: BinOp)
    requires !Supported(op)
    ensures var v := BinValue(op, false, 3, if op == RemOp then 2 else 1); v.Val? && v.v != 0
  {
    assert Bits.Pow2(1) == 2;
    assert Bits.Or(3, 1) == 3 && Bits.And(3, 1) == 1 && Bits.Xor(3, 1) == 2;
  }

  /** Constant 0 is no right code for an expression with another value. */
  lemma ReadsZero(e: Expr)
    requires CompileExpr(e, Nowhere.g) == [Const(0)] && Eval(e, map[], {}).Val? && Eval(e, map[], {}).v != 0
    ensures !Nowhere.Computes(e)
  {
    var v := Eval(e, map[], {}).v;
    assert Locals(Nowhere.env, []) == [];
    assert [Const(0)] + [] == [Const(0)] && [Const(0)][1..] == [];
    assert Exec([Const(0)], [], [], 0) == Exec([], [], [0] + [], 0) == Next([], [0] + []);
    assert Exec([], [], [v] + [], 0) == Next([], [v] + []);
    assert ([0] + [])[0] == 0 && ([v] + [])[0] == v;
  }

  /** Likewise for the prefix operators: all but `~`. */
  lemma UnaryRightIff(op: UnOp)
    ensures (forall a, p: Place | p.Sound() && GoodExpr(a, p.g.names) :: p.Computes(EUn(op, a))) <==> op != BitNotOp
  {
    if op != BitNotOp {
      forall a, p: Place | p.Sound() && GoodExpr(a, p.g.names) ensures p.Computes(EUn(op, a)) {
        ExprCorrect(EUn(op, a), p.g, p.u32s, p.all, p.env, p.rest, p.stack, p.fuel);
      }
    } else {
      ReadsZero(EUn(op, EInt(0)));
      assert GoodExpr(EInt(0), []) && !Nowhere.Computes(EUn(op, EInt(0)));
    }
  }

  // ------------------------------------------------------------ the native back end's signedness

  /** C keeps a negated unsigned operand unsigned; the emitter takes it for signed. */
  predicate NativeUnsigned(e: Expr, u32s: set<string>) {
    match e
    case EUn(NegOp, a) => NativeUnsigned(a, u32s)
    case EBin(op, l, r) => Unsigned(op, NativeUnsigned(l, u32s), NativeUnsigned(r, u32s)) && IsBitOp(op)
    case _ => IsUnsigned(e, u32s)
  }

  function NativeEval(e: Expr, env: Env, u32s: set<string>): Value {
    match e
    case EUn(op, a) =>
      (match NativeEval(a, env, u32s)
       case Val(v) => Val(UnValue(op, v))
       case other => other)
    case EBin(op, l, r) =>
      (match NativeEval(l, env, u32s)
       case Val(a) =>
         (match NativeEval(r, env, u32s)
          case Val(b) => BinValue(op, Unsigned(op, NativeUnsigned(l, u32s), NativeUnsigned(r, u32s)), a, b)
          case other => other)
       case other => other)
    case _ => Eval(e, env, u32s)
  }

  /** Signed and unsigned order agree on two words exactly when their top bits do. */
  lemma SignednessMatters(op: BinOp, a: u32, b: u32)
    requires op == LtOp || op == GtOp || op == LeOp || op == GeOp
    ensures BinValue(op, true, a, b) == BinValue(op, false, a, b)
            <==> (a < 0x8000_0000 <==> b < 0x8000_0000)
  {
  }

  /** An ordered comparison of two values is the native one exactly when the signedness is, or the top bits agree. */
  lemma ComparisonIsNativeIff(op: BinOp, l: Expr, r: Expr, u32s: set<string>, a: u32, b: u32)
    requires op == LtOp || op == GtOp || op == LeOp || op == GeOp
    ensures var native := Unsigned(op, NativeUnsigned(l, u32s), NativeUnsigned(r, u32s));
            var emitted := Unsigned(op, IsUnsigned(l, u32s), IsUnsigned(r, u32s));
            BinValue(op, native, a, b) == BinValue(op, emitted, a, b)
            <==> native == emitted || (a < 0x8000_0000 <==> b < 0x8000_0000)
  {
    SignednessMatters(op, a, b);
  }

  /** Nowhere does a comparison or a right shift depend on the sign of a negated unsigned operand. */
  predicate SignsAgree(e: Expr, u32s: set<string>) {
    match e
    case EUn(_, a) => SignsAgree(a, u32s)
    case EBin(op, l, r) =>
      && SignsAgree(l, u32s) && SignsAgree(r, u32s)
      && Unsigned(op, NativeUnsigned(l, u32s), NativeUnsigned(r, u32s))
         == Unsigned(op, IsUnsigned(l, u32s), IsUnsigned(r, u32s))
    case _ => true
  }

  /** So there the emitted code computes what the native back end's C does. */
  lemma {:induction false} NativeAgrees(e: Expr, env: Env, u32s: set<string>)
    requires SignsAgree(e, u32s)
    ensures NativeEval(e, env, u32s) == Eval(e, env, u32s)
  {
    match e {
      case EUn(_, a) => NativeAgrees(a, env, u32s);
      case EBin(_, l, r) =>
        NativeAgrees(l, env, u32s);
        NativeAgrees(r, env, u32s);
      case _ =>
    }
  }

  /** `-x > 1` with `x` a U32 holding 1: true in C, false in the emitted code. */
  lemma NegatedU32Differs()
    ensures var e := EBin(GtOp, EUn(NegOp, EIdent("x")), EInt(1));
            NativeEval(e, map["x" := 1], {"x"}) == Val(1) && Eval(e, map["x" := 1], {"x"}) == Val(0)
  {
    var x, env: Env := EIdent("x"), map["x" := 1];
    assert NativeEval(x, env, {"x"}) == Val(1) && NativeUnsigned(x, {"x"});
    assert NativeEval(EUn(NegOp, x), env, {"x"}) == Val(0xFFFF_FFFF) && NativeUnsigned(EUn(NegOp, x), {"x"});
    assert NativeEval(EInt(1), env, {"x"}) == Val(1);
  }
}
