/**
 The meaning of the source fragment: 32-bit wrap-around arithmetic, logical
 connectives on truth values, unsigned comparison when either side is U32, and
 structured control.  It knows nothing of local slots, labels or stacks.
 */
module SourceSemantics {
  import opened Wrappers
  import opened I32
  import opened PonySyntax

  type Env = map<string, u32>

  /** A variable that was never given a value is 0. */
  function Get(env: Env, x: string): u32 { if x in env then env[x] else 0 }

  /** NotBool: a logical connective was applied to something other than 0 or 1. */
  datatype Value = Val(v: u32) | Fault | NotBool

  /**
   Variables declared U32, literals that only fit unsigned, and what bit operators make of
   them; the arithmetic operators convert their operands to signed ones.
   */
  predicate IsUnsigned(e: Expr, u32s: set<string>) {
    match e
    case EInt(v) => v > 2147483647
    case EIdent(x) => x in u32s
    case EUn(op, _) => op == BitNotOp
    case EBin(op, l, r) => Unsigned(op, IsUnsigned(l, u32s), IsUnsigned(r, u32s)) && IsBitOp(op)
    case _ => false
  }

  predicate IsBitOp(op: BinOp) {
    op == BitOrOp || op == BitXorOp || op == BitAndOp || op == ShlOp || op == ShrOp
  }

  /** Whether an operator works on unsigned operands: a shift looks at its left one only. */
  predicate Unsigned(op: BinOp, left: bool, right: bool) {
    left || (right && op != ShlOp && op != ShrOp)
  }

  predicate Compares(op: BinOp) {
    op == EqOp || op == NeOp || op == LtOp || op == GtOp || op == LeOp || op == GeOp
  }

  function Compare(op: BinOp, a: int, b: int): bool
    requires Compares(op)
  {
    match op
    case EqOp => a == b
    case NeOp => a != b
    case LtOp => a < b
    case GtOp => a > b
    case LeOp => a <= b
    case GeOp => a >= b
  }

  function FromOption(o: Option<u32>): Value {
    match o case None => Fault case Some(v) => Val(v)
  }

  /** Division, remainder and shifts have no value on a zero divisor, an overflow, or a shift by 32 and more. */
  function BinValue(op: BinOp, unsigned: bool, a: u32, b: u32): Value {
    match op
    case AddOp => Val(ToU32(a + b))
    case SubOp => Val(ToU32(a - b))
    case MulOp => Val(ToU32(a * b))
    case DivOp => FromOption(DivS(a, b))
    case RemOp => FromOption(RemS(a, b))
    case AndOp => if a <= 1 && b <= 1 then Val(Truth(a != 0 && b != 0)) else NotBool
    case OrOp => if a <= 1 && b <= 1 then Val(Truth(a != 0 || b != 0)) else NotBool
    case BitAndOp => Val(I32.And(a, b))
    case BitOrOp => Val(I32.Or(a, b))
    case BitXorOp => Val(I32.Xor(a, b))
    case ShlOp => FromOption(Shl(a, b))
    case ShrOp => FromOption(if unsigned then ShrU(a, b) else ShrS(a, b))
    case _ =>
      if unsigned then Val(Truth(Compare(op, a, b))) else Val(Truth(Compare(op, Signed(a), Signed(b))))
  }

  function UnValue(op: UnOp, v: u32): u32 {
    match op
    case NotOp => Truth(v == 0)
    case NegOp => ToU32(-Signed(v))
    case BitNotOp => 0xFFFF_FFFF - v
  }

  function Eval(e: Expr, env: Env, u32s: set<string>): Value {
    match e
    case EInt(v) => Val(ToU32(v))
    case EBool(b) => Val(Truth(b))
    case EIdent(x) => Val(Get(env, x))
    case EUn(op, a) =>
      (match Eval(a, env, u32s)
       case Val(v) => Val(UnValue(op, v))
       case other => other)
    case EBin(op, l, r) =>
      (match Eval(l, env, u32s)
       case Val(a) =>
         (match Eval(r, env, u32s)
          case Val(b) => BinValue(op, Unsigned(op, IsUnsigned(l, u32s), IsUnsigned(r, u32s)), a, b)
          case other => other)
       case other => other)
    case EUnMissing(_) => Fault
    case ERange(_, _) => Fault
  }

  datatype Outcome =
    | Normal(env: Env)
    | Broke(env: Env)
    | Continued(env: Env)
    | Finished(result: u32, env: Env)
    | Crashed
    | OutOfFuel
    | IllTyped

  function Failed(v: Value): Outcome {
    if v.NotBool? then IllTyped else Crashed
  }

  /** `fuel` bounds the iterations of each loop, counted along the path. */
  function Run(s: Stmt, env: Env, u32s: set<string>, fuel: nat): Outcome
    decreases fuel, s
  {
    match s
    case SVar(x, _, init) =>
      (match init
       case None => Normal(env)
       case Some(e) => var v := Eval(e, env, u32s); if v.Val? then Normal(env[x := v.v]) else Failed(v))
    case SAssign(x, e) =>
      var v := Eval(e, env, u32s);
      if v.Val? then Normal(env[x := v.v]) else Failed(v)
    case SCompound(x, op, e) =>
      var v := Eval(e, env, u32s);
      if !v.Val? then Failed(v)
      else
        var w := BinValue(op, false, Get(env, x), v.v);
        if w.Val? then Normal(env[x := w.v]) else Failed(w)
    case SIf(c, t, els) =>
      var v := Eval(c, env, u32s);
      if !v.Val? then Failed(v)
      else if v.v != 0 then Run(t, env, u32s, fuel)
      else (match els case None => Normal(env) case Some(e) => Run(e, env, u32s, fuel))
    case SWhile(c, b) =>
      var v := Eval(c, env, u32s);
      if !v.Val? then Failed(v)
      else if v.v == 0 then Normal(env)
      else
        (match Run(b, env, u32s, fuel)
         case Normal(env') => if fuel == 0 then OutOfFuel else Run(s, env', u32s, fuel - 1)
         case Continued(env') => if fuel == 0 then OutOfFuel else Run(s, env', u32s, fuel - 1)
         case Broke(env') => Normal(env')
         case other => other)
    case SReturn(r) =>
      (match r
       case None => Finished(0, env)
       case Some(e) => var v := Eval(e, env, u32s); if v.Val? then Finished(v.v, env) else Failed(v))
    case SBreak(_) => Broke(env)
    case SContinue(_) => Continued(env)
    case SBlock(ss) => RunBlock(ss, env, u32s, fuel)
    case SExpr(e) => var v := Eval(e, env, u32s); if v.Val? then Normal(env) else Failed(v)
  }

  function RunBlock(ss: seq<Stmt>, env: Env, u32s: set<string>, fuel: nat): Outcome
    decreases fuel, ss
  {
    if ss == [] then Normal(env)
    else
      match Run(ss[0], env, u32s, fuel)
      case Normal(env') => RunBlock(ss[1..], env', u32s, fuel)
      case other => other
  }

  // ------------------------------------------------------------ in numbers

  /** The operators on particular operands: which is which, and in which order operands are taken. */
  lemma ArithmeticInNumbers()
    ensures BinValue(AddOp, false, 7, 2) == Val(9) && BinValue(SubOp, false, 7, 2) == Val(5)
    ensures BinValue(MulOp, false, 7, 2) == Val(14) && BinValue(AddOp, false, 0xFFFF_FFFF, 2) == Val(1)
    ensures UnValue(NotOp, 0) == 1 && UnValue(NotOp, 7) == 0 && UnValue(NegOp, 7) == 0xFFFF_FFF9
    ensures BinValue(AndOp, false, 1, 0) == Val(0) && BinValue(AndOp, false, 1, 1) == Val(1)
    ensures BinValue(OrOp, false, 1, 0) == Val(1) && BinValue(OrOp, false, 0, 0) == Val(0)
  {
  }

  lemma DivisionInNumbers()
    ensures BinValue(DivOp, false, 7, 2) == Val(3) && BinValue(RemOp, false, 7, 2) == Val(1)
    ensures BinValue(DivOp, false, 0xFFFF_FFF9, 2) == Val(0xFFFF_FFFD) && BinValue(DivOp, false, 7, 0) == Fault
  {
    assert I32.DivS(7, 2) == Some(3) && I32.RemS(7, 2) == Some(1);
    assert Signed(0xFFFF_FFF9) == -7 && TruncDiv(-7, 2) == -3 && ToU32(-3) == 0xFFFF_FFFD;
  }

  lemma ComparisonsInNumbers(op: BinOp)
    requires Compares(op)
    ensures BinValue(op, false, 2, 7) == Val(if op == NeOp || op == LtOp || op == LeOp then 1 else 0)
    ensures BinValue(op, false, 7, 7) == Val(if op == EqOp || op == LeOp || op == GeOp then 1 else 0)
    ensures BinValue(op, false, 0xFFFF_FFFF, 7) == Val(if op == NeOp || op == LtOp || op == LeOp then 1 else 0)
    ensures BinValue(op, true, 0xFFFF_FFFF, 7) == Val(if op == NeOp || op == GtOp || op == GeOp then 1 else 0)
  {
  }

  /** Branches, and whether a loop is entered. */
  lemma Branches(t: Stmt, e: Stmt, v: nat, env: Env, u32s: set<string>, fuel: nat)
    requires v < 0x1_0000_0000
    ensures Run(SIf(EInt(v), t, Some(e)), env, u32s, fuel)
            == if v != 0 then Run(t, env, u32s, fuel) else Run(e, env, u32s, fuel)
    ensures Run(SIf(EInt(v), t, None), env, u32s, fuel) == if v != 0 then Run(t, env, u32s, fuel) else Normal(env)
    ensures v == 0 ==> Run(SWhile(EInt(v), t), env, u32s, fuel) == Normal(env)
  {
    assert Eval(EInt(v), env, u32s) == Val(v);
  }

  /** Assignments, `x -= 2`, and results. */
  lemma Stores(env: Env, u32s: set<string>, fuel: nat)
    ensures Run(SAssign("x", EInt(7)), env, u32s, fuel) == Normal(env["x" := 7])
    ensures Get(env, "x") == 7 ==> Run(SCompound("x", SubOp, EInt(2)), env, u32s, fuel) == Normal(env["x" := 5])
    ensures Run(SReturn(Some(EInt(7))), env, u32s, fuel) == Finished(7, env)
    ensures Run(SReturn(None), env, u32s, fuel) == Finished(0, env)
  {
    assert Eval(EInt(7), env, u32s) == Val(7) && Eval(EInt(2), env, u32s) == Val(2);
  }

  /** `break` leaves the loop, `continue` begins it again. */
  lemma {:induction false} Jumps(env: Env, u32s: set<string>, fuel: nat)
    ensures Run(SWhile(EBool(true), SBreak(AsIdent)), env, u32s, fuel) == Normal(env)
    ensures Run(SWhile(EBool(true), SContinue(AsIdent)), env, u32s, fuel) == OutOfFuel
  {
    if fuel > 0 { Jumps(env, u32s, fuel - 1); }
  }

  /** Statements run in order, until one does not end normally. */
  lemma InOrder(s: Stmt, t: Stmt, env: Env, u32s: set<string>, fuel: nat)
    ensures var o := Run(s, env, u32s, fuel);
            RunBlock([s] + [t], env, u32s, fuel) == if o.Normal? then Run(t, o.env, u32s, fuel) else o
  {
    assert ([s] + [t])[0] == s && ([s] + [t])[1..] == [t];
    var o := Run(s, env, u32s, fuel);
    if o.Normal? { Alone(t, o.env, u32s, fuel); }
  }

  lemma Alone(t: Stmt, env: Env, u32s: set<string>, fuel: nat)
    ensures RunBlock([t], env, u32s, fuel) == Run(t, env, u32s, fuel)
  {
    assert [t][1..] == [];
  }
}
