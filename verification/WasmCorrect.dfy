/** Meaning preservation, for every program of the fragment and every fuel: divergence is preserved as well. */
module WasmCorrect {
  import opened Wrappers
  import opened I32
  import opened WasmMachine
  import opened PonySyntax
  import opened WasmCompiler
  import opened WasmScope
  import opened SourceSemantics

  /** The locals of a function whose final name table is `names`. */
  function Locals(env: Env, names: seq<string>): (l: seq<u32>)
    ensures |l| == |names|
  {
    seq(|names|, i requires 0 <= i < |names| => Get(env, names[i]))
  }

  lemma LocalsUpdate(env: Env, names: seq<string>, i: nat, v: u32)
    requires Distinct(names) && i < |names|
    ensures Locals(env[names[i] := v], names) == Locals(env, names)[i := v]
  {
  }

  // ------------------------------------------------------------ expressions

  /** The compiler's flow-insensitive U32 test is the declared-type test. */
  lemma SameSignedness(e: Expr, g: Gen, u32s: set<string>)
    requires Tables(g, u32s) && GoodExpr(e, g.names)
    ensures IsU32(e, g) <==> IsUnsigned(e, u32s)
  {
  }

  lemma OperatorAgrees(op: BinOp, unsigned: bool, a: u32, b: u32)
    requires Supported(op)
    ensures OpCode(op, unsigned).Some?
    ensures match BinValue(op, unsigned, a, b)
            case Val(v) => Apply(OpCode(op, unsigned).value, a, b) == Some(v)
            case Fault => Apply(OpCode(op, unsigned).value, a, b) == None
            case NotBool => (op == AndOp || op == OrOp) && (a > 1 || b > 1)
  {
    if op == AndOp || op == OrOp { BitwiseIsLogical(a, b); }
  }

  lemma NegateAgrees(v: u32)
    ensures Apply(Sub, 0, v) == Some(ToU32(-Signed(v)))
  {
  }

  /** Running `code` before `rest` is running `rest` with the value on top, or trapping. */
  ghost predicate Yields(code: seq<Instr>, v: Value, locals: seq<u32>, rest: seq<Instr>, stack: seq<u32>, fuel: nat) {
    match v
    case Val(x) => Exec(code + rest, locals, stack, fuel) == Exec(rest, locals, [x] + stack, fuel)
    case Fault => Exec(code + rest, locals, stack, fuel) == Trap
    case NotBool => true
  }

  /** The operator instruction on its two operands. */
  lemma OperatorStep(op: BinOp, unsigned: bool, a: u32, b: u32,
                     locals: seq<u32>, rest: seq<Instr>, stack: seq<u32>, fuel: nat)
    requires Supported(op)
    ensures OpCode(op, unsigned).Some?
    ensures var r := Exec([Num(OpCode(op, unsigned).value)] + rest, locals, [b] + ([a] + stack), fuel);
            match BinValue(op, unsigned, a, b)
            case Val(v) => r == Exec(rest, locals, [v] + stack, fuel)
            case Fault => r == Trap
            case NotBool => true
  {
    OperatorAgrees(op, unsigned, a, b);
    Step(Num(OpCode(op, unsigned).value), rest);
    var st := [b] + ([a] + stack);
    assert st[0] == b && st[1] == a && st[2..] == stack;
  }

  /**
   An expression's code pushes exactly one value, the source value, on top of whatever
   is there, leaves the locals alone and never falls short of operands; it traps when
   the source faults.
   */
  lemma {:induction false} ExprCorrect(e: Expr, g: Gen, u32s: set<string>, all: seq<string>, env: Env,
                                       rest: seq<Instr>, stack: seq<u32>, fuel: nat)
    requires Tables(g, u32s) && GoodExpr(e, g.names) && g.names <= all && Distinct(all)
    ensures Yields(CompileExpr(e, g), Eval(e, env, u32s), Locals(env, all), rest, stack, fuel)
    decreases e, 1
  {
    match e {
      case EInt(v) =>
        Step(Const(Signed(ToU32(v))), rest);
        SignedToU32(ToU32(v));
      case EBool(b) => Step(Const(if b then 1 else 0), rest);
      case EIdent(x) =>
        LookupPrefix(g.names, all, x);
        Step(LocalGet(Lookup(g.names, x)), rest);
      case EUn(op, a) => UnaryCorrect(op, a, g, u32s, all, env, rest, stack, fuel);
      case EBin(op, l, r) => BinaryCorrect(op, l, r, g, u32s, all, env, rest, stack, fuel);
      case _ =>
    }
  }

  lemma {:induction false} UnaryCorrect(op: UnOp, a: Expr, g: Gen, u32s: set<string>, all: seq<string>, env: Env,
                                        rest: seq<Instr>, stack: seq<u32>, fuel: nat)
    requires Tables(g, u32s) && GoodExpr(EUn(op, a), g.names) && g.names <= all && Distinct(all)
    ensures Yields(CompileExpr(EUn(op, a), g), Eval(EUn(op, a), env, u32s), Locals(env, all), rest, stack, fuel)
    decreases EUn(op, a), 0
  {
    var ca, v := CompileExpr(a, g), Eval(a, env, u32s);
    if op == NotOp {
      ExprCorrect(a, g, u32s, all, env, [Eqz] + rest, stack, fuel);
      NotCompose(ca, v, Locals(env, all), rest, stack, fuel);
    } else {
      ExprCorrect(a, g, u32s, all, env, [Num(Sub)] + rest, [0] + stack, fuel);
      NegateCompose(ca, v, Locals(env, all), rest, stack, fuel);
    }
  }

  lemma NotCompose(ca: seq<Instr>, v: Value, locals: seq<u32>, rest: seq<Instr>, stack: seq<u32>, fuel: nat)
    requires Yields(ca, v, locals, [Eqz] + rest, stack, fuel)
    ensures Yields(ca + [Eqz], if v.Val? then Val(Truth(v.v == 0)) else v, locals, rest, stack, fuel)
  {
    assert ca + [Eqz] + rest == ca + ([Eqz] + rest);
    Step(Eqz, rest);
  }

  lemma NegateCompose(ca: seq<Instr>, v: Value, locals: seq<u32>, rest: seq<Instr>, stack: seq<u32>, fuel: nat)
    requires Yields(ca, v, locals, [Num(Sub)] + rest, [0] + stack, fuel)
    ensures Yields([Const(0)] + ca + [Num(Sub)], if v.Val? then Val(ToU32(-Signed(v.v))) else v,
                   locals, rest, stack, fuel)
  {
    var tail := [Num(Sub)] + rest;
    assert [Const(0)] + ca + [Num(Sub)] + rest == [Const(0)] + (ca + tail);
    Step(Const(0), ca + tail);
    if v.Val? {
      OperatorStep(SubOp, false, 0, v.v, locals, rest, stack, fuel);
      NegateAgrees(v.v);
    }
  }

  lemma {:induction false} BinaryCorrect(op: BinOp, l: Expr, r: Expr, g: Gen, u32s: set<string>, all: seq<string>,
                                         env: Env, rest: seq<Instr>, stack: seq<u32>, fuel: nat)
    requires Tables(g, u32s) && GoodExpr(EBin(op, l, r), g.names) && g.names <= all && Distinct(all)
    ensures Yields(CompileExpr(EBin(op, l, r), g), Eval(EBin(op, l, r), env, u32s),
                   Locals(env, all), rest, stack, fuel)
    decreases EBin(op, l, r), 0
  {
    BinaryParts(op, l, r, g, u32s, env);
    var unsigned := IsU32(l, g) || IsU32(r, g);
    var tail := [Num(OpCode(op, unsigned).value)] + rest;
    var a, b := Eval(l, env, u32s), Eval(r, env, u32s);
    ExprCorrect(l, g, u32s, all, env, CompileExpr(r, g) + tail, stack, fuel);
    if a.Val? { ExprCorrect(r, g, u32s, all, env, tail, [a.v] + stack, fuel); }
    BinaryCompose(CompileExpr(l, g), CompileExpr(r, g), op, unsigned, a, b, Locals(env, all), rest, stack, fuel);
  }

  lemma BinaryParts(op: BinOp, l: Expr, r: Expr, g: Gen, u32s: set<string>, env: Env)
    requires Tables(g, u32s) && GoodExpr(EBin(op, l, r), g.names)
    ensures var o := OpCode(op, IsU32(l, g) || IsU32(r, g));
            o.Some? && CompileExpr(EBin(op, l, r), g) == CompileExpr(l, g) + CompileExpr(r, g) + [Num(o.value)]
    ensures var a, b := Eval(l, env, u32s), Eval(r, env, u32s);
            Eval(EBin(op, l, r), env, u32s)
            == if !a.Val? then a else if !b.Val? then b else BinValue(op, IsU32(l, g) || IsU32(r, g), a.v, b.v)
  {
    SameSignedness(l, g, u32s);
    SameSignedness(r, g, u32s);
    SupportedEitherWay(op, IsU32(l, g) || IsU32(r, g));
  }

  lemma BinaryCompose(cl: seq<Instr>, cr: seq<Instr>, op: BinOp, unsigned: bool, a: Value, b: Value,
                      locals: seq<u32>, rest: seq<Instr>, stack: seq<u32>, fuel: nat)
    requires Supported(op) && OpCode(op, unsigned).Some?
    requires Yields(cl, a, locals, cr + ([Num(OpCode(op, unsigned).value)] + rest), stack, fuel)
    requires a.Val? ==> Yields(cr, b, locals, [Num(OpCode(op, unsigned).value)] + rest, [a.v] + stack, fuel)
    ensures var v := if !a.Val? then a else if !b.Val? then b else BinValue(op, unsigned, a.v, b.v);
            Yields(cl + cr + [Num(OpCode(op, unsigned).value)], v, locals, rest, stack, fuel)
  {
    var o := Num(OpCode(op, unsigned).value);
    assert cl + cr + [o] + rest == cl + (cr + ([o] + rest));
    if a.Val? && b.Val? { OperatorStep(op, unsigned, a.v, b.v, locals, rest, stack, fuel); }
  }

  lemma SupportedEitherWay(op: BinOp, unsigned: bool)
    ensures Supported(op) <==> OpCode(op, unsigned).Some?
  {
  }

  // ------------------------------------------------------------ statements

  /** Ifs opened since the innermost loop, which was opened at if nesting `base`. */
  function Rel(g: Gen, base: int): int {
    g.ifDepth - base
  }

  /**
   The machine result `r` of a statement's code followed by `rest` is the source outcome
   `o`: carry on with `rest`, or leave towards the innermost loop (label `rel`) or the
   block around it (label `rel + 1`), or return, trap, or run out of fuel.
   */
  ghost predicate Simulates(o: Outcome, r: Result, rest: seq<Instr>, all: seq<string>, rel: int, fuel: nat) {
    match o
    case Normal(env) => r == Exec(rest, Locals(env, all), [], fuel)
    case Broke(env) => rel >= 0 && r == Branch(rel + 1, Locals(env, all))
    case Continued(env) => rel >= 0 && r == Branch(rel, Locals(env, all))
    case Finished(v, env) => r == Returned(v, Locals(env, all))
    case Crashed => r == Trap
    case OutOfFuel => r == Timeout
    case IllTyped => true
  }

  /** What every statement lemma assumes. */
  ghost predicate Ready(s: Stmt, g: Gen, u32s: set<string>, all: seq<string>, base: int) {
    && Tables(g, u32s) && Good(s, g.names, u32s) && Aimed(s, g, base) && base <= g.ifDepth
    && Scope(s, g.names) <= all && Distinct(all) && |all| <= 64
  }

  lemma StoreCorrect(g: Gen, x: string, v: u32, all: seq<string>, env: Env,
                     rest: seq<Instr>, stack: seq<u32>, fuel: nat)
    requires Declare(g.names, x) <= all && Distinct(all)
    requires |Declare(g.names, x)| <= 64
    ensures Ensure(g, x).1 == Some(Lookup(Declare(g.names, x), x))
    ensures Exec(StoreLocal(Ensure(g, x).1) + rest, Locals(env, all), [v] + stack, fuel)
            == Exec(rest, Locals(env[x := v], all), stack, fuel)
  {
    var names := Declare(g.names, x);
    LookupPrefix(names, all, x);
    var i := Lookup(names, x);
    assert Lookup(g.names, x) == i by {
      if x in g.names { LookupPrefix(g.names, all, x); } else { LookupIs(all, x, |g.names|); }
    }
    Step(LocalSet(i), rest);
    LocalsUpdate(env, all, i, v);
    assert ([v] + stack)[1..] == stack;
  }

  /** Evaluate, then store: `x = e`, and `var x = e` once its table entry exists. */
  lemma AssignCorrect(g: Gen, h: Gen, x: string, e: Expr, u32s: set<string>, all: seq<string>, base: int, env: Env,
                      rest: seq<Instr>, fuel: nat)
    requires Tables(h, u32s) && GoodExpr(e, h.names) && h.names <= all
    requires Declare(g.names, x) <= all && Distinct(all) && |all| <= 64
    ensures var v := Eval(e, env, u32s);
            Simulates(if v.Val? then Normal(env[x := v.v]) else Failed(v),
                      Exec(CompileExpr(e, h) + StoreLocal(Ensure(g, x).1) + rest, Locals(env, all), [], fuel),
                      rest, all, Rel(g, base), fuel)
  {
    var st := StoreLocal(Ensure(g, x).1);
    assert CompileExpr(e, h) + st + rest == CompileExpr(e, h) + (st + rest);
    ExprCorrect(e, h, u32s, all, env, st + rest, [], fuel);
    var v := Eval(e, env, u32s);
    if v.Val? { StoreCorrect(g, x, v.v, all, env, rest, [], fuel); }
  }

  lemma VarCorrect(x: string, ann: Ann, init: Option<Expr>, g: Gen, u32s: set<string>, all: seq<string>, base: int, env: Env,
                   rest: seq<Instr>, fuel: nat)
    requires Ready(SVar(x, ann, init), g, u32s, all, base)
    ensures var s := SVar(x, ann, init);
            Simulates(Run(s, env, u32s, fuel), Exec(CompileStmt(s, g).0 + rest, Locals(env, all), [], fuel),
                      rest, all, Rel(g, base), fuel)
  {
    EnsureDeclares(g, u32s, x, SaysU32(ann, init));
    var g2 := MarkU32(Ensure(g, x).0, Ensure(g, x).1, SaysU32(ann, init));
    match init {
      case Some(e) => AssignCorrect(g, g2, x, e, u32s, all, base, env, rest, fuel);
      case None => assert [] + rest == rest;
    }
  }

  lemma CompoundCorrect(x: string, op: BinOp, e: Expr, g: Gen, u32s: set<string>, all: seq<string>, base: int, env: Env,
                        rest: seq<Instr>, fuel: nat)
    requires Ready(SCompound(x, op, e), g, u32s, all, base)
    ensures var s := SCompound(x, op, e);
            Simulates(Run(s, env, u32s, fuel), Exec(CompileStmt(s, g).0 + rest, Locals(env, all), [], fuel),
                      rest, all, Rel(g, base), fuel)
  {
    EnsureDeclares(g, u32s, x, false);
    var tail := [Num(CompoundOp(op))] + ([LocalSet(Ensure(g, x).1.value)] + rest);
    ReadsTarget(x, op, e, g, u32s, all, base, env, rest, fuel);
    ExprCorrect(e, Ensure(g, x).0, u32s, all, env, tail, [Get(env, x)] + [], fuel);
    UpdateCorrect(x, op, g, Eval(e, env, u32s), all, env, rest, fuel);
  }

  /** A compound assignment begins by pushing its target's value. */
  lemma ReadsTarget(x: string, op: BinOp, e: Expr, g: Gen, u32s: set<string>, all: seq<string>, base: int, env: Env,
                    rest: seq<Instr>, fuel: nat)
    requires Ready(SCompound(x, op, e), g, u32s, all, base) && Ensure(g, x).1.Some?
    ensures Exec(CompileStmt(SCompound(x, op, e), g).0 + rest, Locals(env, all), [], fuel)
            == Exec(CompileExpr(e, Ensure(g, x).0)
                    + ([Num(CompoundOp(op))] + ([LocalSet(Ensure(g, x).1.value)] + rest)),
                    Locals(env, all), [Get(env, x)] + [], fuel)
  {
    EnsureDeclares(g, u32s, x, false);
    var k, ce := Ensure(g, x).1.value, CompileExpr(e, Ensure(g, x).0);
    var tail := [Num(CompoundOp(op))] + ([LocalSet(k)] + rest);
    assert [LocalGet(k)] + ce + [Num(CompoundOp(op)), LocalSet(k)] + rest == [LocalGet(k)] + (ce + tail);
    Step(LocalGet(k), ce + tail);
    LookupPrefix(Declare(g.names, x), all, x);
    assert Locals(env, all)[k] == Get(env, x);
  }

  /** The operator and the store behind a compound assignment's right-hand side. */
  lemma UpdateCorrect(x: string, op: BinOp, g: Gen, v: Value, all: seq<string>, env: Env, rest: seq<Instr>, fuel: nat)
    requires op == AddOp || op == SubOp || op == MulOp || op == DivOp
    requires Declare(g.names, x) <= all && Distinct(all) && |Declare(g.names, x)| <= 64
    ensures Ensure(g, x).1.Some?
    ensures v.Val? ==>
              var w := BinValue(op, false, Get(env, x), v.v);
              var r := Exec([Num(CompoundOp(op))] + ([LocalSet(Ensure(g, x).1.value)] + rest),
                            Locals(env, all), [v.v] + ([Get(env, x)] + []), fuel);
              match w
              case Val(y) => r == Exec(rest, Locals(env[x := y], all), [], fuel)
              case Fault => r == Trap
              case NotBool => true
  {
    StoreCorrect(g, x, 0, all, env, rest, [], fuel);
    if v.Val? {
      var was := Get(env, x);
      OperatorStep(op, false, was, v.v, Locals(env, all), [LocalSet(Ensure(g, x).1.value)] + rest, [], fuel);
      var w := BinValue(op, false, was, v.v);
      if w.Val? { StoreCorrect(g, x, w.v, all, env, rest, [], fuel); }
    }
  }

  lemma ReturnCorrect(r: Option<Expr>, g: Gen, u32s: set<string>, all: seq<string>, base: int, env: Env,
                      rest: seq<Instr>, fuel: nat)
    requires Ready(SReturn(r), g, u32s, all, base)
    ensures var s := SReturn(r);
            Simulates(Run(s, env, u32s, fuel), Exec(CompileStmt(s, g).0 + rest, Locals(env, all), [], fuel),
                      rest, all, Rel(g, base), fuel)
  {
    var tail := [Return] + ([Drop] + rest);
    Step(Return, [Drop] + rest);
    match r {
      case Some(e) =>
        assert CompileExpr(e, g) + [Return, Drop] + rest == CompileExpr(e, g) + tail;
        ExprCorrect(e, g, u32s, all, env, tail, [], fuel);
      case None =>
        assert [Const(0)] + [Return, Drop] + rest == [Const(0)] + tail;
        Step(Const(0), tail);
    }
  }

  lemma ExprStmtCorrect(e: Expr, g: Gen, u32s: set<string>, all: seq<string>, base: int, env: Env,
                        rest: seq<Instr>, fuel: nat)
    requires Ready(SExpr(e), g, u32s, all, base)
    ensures var s := SExpr(e);
            Simulates(Run(s, env, u32s, fuel), Exec(CompileStmt(s, g).0 + rest, Locals(env, all), [], fuel),
                      rest, all, Rel(g, base), fuel)
  {
    assert CompileExpr(e, g) + [Drop] + rest == CompileExpr(e, g) + ([Drop] + rest);
    ExprCorrect(e, g, u32s, all, env, [Drop] + rest, [], fuel);
    Step(Drop, rest);
    var v := Eval(e, env, u32s);
    if v.Val? { assert ([v.v] + [])[1..] == []; }
  }

  lemma JumpCorrect(s: Stmt, g: Gen, u32s: set<string>, all: seq<string>, base: int, env: Env, rest: seq<Instr>, fuel: nat)
    requires s.SBreak? || s.SContinue?
    requires Ready(s, g, u32s, all, base)
    ensures Simulates(Run(s, env, u32s, fuel), Exec(CompileStmt(s, g).0 + rest, Locals(env, all), [], fuel),
                      rest, all, Rel(g, base), fuel)
  {
    var b := Br(JumpDepth(g, s.SBreak?));
    assert CompileStmt(s, g).0 + rest == [b] + ([Drop] + rest);
    Step(b, [Drop] + rest);
  }

  /** A branch of an `if`: one more label between it and the innermost loop. */
  lemma BranchLeaves(o: Outcome, r: Result, all: seq<string>, rel: int, rest: seq<Instr>, fuel: nat)
    requires rel >= 0 && Simulates(o, r, [], all, rel + 1, fuel)
    ensures Simulates(o, Leave(r, rest, [], fuel), rest, all, rel, fuel)
  {
  }

  /** A condition's code, then the instruction that consumes it. */
  lemma CondCorrect(c: Expr, g: Gen, u32s: set<string>, all: seq<string>, env: Env,
                    i: Instr, rest: seq<Instr>, fuel: nat)
    requires Tables(g, u32s) && GoodExpr(c, g.names) && g.names <= all && Distinct(all)
    ensures var r := Exec(CompileExpr(c, g) + [i] + rest, Locals(env, all), [], fuel);
            match Eval(c, env, u32s)
            case Val(v) => r == Exec([i] + rest, Locals(env, all), [v], fuel)
            case Fault => r == Trap
            case NotBool => true
  {
    assert CompileExpr(c, g) + [i] + rest == CompileExpr(c, g) + ([i] + rest);
    ExprCorrect(c, g, u32s, all, env, [i] + rest, [], fuel);
    var v := Eval(c, env, u32s);
    if v.Val? { assert [v.v] + [] == [v.v]; }
  }

  lemma IfStep(ct: seq<Instr>, rest: seq<Instr>, v: u32, locals: seq<u32>, fuel: nat)
    ensures Exec([If(ct)] + rest, locals, [v], fuel) ==
            if v != 0 then Leave(Exec(ct, locals, [], fuel), rest, [], fuel) else Exec(rest, locals, [], fuel)
  {
    Step(If(ct), rest);
    assert [v][1..] == [];
  }

  lemma IfElseStep(ct: seq<Instr>, ce: seq<Instr>, rest: seq<Instr>, v: u32, locals: seq<u32>, fuel: nat)
    ensures Exec([IfElse(ct, ce)] + rest, locals, [v], fuel) ==
            Leave(Exec(if v != 0 then ct else ce, locals, [], fuel), rest, [], fuel)
  {
    Step(IfElse(ct, ce), rest);
    assert [v][1..] == [];
  }

  /** The code of one branch, as a block of the surrounding statement. */
  lemma {:induction false} BranchCorrect(t: Stmt, g: Gen, u32s: set<string>, all: seq<string>, base: int,
                                         env: Env, rest: seq<Instr>, fuel: nat)
    requires Ready(t, Deeper(g), u32s, all, base) && Tables(g, u32s) && base <= g.ifDepth
    ensures Simulates(Run(t, env, u32s, fuel),
                      Leave(Exec(CompileStmt(t, Deeper(g)).0, Locals(env, all), [], fuel), rest, [], fuel),
                      rest, all, Rel(g, base), fuel)
    decreases fuel, t, 4
  {
    var g0 := Deeper(g);
    var ct := CompileStmt(t, g0).0;
    StmtCorrect(t, g0, u32s, all, base, env, [], fuel);
    assert ct + [] == ct;
    BranchLeaves(Run(t, env, u32s, fuel), Exec(ct, Locals(env, all), [], fuel), all, Rel(g, base), rest, fuel);
  }

  /** Condition, then the one branch or nothing. */
  lemma {:induction false} IfOnlyCorrect(c: Expr, t: Stmt, g: Gen, u32s: set<string>, all: seq<string>, base: int,
                                         env: Env, rest: seq<Instr>, fuel: nat)
    requires Ready(SIf(c, t, None), g, u32s, all, base)
    ensures var s := SIf(c, t, None);
            Simulates(Run(s, env, u32s, fuel), Exec(CompileStmt(s, g).0 + rest, Locals(env, all), [], fuel),
                      rest, all, Rel(g, base), fuel)
    decreases fuel, SIf(c, t, None), 0
  {
    var g0 := Deeper(g);
    assert Ready(t, g0, u32s, all, base);
    var ct := CompileStmt(t, g0).0;
    BranchCorrect(t, g, u32s, all, base, env, rest, fuel);
    CondCorrect(c, g, u32s, all, env, If(ct), rest, fuel);
    var v := Eval(c, env, u32s);
    if v.Val? { IfStep(ct, rest, v.v, Locals(env, all), fuel); }
  }

  lemma ElseReady(c: Expr, t: Stmt, e: Stmt, g: Gen, u32s: set<string>, all: seq<string>, base: int)
    requires Ready(SIf(c, t, Some(e)), g, u32s, all, base)
    ensures Ready(t, Deeper(g), u32s, all, base) && Tables(AfterThen(t, g), u32s)
    ensures Ready(e, Deeper(AfterThen(t, g)), u32s, all, base) && AfterThen(t, g).ifDepth == g.ifDepth
    ensures GoodExpr(c, g.names) && g.names <= all
  {
    assert Scope(t, g.names) <= Scope(e, Scope(t, g.names));
    TablesAfter(t, Deeper(g), u32s);
  }

  lemma IfElseShape(c: Expr, t: Stmt, e: Stmt, g: Gen)
    ensures CompileStmt(SIf(c, t, Some(e)), g).0 == CompileExpr(c, g)
            + [IfElse(CompileStmt(t, Deeper(g)).0, CompileStmt(e, Deeper(AfterThen(t, g))).0)]
  {
    assert Deeper(AfterThen(t, g)) == CompileStmt(t, Deeper(g)).1.(ifDepth := g.ifDepth + 1);
  }

  lemma {:induction false} IfElseCorrect(c: Expr, t: Stmt, e: Stmt, g: Gen, u32s: set<string>, all: seq<string>, base: int,
                                         env: Env, rest: seq<Instr>, fuel: nat)
    requires Ready(SIf(c, t, Some(e)), g, u32s, all, base)
    ensures var s := SIf(c, t, Some(e));
            Simulates(Run(s, env, u32s, fuel), Exec(CompileStmt(s, g).0 + rest, Locals(env, all), [], fuel),
                      rest, all, Rel(g, base), fuel)
    decreases fuel, SIf(c, t, Some(e)), 1
  {
    ElseReady(c, t, e, g, u32s, all, base);
    IfElseShape(c, t, e, g);
    TakenCorrect(c, t, e, g, AfterThen(t, g), u32s, all, base, env, rest, fuel);
    IfElseCompose(c, t, e, CompileStmt(t, Deeper(g)).0, CompileStmt(e, Deeper(AfterThen(t, g))).0,
                  g, u32s, all, base, env, rest, fuel);
  }

  /** The branch the condition chooses. */
  lemma {:induction false} TakenCorrect(c: Expr, t: Stmt, e: Stmt, g: Gen, g1: Gen, u32s: set<string>, all: seq<string>, base: int,
                                        env: Env, rest: seq<Instr>, fuel: nat)
    requires Tables(g, u32s) && Tables(g1, u32s) && g1.ifDepth == g.ifDepth && base <= g.ifDepth
    requires Ready(t, Deeper(g), u32s, all, base) && Ready(e, Deeper(g1), u32s, all, base)
    ensures var v := Eval(c, env, u32s);
            v.Val? && v.v != 0 ==>
              Simulates(Run(t, env, u32s, fuel),
                        Leave(Exec(CompileStmt(t, Deeper(g)).0, Locals(env, all), [], fuel), rest, [], fuel),
                        rest, all, Rel(g, base), fuel)
    ensures var v := Eval(c, env, u32s);
            v.Val? && v.v == 0 ==>
              Simulates(Run(e, env, u32s, fuel),
                        Leave(Exec(CompileStmt(e, Deeper(g1)).0, Locals(env, all), [], fuel),
                              rest, [], fuel),
                        rest, all, Rel(g, base), fuel)
    decreases fuel, SIf(c, t, Some(e)), 0
  {
    var v := Eval(c, env, u32s);
    if v.Val? && v.v != 0 {
      BranchCorrect(t, g, u32s, all, base, env, rest, fuel);
    } else if v.Val? {
      BranchCorrect(e, g1, u32s, all, base, env, rest, fuel);
    }
  }

  lemma IfElseCompose(c: Expr, t: Stmt, e: Stmt, ct: seq<Instr>, ce: seq<Instr>, g: Gen, u32s: set<string>,
                      all: seq<string>, base: int, env: Env, rest: seq<Instr>, fuel: nat)
    requires Tables(g, u32s) && GoodExpr(c, g.names) && g.names <= all && Distinct(all)
    requires var v := Eval(c, env, u32s);
             v.Val? && v.v != 0 ==>
               Simulates(Run(t, env, u32s, fuel), Leave(Exec(ct, Locals(env, all), [], fuel), rest, [], fuel),
                         rest, all, Rel(g, base), fuel)
    requires var v := Eval(c, env, u32s);
             v.Val? && v.v == 0 ==>
               Simulates(Run(e, env, u32s, fuel), Leave(Exec(ce, Locals(env, all), [], fuel), rest, [], fuel),
                         rest, all, Rel(g, base), fuel)
    ensures Simulates(Run(SIf(c, t, Some(e)), env, u32s, fuel),
                      Exec(CompileExpr(c, g) + [IfElse(ct, ce)] + rest, Locals(env, all), [], fuel),
                      rest, all, Rel(g, base), fuel)
  {
    CondCorrect(c, g, u32s, all, env, IfElse(ct, ce), rest, fuel);
    var v := Eval(c, env, u32s);
    if v.Val? { IfElseStep(ct, ce, rest, v.v, Locals(env, all), fuel); }
  }

  /** With no loop on record a statement whose jumps are aimed never breaks or continues. */
  lemma {:induction false} NoLooseJump(s: Stmt, g: Gen, base: int, u32s: set<string>, env: Env, fuel: nat)
    requires Aimed(s, g, base)
    ensures g.loops == [] || s.SWhile? ==> !Run(s, env, u32s, fuel).Broke? && !Run(s, env, u32s, fuel).Continued?
    decreases fuel, s
  {
    match s {
      case SIf(c, t, els) =>
        NoLooseJump(t, Deeper(g), base, u32s, env, fuel);
        LoopsShrink(t, Deeper(g));
        if els.Some? { NoLooseJump(els.value, Deeper(AfterThen(t, g)), base, u32s, env, fuel); }
      case SWhile(c, b) =>
        if fuel > 0 {
          var o := Run(b, env, u32s, fuel);
          if o.Normal? || o.Continued? { NoLooseJump(s, g, base, u32s, o.env, fuel - 1); }
        }
      case SBlock(ss) => NoLooseJumpBlock(ss, g, base, u32s, env, fuel);
      case _ =>
    }
  }

  lemma {:induction false} NoLooseJumpBlock(ss: seq<Stmt>, g: Gen, base: int, u32s: set<string>, env: Env, fuel: nat)
    requires AimedBlock(ss, g, base)
    ensures g.loops == [] ==> !RunBlock(ss, env, u32s, fuel).Broke? && !RunBlock(ss, env, u32s, fuel).Continued?
    decreases fuel, ss
  {
    if ss != [] {
      NoLooseJump(ss[0], g, base, u32s, env, fuel);
      LoopsShrink(ss[0], g);
      var o := Run(ss[0], env, u32s, fuel);
      if o.Normal? { NoLooseJumpBlock(ss[1..], CompileStmt(ss[0], g).1, base, u32s, o.env, fuel); }
    }
  }

  /** Code and source outcome of one loop: the loop instruction inside its block. */
  ghost predicate LoopSimulates(o: Outcome, r: Result, all: seq<string>) {
    match o
    case Normal(env) => r == Branch(0, Locals(env, all))
    case Broke(env) => false
    case Continued(env) => false
    case Finished(v, env) => r == Returned(v, Locals(env, all))
    case Crashed => r == Trap
    case OutOfFuel => r == Timeout
    case IllTyped => true
  }

  /** The loop test: zero leaves through the outer label, anything else enters the body. */
  lemma TestStep(v: u32, rest: seq<Instr>, locals: seq<u32>, fuel: nat)
    ensures Exec([Eqz, BrIf(1)] + rest, locals, [v], fuel) ==
            if v == 0 then Branch(1, locals) else Exec(rest, locals, [], fuel)
  {
    assert [Eqz, BrIf(1)] + rest == [Eqz] + ([BrIf(1)] + rest);
    Step(Eqz, [BrIf(1)] + rest);
    Step(BrIf(1), rest);
    var z := Truth(v == 0);
    assert [v][1..] == [] && [z] + [] == [z] && [z][1..] == [];
  }

  /** One pass through cond; eqz; br_if 1; body; br 0. */
  lemma {:induction false} IterationCorrect(c: Expr, b: Stmt, g: Gen, u32s: set<string>, all: seq<string>, base: int,
                                            env: Env, fuel: nat)
    requires Ready(SWhile(c, b), g, u32s, all, base)
    ensures var v := Eval(c, env, u32s);
            var r := Exec(LoopBody(CompileExpr(c, g), CompileStmt(b, OpenLoop(g)).0), Locals(env, all), [], fuel);
            if v.NotBool? then true
            else if v.Fault? then r == Trap
            else if v.v == 0 then r == Branch(1, Locals(env, all))
            else Simulates(Run(b, env, u32s, fuel), r, [Br(0)], all, 0, fuel)
    decreases fuel, SWhile(c, b), 0
  {
    var cb := CompileStmt(b, OpenLoop(g)).0;
    ExprCorrect(c, g, u32s, all, env, [Eqz, BrIf(1)] + (cb + [Br(0)]), [], fuel);
    var v := Eval(c, env, u32s);
    if v.Val? {
      assert [v.v] + [] == [v.v];
      TestStep(v.v, cb + [Br(0)], Locals(env, all), fuel);
      if v.v != 0 {
        assert Ready(b, OpenLoop(g), u32s, all, g.ifDepth);
        StmtCorrect(b, OpenLoop(g), u32s, all, g.ifDepth, env, [Br(0)], fuel);
      }
    }
  }

  lemma LoopStep(body: seq<Instr>, locals: seq<u32>, fuel: nat)
    ensures var r := Exec(body, locals, [], fuel);
            Exec([Loop(body)], locals, [], fuel) ==
            if r.Branch? && r.depth == 0 then
              if fuel == 0 then Timeout else Exec([Loop(body)], r.locals, [], fuel - 1)
            else Leave(r, [], [], fuel)
  {
    assert [Loop(body)][0] == Loop(body) && [Loop(body)][1..] == [];
  }

  lemma BackEdge(locals: seq<u32>, fuel: nat)
    ensures Exec([Br(0)], locals, [], fuel) == Branch(0, locals)
  {
  }

  lemma {:induction false} LoopCorrect(c: Expr, b: Stmt, g: Gen, u32s: set<string>, all: seq<string>, base: int,
                                       env: Env, fuel: nat)
    requires Ready(SWhile(c, b), g, u32s, all, base)
    ensures var body := LoopBody(CompileExpr(c, g), CompileStmt(b, OpenLoop(g)).0);
            LoopSimulates(Run(SWhile(c, b), env, u32s, fuel), Exec([Loop(body)], Locals(env, all), [], fuel), all)
    decreases fuel, SWhile(c, b), 1
  {
    var body := LoopBody(CompileExpr(c, g), CompileStmt(b, OpenLoop(g)).0);
    IterationCorrect(c, b, g, u32s, all, base, env, fuel);
    LoopStep(body, Locals(env, all), fuel);
    var v := Eval(c, env, u32s);
    if v.Val? && v.v != 0 {
      var o := Run(b, env, u32s, fuel);
      if o.Normal? || o.Continued? {
        BackEdge(Locals(o.env, all), fuel);
        if fuel > 0 { LoopCorrect(c, b, g, u32s, all, base, o.env, fuel - 1); }
      }
    }
  }

  lemma {:induction false} WhileCorrect(c: Expr, b: Stmt, g: Gen, u32s: set<string>, all: seq<string>, base: int,
                                        env: Env, rest: seq<Instr>, fuel: nat)
    requires Ready(SWhile(c, b), g, u32s, all, base)
    ensures var s := SWhile(c, b);
            Simulates(Run(s, env, u32s, fuel), Exec(CompileStmt(s, g).0 + rest, Locals(env, all), [], fuel),
                      rest, all, Rel(g, base), fuel)
    decreases fuel, SWhile(c, b), 2
  {
    var body := LoopBody(CompileExpr(c, g), CompileStmt(b, OpenLoop(g)).0);
    LoopCorrect(c, b, g, u32s, all, base, env, fuel);
    BlockEntry([Loop(body)], rest, Locals(env, all), fuel);
    LoopLeaves(Run(SWhile(c, b), env, u32s, fuel), Exec([Loop(body)], Locals(env, all), [], fuel),
               rest, all, Rel(g, base), fuel);
  }

  lemma BlockEntry(body: seq<Instr>, rest: seq<Instr>, locals: seq<u32>, fuel: nat)
    ensures Exec([Block(body)] + rest, locals, [], fuel) == Leave(Exec(body, locals, [], fuel), rest, [], fuel)
  {
    Step(Block(body), rest);
  }

  lemma LoopLeaves(o: Outcome, r: Result, rest: seq<Instr>, all: seq<string>, rel: int, fuel: nat)
    requires LoopSimulates(o, r, all)
    ensures Simulates(o, Leave(r, rest, [], fuel), rest, all, rel, fuel)
  {
  }

  lemma {:induction false} BlockCorrect(ss: seq<Stmt>, g: Gen, u32s: set<string>, all: seq<string>, base: int,
                                        env: Env, rest: seq<Instr>, fuel: nat)
    requires Tables(g, u32s) && GoodBlock(ss, g.names, u32s) && AimedBlock(ss, g, base) && base <= g.ifDepth
    requires ScopeBlock(ss, g.names) <= all && Distinct(all) && |all| <= 64
    ensures Simulates(RunBlock(ss, env, u32s, fuel),
                      Exec(CompileBlock(ss, g).0 + rest, Locals(env, all), [], fuel), rest, all, Rel(g, base), fuel)
    decreases fuel, ss, 0
  {
    if ss == [] {
      assert [] + rest == rest;
    } else {
      var (c0, g1) := CompileStmt(ss[0], g);
      var (c1, g2) := CompileBlock(ss[1..], g1);
      assert c0 + c1 + rest == c0 + (c1 + rest);
      assert Scope(ss[0], g.names) <= ScopeBlock(ss[1..], Scope(ss[0], g.names));
      TablesAfter(ss[0], g, u32s);
      StmtCorrect(ss[0], g, u32s, all, base, env, c1 + rest, fuel);
      var o := Run(ss[0], env, u32s, fuel);
      if o.Normal? { BlockCorrect(ss[1..], g1, u32s, all, base, o.env, rest, fuel); }
    }
  }

  /**
   The main theorem.  For every statement of the fragment with up to 64 locals, at any
   nesting of ifs and loops, the emitted code ends exactly as the source does, if every
   jump finds its own loop's if nesting on record: same variables, same outcome, and
   branches that hit the innermost loop or the block around it.
   */
  lemma {:induction false} StmtCorrect(s: Stmt, g: Gen, u32s: set<string>, all: seq<string>, base: int, env: Env,
                                       rest: seq<Instr>, fuel: nat)
    requires Ready(s, g, u32s, all, base)
    ensures Simulates(Run(s, env, u32s, fuel), Exec(CompileStmt(s, g).0 + rest, Locals(env, all), [], fuel),
                      rest, all, Rel(g, base), fuel)
    decreases fuel, s, 3
  {
    match s {
      case SVar(x, ann, init) => VarCorrect(x, ann, init, g, u32s, all, base, env, rest, fuel);
      case SAssign(x, e) =>
        assert g.names <= Declare(g.names, x);
        AssignCorrect(g, g, x, e, u32s, all, base, env, rest, fuel);
      case SCompound(x, op, e) => CompoundCorrect(x, op, e, g, u32s, all, base, env, rest, fuel);
      case SIf(c, t, None) => IfOnlyCorrect(c, t, g, u32s, all, base, env, rest, fuel);
      case SIf(c, t, Some(e)) => IfElseCorrect(c, t, e, g, u32s, all, base, env, rest, fuel);
      case SWhile(c, b) => WhileCorrect(c, b, g, u32s, all, base, env, rest, fuel);
      case SReturn(r) => ReturnCorrect(r, g, u32s, all, base, env, rest, fuel);
      case SBreak(_) => JumpCorrect(s, g, u32s, all, base, env, rest, fuel);
      case SContinue(_) => JumpCorrect(s, g, u32s, all, base, env, rest, fuel);
      case SBlock(ss) => BlockCorrect(ss, g, u32s, all, base, env, rest, fuel);
      case SExpr(e) => ExprStmtCorrect(e, g, u32s, all, base, env, rest, fuel);
    }
  }

  /** Up to 32 loops deep every jump does. */
  lemma ShallowCorrect(s: Stmt, g: Gen, u32s: set<string>, all: seq<string>, base: int, env: Env,
                       rest: seq<Instr>, fuel: nat)
    requires Tables(g, u32s) && Good(s, g.names, u32s) && base <= g.ifDepth
    requires Shallow(s, |g.loops|) && |g.loops| <= 32 && (g.loops != [] ==> Records(g, base))
    requires Scope(s, g.names) <= all && Distinct(all) && |all| <= 64
    ensures Simulates(Run(s, env, u32s, fuel), Exec(CompileStmt(s, g).0 + rest, Locals(env, all), [], fuel),
                      rest, all, Rel(g, base), fuel)
  {
    ShallowIsAimed(s, g, base);
    StmtCorrect(s, g, u32s, all, base, env, rest, fuel);
  }
}
