/** Loops beyond the 32 whose if nesting the emitter's table records. */
module WasmDeepLoops {
  import opened Wrappers
  import opened I32
  import opened WasmMachine
  import opened PonySyntax
  import opened WasmCompiler
  import opened WasmScope
  import opened SourceSemantics
  import opened WasmCorrect
  import opened WasmProgram

  // ------------------------------------------------------------ which records are left

  /**
   How many of `n` records are left behind a statement: a loop that finds the table full
   is not recorded and still drops a record when it ends.
   */
  function Left(s: Stmt, n: nat): (m: nat)
    ensures m <= n
    decreases s
  {
    match s
    case SIf(_, t, els) => (match els case None => Left(t, n) case Some(e) => Left(e, Left(t, n)))
    case SWhile(_, b) =>
      var m := Left(b, if n < 32 then n + 1 else n);
      if m == 0 then 0 else m - 1
    case SBlock(ss) => LeftBlock(ss, n)
    case _ => n
  }

  function LeftBlock(ss: seq<Stmt>, n: nat): (m: nat)
    ensures m <= n
    decreases ss
  {
    if ss == [] then n else LeftBlock(ss[1..], Left(ss[0], n))
  }

  lemma {:induction false} RecordsLeft(s: Stmt, g: Gen)
    requires |g.loops| <= 32
    ensures CompileStmt(s, g).1.loops == g.loops[..Left(s, |g.loops|)]
    decreases s, 1
  {
    match s {
      case SIf(c, t, els) =>
        RecordsLeft(t, Deeper(g));
        if els.Some? { RecordsLeft(els.value, Deeper(AfterThen(t, g))); }
      case SWhile(c, b) => RecordsLeft(b, OpenLoop(g));
      case SBlock(ss) => RecordsLeftBlock(ss, g);
      case _ =>
    }
  }

  lemma {:induction false} RecordsLeftBlock(ss: seq<Stmt>, g: Gen)
    requires |g.loops| <= 32
    ensures CompileBlock(ss, g).1.loops == g.loops[..LeftBlock(ss, |g.loops|)]
    decreases ss, 0
  {
    if ss != [] {
      RecordsLeft(ss[0], g);
      RecordsLeftBlock(ss[1..], CompileStmt(ss[0], g).1);
    }
  }

  // ------------------------------------------------------------ jumps behind a statement

  /** Statements without loops, with jumps in the shape the back end matches. */
  predicate LoopFree(s: Stmt) {
    Shallow(s, 32)
  }

  lemma {:induction false} LoopFreeAnywhere(s: Stmt, n: nat)
    requires LoopFree(s) && n > 0
    ensures Shallow(s, n)
    decreases s
  {
    match s {
      case SIf(_, t, els) =>
        LoopFreeAnywhere(t, n);
        if els.Some? { LoopFreeAnywhere(els.value, n); }
      case SBlock(ss) =>
        forall i | 0 <= i < |ss| ensures Shallow(ss[i], n) { LoopFreeAnywhere(ss[i], n); }
      case _ =>
    }
  }

  lemma LoopFreeIsAimed(s: Stmt, g: Gen, base: int)
    requires LoopFree(s) && Records(g, base) && |g.loops| <= 32
    ensures Aimed(s, g, base)
  {
    LoopFreeAnywhere(s, |g.loops|);
    ShallowIsAimed(s, g, base);
  }

  /** Code compiled with tables `h` does what the source does, inside a loop opened at if nesting `base`. */
  ghost predicate Right(s: Stmt, h: Gen, u32s: set<string>, all: seq<string>, base: int, env: Env,
                        rest: seq<Instr>, fuel: nat) {
    Simulates(Run(s, env, u32s, fuel), Exec(CompileStmt(s, h).0 + rest, Locals(env, all), [], fuel),
              rest, all, Rel(h, base), fuel)
  }

  /** Every loop-free statement compiled with tables `h` is right. */
  ghost predicate AllRight(h: Gen, u32s: set<string>, all: seq<string>, base: int) {
    forall s, env, rest, fuel: nat | Good(s, h.names, u32s) && LoopFree(s) && Scope(s, h.names) <= all ::
      Right(s, h, u32s, all, base, env, rest, fuel)
  }

  /** Loop-free statements are right if and only if the last record is the if nesting of the loop they are in. */
  lemma AllRightIff(h: Gen, u32s: set<string>, all: seq<string>, base: int)
    requires Tables(h, u32s) && |h.loops| <= 32 && base <= h.ifDepth
    requires h.names <= all && Distinct(all) && |all| <= 64
    ensures AllRight(h, u32s, all, base) <==> Records(h, base)
  {
    if Records(h, base) {
      forall s, env, rest, fuel: nat | Good(s, h.names, u32s) && LoopFree(s) && Scope(s, h.names) <= all
        ensures Right(s, h, u32s, all, base, env, rest, fuel)
      {
        LoopFreeIsAimed(s, h, base);
        StmtCorrect(s, h, u32s, all, base, env, rest, fuel);
      }
    } else {
      MisaimedBreak(h, u32s, all, base);
    }
  }

  lemma MisaimedBreak(h: Gen, u32s: set<string>, all: seq<string>, base: int)
    requires Tables(h, u32s) && base <= h.ifDepth && h.names <= all && !Records(h, base)
    ensures !AllRight(h, u32s, all, base)
  {
    var s, env: Env, rest: seq<Instr> := SBreak(AsIdent), map[], [];
    assert Run(s, env, u32s, 0) == Broke(env);
    assert CompileStmt(s, h).0 + rest == CompileStmt(s, h).0;
    if h.loops == [] {
      UnrecordedBreak(h, Locals(env, all));
    } else {
      var br := Br(JumpDepth(h, true));
      assert CompileStmt(s, h).0 == [br] + [Drop];
      Step(br, [Drop]);
    }
    assert !Right(s, h, u32s, all, base, env, rest, 0);
  }

  /** With nothing on record a break is no jump at all. */
  lemma UnrecordedBreak(h: Gen, locals: seq<u32>)
    requires h.loops == []
    ensures Exec(CompileStmt(SBreak(AsIdent), h).0, locals, [], 0).Next?
            || Exec(CompileStmt(SBreak(AsIdent), h).0, locals, [], 0) == Stuck
  {
    var i := CompileExpr(EIdent("break"), h)[0];
    assert CompileStmt(SBreak(AsIdent), h).0 == [i] + [Drop];
    Step(i, [Drop]);
    Step(Drop, []);
    assert [Drop] + [] == [Drop];
  }

  /**
   Behind any statement, at any depth: what is loop-free there is right if and only if
   there is a record left and it is that of the loop around.
   */
  lemma BehindRightIff(s: Stmt, g: Gen, u32s: set<string>, all: seq<string>)
    requires Tables(g, u32s) && g.loops != [] && |g.loops| <= 32 && Good(s, g.names, u32s)
    requires Scope(s, g.names) <= all && Distinct(all) && |all| <= 64
    ensures var n, base := Left(s, |g.loops|), g.loops[|g.loops| - 1];
            AllRight(CompileStmt(s, g).1, u32s, all, base) <==> n > 0 && g.loops[n - 1] == base
  {
    var h, base := CompileStmt(s, g).1, g.loops[|g.loops| - 1];
    TablesBehind(s, g, u32s);
    LastRecord(g, h, Left(s, |g.loops|), base);
    AllRightIff(h, u32s, all, base);
  }

  lemma TablesBehind(s: Stmt, g: Gen, u32s: set<string>)
    requires Tables(g, u32s) && g.loops != [] && |g.loops| <= 32 && Good(s, g.names, u32s)
    requires |Scope(s, g.names)| <= 64
    ensures var h := CompileStmt(s, g).1;
            && Tables(h, u32s) && h.names == Scope(s, g.names) && h.loops == g.loops[..Left(s, |g.loops|)]
            && g.loops[|g.loops| - 1] <= h.ifDepth
  {
    TablesAfter(s, g, u32s);
    RecordsLeft(s, g);
  }

  lemma LastRecord(g: Gen, h: Gen, n: nat, base: int)
    requires n <= |g.loops| && h.loops == g.loops[..n]
    ensures Records(h, base) <==> n > 0 && g.loops[n - 1] == base
  {
  }

  // ------------------------------------------------------------ a loop whose jumps are misaimed

  /** Leaving a loop and `ifs` of the ifs around it. */
  function Out(ifs: nat, locals: seq<u32>, rest: seq<Instr>, fuel: nat): Result {
    if ifs == 0 then Exec(rest, locals, [], fuel) else Branch(ifs - 1, locals)
  }

  /** Going round a loop once more, with `rest` behind it. */
  function Again(body: seq<Instr>, locals: seq<u32>, rest: seq<Instr>, fuel: nat): Result {
    if fuel == 0 then Timeout else Leave(Exec([Loop(body)], locals, [], fuel - 1), rest, [], fuel)
  }

  /**
   The machine result `r` of a loop whose body's jumps aim `off` labels too far, when the
   body's outcome is `o`: `break` leaves the loop and `off` ifs around it, `continue` the
   loop and all but one of them; only with `off` zero is `continue` a new pass.
   */
  ghost predicate PassLeads(o: Outcome, r: Result, body: seq<Instr>, all: seq<string>, off: nat,
                            rest: seq<Instr>, fuel: nat) {
    match o
    case Normal(e) => r == Again(body, Locals(e, all), rest, fuel)
    case Continued(e) =>
      r == if off == 0 then Again(body, Locals(e, all), rest, fuel) else Out(off - 1, Locals(e, all), rest, fuel)
    case Broke(e) => r == Out(off, Locals(e, all), rest, fuel)
    case Finished(x, e) => r == Returned(x, Locals(e, all))
    case Crashed => r == Trap
    case OutOfFuel => r == Timeout
    case IllTyped => true
  }

  /** What the loop and block around a body make of the body's result. */
  function Around(r: Result, body: seq<Instr>, rest: seq<Instr>, fuel: nat): Result {
    if r.Branch? && r.depth == 0 then Again(body, r.locals, rest, fuel) else Leave(Leave(r, [], [], fuel), rest, [], fuel)
  }

  lemma AroundLeads(o: Outcome, r: Result, body: seq<Instr>, all: seq<string>, off: nat, rest: seq<Instr>, fuel: nat)
    requires Simulates(o, r, [Br(0)], all, off, fuel)
    ensures PassLeads(o, Around(r, body, rest, fuel), body, all, off, rest, fuel)
  {
    if o.Normal? { BackEdge(Locals(o.env, all), fuel); }
  }

  lemma AroundEnds(r: Result, body: seq<Instr>, rest: seq<Instr>, fuel: nat)
    ensures r == Trap ==> Around(r, body, rest, fuel) == Trap
    ensures r.Branch? && r.depth == 1 ==> Around(r, body, rest, fuel) == Exec(rest, r.locals, [], fuel)
  {
  }

  lemma LoopInBlock(body: seq<Instr>, rest: seq<Instr>, locals: seq<u32>, fuel: nat)
    ensures Exec([Block([Loop(body)])] + rest, locals, [], fuel) == Around(Exec(body, locals, [], fuel), body, rest, fuel)
  {
    BlockEntry([Loop(body)], rest, locals, fuel);
    LoopStep(body, locals, fuel);
  }

  /** The body of the loop that `while c do b end` compiles to. */
  function BodyCode(c: Expr, b: Stmt, g: Gen): seq<Instr> {
    LoopBody(CompileExpr(c, g), CompileStmt(b, OpenLoop(g)).0)
  }

  /** `c` and `b` are fit to be condition and body of a loop, and the body's own jumps are all aimed at `aim`. */
  ghost predicate LoopReady(c: Expr, b: Stmt, g: Gen, u32s: set<string>, all: seq<string>, aim: int) {
    Tables(g, u32s) && GoodExpr(c, g.names) && g.names <= all && aim <= g.ifDepth && Ready(b, OpenLoop(g), u32s, all, aim)
  }

  /** The test, then the body, whose jumps are `Rel(g, aim)` labels off. */
  lemma BodyStarts(c: Expr, b: Stmt, g: Gen, u32s: set<string>, all: seq<string>, aim: int, env: Env, fuel: nat)
    requires LoopReady(c, b, g, u32s, all, aim)
    ensures var v, r := Eval(c, env, u32s), Exec(BodyCode(c, b, g), Locals(env, all), [], fuel);
            && (v.Fault? ==> r == Trap)
            && (v == Val(0) ==> r == Branch(1, Locals(env, all)))
            && (v.Val? && v.v != 0 ==> Simulates(Run(b, env, u32s, fuel), r, [Br(0)], all, Rel(g, aim), fuel))
  {
    var cb := CompileStmt(b, OpenLoop(g)).0;
    var v := Eval(c, env, u32s);
    ExprCorrect(c, g, u32s, all, env, [Eqz, BrIf(1)] + (cb + [Br(0)]), [], fuel);
    if v.Val? {
      assert [v.v] + [] == [v.v];
      TestStep(v.v, cb + [Br(0)], Locals(env, all), fuel);
      if v.v != 0 { StmtCorrect(b, OpenLoop(g), u32s, all, aim, env, [Br(0)], fuel); }
    }
  }

  lemma LoopInCode(c: Expr, b: Stmt, g: Gen, rest: seq<Instr>, locals: seq<u32>, fuel: nat)
    ensures Exec(CompileStmt(SWhile(c, b), g).0 + rest, locals, [], fuel)
            == Around(Exec(BodyCode(c, b, g), locals, [], fuel), BodyCode(c, b, g), rest, fuel)
  {
    LoopInBlock(BodyCode(c, b, g), rest, locals, fuel);
  }

  /** One pass of any loop whose body's jumps are aimed at if nesting `aim` instead of its own. */
  lemma LoopPass(c: Expr, b: Stmt, g: Gen, u32s: set<string>, all: seq<string>, aim: int, env: Env,
                 rest: seq<Instr>, fuel: nat)
    requires LoopReady(c, b, g, u32s, all, aim)
    ensures var v := Eval(c, env, u32s);
            var r := Exec(CompileStmt(SWhile(c, b), g).0 + rest, Locals(env, all), [], fuel);
            && (v.Fault? ==> r == Trap)
            && (v == Val(0) ==> r == Exec(rest, Locals(env, all), [], fuel))
            && (v.Val? && v.v != 0 ==>
                  PassLeads(Run(b, env, u32s, fuel), r, BodyCode(c, b, g), all, g.ifDepth - aim, rest, fuel))
  {
    var v, r := Eval(c, env, u32s), Exec(BodyCode(c, b, g), Locals(env, all), [], fuel);
    LoopInCode(c, b, g, rest, Locals(env, all), fuel);
    BodyStarts(c, b, g, u32s, all, aim, env, fuel);
    AroundEnds(r, BodyCode(c, b, g), rest, fuel);
    if v.Val? && v.v != 0 {
      AroundLeads(Run(b, env, u32s, fuel), r, BodyCode(c, b, g), all, g.ifDepth - aim, rest, fuel);
    }
  }

  /** The code of the loop does what the source loop does. */
  ghost predicate LoopRight(c: Expr, b: Stmt, g: Gen, u32s: set<string>, all: seq<string>, env: Env,
                            rest: seq<Instr>, fuel: nat) {
    Right(SWhile(c, b), g, u32s, all, g.ifDepth, env, rest, fuel)
  }

  /** A loop-free body and a condition that fit the tables. */
  ghost predicate SimpleLoop(c: Expr, b: Stmt, g: Gen, u32s: set<string>, all: seq<string>) {
    GoodExpr(c, g.names) && Good(b, g.names, u32s) && LoopFree(b) && Scope(b, g.names) <= all
  }

  /**
   Every loop with a loop-free body is right if and only if it is one of the first 32 or
   stands at the if nesting of the last of them.
   */
  lemma LoopRightIff(g: Gen, u32s: set<string>, all: seq<string>)
    requires Tables(g, u32s) && |g.loops| <= 32 && g.names <= all && Distinct(all) && |all| <= 64
    ensures (forall c, b, env, rest, fuel: nat | SimpleLoop(c, b, g, u32s, all) ::
               LoopRight(c, b, g, u32s, all, env, rest, fuel))
            <==> |g.loops| < 32 || g.loops[31] == g.ifDepth
  {
    if |g.loops| < 32 || g.loops[31] == g.ifDepth {
      forall c, b, env, rest, fuel: nat | SimpleLoop(c, b, g, u32s, all)
        ensures LoopRight(c, b, g, u32s, all, env, rest, fuel)
      {
        LoopFreeIsAimed(b, OpenLoop(g), g.ifDepth);
        StmtCorrect(SWhile(c, b), g, u32s, all, g.ifDepth, env, rest, fuel);
      }
    } else {
      var c, b, env: Env, rest: seq<Instr> := EBool(true), SBreak(AsIdent), map[], [];
      LoopPass(c, b, g, u32s, all, g.loops[31], env, rest, 0);
      assert Run(b, env, u32s, 0) == Broke(env) && Run(SWhile(c, b), env, u32s, 0) == Normal(env);
      assert SimpleLoop(c, b, g, u32s, all) && !LoopRight(c, b, g, u32s, all, env, rest, 0);
    }
  }

  // ------------------------------------------------------------ nests of loops

  /** `n` endless loops around a statement. */
  function Nest(n: nat, s: Stmt): Stmt {
    if n == 0 then s else SWhile(EBool(true), Nest(n - 1, s))
  }

  /** `while true do break end; return 1` */
  const BreakThenOne := SBlock([SWhile(EBool(true), SBreak(AsIdent)), SReturn(Some(EInt(1)))])

  /** `if true then while true do break end; return 1 end; return 2` */
  const Core := SBlock([SIf(EBool(true), BreakThenOne, None), SReturn(Some(EInt(2)))])

  lemma CoreInSource(fuel: nat)
    ensures Run(Core, map[], {}, fuel) == Finished(1, map[])
  {
    var loop, one, two := SWhile(EBool(true), SBreak(AsIdent)), SReturn(Some(EInt(1))), SReturn(Some(EInt(2)));
    assert Run(loop, map[], {}, fuel) == Normal(map[]);
    assert [loop, one][1..] == [one];
    assert RunBlock([one], map[], {}, fuel) == Finished(1, map[]);
    assert RunBlock([loop, one], map[], {}, fuel) == RunBlock([one], map[], {}, fuel);
    assert Run(SIf(EBool(true), BreakThenOne, None), map[], {}, fuel) == Run(BreakThenOne, map[], {}, fuel);
    assert RunBlock([SIf(EBool(true), BreakThenOne, None), two], map[], {}, fuel) == Finished(1, map[]);
  }

  lemma {:induction false} NestInSource(n: nat, fuel: nat)
    requires Run(Core, map[], {}, fuel) == Finished(1, map[])
    ensures Run(Nest(n, Core), map[], {}, fuel) == Finished(1, map[])
  {
    if n > 0 { NestInSource(n - 1, fuel); }
  }

  /** The tables inside `n` more loops. */
  function Inside(n: nat, g: Gen): Gen {
    if n == 0 then g else Inside(n - 1, OpenLoop(g))
  }

  lemma {:induction false} InsideIs(n: nat, g: Gen)
    requires |g.loops| + n <= 32 && forall k :: 0 <= k < |g.loops| ==> g.loops[k] == g.ifDepth
    ensures var h := Inside(n, g);
            && h.names == g.names && h.u32s == g.u32s && h.ifDepth == g.ifDepth && |h.loops| == |g.loops| + n
            && forall k :: 0 <= k < |h.loops| ==> h.loops[k] == g.ifDepth
  {
    if n > 0 { InsideIs(n - 1, OpenLoop(g)); }
  }

  ghost predicate AlwaysReturns(code: seq<Instr>, v: u32, fuel: nat) {
    forall rest :: Exec(code + rest, [], [], fuel) == Returned(v, [])
  }

  lemma {:induction false} NestReturns(n: nat, s: Stmt, g: Gen, v: u32, fuel: nat)
    requires AlwaysReturns(CompileStmt(s, Inside(n, g)).0, v, fuel)
    ensures AlwaysReturns(CompileStmt(Nest(n, s), g).0, v, fuel)
  {
    if n > 0 {
      NestReturns(n - 1, s, OpenLoop(g), v, fuel);
      ForeverReturns(Nest(n - 1, s), g, v, fuel);
    }
  }

  lemma ForeverReturns(b: Stmt, g: Gen, v: u32, fuel: nat)
    requires AlwaysReturns(CompileStmt(b, OpenLoop(g)).0, v, fuel)
    ensures AlwaysReturns(CompileStmt(SWhile(EBool(true), b), g).0, v, fuel)
  {
    var cb := CompileStmt(b, OpenLoop(g)).0;
    var body := LoopBody([Const(1)], cb);
    assert CompileStmt(SWhile(EBool(true), b), g).0 == [Block([Loop(body)])];
    Step(Const(1), [Eqz, BrIf(1)] + (cb + [Br(0)]));
    assert [ToU32(1)] + [] == [1];
    TestStep(1, cb + [Br(0)], [], fuel);
    forall rest ensures Exec([Block([Loop(body)])] + rest, [], [], fuel) == Returned(v, []) {
      LoopInBlock(body, rest, [], fuel);
    }
  }

  /** Under a full table the break of the loop in the `if` leads behind the `if`. */
  lemma CoreInCode(fuel: nat)
    ensures AlwaysReturns(CompileStmt(Core, Inside(32, Fresh)).0, 2, fuel)
  {
    var g := Inside(32, Fresh);
    InsideIs(32, Fresh);
    var branch := CompileStmt(BreakThenOne, Deeper(g)).0;
    var two := [Const(2), Return, Drop];
    BranchLeavesIf(g, fuel);
    CoreCode(g);
    forall rest ensures Exec(CompileStmt(Core, g).0 + rest, [], [], fuel) == Returned(2, []) {
      assert CompileStmt(Core, g).0 + rest == [Const(1)] + ([If(branch)] + (two + rest));
      LeavesAndReturns(branch, rest, fuel);
    }
  }

  lemma LeavesAndReturns(branch: seq<Instr>, rest: seq<Instr>, fuel: nat)
    requires Exec(branch, [], [], fuel) == Branch(0, [])
    ensures Exec([Const(1)] + ([If(branch)] + ([Const(2), Return, Drop] + rest)), [], [], fuel) == Returned(2, [])
  {
    var tail := [Const(2), Return, Drop] + rest;
    Step(Const(1), [If(branch)] + tail);
    assert [ToU32(1)] + [] == [1];
    IfStep(branch, tail, 1, [], fuel);
    ReturnsTwo(rest, fuel);
  }

  lemma CoreCode(g: Gen)
    ensures CompileStmt(Core, g).0
            == [Const(1)] + [If(CompileStmt(BreakThenOne, Deeper(g)).0)] + [Const(2), Return, Drop]
  {
    var first, last := SIf(EBool(true), BreakThenOne, None), SReturn(Some(EInt(2)));
    var ss := [first, last];
    assert ss[1..] == [last] && [last][1..] == [];
    var g1 := CompileStmt(first, g).1;
    assert CompileExpr(EInt(2), g1) == [Const(2)];
    assert CompileBlock([last], g1).0 == CompileStmt(last, g1).0 + [];
  }

  lemma ReturnsTwo(rest: seq<Instr>, fuel: nat)
    ensures Exec([Const(2), Return, Drop] + rest, [], [], fuel) == Returned(2, [])
  {
    var tail := [Return] + ([Drop] + rest);
    assert [Const(2), Return, Drop] + rest == [Const(2)] + tail;
    Step(Const(2), tail);
    Step(Return, [Drop] + rest);
    assert [ToU32(2)] + [] == [2];
  }

  /** The branch taken: its break answers label 0, the `if` itself. */
  lemma BranchLeavesIf(g: Gen, fuel: nat)
    requires g == Inside(32, Fresh) && |g.loops| == 32 && g.names == [] && g.u32s == [] && g.ifDepth == 0
    requires forall k :: 0 <= k < |g.loops| ==> g.loops[k] == 0
    ensures Exec(CompileStmt(BreakThenOne, Deeper(g)).0, [], [], fuel) == Branch(0, [])
  {
    var h := Deeper(g);
    var loop, last := SWhile(EBool(true), SBreak(AsIdent)), SReturn(Some(EInt(1)));
    var ss := [loop, last];
    assert ss[1..] == [last] && [last][1..] == [];
    var rest := CompileBlock([last], CompileStmt(loop, h).1).0;
    assert CompileStmt(BreakThenOne, h).0 == CompileStmt(loop, h).0 + rest;
    LoopPass(EBool(true), SBreak(AsIdent), h, {}, [], 0, map[], rest, fuel);
  }

  /** Further loops at the same if nesting change nothing once the table is full. */
  lemma {:induction false} InsideFull(n: nat, g: Gen)
    requires |g.loops| == 32
    ensures Inside(n, g) == g
  {
    if n > 0 { InsideFull(n - 1, g); }
  }

  lemma {:induction false} InsideInside(m: nat, n: nat, g: Gen)
    ensures Inside(m + n, g) == Inside(n, Inside(m, g))
  {
    if m > 0 { InsideInside(m - 1, n, OpenLoop(g)); }
  }

  /**
   Inside `n` loops the source returns 1, and the code does if and only if the loop in
   the `if` is still one of the first 32: from there on its break leaves the `if` as well
   and the code returns 2, whether or not an `if` stands right around the 33rd loop.
   */
  lemma DeepBreak(n: nat, fuel: nat)
    ensures Run(Nest(n, Core), map[], {}, fuel) == Finished(1, map[])
    ensures Exec(EntryCode(Nest(n, Core)), [], [], fuel) == Returned(if n < 32 then 1 else 2, [])
  {
    CoreInSource(fuel);
    NestInSource(n, fuel);
    if n < 32 {
      ShallowNest(n);
      EntryCorrect(Nest(n, Core), {}, fuel);
      assert Zeros(0) == [] && Locals(map[], []) == [];
    } else {
      CoreInCode(fuel);
      InsideIs(32, Fresh);
      InsideInside(32, n - 32, Fresh);
      InsideFull(n - 32, Inside(32, Fresh));
      NestReturns(n, Core, Fresh, 2, fuel);
    }
  }

  lemma ShallowNest(n: nat)
    requires n < 32
    ensures GoodEntry(Nest(n, Core), {}) && Scope(Nest(n, Core), []) == []
  {
    CoreIsGood();
    NestIsGood(n, 0);
    ShallowEntry(Nest(n, Core), {});
  }

  lemma CoreIsGood()
    ensures Good(Core, [], {}) && Scope(Core, []) == []
  {
    var branch, two := SIf(EBool(true), BreakThenOne, None), SReturn(Some(EInt(2)));
    BranchIsGood();
    assert [branch, two][1..] == [two] && [two][1..] == [];
    assert ScopeBlock([two], []) == [] && GoodBlock([two], [], {}) && Good(branch, [], {}) && Scope(branch, []) == [];
  }

  lemma BranchIsGood()
    ensures Good(BreakThenOne, [], {}) && Scope(BreakThenOne, []) == []
  {
    var loop, one := SWhile(EBool(true), SBreak(AsIdent)), SReturn(Some(EInt(1)));
    assert [loop, one][1..] == [one] && [one][1..] == [];
    assert ScopeBlock([one], []) == [] && GoodBlock([one], [], {}) && Good(loop, [], {}) && Scope(loop, []) == [];
  }

  lemma {:induction false} NestIsGood(n: nat, depth: nat)
    requires n + depth <= 31
    requires Good(Core, [], {}) && Scope(Core, []) == []
    ensures Good(Nest(n, Core), [], {}) && Scope(Nest(n, Core), []) == [] && Shallow(Nest(n, Core), depth)
  {
    if n > 0 { NestIsGood(n - 1, depth + 1); } else { CoreShallow(depth); }
  }

  lemma CoreShallow(depth: nat)
    requires depth <= 31
    ensures Shallow(Core, depth)
  {
    var loop := SWhile(EBool(true), SBreak(AsIdent));
    assert Shallow(loop, depth) && Shallow(BreakThenOne, depth);
  }

  /** Without ifs between them any number of loops around a loop-free body is right. */
  lemma {:induction false} NestIsAimed(n: nat, b: Stmt, g: Gen)
    requires LoopFree(b) && |g.loops| <= 32 && Records(g, g.ifDepth)
    ensures Aimed(Nest(n, b), g, g.ifDepth)
  {
    if n == 0 { LoopFreeIsAimed(b, g, g.ifDepth); } else { NestIsAimed(n - 1, b, OpenLoop(g)); }
  }

  /** Behind a nest of loops that goes beyond the 32nd, one record fewer is left for every loop that does. */
  lemma {:induction false} NestLeaves(k: nat, b: Stmt, n: nat)
    requires n <= 32 && LoopFree(b)
    ensures Left(Nest(k, b), n) == if n + k <= 32 then n else if k <= 32 then 32 - k else 0
  {
    if k == 0 { LoopFreeLeaves(b, n); } else { NestLeaves(k - 1, b, if n < 32 then n + 1 else n); }
  }

  lemma {:induction false} LoopFreeLeaves(s: Stmt, n: nat)
    requires LoopFree(s)
    ensures Left(s, n) == n
    decreases s, 1
  {
    match s {
      case SIf(_, t, els) =>
        LoopFreeLeaves(t, n);
        if els.Some? { LoopFreeLeaves(els.value, n); }
      case SBlock(ss) => LoopFreeBlockLeaves(ss, n);
      case _ =>
    }
  }

  lemma {:induction false} LoopFreeBlockLeaves(ss: seq<Stmt>, n: nat)
    requires forall i :: 0 <= i < |ss| ==> LoopFree(ss[i])
    ensures LeftBlock(ss, n) == n
    decreases ss, 0
  {
    if ss != [] {
      LoopFreeLeaves(ss[0], n);
      LoopFreeBlockLeaves(ss[1..], n);
    }
  }
}
