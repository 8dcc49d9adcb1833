/** Whole functions: entry bodies, well-typed connectives, and where the back end departs from the source. */
module WasmProgram {
  import opened Wrappers
  import opened I32
  import opened WasmMachine
  import opened PonySyntax
  import opened WasmCompiler
  import opened WasmScope
  import opened SourceSemantics
  import opened WasmCorrect

  const Fresh := Gen([], [], 0, [])

  /** The entry function: the body, then the default result. */
  function EntryCode(s: Stmt): seq<Instr> {
    CompileStmt(s, Fresh).0 + [Const(0)]
  }

  /** The declared locals, zero on entry. */
  function Zeros(n: nat): seq<u32> {
    seq(n, i => 0)
  }

  /** What a body may be: closed, at most 64 locals, every jump's loop on record. */
  ghost predicate GoodEntry(s: Stmt, u32s: set<string>) {
    Good(s, [], u32s) && Aimed(s, Fresh, 0) && |Scope(s, [])| <= 64
  }

  /** At most 32 nested loops are enough. */
  lemma ShallowEntry(s: Stmt, u32s: set<string>)
    requires Good(s, [], u32s) && Shallow(s, 0) && |Scope(s, [])| <= 64
    ensures GoodEntry(s, u32s)
  {
    ShallowIsAimed(s, Fresh, 0);
  }

  /**
   The entry function declares exactly the variables of the body and computes what the
   body computes: same final variables and result, the same trap, or no end.
   */
  lemma EntryCorrect(s: Stmt, u32s: set<string>, fuel: nat)
    requires GoodEntry(s, u32s)
    ensures CompileStmt(s, Fresh).1.names == Scope(s, [])
    ensures var names := CompileStmt(s, Fresh).1.names;
            var r := Exec(EntryCode(s), Zeros(|names|), [], fuel);
            match Run(s, map[], u32s, fuel)
            case Normal(env) => r == Next(Locals(env, names), [0])
            case Finished(v, env) => r == Returned(v, Locals(env, names))
            case Crashed => r == Trap
            case OutOfFuel => r == Timeout
            case IllTyped => true
            case _ => false
  {
    var all := Scope(s, []);
    ScopeDistinct(s, []);
    TablesAfter(s, Fresh, u32s);
    assert Locals(map[], all) == Zeros(|all|);
    StmtCorrect(s, Fresh, u32s, all, 0, map[], [Const(0)], fuel);
    NoLooseJump(s, Fresh, 0, u32s, map[], fuel);
    var o := Run(s, map[], u32s, fuel);
    if o.Normal? { DefaultResult(Locals(o.env, all), fuel); }
  }

  lemma DefaultResult(locals: seq<u32>, fuel: nat)
    ensures Exec([Const(0)], locals, [], fuel) == Next(locals, [0])
  {
    assert [Const(0)][1..] == [] && [ToU32(0)] + [] == [0];
    assert Exec([], locals, [0], fuel) == Next(locals, [0]);
  }

  // ------------------------------------------------------------ typing of connectives

  /** Expressions that are always 0 or 1, given that the variables in `bools` are. */
  predicate Boolean(e: Expr, bools: set<string>) {
    match e
    case EInt(v) => v <= 1
    case EBool(_) => true
    case EIdent(x) => x in bools
    case EUn(op, _) => op == NotOp
    case EBin(op, _, _) => Compares(op) || op == AndOp || op == OrOp
    case _ => false
  }

  /** Which operands are taken for Boolean. */
  lemma BooleanForms(op: BinOp, l: Expr, r: Expr, x: string, bools: set<string>)
    ensures Boolean(EBin(op, l, r), bools) <==> op in {EqOp, NeOp, LtOp, GtOp, LeOp, GeOp, AndOp, OrOp}
    ensures Boolean(EUn(NotOp, l), bools) && Boolean(EBool(true), bools) && Boolean(EBool(false), bools)
    ensures Boolean(EIdent(x), bools) <==> x in bools
  {
  }

  /** Every operand of a logical connective is Boolean. */
  predicate TypedExpr(e: Expr, bools: set<string>) {
    match e
    case EUn(_, a) => TypedExpr(a, bools)
    case EBin(op, l, r) =>
      && TypedExpr(l, bools) && TypedExpr(r, bools)
      && (op == AndOp || op == OrOp ==> Boolean(l, bools) && Boolean(r, bools))
    case _ => true
  }

  predicate Typed(s: Stmt, bools: set<string>)
    decreases s
  {
    match s
    case SVar(x, _, init) =>
      init.Some? ==> TypedExpr(init.value, bools) && (x in bools ==> Boolean(init.value, bools))
    case SAssign(x, e) => TypedExpr(e, bools) && (x in bools ==> Boolean(e, bools))
    case SCompound(x, op, e) =>
      TypedExpr(e, bools) && x !in bools && (op == AddOp || op == SubOp || op == MulOp || op == DivOp)
    case SIf(c, t, els) => TypedExpr(c, bools) && Typed(t, bools) && (els.Some? ==> Typed(els.value, bools))
    case SWhile(c, b) => TypedExpr(c, bools) && Typed(b, bools)
    case SReturn(r) => r.Some? ==> TypedExpr(r.value, bools)
    case SBlock(ss) => forall i :: 0 <= i < |ss| ==> Typed(ss[i], bools)
    case SExpr(e) => TypedExpr(e, bools)
    case _ => true
  }

  ghost predicate BoolEnv(env: Env, bools: set<string>) {
    forall x :: x in bools ==> Get(env, x) <= 1
  }

  lemma {:induction false} TypedValue(e: Expr, bools: set<string>, env: Env, u32s: set<string>)
    requires TypedExpr(e, bools) && BoolEnv(env, bools)
    ensures !Eval(e, env, u32s).NotBool?
    ensures Boolean(e, bools) && Eval(e, env, u32s).Val? ==> Eval(e, env, u32s).v <= 1
  {
    match e {
      case EUn(_, a) => TypedValue(a, bools, env, u32s);
      case EBin(op, l, r) =>
        TypedValue(l, bools, env, u32s);
        TypedValue(r, bools, env, u32s);
        TypedBinary(op, l, r, bools, env, u32s);
      case _ =>
    }
  }

  lemma TypedBinary(op: BinOp, l: Expr, r: Expr, bools: set<string>, env: Env, u32s: set<string>)
    requires TypedExpr(EBin(op, l, r), bools) && BoolEnv(env, bools)
    requires !Eval(l, env, u32s).NotBool? && !Eval(r, env, u32s).NotBool?
    requires Boolean(l, bools) && Eval(l, env, u32s).Val? ==> Eval(l, env, u32s).v <= 1
    requires Boolean(r, bools) && Eval(r, env, u32s).Val? ==> Eval(r, env, u32s).v <= 1
    ensures !Eval(EBin(op, l, r), env, u32s).NotBool?
    ensures Boolean(EBin(op, l, r), bools) && Eval(EBin(op, l, r), env, u32s).Val? ==> Eval(EBin(op, l, r), env, u32s).v <= 1
  {
    var a, b := Eval(l, env, u32s), Eval(r, env, u32s);
    if a.Val? && b.Val? { BinaryBoolean(op, Unsigned(op, IsUnsigned(l, u32s), IsUnsigned(r, u32s)), a.v, b.v); }
  }

  lemma BinaryBoolean(op: BinOp, unsigned: bool, a: u32, b: u32)
    ensures BinValue(op, unsigned, a, b).NotBool? ==> (op == AndOp || op == OrOp) && !(a <= 1 && b <= 1)
    ensures (Compares(op) || op == AndOp || op == OrOp) && BinValue(op, unsigned, a, b).Val? ==>
              BinValue(op, unsigned, a, b).v <= 1
  {
  }

  /** The outcome is well typed and leaves the Boolean variables Boolean. */
  ghost predicate Sound(o: Outcome, bools: set<string>) {
    match o
    case Normal(env) => BoolEnv(env, bools)
    case Broke(env) => BoolEnv(env, bools)
    case Continued(env) => BoolEnv(env, bools)
    case IllTyped => false
    case _ => true
  }

  /** Type soundness: a typed program never misuses a connective, on any run. */
  lemma {:induction false} TypedRun(s: Stmt, bools: set<string>, env: Env, u32s: set<string>, fuel: nat)
    requires Typed(s, bools) && BoolEnv(env, bools)
    ensures Sound(Run(s, env, u32s, fuel), bools)
    decreases fuel, s, 1
  {
    match s {
      case SVar(_, _, init) => if init.Some? { TypedValue(init.value, bools, env, u32s); }
      case SAssign(_, e) => TypedValue(e, bools, env, u32s);
      case SCompound(_, _, e) => TypedValue(e, bools, env, u32s);
      case SIf(c, t, els) =>
        TypedValue(c, bools, env, u32s);
        TypedRun(t, bools, env, u32s, fuel);
        if els.Some? { TypedRun(els.value, bools, env, u32s, fuel); }
      case SWhile(c, b) =>
        TypedLoop(c, b, bools, env, u32s, fuel);
      case SReturn(r) => if r.Some? { TypedValue(r.value, bools, env, u32s); }
      case SBlock(ss) => TypedRunBlock(ss, bools, env, u32s, fuel);
      case SExpr(e) => TypedValue(e, bools, env, u32s);
      case _ =>
    }
  }

  lemma {:induction false} TypedLoop(c: Expr, b: Stmt, bools: set<string>, env: Env, u32s: set<string>, fuel: nat)
    requires Typed(SWhile(c, b), bools) && BoolEnv(env, bools)
    ensures Sound(Run(SWhile(c, b), env, u32s, fuel), bools)
    decreases fuel, SWhile(c, b), 0
  {
    TypedValue(c, bools, env, u32s);
    TypedRun(b, bools, env, u32s, fuel);
    var o := Run(b, env, u32s, fuel);
    if fuel > 0 && (o.Normal? || o.Continued?) { TypedLoop(c, b, bools, o.env, u32s, fuel - 1); }
  }

  lemma {:induction false} TypedRunBlock(ss: seq<Stmt>, bools: set<string>, env: Env, u32s: set<string>, fuel: nat)
    requires (forall i :: 0 <= i < |ss| ==> Typed(ss[i], bools)) && BoolEnv(env, bools)
    ensures Sound(RunBlock(ss, env, u32s, fuel), bools)
    decreases fuel, ss, 2
  {
    if ss != [] {
      TypedRun(ss[0], bools, env, u32s, fuel);
      var o := Run(ss[0], env, u32s, fuel);
      if o.Normal? { TypedRunBlock(ss[1..], bools, o.env, u32s, fuel); }
    }
  }

  predicate SourceEnds(s: Stmt, u32s: set<string>, fuel: nat) {
    !Run(s, map[], u32s, fuel).OutOfFuel?
  }

  predicate CodeEnds(s: Stmt, fuel: nat) {
    !Exec(EntryCode(s), Zeros(|Scope(s, [])|), [], fuel).Timeout?
  }

  /** A typed entry: every outcome is matched, so termination is too, in both directions. */
  lemma TypedEntryTerminatesAlike(s: Stmt, u32s: set<string>, bools: set<string>)
    requires GoodEntry(s, u32s) && Typed(s, bools)
    ensures (exists fuel: nat :: SourceEnds(s, u32s, fuel)) <==> (exists fuel: nat :: CodeEnds(s, fuel))
  {
    forall fuel: nat
      ensures SourceEnds(s, u32s, fuel) <==> CodeEnds(s, fuel)
    {
      EntryCorrect(s, u32s, fuel);
      TypedRun(s, bools, map[], u32s, fuel);
    }
  }

  // ------------------------------------------------------------ what the back end sees

  /**
   An expression as the back end takes it: a name not in the table yet, an operator it does
   not know and a shape it does not know are all constant 0.
   */
  function SeenExpr(e: Expr, g: Gen): Expr {
    match e
    case EIdent(x) => if x in g.names || x == "break" || x == "continue" then e else EInt(0)
    case EUn(op, a) => if op == BitNotOp then EInt(0) else EUn(op, SeenExpr(a, g))
    case EBin(op, l, r) => if Supported(op) then EBin(op, SeenExpr(l, g), SeenExpr(r, g)) else EInt(0)
    case EUnMissing(_) => EInt(0)
    case ERange(_, _) => EInt(0)
    case _ => e
  }

  function SeenInit(init: Option<Expr>, g: Gen): Option<Expr> {
    match init
    case None => None
    case Some(e) => Some(if e == EIdent("U32") then e else SeenExpr(e, g))
  }

  /** A statement as the back end takes it: its labelled jumps and wrapped annotations are not there. */
  function Seen(s: Stmt, g: Gen): Stmt
    decreases s
  {
    match s
    case SVar(x, ann, init) =>
      var g1 := MarkU32(Ensure(g, x).0, Ensure(g, x).1, SaysU32(ann, init));
      SVar(x, if ann.Wrapped? then NoAnn else ann, SeenInit(init, g1))
    case SAssign(x, e) => SAssign(x, SeenExpr(e, g))
    case SCompound(x, op, e) => SCompound(x, op, SeenExpr(e, Ensure(g, x).0))
    case SIf(c, t, None) => SIf(SeenExpr(c, g), Seen(t, Deeper(g)), None)
    case SIf(c, t, Some(e)) =>
      SIf(SeenExpr(c, g), Seen(t, Deeper(g)), Some(Seen(e, Deeper(AfterThen(t, g)))))
    case SWhile(c, b) => SWhile(SeenExpr(c, g), Seen(b, OpenLoop(g)))
    case SReturn(Some(e)) => SReturn(Some(SeenExpr(e, g)))
    case SReturn(None) => s
    case SBreak(form) => if form == AsLabel then SExpr(EInt(0)) else s
    case SContinue(form) => if form == AsLabel then SExpr(EInt(0)) else s
    case SBlock(ss) => SBlock(SeenBlock(ss, g))
    case SExpr(e) => SExpr(SeenExpr(e, g))
  }

  function SeenBlock(ss: seq<Stmt>, g: Gen): seq<Stmt>
    decreases ss
  {
    if ss == [] then [] else [Seen(ss[0], g)] + SeenBlock(ss[1..], CompileStmt(ss[0], g).1)
  }

  lemma {:induction false} SeenExprCompiles(e: Expr, g: Gen)
    ensures CompileExpr(SeenExpr(e, g), g) == CompileExpr(e, g)
    ensures IsU32(SeenExpr(e, g), g) == IsU32(e, g)
    decreases e
  {
    match e {
      case EUn(op, a) => SeenExprCompiles(a, g);
      case EBin(op, l, r) =>
        SeenExprCompiles(l, g);
        SeenExprCompiles(r, g);
        SupportedEitherWay(op, IsU32(l, g) || IsU32(r, g));
      case _ =>
    }
  }

  /** Whatever the program, its code is the code of the program the back end sees. */
  lemma {:induction false} CompiledAsSeen(s: Stmt, g: Gen)
    ensures CompileStmt(Seen(s, g), g) == CompileStmt(s, g)
    decreases s, 2
  {
    match s {
      case SVar(x, ann, init) => SeenVarCompiles(x, ann, init, g);
      case SAssign(x, e) => SeenExprCompiles(e, g);
      case SCompound(x, op, e) => SeenExprCompiles(e, Ensure(g, x).0);
      case SIf(c, t, None) =>
        SeenExprCompiles(c, g);
        CompiledAsSeen(t, Deeper(g));
      case SIf(c, t, Some(e)) => SeenIfCompiles(c, t, e, g);
      case SWhile(c, b) =>
        SeenExprCompiles(c, g);
        CompiledAsSeen(b, OpenLoop(g));
      case SReturn(Some(e)) => SeenExprCompiles(e, g);
      case SBlock(ss) => SeenBlockCompiles(ss, g);
      case SExpr(e) => SeenExprCompiles(e, g);
      case _ =>
    }
  }

  lemma SeenVarCompiles(x: string, ann: Ann, init: Option<Expr>, g: Gen)
    ensures CompileStmt(Seen(SVar(x, ann, init), g), g) == CompileStmt(SVar(x, ann, init), g)
  {
    var g1 := MarkU32(Ensure(g, x).0, Ensure(g, x).1, SaysU32(ann, init));
    var ann' := if ann.Wrapped? then NoAnn else ann;
    assert SaysU32(ann', SeenInit(init, g1)) == SaysU32(ann, init);
    if init.Some? { SeenExprCompiles(init.value, g1); }
  }

  lemma {:induction false} SeenIfCompiles(c: Expr, t: Stmt, e: Stmt, g: Gen)
    ensures CompileStmt(Seen(SIf(c, t, Some(e)), g), g) == CompileStmt(SIf(c, t, Some(e)), g)
    decreases SIf(c, t, Some(e)), 1
  {
    var h := Deeper(AfterThen(t, g));
    SeenExprCompiles(c, g);
    CompiledAsSeen(t, Deeper(g));
    CompiledAsSeen(e, h);
    SameIfElse(c, t, e, SeenExpr(c, g), Seen(t, Deeper(g)), Seen(e, h), g);
  }

  lemma SameIfElse(c: Expr, t: Stmt, e: Stmt, c': Expr, t': Stmt, e': Stmt, g: Gen)
    requires CompileExpr(c', g) == CompileExpr(c, g) && CompileStmt(t', Deeper(g)) == CompileStmt(t, Deeper(g))
    requires CompileStmt(e', Deeper(AfterThen(t, g))) == CompileStmt(e, Deeper(AfterThen(t, g)))
    ensures CompileStmt(SIf(c', t', Some(e')), g) == CompileStmt(SIf(c, t, Some(e)), g)
  {
  }

  lemma {:induction false} SeenBlockCompiles(ss: seq<Stmt>, g: Gen)
    ensures CompileBlock(SeenBlock(ss, g), g) == CompileBlock(ss, g)
    decreases ss, 0
  {
    if ss != [] {
      var g1 := CompileStmt(ss[0], g).1;
      CompiledAsSeen(ss[0], g);
      SeenBlockCompiles(ss[1..], g1);
      assert SeenBlock(ss, g)[1..] == SeenBlock(ss[1..], g1);
    }
  }

  /**
   So the entry code of any program does what the program the back end sees does, where
   that one is in the fragment: jumps the parser built do nothing, a parsed U32 variable
   is signed, a name read before its first textual assignment is 0.
   */
  lemma SeenEntryCorrect(s: Stmt, u32s: set<string>, fuel: nat)
    requires GoodEntry(Seen(s, Fresh), u32s)
    ensures var names := Scope(Seen(s, Fresh), []);
            var r := Exec(EntryCode(s), Zeros(|names|), [], fuel);
            match Run(Seen(s, Fresh), map[], u32s, fuel)
            case Normal(env) => r == Next(Locals(env, names), [0])
            case Finished(v, env) => r == Returned(v, Locals(env, names))
            case Crashed => r == Trap
            case OutOfFuel => r == Timeout
            case IllTyped => true
            case _ => false
  {
    CompiledAsSeen(s, Fresh);
    EntryCorrect(Seen(s, Fresh), u32s, fuel);
  }

  const ForeverBreak := SWhile(EBool(true), SBreak(AsLabel))
  const Forever := SWhile(EBool(true), SExpr(EInt(0)))

  /** `while true do break end`: one pass in the source, no end in the emitted code. */
  lemma ParsedBreakDiverges(fuel: nat)
    ensures Run(ForeverBreak, map[], {}, fuel) == Normal(map[])
    ensures Exec(EntryCode(ForeverBreak), [], [], fuel) == Timeout
  {
    assert Seen(ForeverBreak, Fresh) == Forever;
    SpinsForever(fuel);
    SeenEntryCorrect(ForeverBreak, {}, fuel);
    assert Zeros(0) == [];
  }

  lemma {:induction false} SpinsForever(fuel: nat)
    ensures Run(Forever, map[], {}, fuel) == OutOfFuel
    ensures GoodEntry(Forever, {}) && Scope(Forever, []) == []
  {
    if fuel > 0 { SpinsForever(fuel - 1); }
  }

  // ------------------------------------------------------------ programs that end differently

  function DeclareX(ann: Ann): Stmt { SVar("x", ann, Some(EInt(4000000000))) }

  const CompareX := SReturn(Some(EBin(GtOp, EIdent("x"), EInt(1))))

  /** `var x: U32 = 4000000000; return x > 1` */
  function BigX(ann: Ann): Stmt { SBlock([DeclareX(ann), CompareX]) }

  /** With the annotation wrapped, as parsed, the entry answers 0; with the bare one, 1 as the source does. */
  lemma ParsedU32ComparesSigned(fuel: nat)
    ensures Run(BigX(Wrapped("U32")), map[], {"x"}, fuel) == Finished(1, map["x" := 4000000000])
    ensures Exec(EntryCode(BigX(Wrapped("U32"))), [0], [], fuel) == Returned(0, [4000000000])
    ensures Exec(EntryCode(BigX(Bare("U32"))), [0], [], fuel) == Returned(1, [4000000000])
  {
    BigXSeen(Wrapped("U32"));
    BigXSeen(Bare("U32"));
    BigXRuns(Wrapped("U32"), {"x"}, fuel);
    BigXReturns(Wrapped("U32"), {}, fuel);
    BigXReturns(Bare("U32"), {"x"}, fuel);
  }

  lemma BigXReturns(ann: Ann, u32s: set<string>, fuel: nat)
    requires (ann == Wrapped("U32") && u32s == {}) || (ann == Bare("U32") && u32s == {"x"})
    requires Seen(BigX(ann), Fresh) == BigX(if ann.Wrapped? then NoAnn else ann)
    ensures Exec(EntryCode(BigX(ann)), [0], [], fuel) == Returned(if "x" in u32s then 1 else 0, [4000000000])
  {
    var seen := if ann.Wrapped? then NoAnn else ann;
    BigXRuns(seen, u32s, fuel);
    BigXGood(seen, u32s);
    SeenEntryCorrect(BigX(ann), u32s, fuel);
    var env: Env := map["x" := 4000000000];
    assert Zeros(1) == [0] && Locals(env, ["x"]) == [4000000000];
  }

  lemma BigXSeen(ann: Ann)
    requires ann.Wrapped? || ann == Bare("U32")
    ensures Seen(BigX(ann), Fresh) == BigX(if ann.Wrapped? then NoAnn else ann)
  {
    var g := CompileStmt(DeclareX(ann), Fresh).1;
    DeclaredX(ann);
    CompareXSeen(g);
    TwoSeen(DeclareX(ann), CompareX, Fresh);
  }

  lemma TwoSeen(s: Stmt, t: Stmt, g: Gen)
    ensures SeenBlock([s, t], g) == [Seen(s, g), Seen(t, CompileStmt(s, g).1)]
  {
    assert [s, t][1..] == [t] && [t][1..] == [];
    assert SeenBlock([t], CompileStmt(s, g).1) == [Seen(t, CompileStmt(s, g).1)] + [];
  }

  lemma CompareXSeen(g: Gen)
    requires g.names == ["x"]
    ensures Seen(CompareX, g) == CompareX
  {
    assert "x" in g.names && SeenExpr(EIdent("x"), g) == EIdent("x");
    assert Supported(GtOp) && SeenExpr(EInt(1), g) == EInt(1);
    assert SeenExpr(EBin(GtOp, EIdent("x"), EInt(1)), g) == EBin(GtOp, EIdent("x"), EInt(1));
  }

  lemma DeclaredX(ann: Ann)
    ensures CompileStmt(DeclareX(ann), Fresh).1.names == ["x"]
    ensures Seen(DeclareX(ann), Fresh) == DeclareX(if ann.Wrapped? then NoAnn else ann)
  {
    assert Stored("x") == "x";
    assert Ensure(Fresh, "x").0.names == ["x"];
  }

  lemma BigXRuns(ann: Ann, u32s: set<string>, fuel: nat)
    ensures Run(BigX(ann), map[], u32s, fuel) == Finished(if "x" in u32s then 1 else 0, map["x" := 4000000000])
  {
    var env: Env := map["x" := 4000000000];
    assert [DeclareX(ann), CompareX][1..] == [CompareX];
    assert Run(DeclareX(ann), map[], u32s, fuel) == Normal(env);
    assert Eval(EIdent("x"), env, u32s) == Val(4000000000) && Eval(EInt(1), env, u32s) == Val(1);
    assert RunBlock([CompareX], env, u32s, fuel) == Run(CompareX, env, u32s, fuel);
  }

  lemma BigXGood(ann: Ann, u32s: set<string>)
    requires (ann == NoAnn && u32s == {}) || (ann == Bare("U32") && u32s == {"x"})
    ensures GoodEntry(BigX(ann), u32s) && Scope(BigX(ann), []) == ["x"]
  {
    var ss := [DeclareX(ann), CompareX];
    assert ss[1..] == [CompareX] && [CompareX][1..] == [];
    assert Scope(DeclareX(ann), []) == [] + ["x"] == ["x"] && GoodName("x");
    assert ScopeBlock([CompareX], ["x"]) == ScopeBlock([], ["x"]) == ["x"];
    assert ScopeBlock(ss, []) == ScopeBlock([CompareX], ["x"]);
    assert GoodExpr(EIdent("x"), ["x"]) && Good(CompareX, ["x"], u32s);
    assert GoodBlock([], Scope(CompareX, ["x"]), u32s);
    assert GoodBlock([CompareX], ["x"], u32s) && Good(DeclareX(ann), [], u32s);
    ShallowEntry(BigX(ann), u32s);
  }

  const ReturnX := SIf(EIdent("x"), SReturn(Some(EIdent("x"))), None)
  const ReturnZero := SIf(EInt(0), SReturn(Some(EInt(0))), None)
  const AssignX := SAssign("x", EInt(5))

  /** `while true do if x then return x end; x = 5 end`: two passes in the source, no end in the emitted code. */
  const ReadsAhead := SWhile(EBool(true), SBlock([ReturnX, AssignX]))
  const ReadsZero := SWhile(EBool(true), SBlock([ReturnZero, AssignX]))

  /** A variable read before its first textual assignment reads as 0, whatever it holds by then. */
  lemma UnseenNameReadsZero(fuel: nat)
    ensures fuel > 0 ==> Run(ReadsAhead, map[], {}, fuel) == Finished(5, map["x" := 5])
    ensures Exec(EntryCode(ReadsAhead), [0], [], fuel) == Timeout
  {
    if fuel > 0 { ReadsAheadReturns(fuel); }
    ReadsAheadSeen();
    ReadsZeroSpins(map[], fuel);
    ReadsZeroGood();
    SeenEntryCorrect(ReadsAhead, {}, fuel);
    assert Zeros(1) == [0];
  }

  lemma ReadsAheadReturns(fuel: nat)
    requires fuel > 0
    ensures Run(ReadsAhead, map[], {}, fuel) == Finished(5, map["x" := 5])
  {
    var env: Env := map["x" := 5];
    assert [ReturnX, AssignX][1..] == [AssignX] && [AssignX][1..] == [];
    assert Run(AssignX, map[], {}, fuel) == Normal(env);
    assert RunBlock([AssignX], map[], {}, fuel) == Normal(env);
    assert Run(ReturnX, map[], {}, fuel) == Normal(map[]);
    assert RunBlock([ReturnX, AssignX], map[], {}, fuel) == Normal(env);
    assert Run(SBlock([ReturnX, AssignX]), map[], {}, fuel) == Normal(env);
    assert Run(ReturnX, env, {}, fuel - 1) == Finished(5, env);
    assert Run(SBlock([ReturnX, AssignX]), env, {}, fuel - 1) == Finished(5, env);
  }

  lemma ReadsAheadSeen()
    ensures Seen(ReadsAhead, Fresh) == ReadsZero
  {
    var g := OpenLoop(Fresh);
    assert Seen(ReturnX, g) == ReturnZero by {
      assert SeenExpr(EIdent("x"), g) == EInt(0) && SeenExpr(EIdent("x"), Deeper(g)) == EInt(0);
      assert Seen(SReturn(Some(EIdent("x"))), Deeper(g)) == SReturn(Some(EInt(0)));
    }
    TwoSeen(ReturnX, AssignX, g);
  }

  lemma {:induction false} ReadsZeroSpins(env: Env, fuel: nat)
    ensures Run(ReadsZero, env, {}, fuel) == OutOfFuel
    decreases fuel
  {
    var env': Env := env["x" := 5];
    assert [ReturnZero, AssignX][1..] == [AssignX] && [AssignX][1..] == [];
    assert Run(ReturnZero, env, {}, fuel) == Normal(env);
    assert Run(AssignX, env, {}, fuel) == Normal(env');
    assert RunBlock([AssignX], env, {}, fuel) == Normal(env');
    assert Run(SBlock([ReturnZero, AssignX]), env, {}, fuel) == Normal(env');
    if fuel > 0 { ReadsZeroSpins(env', fuel - 1); }
  }

  lemma ReadsZeroGood()
    ensures GoodEntry(ReadsZero, {}) && Scope(ReadsZero, []) == ["x"]
  {
    var ss := [ReturnZero, AssignX];
    assert ss[1..] == [AssignX] && [AssignX][1..] == [];
    assert Scope(ReturnZero, []) == [] && Scope(AssignX, []) == [] + ["x"] == ["x"] && GoodName("x");
    assert ScopeBlock([AssignX], []) == ScopeBlock([], ["x"]) == ["x"];
    assert ScopeBlock(ss, []) == ScopeBlock([AssignX], []);
    assert Good(ReturnZero, [], {}) && Good(AssignX, [], {}) && GoodBlock([], ["x"], {});
    assert GoodBlock([AssignX], [], {}) && GoodBlock(ss, [], {});
    ShallowEntry(ReadsZero, {});
  }

  /** `return 7 % 4` */
  const Remainder := SReturn(Some(EBin(RemOp, EInt(7), EInt(4))))

  /** An operator the back end does not know: 3 in the source, 0 in the code. */
  lemma RemainderReturnsZero(fuel: nat)
    ensures Run(Remainder, map[], {}, fuel) == Finished(3, map[])
    ensures Exec(EntryCode(Remainder), [], [], fuel) == Returned(0, [])
  {
    assert RemS(7, 4) == Some(3);
    assert Seen(Remainder, Fresh) == SReturn(Some(EInt(0)));
    SeenEntryCorrect(Remainder, {}, fuel);
    assert Zeros(0) == [] && Locals(map[], []) == [];
  }
}
