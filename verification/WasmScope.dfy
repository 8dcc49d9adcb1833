/**
 Which programs the back end promises to compile: names fit their slots and are
 declared before they are read, at most 64 locals, operators the back end knows,
 annotations and jumps in the node shape it recognises, and jumps whose loop is on
 record, as it is up to 32 loops deep.
 */
module WasmScope {
  import opened Wrappers
  import opened PonySyntax
  import opened WasmCompiler

  predicate GoodName(x: string) {
    |x| <= 63 && '.' !in x && x != "break" && x != "continue" && x != "U32" && x != "String"
  }

  function Declare(names: seq<string>, x: string): (r: seq<string>)
    ensures names <= r && x in r
  {
    if x in names then names else names + [x]
  }

  predicate Supported(op: BinOp) {
    OpCode(op, false).Some?
  }

  predicate GoodExpr(e: Expr, names: seq<string>) {
    match e
    case EInt(v) => v < 0x8000_0000_0000_0000
    case EBool(_) => true
    case EIdent(x) => GoodName(x) && x in names
    case EUn(op, a) => op != BitNotOp && GoodExpr(a, names)
    case EBin(op, l, r) => Supported(op) && GoodExpr(l, names) && GoodExpr(r, names)
    case EUnMissing(_) => false
    case ERange(_, _) => false
  }

  /** The names in scope after a statement, in order of first declaration. */
  function Scope(s: Stmt, names: seq<string>): (r: seq<string>)
    ensures names <= r
    decreases s
  {
    match s
    case SVar(x, _, _) => Declare(names, x)
    case SAssign(x, _) => Declare(names, x)
    case SCompound(x, _, _) => Declare(names, x)
    case SIf(_, t, els) =>
      (match els case None => Scope(t, names) case Some(e) => Scope(e, Scope(t, names)))
    case SWhile(_, b) => Scope(b, names)
    case SBlock(ss) => ScopeBlock(ss, names)
    case _ => names
  }

  function ScopeBlock(ss: seq<Stmt>, names: seq<string>): (r: seq<string>)
    ensures names <= r
    decreases ss
  {
    if ss == [] then names else ScopeBlock(ss[1..], Scope(ss[0], names))
  }

  /** `u32s` holds the variables declared U32. */
  predicate Good(s: Stmt, names: seq<string>, u32s: set<string>)
    decreases s
  {
    match s
    case SVar(x, ann, init) =>
      && GoodName(x)
      && (ann == Bare("U32") <==> x in u32s)
      && ann != Wrapped("U32") && ann != Bare("String") && ann != Wrapped("String")
      && (ann.Bare? ==> init.Some?)
      && (init.Some? ==> GoodExpr(init.value, Declare(names, x)))
    case SAssign(x, e) => GoodName(x) && GoodExpr(e, names) && (x !in names ==> x !in u32s)
    case SCompound(x, op, e) =>
      && GoodName(x) && GoodExpr(e, Declare(names, x)) && (x !in names ==> x !in u32s)
      && (op == AddOp || op == SubOp || op == MulOp || op == DivOp)
    case SIf(c, t, els) =>
      && GoodExpr(c, names) && Good(t, names, u32s)
      && (match els case None => true case Some(e) => Good(e, Scope(t, names), u32s))
    case SWhile(c, b) => GoodExpr(c, names) && Good(b, names, u32s)
    case SReturn(r) => (match r case None => true case Some(e) => GoodExpr(e, names))
    case SBlock(ss) => GoodBlock(ss, names, u32s)
    case SExpr(e) => GoodExpr(e, names)
    case _ => true
  }

  predicate GoodBlock(ss: seq<Stmt>, names: seq<string>, u32s: set<string>)
    decreases ss
  {
    ss == [] || (Good(ss[0], names, u32s) && GoodBlock(ss[1..], Scope(ss[0], names), u32s))
  }

  // ------------------------------------------------------------ where jumps are aimed

  /** The tables the else branch starts from. */
  function AfterThen(t: Stmt, g: Gen): Gen {
    CompileStmt(t, Deeper(g)).1.(ifDepth := g.ifDepth)
  }

  /** The if nesting recorded for the innermost loop on record is `base`. */
  predicate Records(g: Gen, base: int) {
    g.loops != [] && g.loops[|g.loops| - 1] == base
  }

  /**
   Wherever `s` jumps, the table's last record is the if nesting its innermost loop was
   really opened at: `base` outside the loops of `s`.
   */
  predicate Aimed(s: Stmt, g: Gen, base: int)
    decreases s
  {
    match s
    case SIf(_, t, els) =>
      && Aimed(t, Deeper(g), base)
      && (match els case None => true case Some(e) => Aimed(e, Deeper(AfterThen(t, g)), base))
    case SWhile(_, b) => Aimed(b, OpenLoop(g), g.ifDepth)
    case SBreak(form) => form == AsIdent && Records(g, base)
    case SContinue(form) => form == AsIdent && Records(g, base)
    case SBlock(ss) => AimedBlock(ss, g, base)
    case _ => true
  }

  predicate AimedBlock(ss: seq<Stmt>, g: Gen, base: int)
    decreases ss
  {
    ss == [] || (Aimed(ss[0], g, base) && AimedBlock(ss[1..], CompileStmt(ss[0], g).1, base))
  }

  /** At most 32 loops around one another, and jumps only inside loops; `depth` counts the loops around `s`. */
  predicate Shallow(s: Stmt, depth: nat)
    decreases s
  {
    match s
    case SIf(_, t, els) => Shallow(t, depth) && (match els case None => true case Some(e) => Shallow(e, depth))
    case SWhile(_, b) => depth < 32 && Shallow(b, depth + 1)
    case SBreak(form) => form == AsIdent && depth > 0
    case SContinue(form) => form == AsIdent && depth > 0
    case SBlock(ss) => forall i :: 0 <= i < |ss| ==> Shallow(ss[i], depth)
    case _ => true
  }

  /** Up to 32 loops deep every jump is aimed, and every record is there again afterwards. */
  lemma {:induction false} ShallowIsAimed(s: Stmt, g: Gen, base: int)
    requires Shallow(s, |g.loops|) && |g.loops| <= 32 && (g.loops != [] ==> Records(g, base))
    ensures Aimed(s, g, base) && CompileStmt(s, g).1.loops == g.loops
    decreases s, 1
  {
    match s {
      case SIf(c, t, els) =>
        ShallowIsAimed(t, Deeper(g), base);
        if els.Some? { ShallowIsAimed(els.value, Deeper(AfterThen(t, g)), base); }
      case SWhile(c, b) => ShallowIsAimed(b, OpenLoop(g), g.ifDepth);
      case SBlock(ss) => ShallowBlockIsAimed(ss, g, base);
      case _ =>
    }
  }

  lemma {:induction false} ShallowBlockIsAimed(ss: seq<Stmt>, g: Gen, base: int)
    requires (forall i :: 0 <= i < |ss| ==> Shallow(ss[i], |g.loops|))
    requires |g.loops| <= 32 && (g.loops != [] ==> Records(g, base))
    ensures AimedBlock(ss, g, base) && CompileBlock(ss, g).1.loops == g.loops
    decreases ss, 0
  {
    if ss != [] {
      ShallowIsAimed(ss[0], g, base);
      ShallowBlockIsAimed(ss[1..], CompileStmt(ss[0], g).1, base);
    }
  }

  /** Compiling a statement never adds a record. */
  lemma {:induction false} LoopsShrink(s: Stmt, g: Gen)
    ensures CompileStmt(s, g).1.loops <= g.loops
    decreases s, 1
  {
    match s {
      case SIf(c, t, els) =>
        LoopsShrink(t, Deeper(g));
        if els.Some? { LoopsShrink(els.value, Deeper(AfterThen(t, g))); }
      case SWhile(c, b) => LoopsShrink(b, OpenLoop(g));
      case SBlock(ss) => LoopsShrinkBlock(ss, g);
      case _ =>
    }
  }

  lemma {:induction false} LoopsShrinkBlock(ss: seq<Stmt>, g: Gen)
    ensures CompileBlock(ss, g).1.loops <= g.loops
    decreases ss, 0
  {
    if ss != [] {
      LoopsShrink(ss[0], g);
      LoopsShrinkBlock(ss[1..], CompileStmt(ss[0], g).1);
    }
  }

  // ------------------------------------------------------------ the emitter's tables

  ghost predicate Distinct(names: seq<string>) {
    forall i, j :: 0 <= i < j < |names| ==> names[i] != names[j]
  }

  /** The tables agree with the declarations seen so far. */
  ghost predicate Tables(g: Gen, u32s: set<string>) {
    && Distinct(g.names) && |g.u32s| == |g.names|
    && (forall i :: 0 <= i < |g.names| ==> (g.u32s[i] <==> g.names[i] in u32s))
    && (forall k :: 0 <= k < |g.loops| ==> g.loops[k] <= g.ifDepth)
  }

  lemma LookupIs(names: seq<string>, x: string, i: nat)
    requires Distinct(names) && i < |names| && names[i] == x
    ensures Lookup(names, x) == i
  {
  }

  lemma LookupPrefix(names: seq<string>, all: seq<string>, x: string)
    requires names <= all && Distinct(all) && x in names
    ensures Lookup(names, x) < |names| && Lookup(all, x) == Lookup(names, x)
  {
    LookupIs(all, x, Lookup(names, x));
  }

  /** With room left, Ensure declares the name and answers its slot. */
  lemma EnsureDeclares(g: Gen, u32s: set<string>, x: string, mark: bool)
    requires Tables(g, u32s) && |x| <= 63 && |Declare(g.names, x)| <= 64
    requires x in g.names && mark ==> x in u32s
    requires x !in g.names ==> (x in u32s <==> mark)
    ensures var (g1, i) := Ensure(g, x);
            var g2 := MarkU32(g1, i, mark);
            && i == Some(Lookup(Declare(g.names, x), x)) && i.value < |Declare(g.names, x)|
            && Tables(g2, u32s)
            && g2.names == Declare(g.names, x) && g2.ifDepth == g.ifDepth && g2.loops == g.loops
  {
    var i := Lookup(g.names, x);
    if i < |g.names| {
      assert x in g.names;
    } else {
      LookupIs(Declare(g.names, x), x, i);
    }
  }

  lemma {:induction false} ScopeDistinct(s: Stmt, names: seq<string>)
    requires Distinct(names)
    ensures Distinct(Scope(s, names))
    decreases s
  {
    match s {
      case SIf(_, t, els) =>
        ScopeDistinct(t, names);
        if els.Some? { ScopeDistinct(els.value, Scope(t, names)); }
      case SWhile(_, b) => ScopeDistinct(b, names);
      case SBlock(ss) => ScopeBlockDistinct(ss, names);
      case _ =>
    }
  }

  lemma {:induction false} ScopeBlockDistinct(ss: seq<Stmt>, names: seq<string>)
    requires Distinct(names)
    ensures Distinct(ScopeBlock(ss, names))
    decreases ss
  {
    if ss != [] {
      ScopeDistinct(ss[0], names);
      ScopeBlockDistinct(ss[1..], Scope(ss[0], names));
    }
  }

  /** Compiling a statement declares exactly its scope, restores the if nesting and adds no record. */
  lemma {:induction false} TablesAfter(s: Stmt, g: Gen, u32s: set<string>)
    requires Tables(g, u32s) && Good(s, g.names, u32s) && |Scope(s, g.names)| <= 64
    ensures Restored(g, CompileStmt(s, g).1, Scope(s, g.names), u32s)
    decreases s, 1
  {
    match s {
      case SVar(x, ann, init) => TablesAfterSimple(s, g, u32s);
      case SAssign(x, e) => TablesAfterSimple(s, g, u32s);
      case SCompound(x, op, e) => TablesAfterSimple(s, g, u32s);
      case SIf(c, t, els) => TablesAfterIf(c, t, els, g, u32s);
      case SWhile(c, b) =>
        TablesAfter(b, OpenLoop(g), u32s);
        LoopsShrink(s, g);
      case SBlock(ss) => TablesAfterBlock(ss, g, u32s);
      case _ =>
    }
  }

  /** Tables `h` are tables `g` with the names `names`, but for records that may be gone. */
  ghost predicate Restored(g: Gen, h: Gen, names: seq<string>, u32s: set<string>) {
    Tables(h, u32s) && h.names == names && h.ifDepth == g.ifDepth && h.loops <= g.loops
  }

  lemma TablesAfterSimple(s: Stmt, g: Gen, u32s: set<string>)
    requires s.SVar? || s.SAssign? || s.SCompound?
    requires Tables(g, u32s) && Good(s, g.names, u32s) && |Scope(s, g.names)| <= 64
    ensures Restored(g, CompileStmt(s, g).1, Scope(s, g.names), u32s)
  {
    match s {
      case SVar(x, ann, init) => EnsureDeclares(g, u32s, x, SaysU32(ann, init));
      case SAssign(x, e) => EnsureDeclares(g, u32s, x, false);
      case SCompound(x, op, e) => EnsureDeclares(g, u32s, x, false);
    }
  }

  lemma {:induction false} TablesAfterIf(c: Expr, t: Stmt, els: Option<Stmt>, g: Gen, u32s: set<string>)
    requires Tables(g, u32s) && Good(SIf(c, t, els), g.names, u32s)
    requires |Scope(SIf(c, t, els), g.names)| <= 64
    ensures Restored(g, CompileStmt(SIf(c, t, els), g).1, Scope(SIf(c, t, els), g.names), u32s)
    decreases SIf(c, t, els), 0
  {
    if els.Some? { assert Scope(t, g.names) <= Scope(els.value, Scope(t, g.names)); }
    TablesAfter(t, Deeper(g), u32s);
    TablesBack(CompileStmt(t, Deeper(g)).1, g, u32s);
    if els.Some? {
      var g1 := AfterThen(t, g);
      TablesAfter(els.value, Deeper(g1), u32s);
      TablesBack(CompileStmt(els.value, Deeper(g1)).1, g1, u32s);
    }
  }

  /** Coming back out of an `if`. */
  lemma TablesBack(h: Gen, g: Gen, u32s: set<string>)
    requires Tables(h, u32s) && Tables(g, u32s) && h.loops <= g.loops
    ensures Tables(h.(ifDepth := g.ifDepth), u32s)
  {
  }

  lemma {:induction false} TablesAfterBlock(ss: seq<Stmt>, g: Gen, u32s: set<string>)
    requires Tables(g, u32s) && GoodBlock(ss, g.names, u32s) && |ScopeBlock(ss, g.names)| <= 64
    ensures Restored(g, CompileBlock(ss, g).1, ScopeBlock(ss, g.names), u32s)
    decreases ss, 2
  {
    if ss != [] {
      assert Scope(ss[0], g.names) <= ScopeBlock(ss[1..], Scope(ss[0], g.names));
      TablesAfter(ss[0], g, u32s);
      TablesAfterBlock(ss[1..], CompileStmt(ss[0], g).1, u32s);
    }
  }
}
