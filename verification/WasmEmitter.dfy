/**
 The emitting methods, which append bytes to `out` and update the tables in place, and
 the whole chain: the entry's bytes, decoded and run, do what the source does.
 */
module WasmEmitter {
  import opened Wrappers
  import opened I32
  import opened Leb128
  import opened WasmMachine
  import opened PonySyntax
  import opened WasmCompiler
  import opened WasmScope
  import opened WasmBinary
  import SourceSemantics
  import WasmCorrect
  import WasmProgram

  // ------------------------------------------------------------ encoding of composed code

  lemma EncodeSnoc(a: seq<Instr>, i: Instr)
    ensures Encode(a + [i]) == Encode(a) + EncodeInstr(i)
  {
    EncodeConcat(a, [i]);
    EncodeOne(i);
  }

  lemma EncodeCons(i: Instr, a: seq<Instr>)
    ensures Encode([i] + a) == EncodeInstr(i) + Encode(a)
  {
    assert ([i] + a)[1..] == a;
  }

  lemma Join(done: seq<byte>, a: seq<byte>, b: seq<byte>)
    ensures done + a + b == done + (a + b)
  {
  }

  /** cond; eqz; br_if 1; body; br 0 as bytes, in the order they are appended. */
  lemma EncodeLoopBody(done: seq<byte>, cond: seq<Instr>, body: seq<Instr>)
    ensures done + Encode(cond) + [0x45, 0x0D, 0x01] + Encode(body) + [0x0C, 0x00]
            == done + Encode(LoopBody(cond, body))
  {
    var test, back := [Eqz, BrIf(1)], [Br(0)];
    EncodeOne(Br(0));
    EncodeCons(Eqz, [BrIf(1)]);
    EncodeOne(BrIf(1));
    assert [Eqz] + [BrIf(1)] == test;
    assert EncodeU(1) == [1] && EncodeU(0) == [0];
    assert Encode(test) == [0x45, 0x0D, 0x01] && Encode(back) == [0x0C, 0x00];
    EncodeConcat(cond, test + (body + back));
    EncodeConcat(test, body + back);
    EncodeConcat(body, back);
    Join(done, Encode(cond), Encode(test) + (Encode(body) + Encode(back)));
    Join(done + Encode(cond), Encode(test), Encode(body) + Encode(back));
    Join(done + Encode(cond) + Encode(test), Encode(body), Encode(back));
  }

  /** The bytes of a `while`. */
  lemma EncodeWhile(done: seq<byte>, cond: seq<Instr>, body: seq<Instr>)
    ensures done + [0x02, VOID] + [0x03, VOID] + Encode(cond) + [0x45, 0x0D, 0x01]
            + Encode(body) + [0x0C, 0x00] + [END, END]
            == done + Encode([Block([Loop(LoopBody(cond, body))])])
  {
    var inner := LoopBody(cond, body);
    EncodeLoopBody(done + [0x02, VOID] + [0x03, VOID], cond, body);
    EncodeOne(Block([Loop(inner)]));
    EncodeOne(Loop(inner));
    WhileBytes(done, Encode(inner));
  }

  lemma WhileBytes(done: seq<byte>, inner: seq<byte>)
    ensures done + [0x02, VOID] + [0x03, VOID] + inner + [END, END]
            == done + ([0x02, VOID] + ([0x03, VOID] + inner + [END]) + [END])
  {
  }

  lemma EncodeIf(done: seq<byte>, cond: seq<Instr>, thn: seq<Instr>)
    ensures done + Encode(cond) + [0x04, VOID] + Encode(thn) + [END] == done + Encode(cond + [If(thn)])
  {
    EncodeSnoc(cond, If(thn));
    Join(done, Encode(cond), [0x04, VOID] + Encode(thn) + [END]);
  }

  lemma EncodeIfElse(done: seq<byte>, cond: seq<Instr>, thn: seq<Instr>, els: seq<Instr>)
    ensures done + Encode(cond) + [0x04, VOID] + Encode(thn) + [ELSE] + Encode(els) + [END]
            == done + Encode(cond + [IfElse(thn, els)])
  {
    EncodeSnoc(cond, IfElse(thn, els));
    Join(done, Encode(cond), [0x04, VOID] + Encode(thn) + [ELSE] + Encode(els) + [END]);
  }

  lemma EncodeCompound(done: seq<byte>, k: nat, ce: seq<Instr>, o: NumOp)
    ensures done + ([0x20] + EncodeU(k)) + Encode(ce) + [OpByte(o)] + ([0x21] + EncodeU(k))
            == done + Encode([LocalGet(k)] + ce + [Num(o), LocalSet(k)])
  {
    var a := [LocalGet(k)] + ce;
    assert a + [Num(o), LocalSet(k)] == (a + [Num(o)]) + [LocalSet(k)];
    EncodeSnoc(a + [Num(o)], LocalSet(k));
    EncodeSnoc(a, Num(o));
    EncodeCons(LocalGet(k), ce);
    CompoundBytes(done, EncodeInstr(LocalGet(k)), Encode(ce), [OpByte(o)], EncodeInstr(LocalSet(k)));
  }

  lemma CompoundBytes(done: seq<byte>, a: seq<byte>, b: seq<byte>, c: seq<byte>, d: seq<byte>)
    ensures done + a + b + c + d == done + (a + b + c + d)
  {
  }

  lemma EncodeReturn(done: seq<byte>, code: seq<Instr>)
    ensures done + Encode(code) + [0x0F] + [0x1A] == done + Encode(code + [Return, Drop])
  {
    assert code + [Return, Drop] == (code + [Return]) + [Drop];
    EncodeSnoc(code + [Return], Drop);
    EncodeSnoc(code, Return);
  }

  lemma EncodeNot(done: seq<byte>, code: seq<Instr>)
    ensures done + Encode(code) + [0x45] == done + Encode(code + [Eqz])
  {
    EncodeSnoc(code, Eqz);
  }

  lemma EncodeNegate(done: seq<byte>, code: seq<Instr>)
    ensures done + EncodeInstr(Const(0)) + Encode(code) + [0x6B] == done + Encode([Const(0)] + code + [Num(Sub)])
  {
    EncodeSnoc([Const(0)] + code, Num(Sub));
    EncodeCons(Const(0), code);
    Join(done, EncodeInstr(Const(0)), Encode(code));
  }

  lemma EncodeBinary(done: seq<byte>, l: seq<Instr>, r: seq<Instr>, o: NumOp)
    ensures done + Encode(l) + Encode(r) + [OpByte(o)] == done + Encode(l + r + [Num(o)])
  {
    EncodeSnoc(l + r, Num(o));
    EncodeConcat(l, r);
    Join(done, Encode(l), Encode(r));
  }

  lemma EncodeThen(done: seq<byte>, a: seq<Instr>, b: seq<Instr>)
    ensures done + Encode(a) + Encode(b) == done + Encode(a + b)
  {
    EncodeConcat(a, b);
    Join(done, Encode(a), Encode(b));
  }

  // ------------------------------------------------------------ the emitter

  class WasmGen {
    var out: seq<byte>
    var names: seq<string>
    var u32s: seq<bool>
    var ifDepth: nat
    var loops: seq<nat>

    ghost function Tables(): Gen
      reads this
    {
      Gen(names, u32s, ifDepth, loops)
    }

    constructor ()
      ensures out == [] && Tables() == WasmProgram.Fresh
    {
      out, names, u32s, ifDepth, loops := [], [], [], 0, [];
    }

    /** The first slot of that name, or -1. */
    method LocalLookup(x: string) returns (i: int)
      ensures i == if x in names then Lookup(names, x) else -1
    {
      for k := 0 to |names|
        invariant x !in names[..k]
      {
        if names[k] == x {
          FirstIndex(names, x, k);
          return k;
        }
        assert names[..k + 1] == names[..k] + [names[k]];
      }
      return -1;
    }

    static lemma FirstIndex(names: seq<string>, x: string, k: nat)
      requires k < |names| && names[k] == x && x !in names[..k]
      ensures Lookup(names, x) == k
    {
      var i := Lookup(names, x);
      assert forall j :: 0 <= j < k ==> names[..k][j] == names[j];
    }

    method LocalEnsure(x: string) returns (i: int)
      modifies `names, `u32s
      ensures Tables() == Ensure(old(Tables()), x).0
      ensures i == match Ensure(old(Tables()), x).1 case Some(k) => k case None => -1
      ensures i == -1 <==> x !in old(names) && |old(names)| >= 64
    {
      i := LocalLookup(x);
      if i >= 0 { return; }
      assert Lookup(names, x) == |names| by { assert x !in names; }
      if |names| >= MAX_LOCALS { return -1; }
      i := |names|;
      names := names + [Stored(x)];
      u32s := u32s + [false];
    }

    method ExprIsU32(e: Expr) returns (b: bool)
      ensures b == IsU32(e, Tables())
    {
      match e {
        case EInt(v) => b := v > 2147483647;
        case EIdent(x) =>
          var i := LocalLookup(x);
          b := i >= 0 && i < |u32s| && u32s[i];
        case _ => b := false;
      }
    }

    method EmitConst(v: int)
      modifies `out
      ensures out == old(out) + EncodeInstr(Const(v))
    {
      out := out + [0x41];
      out := WriteS(out, v);
    }

    method EmitIndexed(opcode: byte, k: nat)
      modifies `out
      ensures out == old(out) + ([opcode] + EncodeU(k))
    {
      out := out + [opcode];
      out := WriteU(out, k);
    }

    method EmitIdent(x: string)
      modifies `out
      ensures out == old(out) + Encode(CompileExpr(EIdent(x), Tables()))
    {
      if loops != [] && (x == "break" || x == "continue") {
        var base := loops[|loops| - 1];
        var rel := ifDepth - base;
        if rel < 0 { rel := 0; }
        var depth := if x == "break" then rel + 1 else rel;
        EncodeOne(Br(depth));
        EmitIndexed(0x0C, depth);
      } else {
        var i := LocalLookup(x);
        if i >= 0 {
          EncodeOne(LocalGet(i));
          EmitIndexed(0x20, i);
        } else {
          assert Lookup(names, x) == |names| by { assert x !in names; }
          EncodeOne(Const(0));
          EmitConst(0);
        }
      }
    }

    /** Appends the code of one expression; the tables stay as they are. */
    method EmitExpr(e: Expr)
      modifies `out
      ensures out == old(out) + Encode(CompileExpr(e, Tables()))
      decreases e, 1
    {
      match e {
        case EInt(v) =>
          EncodeOne(Const(Signed(ToU32(v))));
          EmitConst(Signed(ToU32(v)));
        case EBool(b) =>
          EncodeOne(Const(if b then 1 else 0));
          EmitConst(if b then 1 else 0);
        case EIdent(x) => EmitIdent(x);
        case EUn(op, a) => EmitUnary(op, a);
        case EBin(op, l, r) => EmitBinary(op, l, r);
        case _ =>
          EncodeOne(Const(0));
          EmitConst(0);
      }
    }

    method EmitBinary(op: BinOp, l: Expr, r: Expr)
      modifies `out
      ensures out == old(out) + Encode(CompileExpr(EBin(op, l, r), Tables()))
      decreases EBin(op, l, r), 0
    {
      var left := ExprIsU32(l);
      var right := ExprIsU32(r);
      var o := OpCode(op, left || right);
      if o.Some? {
        EncodeBinary(out, CompileExpr(l, Tables()), CompileExpr(r, Tables()), o.value);
        EmitExpr(l);
        EmitExpr(r);
        out := out + [OpByte(o.value)];
      } else {
        EncodeOne(Const(0));
        EmitConst(0);
      }
    }

    method EmitUnary(op: UnOp, a: Expr)
      modifies `out
      ensures out == old(out) + Encode(CompileExpr(EUn(op, a), Tables()))
      decreases EUn(op, a), 0
    {
      if op == NotOp {
        EncodeNot(out, CompileExpr(a, Tables()));
        EmitExpr(a);
        out := out + [0x45];
      } else if op == NegOp {
        EncodeNegate(out, CompileExpr(a, Tables()));
        EmitConst(0);
        EmitExpr(a);
        out := out + [0x6B];
      } else {
        EncodeOne(Const(0));
        EmitConst(0);
      }
    }

    /** local.set of a slot, or drop when there is none. */
    method EmitStore(i: int)
      requires i >= -1
      modifies `out
      ensures out == old(out) + Encode(StoreLocal(if i >= 0 then Some(i) else None))
    {
      if i >= 0 {
        EncodeOne(LocalSet(i));
        EmitIndexed(0x21, i);
      } else {
        EncodeOne(Drop);
        out := out + [0x1A];
      }
    }

    /** Appends the code of one statement and leaves the tables as that statement leaves them. */
    method EmitStmt(s: Stmt)
      modifies this
      ensures out == old(out) + Encode(CompileStmt(s, old(Tables())).0)
      ensures Tables() == CompileStmt(s, old(Tables())).1
      decreases s, 2
    {
      match s {
        case SVar(x, ann, init) => EmitVar(x, ann, init);
        case SAssign(x, e) => EmitAssign(x, e);
        case SCompound(x, op, e) => EmitCompound(x, op, e);
        case SIf(c, t, els) => EmitIf(c, t, els);
        case SWhile(c, b) => EmitWhile(c, b);
        case SReturn(r) => EmitReturn(r);
        case SBreak(form) => EmitJump(form, "break");
        case SContinue(form) => EmitJump(form, "continue");
        case SBlock(ss) => EmitBlock(ss);
        case SExpr(e) => EmitDropped(e);
      }
    }

    method EmitDropped(e: Expr)
      modifies this
      ensures out == old(out) + Encode(CompileStmt(SExpr(e), old(Tables())).0)
      ensures Tables() == CompileStmt(SExpr(e), old(Tables())).1
    {
      EncodeSnoc(CompileExpr(e, Tables()), Drop);
      EmitExpr(e);
      out := out + [0x1A];
    }

    method EmitAssign(x: string, e: Expr)
      modifies this
      ensures out == old(out) + Encode(CompileStmt(SAssign(x, e), old(Tables())).0)
      ensures Tables() == CompileStmt(SAssign(x, e), old(Tables())).1
    {
      EncodeThen(out, CompileExpr(e, Tables()), StoreLocal(Ensure(Tables(), x).1));
      EmitExpr(e);
      var i := LocalEnsure(x);
      EmitStore(i);
    }

    method EmitVar(x: string, ann: Ann, init: Option<Expr>)
      modifies this
      ensures out == old(out) + Encode(CompileStmt(SVar(x, ann, init), old(Tables())).0)
      ensures Tables() == CompileStmt(SVar(x, ann, init), old(Tables())).1
    {
      var i := LocalEnsure(x);
      MarkLocal(i, ann, init);
      match Initializer(ann, init) {
        case None =>
        case Some(e) =>
          EncodeThen(out, CompileExpr(e, Tables()), StoreLocal(if i >= 0 then Some(i) else None));
          EmitExpr(e);
          EmitStore(i);
      }
    }

    method MarkLocal(i: int, ann: Ann, init: Option<Expr>)
      requires i >= -1
      modifies `u32s
      ensures Tables() == MarkU32(old(Tables()), if i >= 0 then Some(i) else None, SaysU32(ann, init))
    {
      if SaysU32(ann, init) && 0 <= i < |u32s| { u32s := u32s[i := true]; }
    }

    method EmitCompound(x: string, op: BinOp, e: Expr)
      modifies this
      ensures out == old(out) + Encode(CompileStmt(SCompound(x, op, e), old(Tables())).0)
      ensures Tables() == CompileStmt(SCompound(x, op, e), old(Tables())).1
    {
      var i := LocalEnsure(x);
      if i >= 0 { EmitUpdate(i, op, e); }
    }

    method EmitUpdate(i: nat, op: BinOp, e: Expr)
      modifies `out
      ensures out == old(out)
                     + Encode([LocalGet(i)] + CompileExpr(e, Tables()) + [Num(CompoundOp(op)), LocalSet(i)])
    {
      EncodeCompound(out, i, CompileExpr(e, Tables()), CompoundOp(op));
      EmitIndexed(0x20, i);
      EmitExpr(e);
      out := out + [OpByte(CompoundOp(op))];
      EmitIndexed(0x21, i);
    }

    method EmitIf(c: Expr, t: Stmt, els: Option<Stmt>)
      modifies this
      ensures out == old(out) + Encode(CompileStmt(SIf(c, t, els), old(Tables())).0)
      ensures Tables() == CompileStmt(SIf(c, t, els), old(Tables())).1
      decreases SIf(c, t, els), 1
    {
      ghost var g, done := Tables(), out;
      EmitExpr(c);
      out := out + [0x04, VOID];
      var saved := ifDepth;
      ifDepth := saved + 1;
      assert Tables() == Deeper(g);
      EmitStmt(t);
      EmitElse(els, saved, g, done, c, t);
      ifDepth := saved;
      out := out + [END];
    }

    /** The else branch, if there is one, one level deep as the then branch was. */
    method EmitElse(els: Option<Stmt>, saved: nat, ghost g: Gen, ghost done: seq<byte>, ghost c: Expr, ghost t: Stmt)
      requires saved == g.ifDepth && Tables() == CompileStmt(t, Deeper(g)).1
      requires out == done + Encode(CompileExpr(c, g)) + [0x04, VOID]
                      + Encode(CompileStmt(t, Deeper(g)).0)
      modifies this
      ensures out + [END] == done + Encode(CompileStmt(SIf(c, t, els), g).0)
      ensures Tables().(ifDepth := saved) == CompileStmt(SIf(c, t, els), g).1
      decreases SIf(c, t, els), 0
    {
      ghost var cc, ct := CompileExpr(c, g), CompileStmt(t, Deeper(g)).0;
      match els {
        case None => EncodeIf(done, cc, ct);
        case Some(e) =>
          EncodeIfElse(done, cc, ct, CompileStmt(e, Deeper(Tables().(ifDepth := saved))).0);
          EmitElseBranch(e, saved);
      }
    }

    method EmitElseBranch(e: Stmt, saved: nat)
      modifies this
      ensures out == old(out) + [ELSE] + Encode(CompileStmt(e, Deeper(old(Tables()).(ifDepth := saved))).0)
      ensures Tables() == CompileStmt(e, Deeper(old(Tables()).(ifDepth := saved))).1
      decreases e, 3
    {
      out := out + [ELSE];
      ifDepth := saved + 1;
      EmitStmt(e);
    }

    method EmitWhile(c: Expr, b: Stmt)
      modifies this
      ensures out == old(out) + Encode(CompileStmt(SWhile(c, b), old(Tables())).0)
      ensures Tables() == CompileStmt(SWhile(c, b), old(Tables())).1
      decreases SWhile(c, b), 0
    {
      EncodeWhile(out, CompileExpr(c, Tables()), CompileStmt(b, OpenLoop(Tables())).0);
      EmitLoopHead(c);
      EmitLoopBody(b);
      out := out + [0x0C, 0x00];
      out := out + [END, END];
    }

    method EmitLoopHead(c: Expr)
      modifies `out
      ensures out == old(out) + [0x02, VOID] + [0x03, VOID] + Encode(CompileExpr(c, Tables())) + [0x45, 0x0D, 0x01]
    {
      out := out + [0x02, VOID];
      out := out + [0x03, VOID];
      EmitExpr(c);
      out := out + [0x45, 0x0D, 0x01];
    }

    /** The body between recording the loop's if nesting and forgetting it. */
    method EmitLoopBody(b: Stmt)
      modifies this
      ensures out == old(out) + Encode(CompileStmt(b, OpenLoop(old(Tables()))).0)
      ensures Tables() == CloseLoop(CompileStmt(b, OpenLoop(old(Tables()))).1, old(ifDepth))
      decreases b, 3
    {
      var saved := ifDepth;
      if |loops| < MAX_LOOPS { loops := loops + [saved]; }
      assert Tables() == OpenLoop(old(Tables()));
      EmitStmt(b);
      ifDepth := saved;
      if |loops| > 0 { loops := loops[..|loops| - 1]; }
    }

    method EmitReturn(r: Option<Expr>)
      modifies this
      ensures out == old(out) + Encode(CompileStmt(SReturn(r), old(Tables())).0)
      ensures Tables() == CompileStmt(SReturn(r), old(Tables())).1
    {
      match r {
        case Some(e) =>
          EncodeReturn(out, CompileExpr(e, Tables()));
          EmitExpr(e);
        case None =>
          EncodeReturn(out, [Const(0)]);
          EncodeOne(Const(0));
          EmitConst(0);
      }
      out := out + [0x0F];
      out := out + [0x1A];
    }

    method EmitJump(form: JumpForm, word: string)
      requires word == "break" || word == "continue"
      modifies this
      ensures var s := if word == "break" then SBreak(form) else SContinue(form);
              out == old(out) + Encode(CompileStmt(s, old(Tables())).0) && Tables() == CompileStmt(s, old(Tables())).1
    {
      if form.AsIdent? {
        EncodeSnoc(CompileExpr(EIdent(word), Tables()), Drop);
        EmitIdent(word);
      } else {
        EncodeSnoc([Const(0)], Drop);
        EncodeOne(Const(0));
        EmitConst(0);
      }
      out := out + [0x1A];
    }

    method EmitBlock(ss: seq<Stmt>)
      modifies this
      ensures out == old(out) + Encode(CompileBlock(ss, old(Tables())).0)
      ensures Tables() == CompileBlock(ss, old(Tables())).1
      decreases ss, 0
    {
      ghost var all := old(out) + Encode(CompileBlock(ss, old(Tables())).0);
      for i := 0 to |ss|
        invariant out + Encode(CompileBlock(ss[i..], Tables()).0) == all
        invariant CompileBlock(ss[i..], Tables()).1 == CompileBlock(ss, old(Tables())).1
      {
        BlockStep(ss, i, Tables(), out);
        EmitStmt(ss[i]);
      }
    }

    static lemma BlockStep(ss: seq<Stmt>, i: nat, g: Gen, done: seq<byte>)
      requires i < |ss|
      ensures var (c0, g1) := CompileStmt(ss[i], g);
              && CompileBlock(ss[i..], g).1 == CompileBlock(ss[i + 1..], g1).1
              && done + Encode(CompileBlock(ss[i..], g).0) == done + Encode(c0) + Encode(CompileBlock(ss[i + 1..], g1).0)
    {
      assert ss[i..][0] == ss[i] && ss[i..][1..] == ss[i + 1..];
      var (c0, g1) := CompileStmt(ss[i], g);
      EncodeThen(done, c0, CompileBlock(ss[i + 1..], g1).0);
    }
    // ---------------------------------------------------------- the entry function

    /** Compiles the entry function's body and wraps it as one entry of the code section. */
    method EmitEntry(body: Stmt, heapBase: int) returns (entry: seq<byte>)
      requires out == [] && Tables() == WasmProgram.Fresh
      modifies this
      ensures Tables() == CompileStmt(body, WasmProgram.Fresh).1
      ensures entry == EntryBytes(|Tables().names|, heapBase, WasmProgram.EntryCode(body))
    {
      EmitEntryCode(body);
      entry := WrapEntry(|names|, heapBase, out);
    }

    method EmitEntryCode(body: Stmt)
      requires out == [] && Tables() == WasmProgram.Fresh
      modifies this
      ensures Tables() == CompileStmt(body, WasmProgram.Fresh).1
      ensures out == Encode(WasmProgram.EntryCode(body))
    {
      EncodeSnoc(CompileStmt(body, WasmProgram.Fresh).0, Const(0));
      EmitStmt(body);
      EmitConst(0);
    }

    static method WrapEntry(locals: nat, heapBase: int, code: seq<byte>) returns (entry: seq<byte>)
      ensures entry == Sized(LocalsHeader(locals) + ([0x41] + EncodeS(heapBase) + [0x24, 0x00]) + code + [END])
    {
      var prologue := WriteS([0x41], heapBase);
      prologue := prologue + [0x24, 0x00];
      var body := LocalsHeader(locals);
      body := body + prologue;
      body := body + code;
      body := body + [END];
      entry := WriteU([], |body|);
      entry := entry + body;
    }
  }

  function Sized(body: seq<byte>): seq<byte> {
    EncodeU(|body|) + body
  }

  /** One group of i32 locals, or none. */
  function LocalsHeader(n: nat): seq<byte> {
    if n > 0 then [0x01] + EncodeU(n) + [0x7F] else [0x00]
  }

  /** A code-section entry: size, locals, `global.set 0` of the heap base, code, end. */
  function EntryBytes(locals: nat, heapBase: int, code: seq<Instr>): seq<byte> {
    Sized(LocalsHeader(locals) + ([0x41] + EncodeS(heapBase) + [0x24, 0x00]) + Encode(code) + [END])
  }

  /** Two locals, heap base 1024, `i32.const 0`. */
  lemma EntryWritten()
    ensures EntryBytes(2, 1024, [Const(0)]) == [11, 0x01, 2, 0x7F, 0x41, 0x80, 8, 0x24, 0x00, 0x41, 0, 0x0B]
    ensures EntryBytes(0, 0, []) == [6, 0x00, 0x41, 0, 0x24, 0x00, 0x0B]
  {
    EncodeOne(Const(0));
    assert EncodeS(8) == [8] && EncodeS(1024) == [0x80, 8] && EncodeS(0) == [0];
    assert EncodeU(2) == [2] && EncodeU(11) == [11] && EncodeU(6) == [6];
  }

  datatype Function = Function(locals: nat, heapBase: int, code: seq<Instr>)

  function ReadLocals(bs: seq<byte>): Option<(nat, seq<byte>)> {
    if bs == [] then None
    else if bs[0] == 0 then Some((0, bs[1..]))
    else if bs[0] != 1 then None
    else
      match DecodeU(bs[1..])
      case None => None
      case Some((n, rest)) => if rest == [] || rest[0] != 0x7F then None else Some((n, rest[1..]))
  }

  function ReadHeapBase(bs: seq<byte>): Option<(int, seq<byte>)> {
    if bs == [] || bs[0] != 0x41 then None
    else
      match DecodeS(bs[1..])
      case None => None
      case Some((v, rest)) =>
        if |rest| < 2 || rest[0] != 0x24 || rest[1] != 0 then None else Some((v, rest[2..]))
  }

  /** Reads one code-section entry; its size field must be exact. */
  function ReadEntry(bs: seq<byte>): Option<(Function, seq<byte>)> {
    match DecodeU(bs)
    case None => None
    case Some((size, rest)) =>
      if size > |rest| then None
      else
        match ReadLocals(rest[..size])
        case None => None
        case Some((n, b1)) =>
          match ReadHeapBase(b1)
          case None => None
          case Some((h, b2)) =>
            match Decode(b2)
            case None => None
            case Some((code, t, b3)) =>
              if t == END && b3 == [] then Some((Function(n, h, code), rest[size..])) else None
  }

  lemma LocalsRoundTrip(n: nat, rest: seq<byte>)
    ensures ReadLocals(LocalsHeader(n) + rest) == Some((n, rest))
  {
    if n > 0 {
      var bs := LocalsHeader(n) + rest;
      assert bs == [0x01] + (EncodeU(n) + ([0x7F] + rest));
      assert bs[1..] == EncodeU(n) + ([0x7F] + rest);
      RoundTripU(n, [0x7F] + rest);
      assert ([0x7F] + rest)[0] == 0x7F && ([0x7F] + rest)[1..] == rest;
    } else {
      assert (LocalsHeader(n) + rest)[1..] == rest;
    }
  }

  lemma HeapBaseRoundTrip(h: int, rest: seq<byte>)
    ensures ReadHeapBase([0x41] + EncodeS(h) + [0x24, 0x00] + rest) == Some((h, rest))
  {
    var bs := [0x41] + EncodeS(h) + [0x24, 0x00] + rest;
    assert bs[1..] == EncodeS(h) + ([0x24, 0x00] + rest);
    RoundTripS(h, [0x24, 0x00] + rest);
    assert ([0x24, 0x00] + rest)[2..] == rest;
  }

  lemma SizedRoundTrip(body: seq<byte>, rest: seq<byte>)
    ensures DecodeU(Sized(body) + rest) == Some((|body|, body + rest))
    ensures (body + rest)[..|body|] == body && (body + rest)[|body|..] == rest
  {
    assert Sized(body) + rest == EncodeU(|body|) + (body + rest);
    RoundTripU(|body|, body + rest);
  }

  /** An entry reads back as what was meant, and reading stops at its end. */
  lemma EntryRoundTrip(locals: nat, heapBase: int, code: seq<Instr>, rest: seq<byte>)
    ensures ReadEntry(EntryBytes(locals, heapBase, code) + rest) == Some((Function(locals, heapBase, code), rest))
  {
    var pro := [0x41] + EncodeS(heapBase) + [0x24, 0x00];
    var tail := Encode(code) + ([END] + []);
    var body := LocalsHeader(locals) + pro + Encode(code) + [END];
    SizedRoundTrip(body, rest);
    assert body == LocalsHeader(locals) + (pro + tail);
    LocalsRoundTrip(locals, pro + tail);
    HeapBaseRoundTrip(heapBase, tail);
    DecodeEncode(code, END, []);
  }

  /**
   From source to bytes and back to behaviour: the entry's bytes decode to a function
   with one zeroed local per source variable whose code does what the body does.
   */
  lemma BytesMeanTheSource(body: Stmt, u32s: set<string>, heapBase: int, rest: seq<byte>, fuel: nat)
    requires WasmProgram.GoodEntry(body, u32s)
    ensures var names := Scope(body, []);
            var entry := EntryBytes(|CompileStmt(body, WasmProgram.Fresh).1.names|, heapBase,
                                    WasmProgram.EntryCode(body));
            var f := ReadEntry(entry + rest);
            && f.Some? && f.value.1 == rest && f.value.0.locals == |names|
            && var r := Exec(f.value.0.code, WasmProgram.Zeros(f.value.0.locals), [], fuel);
               match SourceSemantics.Run(body, map[], u32s, fuel)
               case Normal(env) => r == Next(WasmCorrect.Locals(env, names), [0])
               case Finished(v, env) => r == Returned(v, WasmCorrect.Locals(env, names))
               case Crashed => r == Trap
               case OutOfFuel => r == Timeout
               case IllTyped => true
               case _ => false
  {
    WasmProgram.EntryCorrect(body, u32s, fuel);
    EntryRoundTrip(|CompileStmt(body, WasmProgram.Fresh).1.names|, heapBase, WasmProgram.EntryCode(body), rest);
  }
}
