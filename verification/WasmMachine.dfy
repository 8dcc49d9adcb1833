/**
 The part of the WebAssembly abstract machine the back end targets: i32 instructions,
 locals, and structured control with void block types (Core Specification, section
 4.4), together with its binary format (section 5.4).

 Code is a sequence of instructions; the operand stack's top is at index 0.  `fuel`
 bounds the number of backward branches that may be taken on one control path, so a
 diverging program is one that answers Timeout for every fuel.
 */
module WasmMachine {
  import opened Wrappers
  import opened I32

  datatype NumOp = Add | Sub | Mul | DivS | Eq | Ne
    | LtS | GtS | LeS | GeS | LtU | GtU | LeU | GeU | And | Or

  datatype Instr =
    | Const(value: int)
    | LocalGet(index: nat)
    | LocalSet(index: nat)
    | Num(op: NumOp)
    | Eqz
    | Drop
    | Br(depth: nat)
    | BrIf(depth: nat)
    | Return
    | Block(body: seq<Instr>)
    | Loop(body: seq<Instr>)
    | If(thn: seq<Instr>)
    | IfElse(thn: seq<Instr>, els: seq<Instr>)

  /** None is a trap. */
  function Apply(op: NumOp, a: u32, b: u32): Option<u32> {
    match op
    case Add => Some(ToU32(a + b))
    case Sub => Some(ToU32(a - b))
    case Mul => Some(ToU32(a * b))
    case DivS => I32.DivS(a, b)
    case Eq => Some(Truth(a == b))
    case Ne => Some(Truth(a != b))
    case LtS => Some(Truth(Signed(a) < Signed(b)))
    case GtS => Some(Truth(Signed(a) > Signed(b)))
    case LeS => Some(Truth(Signed(a) <= Signed(b)))
    case GeS => Some(Truth(Signed(a) >= Signed(b)))
    case LtU => Some(Truth(a < b))
    case GtU => Some(Truth(a > b))
    case LeU => Some(Truth(a <= b))
    case GeU => Some(Truth(a >= b))
    case And => Some(I32.And(a, b))
    case Or => Some(I32.Or(a, b))
  }

  datatype Result =
    | Next(locals: seq<u32>, stack: seq<u32>)
    | Branch(depth: nat, locals: seq<u32>)
    | Returned(value: u32, locals: seq<u32>)
    | Trap
    | Timeout
    | Stuck

  /** Runs `code`; Stuck is code that would not validate. */
  function Exec(code: seq<Instr>, locals: seq<u32>, stack: seq<u32>, fuel: nat): Result
    decreases fuel, code, 0
  {
    if code == [] then Next(locals, stack)
    else
      var rest := code[1..];
      match code[0]
      case Const(v) => Exec(rest, locals, [ToU32(v)] + stack, fuel)
      case LocalGet(i) =>
        if i < |locals| then Exec(rest, locals, [locals[i]] + stack, fuel) else Stuck
      case LocalSet(i) =>
        if i < |locals| && |stack| >= 1 then Exec(rest, locals[i := stack[0]], stack[1..], fuel) else Stuck
      case Num(op) =>
        if |stack| < 2 then Stuck
        else (match Apply(op, stack[1], stack[0])
              case None => Trap
              case Some(v) => Exec(rest, locals, [v] + stack[2..], fuel))
      case Eqz =>
        if |stack| < 1 then Stuck
        else Exec(rest, locals, [Truth(stack[0] == 0)] + stack[1..], fuel)
      case Drop => if |stack| < 1 then Stuck else Exec(rest, locals, stack[1..], fuel)
      case Br(d) => Branch(d, locals)
      case BrIf(d) =>
        if |stack| < 1 then Stuck
        else if stack[0] != 0 then Branch(d, locals)
        else Exec(rest, locals, stack[1..], fuel)
      case Return => if |stack| < 1 then Stuck else Returned(stack[0], locals)
      case Block(body) => Leave(Exec(body, locals, [], fuel), rest, stack, fuel)
      case If(thn) =>
        if |stack| < 1 then Stuck
        else if stack[0] != 0 then Leave(Exec(thn, locals, [], fuel), rest, stack[1..], fuel)
        else Exec(rest, locals, stack[1..], fuel)
      case IfElse(thn, els) =>
        if |stack| < 1 then Stuck
        else Leave(Exec(if stack[0] != 0 then thn else els, locals, [], fuel), rest, stack[1..], fuel)
      case Loop(body) =>
        var r := Exec(body, locals, [], fuel);
        if r.Branch? && r.depth == 0 then
          if fuel == 0 then Timeout else Exec(code, r.locals, stack, fuel - 1)
        else Leave(r, rest, stack, fuel)
  }

  /** Leaving a block: falling off its end or branching to it continues behind it. */
  function Leave(r: Result, rest: seq<Instr>, stack: seq<u32>, fuel: nat): Result
    decreases fuel, rest, 1
  {
    match r
    case Next(l, s) => if s == [] then Exec(rest, l, stack, fuel) else Stuck
    case Branch(d, l) => if d == 0 then Exec(rest, l, stack, fuel) else Branch(d - 1, l)
    case Returned(v, l) => r
    case Trap => Trap
    case Timeout => Timeout
    case Stuck => Stuck
  }

  // ------------------------------------------------------------ in numbers

  lemma NumericInstructions()
    ensures Apply(Add, 7, 2) == Some(9) && Apply(Sub, 7, 2) == Some(5) && Apply(Mul, 7, 2) == Some(14)
    ensures Apply(DivS, 7, 2) == Some(3) && Apply(DivS, 7, 0) == None
    ensures Apply(Eq, 2, 7) == Some(0) && Apply(Ne, 2, 7) == Some(1)
    ensures Apply(LtS, 0xFFFF_FFFF, 7) == Some(1) && Apply(LtU, 0xFFFF_FFFF, 7) == Some(0) && Apply(LtU, 7, 7) == Some(0)
    ensures Apply(GtS, 0xFFFF_FFFF, 7) == Some(0) && Apply(GtU, 0xFFFF_FFFF, 7) == Some(1) && Apply(GtU, 7, 7) == Some(0)
    ensures Apply(LeS, 7, 7) == Some(1) && Apply(LeU, 7, 7) == Some(1) && Apply(GeS, 7, 7) == Some(1) && Apply(GeU, 7, 7) == Some(1)
  {
  }

  /** The operand pushed first is the left one; tests and branches are taken on anything but 0. */
  lemma OneInstruction(a: seq<Instr>, b: seq<Instr>, rest: seq<Instr>, locals: seq<u32>, x: u32, y: u32, fuel: nat)
    ensures Exec([Num(Sub)] + rest, locals, [y, x], fuel) == Exec(rest, locals, [(x - y) % 0x1_0000_0000], fuel)
    ensures Exec([Eqz] + rest, locals, [x], fuel) == Exec(rest, locals, [if x == 0 then 1 else 0], fuel)
    ensures Exec([BrIf(1)] + rest, locals, [x], fuel) == if x != 0 then Branch(1, locals) else Exec(rest, locals, [], fuel)
    ensures Exec([If(a)] + rest, locals, [x], fuel)
            == if x != 0 then Leave(Exec(a, locals, [], fuel), rest, [], fuel) else Exec(rest, locals, [], fuel)
    ensures Exec([IfElse(a, b)] + rest, locals, [x], fuel)
            == Leave(Exec(if x != 0 then a else b, locals, [], fuel), rest, [], fuel)
  {
    Step(Num(Sub), rest);
    Step(Eqz, rest);
    Step(BrIf(1), rest);
    Step(If(a), rest);
    Step(IfElse(a, b), rest);
    assert [y, x][2..] == [] && [x][1..] == [];
    assert [ToU32(x - y)] + [] == [ToU32(x - y)] && [Truth(x == 0)] + [] == [Truth(x == 0)];
  }

  lemma Step(i: Instr, rest: seq<Instr>)
    ensures ([i] + rest)[0] == i && ([i] + rest)[1..] == rest && [i] + rest != []
  {
  }

  /** A label of a block is behind it, a label of a loop its beginning; branches count outward. */
  lemma Labels(rest: seq<Instr>, locals: seq<u32>, fuel: nat)
    ensures Leave(Branch(0, locals), rest, [], fuel) == Exec(rest, locals, [], fuel)
    ensures Leave(Branch(1, locals), rest, [], fuel) == Branch(0, locals)
    ensures Exec([Loop([Br(0)])], locals, [], fuel) == Timeout
    ensures Exec([Loop([Br(2)])], locals, [], fuel) == Branch(1, locals)
    ensures Exec([Block([Br(2)])], locals, [], fuel) == Branch(1, locals)
  {
    Spins(locals, fuel);
    assert Exec([Br(2)], locals, [], fuel) == Branch(2, locals);
  }

  lemma {:induction false} Spins(locals: seq<u32>, fuel: nat)
    ensures Exec([Loop([Br(0)])], locals, [], fuel) == Timeout
  {
    if fuel > 0 { Spins(locals, fuel - 1); }
  }
}
