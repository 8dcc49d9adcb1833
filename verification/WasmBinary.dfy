/**
 The binary format of the emitted code (Core Specification, section 5.4): what the back
 end writes, a decoder, and the proof that it gives back the very code that was meant.
 */
module WasmBinary {
  import opened Wrappers
  import opened Leb128
  import opened WasmMachine

  const END: byte := 0x0B
  const ELSE: byte := 0x05
  const VOID: byte := 0x40

  function OpByte(op: NumOp): (b: byte)
    ensures NumOf(b) == Some(op)
    ensures 0x46 <= b <= 0x72
  {
    match op
    case Add => 0x6A
    case Sub => 0x6B
    case Mul => 0x6C
    case DivS => 0x6D
    case Eq => 0x46
    case Ne => 0x47
    case LtS => 0x48
    case LtU => 0x49
    case GtS => 0x4A
    case GtU => 0x4B
    case LeS => 0x4C
    case LeU => 0x4D
    case GeS => 0x4E
    case GeU => 0x4F
    case And => 0x71
    case Or => 0x72
  }

  /** The numeric instruction of an opcode, as the specification's table lists them. */
  function NumOf(b: byte): Option<NumOp> {
    if b == 0x46 then Some(Eq) else if b == 0x47 then Some(Ne)
    else if b == 0x48 then Some(LtS) else if b == 0x49 then Some(LtU)
    else if b == 0x4A then Some(GtS) else if b == 0x4B then Some(GtU)
    else if b == 0x4C then Some(LeS) else if b == 0x4D then Some(LeU)
    else if b == 0x4E then Some(GeS) else if b == 0x4F then Some(GeU)
    else if b == 0x6A then Some(Add) else if b == 0x6B then Some(Sub)
    else if b == 0x6C then Some(Mul) else if b == 0x6D then Some(DivS)
    else if b == 0x71 then Some(And) else if b == 0x72 then Some(Or)
    else None
  }

  function EncodeInstr(i: Instr): (bs: seq<byte>)
    ensures bs != [] && bs[0] != END && bs[0] != ELSE
    decreases i
  {
    match i
    case Const(v) => [0x41] + EncodeS(v)
    case LocalGet(k) => [0x20] + EncodeU(k)
    case LocalSet(k) => [0x21] + EncodeU(k)
    case Num(op) => [OpByte(op)]
    case Eqz => [0x45]
    case Drop => [0x1A]
    case Br(d) => [0x0C] + EncodeU(d)
    case BrIf(d) => [0x0D] + EncodeU(d)
    case Return => [0x0F]
    case Block(body) => [0x02, VOID] + Encode(body) + [END]
    case Loop(body) => [0x03, VOID] + Encode(body) + [END]
    case If(thn) => [0x04, VOID] + Encode(thn) + [END]
    case IfElse(thn, els) => [0x04, VOID] + Encode(thn) + [ELSE] + Encode(els) + [END]
  }

  function Encode(code: seq<Instr>): seq<byte>
    decreases code
  {
    if code == [] then [] else EncodeInstr(code[0]) + Encode(code[1..])
  }

  lemma {:induction false} EncodeConcat(a: seq<Instr>, b: seq<Instr>)
    ensures Encode(a + b) == Encode(a) + Encode(b)
  {
    if a == [] {
      assert a + b == b;
    } else {
      EncodeConcat(a[1..], b);
      assert (a + b)[1..] == a[1..] + b && (a + b)[0] == a[0];
      Associate(EncodeInstr(a[0]), Encode(a[1..]), Encode(b));
    }
  }

  lemma Associate(a: seq<byte>, b: seq<byte>, c: seq<byte>)
    ensures a + (b + c) == (a + b) + c
  {
  }

  lemma EncodeOne(i: Instr)
    ensures Encode([i]) == EncodeInstr(i)
  {
    assert [i][1..] == [];
  }

  /** The opcodes of the specification (section 5.4), instruction by instruction. */
  lemma OpcodesWritten()
    ensures EncodeInstr(Const(-1)) == [0x41, 0x7F] && EncodeInstr(LocalGet(3)) == [0x20, 3] && EncodeInstr(LocalSet(3)) == [0x21, 3]
    ensures EncodeInstr(Eqz) == [0x45] && EncodeInstr(Drop) == [0x1A] && EncodeInstr(Return) == [0x0F]
    ensures EncodeInstr(Br(3)) == [0x0C, 3] && EncodeInstr(BrIf(3)) == [0x0D, 3]
  {
    assert EncodeS(-1) == [0x7F] && EncodeU(3) == [3];
  }

  lemma StructureWritten(a: seq<Instr>, b: seq<Instr>)
    ensures EncodeInstr(Block(a)) == [0x02, 0x40] + Encode(a) + [0x0B]
    ensures EncodeInstr(Loop(a)) == [0x03, 0x40] + Encode(a) + [0x0B]
    ensures EncodeInstr(If(a)) == [0x04, 0x40] + Encode(a) + [0x0B]
    ensures EncodeInstr(IfElse(a, b)) == [0x04, 0x40] + Encode(a) + [0x05] + Encode(b) + [0x0B]
  {
  }

  lemma NumericOpcodesWritten(op: NumOp)
    ensures EncodeInstr(Num(op)) ==
              [match op
               case Eq => 0x46 case Ne => 0x47 case LtS => 0x48 case LtU => 0x49 case GtS => 0x4A case GtU => 0x4B
               case LeS => 0x4C case LeU => 0x4D case GeS => 0x4E case GeU => 0x4F
               case Add => 0x6A case Sub => 0x6B case Mul => 0x6C case DivS => 0x6D case And => 0x71 case Or => 0x72]
  {
  }

  // ------------------------------------------------------------ decoding

  type Decoded = Option<(seq<Instr>, byte, seq<byte>)>

  /** Instructions up to the END or ELSE that closes them, the closing byte, and what follows. */
  function Decode(bs: seq<byte>): (r: Decoded)
    ensures r.Some? ==> |r.value.2| < |bs|
    decreases |bs|, 1
  {
    if bs == [] then None
    else if bs[0] == END || bs[0] == ELSE then Some(([], bs[0], bs[1..]))
    else
      match DecodeInstr(bs)
      case None => None
      case Some((i, rest)) =>
        match Decode(rest)
        case None => None
        case Some((code, t, rest')) => Some(([i] + code, t, rest'))
  }

  function DecodeInstr(bs: seq<byte>): (r: Option<(Instr, seq<byte>)>)
    requires bs != []
    ensures r.Some? ==> |r.value.1| < |bs|
    decreases |bs|, 0
  {
    var b, rest := bs[0], bs[1..];
    if b == 0x41 then (match DecodeS(rest) case None => None case Some((v, r)) => Some((Const(v), r)))
    else if b == 0x20 then (match DecodeU(rest) case None => None case Some((k, r)) => Some((LocalGet(k), r)))
    else if b == 0x21 then (match DecodeU(rest) case None => None case Some((k, r)) => Some((LocalSet(k), r)))
    else if b == 0x0C then (match DecodeU(rest) case None => None case Some((k, r)) => Some((Br(k), r)))
    else if b == 0x0D then (match DecodeU(rest) case None => None case Some((k, r)) => Some((BrIf(k), r)))
    else if b == 0x45 then Some((Eqz, rest))
    else if b == 0x1A then Some((Drop, rest))
    else if b == 0x0F then Some((Return, rest))
    else if b == 0x02 || b == 0x03 || b == 0x04 then
      if rest == [] || rest[0] != VOID then None
      else
        (match Decode(rest[1..])
         case None => None
         case Some((body, t, r)) =>
           if t == END then Some((if b == 0x02 then Block(body) else if b == 0x03 then Loop(body) else If(body), r))
           else if b != 0x04 then None
           else
             match Decode(r)
             case None => None
             case Some((els, t', r')) => if t' == END then Some((IfElse(body, els), r')) else None)
    else (match NumOf(b) case None => None case Some(op) => Some((Num(op), rest)))
  }

  /** Encoded code, closed by END or ELSE, decodes to itself and nothing behind it is touched. */
  lemma {:induction false} DecodeEncode(code: seq<Instr>, t: byte, rest: seq<byte>)
    requires t == END || t == ELSE
    ensures Decode(Encode(code) + ([t] + rest)) == Some((code, t, rest))
    decreases code, 2
  {
    var tail := [t] + rest;
    if code == [] {
      assert [] + tail == tail && tail[1..] == rest;
    } else {
      var tail' := Encode(code[1..]) + tail;
      assert Encode(code) + tail == EncodeInstr(code[0]) + tail';
      assert (EncodeInstr(code[0]) + tail')[0] == EncodeInstr(code[0])[0];
      DecodeEncodeInstr(code[0], tail');
      DecodeEncode(code[1..], t, rest);
      assert [code[0]] + code[1..] == code;
    }
  }

  lemma {:induction false} DecodeEncodeInstr(i: Instr, rest: seq<byte>)
    ensures DecodeInstr(EncodeInstr(i) + rest) == Some((i, rest))
    decreases i, 1
  {
    match i {
      case Const(v) => SignedOperand(0x41, v, rest);
      case LocalGet(k) => IndexOperand(0x20, k, rest);
      case LocalSet(k) => IndexOperand(0x21, k, rest);
      case Br(k) => IndexOperand(0x0C, k, rest);
      case BrIf(k) => IndexOperand(0x0D, k, rest);
      case Block(body) => DecodeEncodeBlock(0x02, body, rest);
      case Loop(body) => DecodeEncodeBlock(0x03, body, rest);
      case If(thn) => DecodeEncodeBlock(0x04, thn, rest);
      case IfElse(thn, els) => DecodeEncodeIfElse(thn, els, rest);
      case _ => assert (EncodeInstr(i) + rest)[1..] == rest;
    }
  }

  lemma SignedOperand(b: byte, v: int, rest: seq<byte>)
    ensures DecodeS(([b] + EncodeS(v) + rest)[1..]) == Some((v, rest))
  {
    Behind(b, EncodeS(v), rest);
    RoundTripS(v, rest);
  }

  lemma IndexOperand(b: byte, k: nat, rest: seq<byte>)
    ensures DecodeU(([b] + EncodeU(k) + rest)[1..]) == Some((k, rest))
  {
    Behind(b, EncodeU(k), rest);
    RoundTripU(k, rest);
  }

  lemma {:induction false} DecodeEncodeBlock(b: byte, body: seq<Instr>, rest: seq<byte>)
    requires b == 0x02 || b == 0x03 || b == 0x04
    ensures DecodeInstr([b, VOID] + Encode(body) + [END] + rest)
            == Some((if b == 0x02 then Block(body) else if b == 0x03 then Loop(body) else If(body), rest))
    decreases body, 3
  {
    var bs := [b, VOID] + Encode(body) + [END] + rest;
    assert bs[1..][1..] == Encode(body) + ([END] + rest);
    DecodeEncode(body, END, rest);
  }

  lemma {:induction false} DecodeEncodeIfElse(thn: seq<Instr>, els: seq<Instr>, rest: seq<byte>)
    ensures DecodeInstr([0x04, VOID] + Encode(thn) + [ELSE] + Encode(els) + [END] + rest)
            == Some((IfElse(thn, els), rest))
    decreases IfElse(thn, els), 0
  {
    var bs := [0x04, VOID] + Encode(thn) + [ELSE] + Encode(els) + [END] + rest;
    var mid := Encode(els) + ([END] + rest);
    assert bs == [0x04, VOID] + (Encode(thn) + ([ELSE] + mid));
    assert bs[1..][1..] == Encode(thn) + ([ELSE] + mid);
    DecodeEncode(thn, ELSE, mid);
    DecodeEncode(els, END, rest);
  }

  /** Different code never has the same bytes. */
  lemma EncodeInjective(a: seq<Instr>, b: seq<Instr>)
    requires Encode(a) == Encode(b)
    ensures a == b
  {
    DecodeEncode(a, END, []);
    DecodeEncode(b, END, []);
  }
}
