/** The line-number program of the debug information, and what consumers reconstruct from it. */
module DwarfLine {

  import opened Wrappers
  import opened Leb128

  // The state machine that consumers run on the emitted byte code is that of DWARF
  // version 5, sections 6.2.2 and 6.2.5.

  const LINE_BASE := -5
  const LINE_RANGE := 14
  const OPCODE_BASE := 13

  type u64 = v: int | 0 <= v < 0x1_0000_0000_0000_0000
  type u32 = v: int | 0 <= v < 0x1_0000_0000

  /** A row recorded by the front end. */
  datatype Row = Row(address: u64, file: u32, line: u32, column: u32, ends: bool)

  // ------------------------------------------------------------ the state machine

  datatype Regs = Regs(address: nat, file: nat, line: int, column: nat)

  const Reset := Regs(0, 1, 1, 0)

  /** A row of the reconstructed table. */
  datatype Entry = Entry(regs: Regs, ends: bool)

  function Le(v: nat, n: nat): (bs: seq<byte>)
    ensures |bs| == n
  {
    if n == 0 then [] else [v % 256] + Le(v / 256, n - 1)
  }

  function FromLe(bs: seq<byte>): nat {
    if bs == [] then 0 else bs[0] + 256 * FromLe(bs[1..])
  }

  function Pow256(n: nat): nat {
    if n == 0 then 1 else 256 * Pow256(n - 1)
  }

  lemma {:induction false} LeRoundTrip(v: nat, n: nat)
    requires v < Pow256(n)
    ensures FromLe(Le(v, n)) == v
  {
    if n > 0 {
      assert v / 256 < Pow256(n - 1);
      LeRoundTrip(v / 256, n - 1);
      assert Le(v, n)[1..] == Le(v / 256, n - 1);
    }
  }

  lemma AddressBound(v: u64)
    ensures v < Pow256(8)
  {
    assert Pow256(4) == 0x1_0000_0000;
    assert Pow256(6) == 0x1_0000_0000_0000;
  }

  function Special(op: byte, r: Regs): Regs
    requires op >= OPCODE_BASE
  {
    var adjusted := op as int - OPCODE_BASE;
    r.(address := r.address + adjusted / LINE_RANGE, line := r.line + LINE_BASE + adjusted % LINE_RANGE)
  }

  function Emit(e: Entry, more: Option<seq<Entry>>): Option<seq<Entry>> {
    match more case None => None case Some(es) => Some([e] + es)
  }

  /** Runs a line-number program to its end; None is a malformed one. */
  function Run(bs: seq<byte>, r: Regs): Option<seq<Entry>>
    decreases |bs|
  {
    if bs == [] then Some([])
    else
      var op, rest := bs[0], bs[1..];
      if op >= OPCODE_BASE then
        var r' := Special(op, r);
        Emit(Entry(r', false), Run(rest, r'))
      else if op == 0 then RunExtended(rest, r)
      else if op == 1 then Emit(Entry(r, false), Run(rest, r))
      else if op == 2 then
        (match DecodeU(rest) case None => None case Some((d, t)) => Run(t, r.(address := r.address + d)))
      else if op == 3 then
        (match DecodeS(rest) case None => None case Some((d, t)) => Run(t, r.(line := r.line + d)))
      else if op == 4 then
        (match DecodeU(rest) case None => None case Some((f, t)) => Run(t, r.(file := f)))
      else if op == 5 then
        (match DecodeU(rest) case None => None case Some((c, t)) => Run(t, r.(column := c)))
      else if op == 8 then Run(rest, r.(address := r.address + (255 - OPCODE_BASE) / LINE_RANGE))
      else if op == 9 then
        if |rest| < 2 then None else Run(rest[2..], r.(address := r.address + FromLe(rest[..2])))
      else if op == 12 then
        (match DecodeU(rest) case None => None case Some((_, t)) => Run(t, r))
      else Run(rest, r)
  }

  /** An extended instruction: its length, its own opcode, its operands; unknown ones are skipped by length. */
  function RunExtended(bs: seq<byte>, r: Regs): Option<seq<Entry>>
    decreases |bs|
  {
    match DecodeU(bs)
    case None => None
    case Some((len, t)) =>
      if len == 0 || len > |t| then None
      else if t[0] == 1 then Emit(Entry(r, true), Run(t[len..], Reset))
      else if t[0] == 2 then Run(t[len..], r.(address := FromLe(t[1..len])))
      else Run(t[len..], r)
  }

  // ------------------------------------------------------------ what is emitted

  /** Length 9, an extended opcode, an eight-byte address. */
  function Extended(opcode: byte, address: u64): seq<byte> {
    [0] + EncodeU(9) + [opcode] + Le(address, 8)
  }

  predicate IsSpecial(delta: int) {
    LINE_BASE <= delta < LINE_BASE + LINE_RANGE
  }

  function LineBytes(delta: int): seq<byte> {
    if IsSpecial(delta) then [((delta - LINE_BASE) + LINE_RANGE + OPCODE_BASE) as byte]
    else [3] + EncodeS(delta) + [1]
  }

  /** What the encoder remembers between rows. */
  datatype Memo = Memo(address: u64, file: u32, line: u32)

  function AddressBytes(row: Row, m: Memo): seq<byte> {
    if row.address > m.address then Extended(2, row.address) else []
  }

  function FileBytes(row: Row, m: Memo): seq<byte> {
    if row.file != m.file then [4] + EncodeU(row.file) else []
  }

  function ColumnBytes(row: Row): seq<byte> {
    if row.column > 0 then [5] + EncodeU(row.column) else []
  }

  function RowBytes(row: Row, m: Memo): seq<byte> {
    if row.ends then Extended(1, row.address)
    else AddressBytes(row, m) + (FileBytes(row, m) + (LineBytes(row.line - m.line) + ColumnBytes(row)))
  }

  function After(row: Row, m: Memo): Memo {
    if row.ends then Memo(row.address, 1, 1)
    else Memo(if row.address > m.address then row.address else m.address, row.file, row.line)
  }

  function Body(rows: seq<Row>, m: Memo): seq<byte> {
    if rows == [] then Extended(1, m.address)
    else RowBytes(rows[0], m) + Body(rows[1..], After(rows[0], m))
  }

  const Start := Memo(0, 1, 1)

  // ------------------------------------------------------------ one instruction at a time

  lemma RunExtendedBytes(opcode: byte, address: u64, rest: seq<byte>, r: Regs)
    requires opcode == 1 || opcode == 2
    ensures Run(Extended(opcode, address) + rest, r) ==
            if opcode == 1 then Emit(Entry(r, true), Run(rest, Reset)) else Run(rest, r.(address := address))
  {
    var bs := Extended(opcode, address) + rest;
    var t := [opcode] + Le(address, 8) + rest;
    assert bs[1..] == EncodeU(9) + t && bs[0] == 0;
    assert t[9..] == rest && t[1..9] == Le(address, 8);
    RunOperand(opcode, address, t, r);
  }

  lemma RunOperand(opcode: byte, address: u64, t: seq<byte>, r: Regs)
    requires |t| >= 9 && t[0] == opcode && (opcode == 1 || opcode == 2) && t[1..9] == Le(address, 8)
    ensures RunExtended(EncodeU(9) + t, r) ==
            if opcode == 1 then Emit(Entry(r, true), Run(t[9..], Reset)) else Run(t[9..], r.(address := address))
  {
    RoundTripU(9, t);
    AddressBound(address);
    LeRoundTrip(address, 8);
  }

  lemma RunAddress(row: Row, m: Memo, rest: seq<byte>, r: Regs)
    ensures Run(AddressBytes(row, m) + rest, r)
            == Run(rest, r.(address := if row.address > m.address then row.address else r.address))
  {
    if row.address > m.address {
      RunExtendedBytes(2, row.address, rest, r);
    } else {
      assert [] + rest == rest;
    }
  }

  lemma RunFile(row: Row, m: Memo, rest: seq<byte>, r: Regs)
    requires r.file == m.file
    ensures Run(FileBytes(row, m) + rest, r) == Run(rest, r.(file := row.file))
  {
    if row.file != m.file {
      Behind(4, EncodeU(row.file), rest);
      RoundTripU(row.file, rest);
    } else {
      assert [] + rest == rest;
    }
  }

  lemma RunColumn(row: Row, rest: seq<byte>, r: Regs)
    ensures Run(ColumnBytes(row) + rest, r) == Run(rest, r.(column := if row.column > 0 then row.column else r.column))
  {
    if row.column > 0 {
      Behind(5, EncodeU(row.column), rest);
      RoundTripU(row.column, rest);
    } else {
      assert [] + rest == rest;
    }
  }

  /** The line step appends one row; a special opcode moves the address by one as well. */
  lemma RunLine(delta: int, rest: seq<byte>, r: Regs)
    ensures var r' := r.(line := r.line + delta, address := r.address + if IsSpecial(delta) then 1 else 0);
            Run(LineBytes(delta) + rest, r) == Emit(Entry(r', false), Run(rest, r'))
  {
    if IsSpecial(delta) { RunSpecial(delta, rest, r); } else { RunLong(delta, rest, r); }
  }

  lemma RunSpecial(delta: int, rest: seq<byte>, r: Regs)
    requires IsSpecial(delta)
    ensures var r' := r.(line := r.line + delta, address := r.address + 1);
            Run(LineBytes(delta) + rest, r) == Emit(Entry(r', false), Run(rest, r'))
  {
    var op: byte := (delta - LINE_BASE) + LINE_RANGE + OPCODE_BASE;
    SpecialStep(delta, op, r);
    assert (LineBytes(delta) + rest)[0] == op && (LineBytes(delta) + rest)[1..] == rest;
  }

  lemma SpecialStep(delta: int, op: byte, r: Regs)
    requires IsSpecial(delta) && op == (delta - LINE_BASE) + LINE_RANGE + OPCODE_BASE
    ensures Special(op, r) == r.(line := r.line + delta, address := r.address + 1)
  {
    var x := delta - LINE_BASE;
    assert (x + 14) / 14 == 1 && (x + 14) % 14 == x;
  }

  lemma RunLong(delta: int, rest: seq<byte>, r: Regs)
    requires !IsSpecial(delta)
    ensures var r' := r.(line := r.line + delta);
            Run(LineBytes(delta) + rest, r) == Emit(Entry(r', false), Run(rest, r'))
  {
    var t, r' := [1] + rest, r.(line := r.line + delta);
    assert ([3] + EncodeS(delta) + [1]) + rest == [3] + EncodeS(delta) + t;
    RunAdvance(delta, t, r);
    RunCopy(rest, r');
  }

  lemma RunAdvance(delta: int, t: seq<byte>, r: Regs)
    ensures Run([3] + EncodeS(delta) + t, r) == Run(t, r.(line := r.line + delta))
  {
    Behind(3, EncodeS(delta), t);
    RoundTripS(delta, t);
  }

  lemma RunCopy(rest: seq<byte>, r: Regs)
    ensures Run([1] + rest, r) == Emit(Entry(r, false), Run(rest, r))
  {
    assert ([1] + rest)[0] == 1 && ([1] + rest)[1..] == rest;
  }

  // ------------------------------------------------------------ what the machine reconstructs

  /** The registers behind a row's address step, where it has one. */
  function AtRow(row: Row, m: Memo, r: Regs): Regs {
    r.(address := (if row.address > m.address then row.address else r.address)
                  + (if IsSpecial(row.line - m.line) then 1 else 0),
       file := row.file, line := row.line)
  }

  function BehindRow(row: Row, m: Memo, r: Regs): Regs {
    if row.ends then Reset else AtRow(row, m, r).(column := if row.column > 0 then row.column else r.column)
  }

  function EntryOf(row: Row, m: Memo, r: Regs): Entry {
    if row.ends then Entry(r, true) else Entry(AtRow(row, m, r), false)
  }

  /** The table a consumer reconstructs, row by row, with the closing end of sequence. */
  function Table(rows: seq<Row>, m: Memo, r: Regs): seq<Entry> {
    if rows == [] then [Entry(r, true)]
    else [EntryOf(rows[0], m, r)] + Table(rows[1..], After(rows[0], m), BehindRow(rows[0], m, r))
  }

  /** The machine's file and line registers are what the encoder remembers. */
  predicate InStep(m: Memo, r: Regs) {
    r.file == m.file && r.line == m.line
  }

  lemma RunRow(row: Row, m: Memo, rest: seq<byte>, r: Regs)
    requires InStep(m, r)
    ensures InStep(After(row, m), BehindRow(row, m, r))
    ensures Run(RowBytes(row, m) + rest, r) == Emit(EntryOf(row, m, r), Run(rest, BehindRow(row, m, r)))
  {
    if row.ends {
      RunExtendedBytes(1, row.address, rest, r);
    } else {
      RunSteps(row, m, rest, r);
    }
  }

  lemma RunSteps(row: Row, m: Memo, rest: seq<byte>, r: Regs)
    requires InStep(m, r) && !row.ends
    ensures Run(RowBytes(row, m) + rest, r) == Emit(Entry(AtRow(row, m, r), false), Run(rest, BehindRow(row, m, r)))
  {
    var l, c := LineBytes(row.line - m.line), ColumnBytes(row);
    Nested(AddressBytes(row, m), FileBytes(row, m), l, c, rest);
    RunPlace(row, m, l + (c + rest), r);
    RunAppend(row, m, rest, r);
  }

  /** The registers once address and file are set. */
  function Placed(row: Row, m: Memo, r: Regs): Regs {
    r.(address := if row.address > m.address then row.address else r.address, file := row.file)
  }

  lemma RunPlace(row: Row, m: Memo, rest: seq<byte>, r: Regs)
    requires InStep(m, r)
    ensures Run(AddressBytes(row, m) + (FileBytes(row, m) + rest), r) == Run(rest, Placed(row, m, r))
  {
    RunAddress(row, m, FileBytes(row, m) + rest, r);
    RunFile(row, m, rest, r.(address := if row.address > m.address then row.address else r.address));
  }

  lemma RunAppend(row: Row, m: Memo, rest: seq<byte>, r: Regs)
    requires InStep(m, r) && !row.ends
    ensures Run(LineBytes(row.line - m.line) + (ColumnBytes(row) + rest), Placed(row, m, r))
            == Emit(Entry(AtRow(row, m, r), false), Run(rest, BehindRow(row, m, r)))
  {
    RunLine(row.line - m.line, ColumnBytes(row) + rest, Placed(row, m, r));
    RunColumn(row, rest, AtRow(row, m, r));
  }

  lemma Nested(a: seq<byte>, f: seq<byte>, l: seq<byte>, c: seq<byte>, rest: seq<byte>)
    ensures (a + (f + (l + c))) + rest == a + (f + (l + (c + rest)))
  {
  }

  /** Running the emitted body reconstructs exactly that table. */
  lemma {:induction false} RunBody(rows: seq<Row>, m: Memo, r: Regs)
    requires InStep(m, r)
    ensures Run(Body(rows, m), r) == Some(Table(rows, m, r))
  {
    if rows == [] {
      RunExtendedBytes(1, m.address, [], r);
      assert Extended(1, m.address) + [] == Extended(1, m.address);
      assert Run([], Reset) == Some([]) && [Entry(r, true)] + [] == [Entry(r, true)];
    } else {
      RunRow(rows[0], m, Body(rows[1..], After(rows[0], m)), r);
      RunBody(rows[1..], After(rows[0], m), BehindRow(rows[0], m, r));
    }
  }

  /** Same source positions in the same order, ends of sequence where they were, and one more at the end. */
  ghost predicate SamePositions(rows: seq<Row>, table: seq<Entry>) {
    && |table| == |rows| + 1 && table[|rows|].ends
    && forall i :: 0 <= i < |rows| ==>
         && table[i].ends == rows[i].ends
         && (!rows[i].ends ==> table[i].regs.file == rows[i].file && table[i].regs.line == rows[i].line)
  }

  lemma {:induction false} TableKeepsPositions(rows: seq<Row>, m: Memo, r: Regs)
    ensures SamePositions(rows, Table(rows, m, r))
  {
    if rows != [] {
      TableKeepsPositions(rows[1..], After(rows[0], m), BehindRow(rows[0], m, r));
      var t := Table(rows, m, r);
      assert forall i :: 0 < i < |rows| ==> rows[i] == rows[1..][i - 1] && t[i] == t[1..][i - 1];
    }
  }

  /** The promise of the format, for all rows: a consumer recovers every file and line. */
  lemma PositionsRoundTrip(rows: seq<Row>)
    ensures var t := Run(Body(rows, Start), Reset);
            t.Some? && SamePositions(rows, t.value)
  {
    RunBody(rows, Start, Reset);
    TableKeepsPositions(rows, Start, Reset);
  }

  // ------------------------------------------------------------ addresses and columns

  /** The first row of a sequence. */
  predicate First(rows: seq<Row>, i: nat)
    requires i <= |rows|
  {
    i == 0 || rows[i - 1].ends
  }

  function PreviousAddress(rows: seq<Row>, i: nat): nat
    requires i <= |rows|
  {
    if First(rows, i) then 0 else rows[i - 1].address
  }

  function LineStep(rows: seq<Row>, i: nat): int
    requires i < |rows|
  {
    rows[i].line - if First(rows, i) then 1 else rows[i - 1].line
  }

  /** The highest address since the last end of sequence, the address written on that end included. */
  function Highest(rows: seq<Row>, i: nat): nat
    requires i <= |rows|
  {
    if i == 0 then 0
    else if rows[i - 1].ends || rows[i - 1].address > Highest(rows, i - 1) then rows[i - 1].address
    else Highest(rows, i - 1)
  }

  /** The last positive column given earlier in the same sequence. */
  function LastColumn(rows: seq<Row>, i: nat): nat
    requires i <= |rows|
  {
    if First(rows, i) then 0
    else if rows[i - 1].column > 0 then rows[i - 1].column
    else LastColumn(rows, i - 1)
  }

  /**
   A row whose address survives: above everything since the last end and reached by a long
   line step, or else exactly as far behind the previous row as the line opcode moves.
   */
  predicate AddressFits(rows: seq<Row>, i: nat)
    requires i < |rows|
  {
    var step := if IsSpecial(LineStep(rows, i)) then 1 else 0;
    if rows[i].address > Highest(rows, i) then step == 0
    else rows[i].address == PreviousAddress(rows, i) + step
  }

  function MemoAt(rows: seq<Row>, i: nat): (m: Memo)
    requires i <= |rows|
    ensures m.address == Highest(rows, i)
    ensures i < |rows| ==> rows[i].line - m.line == LineStep(rows, i)
  {
    if i == 0 then Start else After(rows[i - 1], MemoAt(rows, i - 1))
  }

  function RegsAt(rows: seq<Row>, i: nat): (r: Regs)
    requires i <= |rows|
    ensures r.column == LastColumn(rows, i)
  {
    if i == 0 then Reset else BehindRow(rows[i - 1], MemoAt(rows, i - 1), RegsAt(rows, i - 1))
  }

  /** A row's entry, in terms of the rows before it. */
  function EntryAt(rows: seq<Row>, i: nat): Entry
    requires i < |rows|
  {
    EntryOf(rows[i], MemoAt(rows, i), RegsAt(rows, i))
  }

  lemma {:induction false} TableAt(rows: seq<Row>, k: nat, i: nat)
    requires k <= i < |rows|
    ensures var t := Table(rows[k..], MemoAt(rows, k), RegsAt(rows, k)); i - k < |t| && t[i - k] == EntryAt(rows, i)
    decreases i - k
  {
    TableStep(rows, k);
    if k < i { TableAt(rows, k + 1, i); }
  }

  lemma TableStep(rows: seq<Row>, k: nat)
    requires k < |rows|
    ensures Table(rows[k..], MemoAt(rows, k), RegsAt(rows, k))
            == [EntryAt(rows, k)] + Table(rows[k + 1..], MemoAt(rows, k + 1), RegsAt(rows, k + 1))
  {
    assert rows[k..][0] == rows[k] && rows[k..][1..] == rows[k + 1..];
  }

  function AddressAt(rows: seq<Row>, i: nat): nat
    requires i < |rows|
  {
    EntryAt(rows, i).regs.address
  }

  /** While all rows so far came back exactly, the register is at the previous row. */
  lemma RegisterFollows(rows: seq<Row>, i: nat)
    requires i <= |rows|
    requires i > 0 && !rows[i - 1].ends ==> AddressAt(rows, i - 1) == rows[i - 1].address
    ensures RegsAt(rows, i).address == PreviousAddress(rows, i)
  {
  }

  lemma AddressStep(rows: seq<Row>, i: nat)
    requires i < |rows| && !rows[i].ends && RegsAt(rows, i).address == PreviousAddress(rows, i)
    ensures AddressAt(rows, i) == rows[i].address <==> AddressFits(rows, i)
  {
  }

  /** While all rows so far came back exactly, the next one does if and only if it fits. */
  lemma NextAddress(rows: seq<Row>, i: nat)
    requires i < |rows| && !rows[i].ends
    requires i > 0 && !rows[i - 1].ends ==> AddressAt(rows, i - 1) == rows[i - 1].address
    ensures AddressAt(rows, i) == rows[i].address <==> AddressFits(rows, i)
  {
    RegisterFollows(rows, i);
    AddressStep(rows, i);
  }

  predicate Back(rows: seq<Row>, i: nat)
    requires i < |rows|
  {
    !rows[i].ends ==> AddressAt(rows, i) == rows[i].address
  }

  predicate Fits(rows: seq<Row>, i: nat)
    requires i < |rows|
  {
    !rows[i].ends ==> AddressFits(rows, i)
  }

  lemma {:induction false} BackIffFits(rows: seq<Row>, n: nat)
    requires n <= |rows|
    ensures (forall i :: 0 <= i < n ==> Back(rows, i)) <==> (forall i :: 0 <= i < n ==> Fits(rows, i))
  {
    if n > 0 {
      BackIffFits(rows, n - 1);
      if n == 1 || Back(rows, n - 2) {
        if !rows[n - 1].ends { NextAddress(rows, n - 1); }
        assert Back(rows, n - 1) <==> Fits(rows, n - 1);
      }
    }
  }

  /** What a consumer reconstructs from the emitted program. */
  function Decoded(rows: seq<Row>): (t: seq<Entry>)
    ensures Run(Body(rows, Start), Reset) == Some(t)
    ensures |t| == |rows| + 1
  {
    RunBody(rows, Start, Reset);
    TableKeepsPositions(rows, Start, Reset);
    Table(rows, Start, Reset)
  }

  lemma DecodedAt(rows: seq<Row>, i: nat)
    requires i < |rows|
    ensures Decoded(rows)[i] == EntryAt(rows, i)
  {
    TableAt(rows, 0, i);
    assert rows[0..] == rows;
  }

  ghost predicate AddressesSurvive(rows: seq<Row>) {
    forall i :: 0 <= i < |rows| && !rows[i].ends ==> Decoded(rows)[i].regs.address == rows[i].address
  }

  /**
   For all rows in any number of sequences: every address comes back if and only if every
   row fits, and then an end of sequence stands where the row before it stood, whatever
   address was recorded for the end.
   */
  lemma AddressesSurviveIff(rows: seq<Row>)
    ensures AddressesSurvive(rows) <==> forall i :: 0 <= i < |rows| && !rows[i].ends ==> AddressFits(rows, i)
    ensures AddressesSurvive(rows) ==>
              forall i :: 0 <= i < |rows| && rows[i].ends ==> Decoded(rows)[i].regs.address == PreviousAddress(rows, i)
  {
    SurviveIffBack(rows);
    BackIffFits(rows, |rows|);
    AllFit(rows);
    if AddressesSurvive(rows) {
      forall i | 0 <= i < |rows| && rows[i].ends
        ensures Decoded(rows)[i].regs.address == PreviousAddress(rows, i)
      {
        DecodedAt(rows, i);
        if i > 0 { assert Back(rows, i - 1); }
        RegisterFollows(rows, i);
      }
    }
  }

  lemma SurviveIffBack(rows: seq<Row>)
    ensures AddressesSurvive(rows) <==> forall i :: 0 <= i < |rows| ==> Back(rows, i)
  {
    forall i | 0 <= i < |rows|
      ensures Decoded(rows)[i].regs.address == AddressAt(rows, i)
      ensures Back(rows, i) <==> rows[i].ends || Decoded(rows)[i].regs.address == rows[i].address
    {
      DecodedAt(rows, i);
    }
  }

  lemma AllFit(rows: seq<Row>)
    ensures (forall i :: 0 <= i < |rows| ==> Fits(rows, i))
            <==> forall i :: 0 <= i < |rows| && !rows[i].ends ==> AddressFits(rows, i)
  {
    if forall i :: 0 <= i < |rows| ==> Fits(rows, i) {
      forall i | 0 <= i < |rows| && !rows[i].ends ensures AddressFits(rows, i) {
        assert Fits(rows, i);
      }
    }
  }

  /** A row at or above the one before it, reached by a long line step. */
  predicate Rises(rows: seq<Row>, i: nat)
    requires i < |rows|
  {
    PreviousAddress(rows, i) <= rows[i].address && !IsSpecial(LineStep(rows, i))
  }

  /** A single sequence comes back if and only if addresses never fall and no line step is short. */
  lemma OneSequenceSurvivesIff(rows: seq<Row>)
    requires forall i :: 0 <= i < |rows| ==> !rows[i].ends
    ensures AddressesSurvive(rows) <==> forall i :: 0 <= i < |rows| ==> Rises(rows, i)
  {
    AddressesSurviveIff(rows);
    RisingUpTo(rows, |rows|);
  }

  lemma {:induction false} RisingUpTo(rows: seq<Row>, n: nat)
    requires n <= |rows| && forall i :: 0 <= i < |rows| ==> !rows[i].ends
    ensures (forall i :: 0 <= i < n ==> AddressFits(rows, i)) <==> (forall i :: 0 <= i < n ==> Rises(rows, i))
    ensures (forall i :: 0 <= i < n ==> Rises(rows, i)) ==> Highest(rows, n) == PreviousAddress(rows, n)
  {
    if n > 0 {
      RisingUpTo(rows, n - 1);
      if forall i :: 0 <= i < n - 1 ==> Rises(rows, i) { RisingStep(rows, n - 1); }
    }
  }

  lemma RisingStep(rows: seq<Row>, i: nat)
    requires i < |rows| && !rows[i].ends && Highest(rows, i) == PreviousAddress(rows, i)
    ensures AddressFits(rows, i) <==> Rises(rows, i)
    ensures Rises(rows, i) ==> Highest(rows, i + 1) == PreviousAddress(rows, i + 1)
  {
  }

  /** A row carries the last column of the rows before it; its own is set only once it has been appended. */
  lemma ColumnsLag(rows: seq<Row>)
    ensures forall i :: 0 <= i < |rows| && !rows[i].ends ==> Decoded(rows)[i].regs.column == LastColumn(rows, i)
  {
    forall i | 0 <= i < |rows| && !rows[i].ends ensures Decoded(rows)[i].regs.column == LastColumn(rows, i) {
      DecodedAt(rows, i);
    }
  }

  /** So every column comes back if and only if none was ever given. */
  lemma ColumnsSurviveIff(rows: seq<Row>)
    ensures (forall i :: 0 <= i < |rows| && !rows[i].ends ==> Decoded(rows)[i].regs.column == rows[i].column)
            <==> (forall i :: 0 <= i < |rows| && !rows[i].ends ==> rows[i].column == 0)
  {
    ColumnsLag(rows);
    ColumnsUpTo(rows, |rows|);
  }

  lemma {:induction false} ColumnsUpTo(rows: seq<Row>, n: nat)
    requires n <= |rows|
    ensures (forall i :: 0 <= i < n && !rows[i].ends ==> LastColumn(rows, i) == rows[i].column)
            <==> (forall i :: 0 <= i < n && !rows[i].ends ==> rows[i].column == 0)
    ensures (forall i :: 0 <= i < n && !rows[i].ends ==> rows[i].column == 0) ==> LastColumn(rows, n) == 0
  {
    if n > 0 { ColumnsUpTo(rows, n - 1); }
  }

  /** Two rows at address 16 on neighbouring lines come back at 17 and 18. */
  lemma AddressesDrift()
    ensures var rows := [Row(16, 1, 1, 0, false), Row(16, 1, 2, 0, false)];
            Decoded(rows)[0].regs.address == 17 && Decoded(rows)[1].regs.address == 18
  {
    var rows := [Row(16, 1, 1, 0, false), Row(16, 1, 2, 0, false)];
    assert rows[1..] == [Row(16, 1, 2, 0, false)];
    assert rows[1..][1..] == [];
  }

  /**
   A program byte by byte: an address, a special opcode, a column; an advance by 100 lines
   and a row; the closing end of sequence.
   */
  lemma ProgramWritten(address: u64)
    requires 0 < address < 0x1_0000
    ensures var low, high := address % 256, address / 256;
            Body([Row(address, 1, 2, 3, false), Row(address, 1, 102, 0, false)], Start)
            == ([0, 9, 2, low, high, 0, 0, 0, 0, 0, 0] + [33, 5, 3])
               + ([3, 0xE4, 0, 1] + [0, 9, 1, low, high, 0, 0, 0, 0, 0, 0])
  {
    var a, b := Row(address, 1, 2, 3, false), Row(address, 1, 102, 0, false);
    FirstRowWritten(address);
    LongRowWritten(address);
    AddressWritten(1, address);
    TwoRows(a, b, Start);
    assert After(a, Start) == Memo(address, 1, 2) && After(b, Memo(address, 1, 2)) == Memo(address, 1, 102);
  }

  lemma TwoRows(a: Row, b: Row, m: Memo)
    ensures Body([a, b], m)
            == RowBytes(a, m) + (RowBytes(b, After(a, m)) + Extended(1, After(b, After(a, m)).address))
  {
    assert [a, b][1..] == [b] && [b][1..] == [];
    assert Body([b], After(a, m)) == RowBytes(b, After(a, m)) + Body([], After(b, After(a, m)));
  }

  lemma FirstRowWritten(address: u64)
    requires 0 < address < 0x1_0000
    ensures RowBytes(Row(address, 1, 2, 3, false), Start)
            == [0, 9, 2, address % 256, address / 256, 0, 0, 0, 0, 0, 0] + [33, 5, 3]
  {
    var row := Row(address, 1, 2, 3, false);
    AddressWritten(2, address);
    assert EncodeU(3) == [3];
    assert FileBytes(row, Start) == [] && LineBytes(1) == [33] && ColumnBytes(row) == [5, 3];
    assert [] + ([33] + [5, 3]) == [33, 5, 3];
  }

  lemma LongRowWritten(address: u64)
    ensures RowBytes(Row(address, 1, 102, 0, false), Memo(address, 1, 2)) == [3, 0xE4, 0, 1]
  {
    var row, m := Row(address, 1, 102, 0, false), Memo(address, 1, 2);
    assert EncodeS(0) == [0] && EncodeS(100) == [0xE4, 0];
    assert LineBytes(100) == [3, 0xE4, 0, 1];
    assert AddressBytes(row, m) == [] && FileBytes(row, m) == [] && ColumnBytes(row) == [];
    assert [] + ([] + ([3, 0xE4, 0, 1] + [])) == [3, 0xE4, 0, 1];
  }

  /** A change of file, and an end of sequence. */
  lemma FileAndEndWritten()
    ensures RowBytes(Row(0, 2, 1, 0, false), Start) == [4, 2, 32]
    ensures RowBytes(Row(7, 0, 0, 0, true), Start) == [0, 9, 1, 7, 0, 0, 0, 0, 0, 0, 0]
  {
    var row := Row(0, 2, 1, 0, false);
    AddressWritten(1, 7);
    assert EncodeU(2) == [2];
    assert AddressBytes(row, Start) == [] && FileBytes(row, Start) == [4, 2] && LineBytes(0) == [32] && ColumnBytes(row) == [];
    assert [] + ([4, 2] + ([32] + [])) == [4, 2, 32];
  }

  lemma AddressWritten(opcode: byte, address: u64)
    requires address < 0x1_0000
    ensures Extended(opcode, address) == [0, 9, opcode, address % 256, address / 256, 0, 0, 0, 0, 0, 0]
  {
    var high := address / 256;
    assert Le(0, 2) == [0, 0] && Le(0, 4) == [0, 0, 0, 0] && Le(0, 6) == [0, 0, 0, 0, 0, 0];
    assert high % 256 == high && high / 256 == 0;
    assert Le(high, 7) == [high] + Le(0, 6);
    assert EncodeU(9) == [9];
  }

  // ------------------------------------------------------------ the encoder

  class DwarfLineProgram {
    var rows: seq<Row>
    var address: u64
    var file: u32
    var line: u32
    var column: u32

    constructor ()
      ensures rows == [] && address == 0 && file == 1 && line == 1 && column == 0
    {
      rows, address, file, line, column := [], 0, 1, 1, 0;
    }

    method EmitRow()
      modifies `rows
      ensures rows == old(rows) + [Row(address, file, line, column, false)]
    {
      rows := rows + [Row(address, file, line, column, false)];
    }

    method EndSequence()
      modifies `rows
      ensures rows == old(rows) + [Row(address, 0, 0, 0, true)]
    {
      rows := rows + [Row(address, 0, 0, 0, true)];
    }

    /** The eight address bytes of an extended instruction, lowest first. */
    static method WriteExtended(buf: seq<byte>, opcode: byte, address: u64) returns (buf': seq<byte>)
      ensures buf' == buf + Extended(opcode, address)
    {
      buf' := buf + [0];
      buf' := WriteU(buf', 9);
      buf' := buf' + [opcode];
      ghost var head := buf';
      Grouped(buf, [0], EncodeU(9), [opcode]);
      var left: int := address;
      for j := 0 to 8
        invariant left >= 0 && buf' + Le(left, 8 - j) == head + Le(address, 8)
      {
        NextByte(buf', left, 8 - j);
        buf' := buf' + [left % 256];
        left := left / 256;
      }
      assert buf' + Le(left, 0) == buf';
      Enclosed(buf, [0] + EncodeU(9) + [opcode], Le(address, 8));
    }

    static lemma NextByte(buf: seq<byte>, v: nat, n: nat)
      requires n > 0
      ensures buf + Le(v, n) == (buf + [v % 256]) + Le(v / 256, n - 1)
    {
    }

    static lemma Enclosed(buf: seq<byte>, a: seq<byte>, b: seq<byte>)
      ensures (buf + a) + b == buf + (a + b)
    {
    }

    static method WriteLine(buf: seq<byte>, delta: int) returns (buf': seq<byte>)
      ensures buf' == buf + LineBytes(delta)
    {
      if LINE_BASE <= delta < LINE_BASE + LINE_RANGE {
        var opcode := (delta - LINE_BASE) + LINE_RANGE * 1 + OPCODE_BASE;
        buf' := buf + [opcode as byte];
      } else {
        Grouped(buf, [3], EncodeS(delta), [1]);
        buf' := buf + [3];
        buf' := WriteS(buf', delta);
        buf' := buf' + [1];
      }
    }

    static method WriteRow(buf: seq<byte>, row: Row, m: Memo) returns (buf': seq<byte>)
      requires !row.ends
      ensures buf' == buf + RowBytes(row, m)
    {
      buf' := WriteAddress(buf, row, m);
      buf' := WriteFile(buf', row, m);
      buf' := WriteLine(buf', row.line - m.line);
      buf' := WriteColumn(buf', row);
      Pieces(buf, AddressBytes(row, m), FileBytes(row, m), LineBytes(row.line - m.line), ColumnBytes(row));
    }

    static lemma Pieces(buf: seq<byte>, a: seq<byte>, f: seq<byte>, l: seq<byte>, c: seq<byte>)
      ensures buf + a + f + l + c == buf + (a + (f + (l + c)))
    {
    }

    static method WriteAddress(buf: seq<byte>, row: Row, m: Memo) returns (buf': seq<byte>)
      ensures buf' == buf + AddressBytes(row, m)
    {
      buf' := buf;
      if row.address > m.address { buf' := WriteExtended(buf, 2, row.address); }
    }

    static method WriteFile(buf: seq<byte>, row: Row, m: Memo) returns (buf': seq<byte>)
      ensures buf' == buf + FileBytes(row, m)
    {
      buf' := buf;
      if row.file != m.file { buf' := WriteOperand(buf, 4, row.file); }
    }

    static method WriteColumn(buf: seq<byte>, row: Row) returns (buf': seq<byte>)
      ensures buf' == buf + ColumnBytes(row)
    {
      buf' := buf;
      if row.column > 0 { buf' := WriteOperand(buf, 5, row.column); }
    }

    static method WriteOperand(buf: seq<byte>, opcode: byte, v: nat) returns (buf': seq<byte>)
      ensures buf' == buf + ([opcode] + EncodeU(v))
    {
      buf' := buf + [opcode];
      buf' := WriteU(buf', v);
    }

    /** One turn of the loop: the row's bytes and what is remembered for the next. */
    static method EmitOne(buf: seq<byte>, row: Row, m: Memo) returns (buf': seq<byte>, m': Memo)
      ensures buf' == buf + RowBytes(row, m) && m' == After(row, m)
    {
      if row.ends {
        buf' := WriteExtended(buf, 1, row.address);
        m' := Memo(row.address, 1, 1);
      } else {
        buf' := WriteRow(buf, row, m);
        m' := m.(file := row.file, line := row.line);
        if row.address > m.address { m' := m'.(address := row.address); }
      }
    }

    /** The loop over the recorded rows, and the closing end of sequence. */
    method EmitBody() returns (buf: seq<byte>)
      ensures buf == Body(rows, Start)
    {
      buf := [];
      var m := Memo(0, 1, 1);
      ghost var all := Body(rows, Start);
      assert rows[0..] == rows && buf + all == all;
      for i := 0 to |rows|
        invariant buf + Body(rows[i..], m) == all
      {
        BodyStep(rows, i, m, buf);
        buf, m := EmitOne(buf, rows[i], m);
      }
      assert rows[|rows|..] == [];
      buf := WriteExtended(buf, 1, m.address);
    }

    static lemma BodyStep(rows: seq<Row>, i: nat, m: Memo, buf: seq<byte>)
      requires i < |rows|
      ensures buf + Body(rows[i..], m) == (buf + RowBytes(rows[i], m)) + Body(rows[i + 1..], After(rows[i], m))
    {
      assert rows[i..][0] == rows[i] && rows[i..][1..] == rows[i + 1..];
    }
  }
}
