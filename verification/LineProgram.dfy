/** The line-number program of section 6.2 of DWARF Version 4, and the one that is written for jitted code. */
module LineProgram {
  import opened Bytes
  import opened Leb128

  // ----- the machine -----

  datatype LineOp = SetAddress(address: nat) | EndSequence | SetFile(file: nat) | AdvanceLine(delta: int)
                  | SetPrologueEnd | SetEpilogueBegin | Copy

  datatype Registers = Registers(address: nat, file: nat, line: nat, prologueEnd: bool, epilogueBegin: bool)

  datatype Row = Row(address: nat, file: nat, line: nat, prologueEnd: bool, epilogueBegin: bool, endSequence: bool)

  datatype Machine = Machine(regs: Registers, rows: seq<Row>)

  const START := Registers(0, 1, 1, false, false)

  function RowOf(r: Registers, endSequence: bool): Row {
    Row(r.address, r.file, r.line, r.prologueEnd, r.epilogueBegin, endSequence)
  }

  /** One operation; the line register is 32 bits wide. */
  function Execute(m: Machine, op: LineOp): Machine {
    match op
    case SetAddress(a) => m.(regs := m.regs.(address := a))
    case EndSequence => Machine(START, m.rows + [RowOf(m.regs, true)])
    case SetFile(f) => m.(regs := m.regs.(file := f))
    case AdvanceLine(d) => m.(regs := m.regs.(line := (m.regs.line + d) % 0x1_0000_0000))
    case SetPrologueEnd => m.(regs := m.regs.(prologueEnd := true))
    case SetEpilogueBegin => m.(regs := m.regs.(epilogueBegin := true))
    case Copy => Machine(m.regs.(prologueEnd := false, epilogueBegin := false), m.rows + [RowOf(m.regs, false)])
  }

  function Run(m: Machine, ops: seq<LineOp>): Machine
    decreases |ops|
  {
    if ops == [] then m else Run(Execute(m, ops[0]), ops[1..])
  }

  lemma {:induction false} RunLast(m: Machine, ops: seq<LineOp>, op: LineOp)
    ensures Run(m, ops + [op]) == Execute(Run(m, ops), op)
    decreases |ops|
  {
    if ops == [] {
      assert ops + [op] == [op] && [op][1..] == [];
    } else {
      assert (ops + [op])[1..] == ops[1..] + [op];
      RunLast(Execute(m, ops[0]), ops[1..], op);
    }
  }

  // ----- the encoding -----

  predicate ValidOp(op: LineOp) {
    op.SetAddress? ==> op.address < 0x1_0000_0000_0000_0000
  }

  /** An extended operation is preceded by its length. */
  function Extended(payload: seq<byte>): seq<byte> {
    [0] + EncodeU(|payload|) + payload
  }

  function Encode(op: LineOp): (r: seq<byte>)
    ensures r != []
  {
    match op
    case Copy => [1]
    case AdvanceLine(d) => [3] + EncodeS(d)
    case SetFile(f) => [4] + EncodeU(f)
    case SetPrologueEnd => [10]
    case SetEpilogueBegin => [11]
    case EndSequence => Extended([1])
    case SetAddress(a) => Extended([2] + LittleEndian(a, 8))
  }

  datatype ReadOp = NoOp | ReadOp(op: LineOp, next: nat)

  /** What a reader of the program sees at a position. */
  function Decode(s: seq<byte>, pos: nat): ReadOp {
    if pos >= |s| then NoOp
    else if s[pos] == 0 then DecodeExtended(s, DecodeU(s, pos + 1))
    else if s[pos] == 1 then ReadOp(Copy, pos + 1)
    else if s[pos] == 3 then
      (match DecodeS(s, pos + 1)
       case NoS => NoOp
       case ReadS(d, next) => ReadOp(AdvanceLine(d), next))
    else if s[pos] == 4 then
      (match DecodeU(s, pos + 1)
       case NoU => NoOp
       case ReadU(f, next) => ReadOp(SetFile(f), next))
    else if s[pos] == 10 then ReadOp(SetPrologueEnd, pos + 1)
    else if s[pos] == 11 then ReadOp(SetEpilogueBegin, pos + 1)
    else NoOp
  }

  function DecodeExtended(s: seq<byte>, size: ReadU): ReadOp {
    if size.NoU? || size.value == 0 || size.next + size.value > |s| then NoOp
    else
      var payload := s[size.next..size.next + size.value];
      if payload[0] == 1 then ReadOp(EndSequence, size.next + size.value)
      else if payload[0] == 2 && size.value == 9 then
        ReadOp(SetAddress(FromLittleEndian(payload[1..])), size.next + size.value)
      else NoOp
  }

  lemma DecodeExtendedEncode(s: seq<byte>, pos: nat, payload: seq<byte>)
    requires Stands(s, pos, Extended(payload)) && payload != []
    ensures pos < |s| && s[pos] == 0
    ensures var n := |EncodeU(|payload|)|;
            && DecodeU(s, pos + 1) == ReadU(|payload|, pos + 1 + n)
            && pos + 1 + n + |payload| <= |s| && s[pos + 1 + n..pos + 1 + n + |payload|] == payload
  {
    var e := EncodeU(|payload|);
    StandsConcat(s, pos, [0] + e, payload);
    StandsConcat(s, pos, [0], e);
    StandsFirst(s, pos, [0]);
    DecodeEncodeU(s, pos + 1, |payload|);
  }

  lemma DecodeEncode(s: seq<byte>, pos: nat, op: LineOp)
    requires ValidOp(op) && Stands(s, pos, Encode(op))
    ensures Decode(s, pos) == ReadOp(op, pos + |Encode(op)|)
  {
    StandsFirst(s, pos, Encode(op));
    match op
    case AdvanceLine(d) =>
      StandsConcat(s, pos, [3], EncodeS(d));
      DecodeEncodeS(s, pos + 1, d);
    case SetFile(f) =>
      StandsConcat(s, pos, [4], EncodeU(f));
      DecodeEncodeU(s, pos + 1, f);
    case EndSequence =>
      DecodeExtendedEncode(s, pos, [1]);
    case SetAddress(a) =>
      var payload := [2] + LittleEndian(a, 8);
      DecodeExtendedEncode(s, pos, payload);
      assert payload[1..] == LittleEndian(a, 8);
      EightBytes();
      LittleEndianRoundTrip(a, 8);
    case _ =>
  }

  function EncodeAll(ops: seq<LineOp>): seq<byte> {
    if ops == [] then [] else Encode(ops[0]) + EncodeAll(ops[1..])
  }

  lemma {:induction false} EncodeLast(ops: seq<LineOp>, op: LineOp)
    ensures EncodeAll(ops + [op]) == EncodeAll(ops) + Encode(op)
  {
    if ops == [] {
      assert ops + [op] == [op] && [op][1..] == [];
    } else {
      assert (ops + [op])[1..] == ops[1..] + [op];
      EncodeLast(ops[1..], op);
    }
  }

  /** A reader runs the program from a position to the end; bytes it does not know stop it. */
  function RunBytes(s: seq<byte>, pos: nat, m: Machine): Machine
    decreases |s| - pos
  {
    match Decode(s, pos)
    case NoOp => m
    case ReadOp(op, next) => if pos < next <= |s| then RunBytes(s, next, Execute(m, op)) else m
  }

  ghost predicate ValidOps(ops: seq<LineOp>) {
    forall i :: 0 <= i < |ops| ==> ValidOp(ops[i])
  }

  lemma OneStep(s: seq<byte>, pos: nat, op: LineOp, m: Machine)
    requires ValidOp(op) && Stands(s, pos, Encode(op))
    ensures RunBytes(s, pos, m) == RunBytes(s, pos + |Encode(op)|, Execute(m, op))
  {
    DecodeEncode(s, pos, op);
  }

  lemma EncodeStands(before: seq<byte>, ops: seq<LineOp>)
    requires ops != []
    ensures Stands(before + EncodeAll(ops), |before|, Encode(ops[0]))
    ensures before + EncodeAll(ops) == (before + Encode(ops[0])) + EncodeAll(ops[1..])
  {
    var b, rest := Encode(ops[0]), EncodeAll(ops[1..]);
    StandsAppend(before, b, 0, []);
    StandsAppend(before + b, rest, |before|, b);
    assert before + (b + rest) == (before + b) + rest;
  }

  lemma AtEnd(s: seq<byte>, m: Machine)
    ensures RunBytes(s, |s|, m) == m
  {
  }

  /** Reading the bytes runs the operations. */
  lemma {:induction false} RunBytesRuns(before: seq<byte>, ops: seq<LineOp>, m: Machine)
    requires ValidOps(ops)
    ensures RunBytes(before + EncodeAll(ops), |before|, m) == Run(m, ops)
    decreases |ops|
  {
    if ops == [] {
      assert before + EncodeAll(ops) == before;
      AtEnd(before, m);
    } else {
      EncodeStands(before, ops);
      OneStep(before + EncodeAll(ops), |before|, ops[0], m);
      RunBytesRuns(before + Encode(ops[0]), ops[1..], Execute(m, ops[0]));
    }
  }
}
