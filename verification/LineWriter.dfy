/** Writing the line program for the locations of a module, as native addresses. */
module LineWriter {
  import opened Bytes
  import opened Leb128
  import opened LineProgram
  import opened Sinks

  /** A source line for a range of WebAssembly addresses. */
  datatype Location = Location(begin: nat, end: nat, fileIndex: nat, line: nat, prologueEnd: bool, epilogueBegin: bool)

  /** Where the code for a WebAssembly address starts. */
  datatype InstrLoc = InstrLoc(wasmAddr: nat, codeOffset: nat)

  predicate ValidLocation(l: Location) {
    l.begin < U32 && l.end < U32 && l.fileIndex < U32 - 1 && l.line < U32
  }

  /** Ascending in both kinds of addresses, and inside the address space. */
  ghost predicate ValidCode(code: seq<InstrLoc>, start: nat) {
    && (forall i, j :: 0 <= i < j < |code| ==>
          code[i].wasmAddr <= code[j].wasmAddr && code[i].codeOffset <= code[j].codeOffset)
    && (forall i :: 0 <= i < |code| ==> start + code[i].codeOffset < 0x1_0000_0000_0000_0000)
  }

  datatype Range = NoRange | Range(first: nat, second: nat)

  /** The first instruction at or behind an address. */
  ghost predicate IsFirst(code: seq<InstrLoc>, addr: nat, i: nat) {
    && i <= |code| && (forall k :: 0 <= k < i ==> code[k].wasmAddr < addr)
    && (forall k :: i <= k < |code| ==> code[k].wasmAddr >= addr)
  }

  method FindInstr(code: seq<InstrLoc>, addr: nat) returns (i: nat)
    requires forall j, k :: 0 <= j < k < |code| ==> code[j].wasmAddr <= code[k].wasmAddr
    ensures IsFirst(code, addr, i)
  {
    i := 0;
    var n := |code|;
    while n > 0
      invariant 0 <= n && i + n <= |code|
      invariant forall k :: 0 <= k < i ==> code[k].wasmAddr < addr
      invariant forall k :: i + n <= k < |code| ==> code[k].wasmAddr >= addr
    {
      var half := n / 2;
      if code[i + half].wasmAddr < addr {
        i, n := i + half + 1, n - half - 1;
      } else {
        n := half;
      }
    }
  }

  ghost function FirstAt(code: seq<InstrLoc>, addr: nat, from: nat): nat
    decreases |code| - from
  {
    if from >= |code| || code[from].wasmAddr >= addr then from else FirstAt(code, addr, from + 1)
  }

  lemma {:induction false} FirstIsFirstAt(code: seq<InstrLoc>, addr: nat, i: nat, from: nat)
    requires IsFirst(code, addr, i) && from <= i
    ensures FirstAt(code, addr, from) == i
    decreases i - from
  {
    if from < i {
      FirstIsFirstAt(code, addr, i, from + 1);
    }
  }

  /** The native addresses of a location that has instructions, with one behind them. */
  ghost function RangeOf(code: seq<InstrLoc>, start: nat, base: nat, l: Location): Range {
    var i, j := FirstAt(code, Wrap32(base + l.begin), 0), FirstAt(code, Wrap32(base + l.end), 0);
    if i < j < |code| then Range(start + code[i].codeOffset, start + code[j].codeOffset) else NoRange
  }

  lemma {:induction false} FirstAtIsFirst(code: seq<InstrLoc>, addr: nat, from: nat)
    requires forall j, k :: 0 <= j < k < |code| ==> code[j].wasmAddr <= code[k].wasmAddr
    requires from <= |code| && forall k :: 0 <= k < from ==> code[k].wasmAddr < addr
    ensures IsFirst(code, addr, FirstAt(code, addr, from))
    decreases |code| - from
  {
    if from < |code| && code[from].wasmAddr < addr {
      FirstAtIsFirst(code, addr, from + 1);
    }
  }

  /** The instruction has its WebAssembly address in the location. */
  predicate InLocation(code: seq<InstrLoc>, base: nat, l: Location, k: nat)
    requires k < |code|
  {
    Wrap32(base + l.begin) <= code[k].wasmAddr < Wrap32(base + l.end)
  }

  /** From the code of instruction i up to that of j are exactly the instructions of the location. */
  ghost predicate Spans(code: seq<InstrLoc>, start: nat, base: nat, l: Location, r: Range, i: nat, j: nat) {
    && i < j < |code| && r == Range(start + code[i].codeOffset, start + code[j].codeOffset)
    && forall k :: 0 <= k < |code| ==> (InLocation(code, base, l, k) <==> i <= k < j)
  }

  /** A location has a range if it has instructions and the code goes on behind it, and in no other case. */
  lemma RangeMeans(code: seq<InstrLoc>, start: nat, base: nat, l: Location)
    requires ValidCode(code, start)
    ensures var r := RangeOf(code, start, base, l);
            && (r.Range? ==> exists i, j :: Spans(code, start, base, l, r, i, j))
            && (r.Range? <==>
                  && (exists k :: 0 <= k < |code| && InLocation(code, base, l, k))
                  && (exists k :: 0 <= k < |code| && code[k].wasmAddr >= Wrap32(base + l.end)))
  {
    var lo, hi := Wrap32(base + l.begin), Wrap32(base + l.end);
    FirstAtIsFirst(code, lo, 0);
    FirstAtIsFirst(code, hi, 0);
    var i, j := FirstAt(code, lo, 0), FirstAt(code, hi, 0);
    assert forall k :: 0 <= k < |code| ==> (InLocation(code, base, l, k) <==> i <= k < j);
    if i < j < |code| {
      assert InLocation(code, base, l, i);
      assert Spans(code, start, base, l, RangeOf(code, start, base, l), i, j);
    }
  }

  method GetAddrRange(code: seq<InstrLoc>, start: nat, base: nat, l: Location) returns (r: Range)
    requires ValidCode(code, start)
    ensures r == RangeOf(code, start, base, l)
    ensures r.Range? ==> r.first <= r.second < 0x1_0000_0000_0000_0000
  {
    var i := FindInstr(code, Wrap32(base + l.begin));
    var j := FindInstr(code, Wrap32(base + l.end));
    FirstIsFirstAt(code, Wrap32(base + l.begin), i, 0);
    FirstIsFirstAt(code, Wrap32(base + l.end), j, 0);
    if i < j && j != |code| {
      r := Range(start + code[i].codeOffset, start + code[j].codeOffset);
    } else {
      r := NoRange;
    }
  }

  // ----- what the rows must be -----

  /** A location with a range. */
  datatype Mapped = Mapped(first: nat, second: nat, location: Location)

  function RowFor(m: Mapped): Row {
    Row(m.first, m.location.fileIndex + 1, m.location.line, m.location.prologueEnd, m.location.epilogueBegin, false)
  }

  function RowsFor(ms: seq<Mapped>): seq<Row> {
    if ms == [] then [] else RowsFor(ms[..|ms| - 1]) + [RowFor(ms[|ms| - 1])]
  }

  /** The end of the sequence that the last of these is in: behind its range, with its file and line. */
  function EndRow(ms: seq<Mapped>): Row {
    if ms == [] then Row(0, 1, 1, false, false, true)
    else
      var m := ms[|ms| - 1];
      Row(m.second, m.location.fileIndex + 1, m.location.line, false, false, true)
  }

  /** The rows of all of them, with the end of a sequence wherever the next one lies before it. */
  function SequenceRows(ms: seq<Mapped>): seq<Row> {
    if ms == [] then []
    else
      var front, m := ms[..|ms| - 1], ms[|ms| - 1];
      SequenceRows(front) + (if m.first < EndRow(front).address then [EndRow(front)] else []) + [RowFor(m)]
  }

  /** The rows that do not end a sequence. */
  function Proper(rows: seq<Row>): seq<Row> {
    if rows == [] then []
    else
      var front, last := Proper(rows[..|rows| - 1]), rows[|rows| - 1];
      if last.endSequence then front else front + [last]
  }

  lemma ProperLast(rows: seq<Row>, r: Row)
    ensures Proper(rows + [r]) == if r.endSequence then Proper(rows) else Proper(rows) + [r]
  {
    assert (rows + [r])[..|rows|] == rows;
  }

  /** Addresses do not decrease within a sequence, and end at most at the given one. */
  ghost predicate Ascending(rows: seq<Row>, address: nat) {
    && (forall i :: 0 <= i < |rows| - 1 ==> rows[i].endSequence || rows[i].address <= rows[i + 1].address)
    && (rows == [] || rows[|rows| - 1].endSequence || rows[|rows| - 1].address <= address)
  }

  lemma AscendingLast(rows: seq<Row>, address: nat, r: Row, address': nat)
    requires Ascending(rows, address) && (rows == [] || rows[|rows| - 1].endSequence || address <= r.address)
    requires r.endSequence || r.address <= address'
    ensures Ascending(rows + [r], address')
  {
  }

  // ----- the operations -----

  /** The writer's registers. */
  datatype Cursor = Cursor(address: nat, file: nat, line: nat)

  /** To an address, in a new sequence if it lies behind. */
  function MoveOps(c: Cursor, first: nat): seq<LineOp> {
    if first == c.address then []
    else if first < c.address then [EndSequence, SetAddress(first)]
    else [SetAddress(first)]
  }

  function Moved(c: Cursor, first: nat): Cursor {
    if first < c.address then Cursor(first, 1, 1) else c.(address := first)
  }

  function PlaceOps(c: Cursor, l: Location): seq<LineOp> {
    FileOps(c.file, l.fileIndex + 1) + LineOps(c.line, l.line)
  }

  function FileOps(file: nat, f: nat): seq<LineOp> {
    if file != f then [SetFile(f)] else []
  }

  function LineOps(line: nat, n: nat): seq<LineOp> {
    if line != n then [AdvanceLine(Signed32(n - line))] else []
  }

  function RowOps(l: Location): seq<LineOp> {
    (if l.prologueEnd then [SetPrologueEnd] else []) + (if l.epilogueBegin then [SetEpilogueBegin] else []) + [Copy]
  }

  function LocationOps(c: Cursor, l: Location, first: nat, second: nat): seq<LineOp> {
    MoveOps(c, first) + PlaceOps(Moved(c, first), l) + RowOps(l)
    + (if first != second then [SetAddress(second)] else [])
  }

  /** Where the writer is after these. */
  function CursorAt(ms: seq<Mapped>): Cursor {
    Cursor(EndRow(ms).address, EndRow(ms).file, EndRow(ms).line)
  }

  function After(l: Location, second: nat): Cursor {
    Cursor(second, l.fileIndex + 1, l.line)
  }

  /** The operations for the locations from i on. */
  ghost function LocationsOps(c: Cursor, code: seq<InstrLoc>, start: nat, base: nat, ls: seq<Location>,
                              i: nat): seq<LineOp>
    decreases |ls| - i
  {
    if i >= |ls| then []
    else
      match RangeOf(code, start, base, ls[i])
      case NoRange => LocationsOps(c, code, start, base, ls, i + 1)
      case Range(first, second) =>
        LocationOps(c, ls[i], first, second) + LocationsOps(After(ls[i], second), code, start, base, ls, i + 1)
  }

  ghost function ProgramOps(code: seq<InstrLoc>, start: nat, base: nat, ls: seq<Location>): seq<LineOp> {
    LocationsOps(Cursor(0, 1, 1), code, start, base, ls, 0) + [EndSequence]
  }

  class LineWriter {
    const s: Sink
    var address: nat
    var file: nat
    var line: nat
    ghost var ops: seq<LineOp>

    /** The bytes are those of the operations. */
    ghost predicate Encoded()
      reads this, s
    {
      s.Valid() && s.written == EncodeAll(ops) && ValidOps(ops)
    }

    ghost function State(): Machine
      reads this
    {
      Run(Machine(START, []), ops)
    }

    function Registers(): Cursor
      reads this
    {
      Cursor(address, file, line)
    }

    /** The writer knows what the reader's registers hold. */
    ghost predicate Synced()
      reads this, s
    {
      Encoded() && State().regs == LineProgram.Registers(address, file, line, false, false) && line < U32
    }

    constructor (s: Sink)
      requires s.Valid() && s.written == []
      ensures this.s == s && Synced() && State().rows == [] && Registers() == Cursor(0, 1, 1) && ops == []
    {
      this.s, address, file, line, ops := s, 0, 1, 1, [];
    }

    /** One operation, with the numbers in it written byte by byte. */
    method Put(op: LineOp)
      requires Encoded() && ValidOp(op)
      modifies this`ops, s
      ensures Encoded() && State() == Execute(old(State()), op) && ops == old(ops) + [op]
    {
      EncodeLast(ops, op);
      RunLast(Machine(START, []), ops, op);
      PutBytes(op);
      ops := ops + [op];
    }

    method PutBytes(op: LineOp)
      requires s.Valid()
      modifies s
      ensures s.Valid() && s.written == old(s.written) + Encode(op)
    {
      match op
      case Copy => s.Write(1);
      case SetPrologueEnd => s.Write(10);
      case SetEpilogueBegin => s.Write(11);
      case AdvanceLine(d) => PutSigned(3, d);
      case SetFile(f) => PutUnsigned(4, f);
      case EndSequence => PutExtended([1]);
      case SetAddress(a) =>
        ghost var whole := s.written + Encode(op);
        PutAddress(a);
        assert s.written == whole;
    }

    method PutSigned(opcode: byte, v: int)
      requires s.Valid()
      modifies s
      ensures s.Valid() && s.written == old(s.written) + ([opcode] + EncodeS(v))
    {
      s.Write(opcode);
      WriteS(s, v);
    }

    method PutUnsigned(opcode: byte, v: nat)
      requires s.Valid()
      modifies s
      ensures s.Valid() && s.written == old(s.written) + ([opcode] + EncodeU(v))
    {
      s.Write(opcode);
      WriteU(s, v);
    }

    method PutAddress(a: nat)
      requires s.Valid()
      modifies s
      ensures s.Valid() && s.written == old(s.written) + Encode(SetAddress(a))
    {
      PutExtended([2] + LittleEndian(a, 8));
    }

    /** The size of the payload comes first, found by writing the payload into a counter. */
    method PutExtended(payload: seq<byte>)
      requires s.Valid()
      modifies s
      ensures s.Valid() && s.written == old(s.written) + Extended(payload)
    {
      s.Write(0);
      var size := CountBytes(payload);
      WriteU(s, size);
      s.WriteAll(payload);
    }

    method CountBytes(payload: seq<byte>) returns (size: nat)
      ensures size == |payload|
    {
      var counter := new Sink(true);
      counter.WriteAll(payload);
      size := counter.size;
    }

    /** Moves to an address, in a new sequence if it lies behind. */
    method MoveTo(first: nat)
      requires Synced() && first < 0x1_0000_0000_0000_0000
      modifies this, s
      ensures Synced() && Registers() == Moved(old(Registers()), first)
      ensures ops == old(ops) + MoveOps(old(Registers()), first)
      ensures State().rows == old(State().rows)
                          + (if first < old(address) then [RowOf(old(State().regs), true)] else [])
    {
      if first != address {
        if first < address {
          Put(EndSequence);
          file, line := 1, 1;
        }
        Put(SetAddress(first));
        address := first;
      }
    }

    /** The file and line registers. */
    method SetPlace(l: Location)
      requires Synced() && ValidLocation(l)
      modifies this, s
      ensures Synced() && Registers() == After(l, old(address)) && ops == old(ops) + PlaceOps(old(Registers()), l)
      ensures State().rows == old(State().rows)
    {
      ghost var c, before := Registers(), ops;
      PutFile(l.fileIndex + 1);
      PutLine(l.line);
      TwoParts(before, FileOps(c.file, l.fileIndex + 1), LineOps(c.line, l.line));
    }

    method PutFile(f: nat)
      requires Synced()
      modifies this`file, this`ops, s
      ensures Synced() && file == f && ops == old(ops) + FileOps(old(file), f) && State().rows == old(State().rows)
    {
      if file != f {
        Put(SetFile(f));
        file := f;
      }
    }

    method PutLine(n: nat)
      requires Synced() && n < U32
      modifies this`line, this`ops, s
      ensures Synced() && line == n && ops == old(ops) + LineOps(old(line), n) && State().rows == old(State().rows)
    {
      if line != n {
        LineDelta(line, n);
        Put(AdvanceLine(Signed32(n - line)));
        line := n;
      }
    }

    /** The row itself. */
    method PutRow(l: Location)
      requires Synced()
      modifies this`ops, s
      ensures Synced() && ops == old(ops) + RowOps(l)
      ensures State().rows == old(State().rows) + [Row(address, file, line, l.prologueEnd, l.epilogueBegin, false)]
    {
      if l.prologueEnd {
        Put(SetPrologueEnd);
      }
      if l.epilogueBegin {
        Put(SetEpilogueBegin);
      }
      Put(Copy);
    }

    /** Everything for one location: perhaps the end of a sequence, and its row. */
    method PutLocation(l: Location, r: Range)
      requires Synced() && ValidLocation(l) && r.Range? && r.first < 0x1_0000_0000_0000_0000
      requires r.second < 0x1_0000_0000_0000_0000
      modifies this, s
      ensures Synced() && Registers() == After(l, r.second)
      ensures ops == old(ops) + LocationOps(old(Registers()), l, r.first, r.second)
      ensures State().rows == old(State().rows)
                          + (if r.first < old(address) then [RowOf(old(State().regs), true)] else [])
                              + [RowFor(Mapped(r.first, r.second, l))]
    {
      ghost var c, before := Registers(), ops;
      MoveTo(r.first);
      SetPlace(l);
      PutRow(l);
      if address != r.second {
        Put(SetAddress(r.second));
        address := r.second;
      }
      FourParts(before, MoveOps(c, r.first), PlaceOps(Moved(c, r.first), l), RowOps(l),
                if r.first != r.second then [SetAddress(r.second)] else []);
    }

    method WriteLocation(l: Location, r: Range, ghost ms: seq<Mapped>)
      requires Synced() && ValidLocation(l) && r.Range? && r.first <= r.second < 0x1_0000_0000_0000_0000
      requires Proper(State().rows) == RowsFor(ms) && Ascending(State().rows, address)
      requires State().rows == SequenceRows(ms) && Registers() == CursorAt(ms)
      modifies this, s
      ensures Synced() && Registers() == After(l, r.second) && Ascending(State().rows, address)
      ensures ops == old(ops) + LocationOps(old(Registers()), l, r.first, r.second)
      ensures Proper(State().rows) == RowsFor(ms + [Mapped(r.first, r.second, l)])
      ensures State().rows == SequenceRows(ms + [Mapped(r.first, r.second, l)])
      ensures Registers() == CursorAt(ms + [Mapped(r.first, r.second, l)])
    {
      ghost var rows, end := State().rows, RowOf(State().regs, true);
      ghost var rows1 := rows + (if r.first < address then [end] else []);
      RowsGrow(rows, address, end, rows1, rows1 + [RowFor(Mapped(r.first, r.second, l))],
               Mapped(r.first, r.second, l), ms);
      SequenceStep(ms, Mapped(r.first, r.second, l));
      PutLocation(l, r);
    }
  }

  lemma FourParts(x: seq<LineOp>, a: seq<LineOp>, b: seq<LineOp>, c: seq<LineOp>, d: seq<LineOp>)
    ensures x + a + b + c + d == x + (a + b + c + d)
    ensures d == [] ==> x + a + b + c == x + (a + b + c + d)
  {
  }

  function Signed32(x: int): int {
    var y := x % 0x1_0000_0000;
    if y < 0x8000_0000 then y else y - 0x1_0000_0000
  }

  lemma LineDelta(line: nat, line': nat)
    requires line < U32 && line' < U32
    ensures (line + Signed32(line' - line)) % 0x1_0000_0000 == line'
    ensures -0x8000_0000 <= Signed32(line' - line) < 0x8000_0000
  {
  }

  lemma RowsGrow(rows0: seq<Row>, address: nat, end: Row, rows1: seq<Row>, rows2: seq<Row>, m: Mapped, ms: seq<Mapped>)
    requires Proper(rows0) == RowsFor(ms) && Ascending(rows0, address) && m.first <= m.second
    requires end.endSequence && end.address == address
    requires rows1 == rows0 + (if m.first < address then [end] else []) && rows2 == rows1 + [RowFor(m)]
    ensures Proper(rows2) == RowsFor(ms + [m]) && Ascending(rows2, m.second)
  {
    assert (ms + [m])[..|ms|] == ms;
    if m.first < address {
      ProperLast(rows0, end);
      AscendingLast(rows0, address, end, 0);
      AscendingLast(rows1, 0, RowFor(m), m.second);
    } else {
      assert rows1 == rows0;
      AscendingLast(rows1, address, RowFor(m), m.second);
    }
    ProperLast(rows1, RowFor(m));
  }

  lemma SequenceStep(ms: seq<Mapped>, m: Mapped)
    ensures SequenceRows(ms + [m]) ==
              SequenceRows(ms) + (if m.first < EndRow(ms).address then [EndRow(ms)] else []) + [RowFor(m)]
    ensures CursorAt(ms + [m]) == After(m.location, m.second)
  {
    assert (ms + [m])[..|ms|] == ms;
  }

  /** The locations with a range, with that range, in their order. */
  ghost function MappedOf(code: seq<InstrLoc>, start: nat, base: nat, ls: seq<Location>): seq<Mapped> {
    if ls == [] then []
    else
      var front, l := MappedOf(code, start, base, ls[..|ls| - 1]), ls[|ls| - 1];
      match RangeOf(code, start, base, l)
      case NoRange => front
      case Range(first, second) => front + [Mapped(first, second, l)]
  }

  lemma MappedStep(code: seq<InstrLoc>, start: nat, base: nat, ls: seq<Location>, i: nat)
    requires i < |ls|
    ensures var front, r := MappedOf(code, start, base, ls[..i]), RangeOf(code, start, base, ls[i]);
            MappedOf(code, start, base, ls[..i + 1])
            == if r.NoRange? then front else front + [Mapped(r.first, r.second, ls[i])]
  {
    assert ls[..i + 1][..i] == ls[..i];
  }

  /** What a reader of the bytes gets. */
  ghost function Rows(program: seq<byte>): seq<Row> {
    RunBytes(program, 0, Machine(START, [])).rows
  }

  /** The locations before i are written: their rows, and what is still to come of the program. */
  ghost predicate WrittenTo(w: LineWriter, code: seq<InstrLoc>, start: nat, base: nat, ls: seq<Location>, i: nat)
    reads w, w.s
  {
    && i <= |ls| && w.Synced() && Ascending(w.State().rows, w.address)
    && Proper(w.State().rows) == RowsFor(MappedOf(code, start, base, ls[..i]))
    && w.State().rows == SequenceRows(MappedOf(code, start, base, ls[..i]))
    && w.Registers() == CursorAt(MappedOf(code, start, base, ls[..i]))
    && w.ops + LocationsOps(w.Registers(), code, start, base, ls, i)
       == LocationsOps(Cursor(0, 1, 1), code, start, base, ls, 0)
  }

  method WriteNext(w: LineWriter, code: seq<InstrLoc>, start: nat, base: nat, ls: seq<Location>, i: nat)
    requires ValidCode(code, start) && i < |ls| && ValidLocation(ls[i]) && WrittenTo(w, code, start, base, ls, i)
    modifies w, w.s
    ensures WrittenTo(w, code, start, base, ls, i + 1)
  {
    MappedStep(code, start, base, ls, i);
    var r := GetAddrRange(code, start, base, ls[i]);
    if r.Range? {
      TwoParts(w.ops, LocationOps(w.Registers(), ls[i], r.first, r.second),
               LocationsOps(After(ls[i], r.second), code, start, base, ls, i + 1));
      w.WriteLocation(ls[i], r, MappedOf(code, start, base, ls[..i]));
    }
  }

  /** All locations, one after the other. */
  method WriteLocations(w: LineWriter, code: seq<InstrLoc>, start: nat, base: nat, ls: seq<Location>)
    requires ValidCode(code, start) && forall i :: 0 <= i < |ls| ==> ValidLocation(ls[i])
    requires w.Synced() && w.State().rows == [] && w.Registers() == Cursor(0, 1, 1) && w.ops == []
    modifies w, w.s
    ensures w.Synced() && Ascending(w.State().rows, w.address)
    ensures Proper(w.State().rows) == RowsFor(MappedOf(code, start, base, ls))
    ensures w.State().rows == SequenceRows(MappedOf(code, start, base, ls))
    ensures w.Registers() == CursorAt(MappedOf(code, start, base, ls))
    ensures w.ops + [EndSequence] == ProgramOps(code, start, base, ls)
  {
    NothingWritten(w, code, start, base, ls);
    var i := 0;
    while i < |ls|
      invariant WrittenTo(w, code, start, base, ls, i)
    {
      WriteNext(w, code, start, base, ls, i);
      i := i + 1;
    }
    AllWritten(w, code, start, base, ls);
  }

  lemma NothingWritten(w: LineWriter, code: seq<InstrLoc>, start: nat, base: nat, ls: seq<Location>)
    requires w.Synced() && w.State().rows == [] && w.Registers() == Cursor(0, 1, 1) && w.ops == []
    ensures WrittenTo(w, code, start, base, ls, 0)
  {
    assert ls[..0] == [];
  }

  lemma AllWritten(w: LineWriter, code: seq<InstrLoc>, start: nat, base: nat, ls: seq<Location>)
    requires WrittenTo(w, code, start, base, ls, |ls|)
    ensures Proper(w.State().rows) == RowsFor(MappedOf(code, start, base, ls))
    ensures w.State().rows == SequenceRows(MappedOf(code, start, base, ls))
    ensures w.Registers() == CursorAt(MappedOf(code, start, base, ls))
    ensures w.ops + [EndSequence] == ProgramOps(code, start, base, ls)
  {
    assert ls[..|ls|] == ls;
    assert w.ops + [] == w.ops;
  }

  lemma TwoParts(x: seq<LineOp>, a: seq<LineOp>, b: seq<LineOp>)
    ensures x + (a + b) == (x + a) + b
  {
  }

  /** The program: one row for every location with a range, each sequence ascending, and ended where its code ends. */
  method WriteLineProgram(s: Sink, code: seq<InstrLoc>, start: nat, base: nat, ls: seq<Location>)
    requires ValidCode(code, start) && forall i :: 0 <= i < |ls| ==> ValidLocation(ls[i])
    requires s.Valid() && s.written == []
    modifies s
    ensures s.Valid() && s.written == EncodeAll(ProgramOps(code, start, base, ls))
    ensures Proper(Rows(s.written)) == RowsFor(MappedOf(code, start, base, ls)) && Ascending(Rows(s.written), 0)
    ensures Rows(s.written) == SequenceRows(MappedOf(code, start, base, ls)) + [EndRow(MappedOf(code, start, base, ls))]
  {
    var w := new LineWriter(s);
    WriteLocations(w, code, start, base, ls);
    ghost var rows, end := w.State().rows, RowOf(w.State().regs, true);
    w.Put(EndSequence);
    ProperLast(rows, end);
    AscendingLast(rows, w.address, end, 0);
    BytesRun(w.ops);
  }

  /** Written twice: the room that the first pass counts is exactly what the second pass fills. */
  method GenerateLineProgram(code: seq<InstrLoc>, start: nat, base: nat, ls: seq<Location>)
    returns (size: nat, program: seq<byte>)
    requires ValidCode(code, start) && forall i :: 0 <= i < |ls| ==> ValidLocation(ls[i])
    ensures size == |program|
    ensures Proper(Rows(program)) == RowsFor(MappedOf(code, start, base, ls)) && Ascending(Rows(program), 0)
    ensures Rows(program) == SequenceRows(MappedOf(code, start, base, ls)) + [EndRow(MappedOf(code, start, base, ls))]
  {
    var counter := new Sink(true);
    WriteLineProgram(counter, code, start, base, ls);
    size := counter.size;
    var buffer := new Sink(false);
    WriteLineProgram(buffer, code, start, base, ls);
    program := buffer.out;
  }

  lemma BytesRun(ops: seq<LineOp>)
    requires ValidOps(ops)
    ensures Rows(EncodeAll(ops)) == Run(Machine(START, []), ops).rows
  {
    RunBytesRuns([], ops, Machine(START, []));
    assert [] + EncodeAll(ops) == EncodeAll(ops);
  }
}
