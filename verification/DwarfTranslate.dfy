/** Translating 32-bit expressions to 64-bit ones that compute the same thing. */
module DwarfTranslate {
  import opened DwarfMachine

  /** What the translated expression so far leaves: a linear-memory address, a native one, or a final value. */
  datatype Mode = WasmAddress | NativeAddress | OutputValue

  datatype Emitted = Reject | Emit(ops: seq<Op>, mode: Mode)

  const ADJUST: seq<Op> := [Breg(4, 0), Op.Binary(Plus)]
  const UNADJUST: seq<Op> := [Breg(4, 0), Op.Binary(Minus)]
  const TRUNCATE: seq<Op> := [Const(Const4u, 0xffff_ffff), Op.Binary(And)]
  const EXTEND: seq<Op> := [Const(Const1u, 32), Op.Binary(Shl), Const(Const1u, 32), Op.Binary(Shra)]
  const SWAP: seq<Op> := [Op.Move(Swap)]

  /** Sign-extends the two top entries. */
  function Extend2(): seq<Op> {
    EXTEND + (SWAP + (EXTEND + SWAP))
  }

  function EmitConst(form: Form, value: int): seq<Op> {
    match form
    case Const1u => [Const(form, value)]
    case Const2u => [Const(form, value)]
    case Const4u => [Const(form, value)]
    case Constu => [Const(form, value)]
    case Addr => [Const(Const4u, value)]
    case Const8u => [Const(Const4u, value % 0x1_0000_0000)]
    case Const1s => [Const(Const4u, value % 0x1_0000_0000)]
    case Const2s => [Const(Const4u, value % 0x1_0000_0000)]
    case Const4s => [Const(Const4u, value % 0x1_0000_0000)]
    case Const8s => [Const(Const4u, value % 0x1_0000_0000)]
    case Consts => [Const(Const4u, value % 0x1_0000_0000)]
  }

  function EmitBinary(b: Binary): seq<Op> {
    match b
    case And => [Op.Binary(b)]
    case Or => [Op.Binary(b)]
    case Xor => [Op.Binary(b)]
    case Shr => [Op.Binary(b)]
    case Eq => [Op.Binary(b)]
    case Ne => [Op.Binary(b)]
    case Minus => [Op.Binary(b)] + TRUNCATE
    case Mul => [Op.Binary(b)] + TRUNCATE
    case Plus => [Op.Binary(b)] + TRUNCATE
    case Shl => [Op.Binary(b)] + TRUNCATE
    case Div => Extend2() + ([Op.Binary(b)] + TRUNCATE)
    case Mod => Extend2() + ([Op.Binary(b)] + TRUNCATE)
    case Shra => SWAP + (EXTEND + (SWAP + ([Op.Binary(b)] + TRUNCATE)))
    case Le => Extend2() + [Op.Binary(b)]
    case Ge => Extend2() + [Op.Binary(b)]
    case Lt => Extend2() + [Op.Binary(b)]
    case Gt => Extend2() + [Op.Binary(b)]
  }

  function EmitUnary(u: Unary): seq<Op> {
    if u == Abs then EXTEND + ([Op.Unary(u)] + TRUNCATE) else [Op.Unary(u)] + TRUNCATE
  }

  /** The address of a WebAssembly location; locals and operand stack slots need the frame. */
  function EmitLocation(layout: Layout, hasFrame: bool, kind: nat, index: nat): Emitted {
    if kind == 0 then
      if hasFrame && index < |layout.locals| then Emit([Breg(6, layout.locals[index])], NativeAddress) else Reject
    else if kind == 2 then
      if hasFrame then Emit([Breg(6, layout.slotOffset(index))], NativeAddress) else Reject
    else if kind == 1 || kind == 3 then
      Emit([Breg(4, -4104), Deref, Const(Consts, layout.globalOffset(index)), Op.Binary(Plus)], NativeAddress)
    else Reject
  }

  function EmitOp(layout: Layout, hasFrame: bool, op: Op, mode: Mode): Emitted {
    match op
    case Lit(_) => Emit([op], WasmAddress)
    case Const(form, value) => Emit(EmitConst(form, value), WasmAddress)
    case Fbreg(_) => Emit([op] + UNADJUST, mode)
    case Move(_) => Emit([op], mode)
    case Deref => if mode == WasmAddress then Emit(ADJUST + [DerefSize(4)], WasmAddress) else Reject
    case DerefSize(_) => Emit(ADJUST + [op], mode)
    case Unary(u) => Emit(EmitUnary(u), mode)
    case PlusUconst(_) => Emit([op] + TRUNCATE, mode)
    case Binary(b) => Emit(EmitBinary(b), mode)
    case Nop => Emit([], mode)
    case ImplicitValue(_) => Emit([op], OutputValue)
    case StackValue => if mode == NativeAddress then Emit([DerefSize(4)], WasmAddress) else Emit([op], OutputValue)
    case WasmLocation(kind, index) => EmitLocation(layout, hasFrame, kind, index)
    case Breg(_, _) => Reject
    case Unsupported(_) => Reject
  }

  /** Everything the operations emit, one after the other. */
  function EmitAll(layout: Layout, hasFrame: bool, ops: seq<Op>, mode: Mode): Emitted {
    if ops == [] then Emit([], mode) else
      match EmitOp(layout, hasFrame, ops[0], mode)
      case Reject => Reject
      case Emit(first, next) => Prepend(first, EmitAll(layout, hasFrame, ops[1..], next))
  }

  function Prepend(first: seq<Op>, e: Emitted): Emitted {
    match e
    case Reject => Reject
    case Emit(rest, mode) => Emit(first + rest, mode)
  }

  /** The whole translation, with the rebasing at either end. */
  function Translation(layout: Layout, hasFrame: bool, ops: seq<Op>, implicitObject: bool, isLocation: bool): Emitted {
    match EmitAll(layout, hasFrame, ops, WasmAddress)
    case Reject => Reject
    case Emit(body, mode) =>
      Emit((if implicitObject then UNADJUST else []) + body
           + (if isLocation && mode == WasmAddress then ADJUST else []), mode)
  }

  /** The loop over the operations, appending to what is there already. */
  method EmitLoop(layout: Layout, hasFrame: bool, ops: seq<Op>, start: seq<Op>) returns (r: Emitted)
    ensures r == Prepend(start, EmitAll(layout, hasFrame, ops, WasmAddress))
  {
    var out, mode, i := start, WasmAddress, 0;
    assert ops[0..] == ops;
    while i < |ops|
      invariant i <= |ops|
      invariant Prepend(start, EmitAll(layout, hasFrame, ops, WasmAddress))
             == Prepend(out, EmitAll(layout, hasFrame, ops[i..], mode))
    {
      EmitStep(layout, hasFrame, ops, i, mode, out);
      match EmitOp(layout, hasFrame, ops[i], mode)
      case Reject =>
        return Reject;
      case Emit(first, next) =>
        out, mode, i := out + first, next, i + 1;
    }
    r := Emit(out, mode);
    assert ops[i..] == [] && out + [] == out;
  }

  lemma EmitStep(layout: Layout, hasFrame: bool, ops: seq<Op>, i: nat, mode: Mode, out: seq<Op>)
    requires i < |ops|
    ensures Prepend(out, EmitAll(layout, hasFrame, ops[i..], mode)) ==
            match EmitOp(layout, hasFrame, ops[i], mode)
            case Reject => Reject
            case Emit(first, next) => Prepend(out + first, EmitAll(layout, hasFrame, ops[i + 1..], next))
  {
    assert ops[i..][1..] == ops[i + 1..];
    match EmitOp(layout, hasFrame, ops[i], mode)
    case Reject =>
    case Emit(first, next) => PrependTwice(out, first, EmitAll(layout, hasFrame, ops[i + 1..], next));
  }

  method TranslateExpr(layout: Layout, hasFrame: bool, ops: seq<Op>, implicitObject: bool, isLocation: bool)
    returns (r: Emitted)
    ensures r == Translation(layout, hasFrame, ops, implicitObject, isLocation)
  {
    r := EmitLoop(layout, hasFrame, ops, if implicitObject then UNADJUST else []);
    if r.Emit? && isLocation && r.mode == WasmAddress {
      r := r.(ops := r.ops + ADJUST);
    }
  }

  lemma PrependTwice(a: seq<Op>, b: seq<Op>, e: Emitted)
    ensures Prepend(a, Prepend(b, e)) == Prepend(a + b, e)
  {
    if e.Emit? {
      assert a + (b + e.ops) == a + b + e.ops;
    }
  }

  // ----- what is refused -----

  /** What an operation leaves on top, by its kind. */
  function ModeAfter(op: Op, mode: Mode): Mode {
    match op
    case Lit(_) => WasmAddress
    case Const(_, _) => WasmAddress
    case Deref => WasmAddress
    case WasmLocation(_, _) => NativeAddress
    case ImplicitValue(_) => OutputValue
    case StackValue => if mode == NativeAddress then WasmAddress else OutputValue
    case _ => mode
  }

  function ModeAt(ops: seq<Op>, i: nat, mode: Mode): Mode
    requires i <= |ops|
  {
    if i == 0 then mode else ModeAt(ops[1..], i - 1, ModeAfter(ops[0], mode))
  }

  /**
   Registers of the host machine, operations that are not known, locations without storage or without the
   frame they need, and a dereference of anything but an address in linear memory.
   */
  predicate Refused(layout: Layout, hasFrame: bool, op: Op, mode: Mode) {
    || op.Breg? || op.Unsupported?
    || (op.Deref? && mode != WasmAddress)
    || (op.WasmLocation? && !(Exists(layout, op.kind, op.index) && (op.kind in {1, 3} || hasFrame)))
  }

  /** Exactly these make the translation fail; otherwise each operation leaves what it should. */
  lemma {:induction false} RejectsIff(layout: Layout, hasFrame: bool, ops: seq<Op>, mode: Mode)
    ensures EmitAll(layout, hasFrame, ops, mode).Reject? <==>
              exists i :: 0 <= i < |ops| && Refused(layout, hasFrame, ops[i], ModeAt(ops, i, mode))
    ensures EmitAll(layout, hasFrame, ops, mode).Emit? ==>
              EmitAll(layout, hasFrame, ops, mode).mode == ModeAt(ops, |ops|, mode)
    decreases |ops|
  {
    if ops != [] {
      var rest, next := ops[1..], ModeAfter(ops[0], mode);
      RejectsIff(layout, hasFrame, rest, next);
      RefusesOne(layout, hasFrame, ops[0], mode);
      FirstOrLater(layout, hasFrame, ops, mode);
    }
  }

  lemma RefusesOne(layout: Layout, hasFrame: bool, op: Op, mode: Mode)
    ensures EmitOp(layout, hasFrame, op, mode).Reject? <==> Refused(layout, hasFrame, op, mode)
    ensures EmitOp(layout, hasFrame, op, mode).Emit? ==>
              EmitOp(layout, hasFrame, op, mode).mode == ModeAfter(op, mode)
  {
  }

  lemma FirstOrLater(layout: Layout, hasFrame: bool, ops: seq<Op>, mode: Mode)
    requires ops != []
    ensures (exists i :: 0 <= i < |ops| && Refused(layout, hasFrame, ops[i], ModeAt(ops, i, mode))) <==>
              || Refused(layout, hasFrame, ops[0], mode)
              || exists i :: 0 <= i < |ops[1..]| &&
                   Refused(layout, hasFrame, ops[1..][i], ModeAt(ops[1..], i, ModeAfter(ops[0], mode)))
  {
    var rest, next := ops[1..], ModeAfter(ops[0], mode);
    if i :| 0 <= i < |rest| && Refused(layout, hasFrame, rest[i], ModeAt(rest, i, next)) {
      assert Refused(layout, hasFrame, ops[i + 1], ModeAt(ops, i + 1, mode));
    }
    if i :| 0 < i < |ops| && Refused(layout, hasFrame, ops[i], ModeAt(ops, i, mode)) {
      assert Refused(layout, hasFrame, rest[i - 1], ModeAt(rest, i - 1, next));
    }
    if Refused(layout, hasFrame, ops[0], mode) {
      assert Refused(layout, hasFrame, ops[0], ModeAt(ops, 0, mode));
    }
  }
}
