/** Whole expressions: the translation of every expression means what the expression means. */
module DwarfRuns {
  import opened DwarfMachine
  import opened DwarfTranslate
  import opened DwarfSimulation

  /** The native evaluation nst of the translated operations, beside the narrow evaluation st. */
  ghost predicate Related(env: Env, st: State, mode: Mode, nst: State) {
    match st
    case Fail => false
    case Stack(s) => mode == WasmAddress && nst == st && Words(s)
    case Register(kind, index, below) =>
      mode == NativeAddress && Exists(env.layout, kind, index)
      && nst == Stack([Storage(env, kind, index)] + below) && Words(below)
    case Value(_) => mode == OutputValue && nst == st
    case Block(_) => mode == OutputValue && nst == st
  }

  /** The two operations whose translation is exact only under a condition meet it. */
  ghost predicate Agrees(env: Env, op: Op, st: State) {
    && (op.Fbreg? ==> FbregAgrees(env, op.offset))
    && (op == Op.Binary(Mod) && st.Stack? && |st.stack| >= 2 ==> ModAgrees(st.stack[1], st.stack[0]))
  }

  predicate FrameKnown(op: Op, hasFrame: bool) {
    op.WasmLocation? && (op.kind == 0 || op.kind == 2) ==> hasFrame
  }

  lemma Front(s: seq<nat>)
    ensures |s| >= 1 ==> s == [s[0]] + s[1..]
    ensures |s| >= 2 ==> s == [s[0]] + ([s[1]] + s[2..])
  {
  }

  lemma WordsTail(s: seq<nat>, x: nat)
    requires Words(s) && x < 0x1_0000_0000
    ensures Words([x] + s) && (|s| >= 1 ==> Words(s[1..]) && Words([x] + s[1..]))
    ensures |s| >= 2 ==> Words(s[2..]) && Words([x] + s[2..])
  {
  }

  lemma ConstSimulates(env: Env, form: Form, v: int, s: seq<nat>)
    requires ValidConst(form, v)
    ensures Run(true, env, EmitConst(form, v), Stack(s)) == Stack([v % 0x1_0000_0000] + s)
  {
    var ops := EmitConst(form, v);
    RunOne(true, env, ops[0], Stack(s));
    assert ops == [ops[0]];
  }

  lemma MoveSimulates(env: Env, move: Move, s: seq<nat>)
    requires Words(s) && Rearrange(move, s) != Fail
    ensures Related(env, Rearrange(move, s), WasmAddress, Run(true, env, [Op.Move(move)], Stack(s)))
  {
    RunOne(true, env, Op.Move(move), Stack(s));
  }

  lemma LocationSimulates(env: Env, hasFrame: bool, kind: nat, index: nat, s: seq<nat>)
    requires Exists(env.layout, kind, index) && (kind == 0 || kind == 2 ==> hasFrame)
    ensures EmitLocation(env.layout, hasFrame, kind, index).Emit?
    ensures Run(true, env, EmitLocation(env.layout, hasFrame, kind, index).ops, Stack(s))
         == Stack([Storage(env, kind, index)] + s)
  {
    if kind == 0 || kind == 2 {
      FrameLocation(env, kind, index, s);
    } else {
      GlobalSimulates(env, env.layout.globalOffset(index), s);
    }
  }

  lemma FrameLocation(env: Env, kind: nat, index: nat, s: seq<nat>)
    requires Exists(env.layout, kind, index) && (kind == 0 || kind == 2)
    ensures EmitLocation(env.layout, true, kind, index).Emit?
    ensures Run(true, env, EmitLocation(env.layout, true, kind, index).ops, Stack(s))
         == Stack([Storage(env, kind, index)] + s)
  {
    FrameSimulates(env, if kind == 0 then env.layout.locals[index] else env.layout.slotOffset(index), s);
  }

  lemma FrameSimulates(env: Env, offset: int, s: seq<nat>)
    ensures Run(true, env, [Breg(6, offset)], Stack(s)) == Stack([Wrap(true, env.frame + offset)] + s)
  {
    RunOne(true, env, Breg(6, offset), Stack(s));
  }

  lemma GlobalSimulates(env: Env, offset: int, s: seq<nat>)
    ensures Run(true, env, [Breg(4, -4104), Deref, Const(Consts, offset), Op.Binary(Plus)], Stack(s))
         == Stack([Wrap(true, Load(env, Wrap(true, env.base - 4104), 8) + offset)] + s)
  {
    var y := Load(env, Wrap(true, env.base - 4104), 8);
    var ops := [Breg(4, -4104), Deref, Const(Consts, offset), Op.Binary(Plus)];
    assert ops == [Breg(4, -4104), Deref] + [Const(Consts, offset), Op.Binary(Plus)];
    RunAppend(true, env, [Breg(4, -4104), Deref], [Const(Consts, offset), Op.Binary(Plus)], Stack(s));
    GlobalTable(env, s);
    AddConstant(env, offset, y, s);
  }

  lemma GlobalTable(env: Env, s: seq<nat>)
    ensures Run(true, env, [Breg(4, -4104), Deref], Stack(s)) == Stack([Load(env, Wrap(true, env.base - 4104), 8)] + s)
  {
    Run2(env, Breg(4, -4104), Deref, Stack(s));
    assert ([Wrap(true, env.base - 4104)] + s)[1..] == s;
  }

  lemma AddConstant(env: Env, v: int, x: nat, s: seq<nat>)
    ensures Run(true, env, [Const(Consts, v), Op.Binary(Plus)], Stack([x] + s)) == Stack([Wrap(true, x + v)] + s)
  {
    Run2(env, Const(Consts, v), Op.Binary(Plus), Stack([x] + s));
    var t := [Wrap(true, v)] + ([x] + s);
    assert t[2..] == s;
    WrapSum(x, v);
  }

  lemma WrapSum(x: nat, v: int)
    ensures Wrap(true, x + Wrap(true, v)) == Wrap(true, x + v)
  {
  }

  /** Operations that leave a stack behind. */
  lemma ArithmeticSimulates(env: Env, op: Op, s: seq<nat>, ops: seq<Op>)
    requires Valid(env) && Words(s) && Agrees(env, op, Stack(s)) && StepStack(false, env, op, s) != Fail
    requires op.Unary? || op.PlusUconst? || op.Binary?
    requires ops == if op.Unary? then EmitUnary(op.unary)
                    else if op.Binary? then EmitBinary(op.binary) else [op] + TRUNCATE
    ensures Related(env, StepStack(false, env, op, s), WasmAddress, Run(true, env, ops, Stack(s)))
  {
    Front(s);
    if op.Binary? {
      var r := Calculate(false, op.binary, s[1], s[0]);
      BinarySimulates(env, op.binary, s[1], s[0], s[2..], r);
      WordsTail(s, r);
    } else if op.Unary? {
      UnarySimulates(env, op.unary, s[0], s[1..]);
      WordsTail(s, Single(false, op.unary, s[0]));
    } else {
      PlusUconstSimulates(env, op.operand, s[0], s[1..]);
      WordsTail(s, Wrap(false, s[0] + op.operand));
    }
  }

  lemma DerefSimulates(env: Env, n: nat, s: seq<nat>)
    requires Valid(env) && Words(s) && Fetch(false, env, n, s) != Fail
    ensures Related(env, Fetch(false, env, n, s), WasmAddress, Run(true, env, ADJUST + [DerefSize(n)], Stack(s)))
  {
    Front(s);
    FetchSimulates(env, n, s[0], s[1..]);
    WordsTail(s, Load(env, env.base + s[0], n));
  }

  lemma PushSimulates(env: Env, op: Op, s: seq<nat>, ops: seq<Op>)
    requires Valid(env) && ValidOp(op) && Words(s) && Agrees(env, op, Stack(s))
    requires op.Lit? || op.Const? || op.Fbreg?
    requires ops == if op.Lit? then [op] else if op.Const? then EmitConst(op.form, op.value) else [op] + UNADJUST
    ensures Related(env, StepStack(false, env, op, s), WasmAddress, Run(true, env, ops, Stack(s)))
  {
    if op.Lit? {
      RunOne(true, env, op, Stack(s));
      WordsTail(s, op.n);
    } else if op.Const? {
      ConstSimulates(env, op.form, op.value, s);
      WordsTail(s, op.value % 0x1_0000_0000);
    } else {
      FbregExact(env, op.offset, s);
      WordsTail(s, Wrap(false, env.frameBase + op.offset));
    }
  }

  lemma StackStep(env: Env, hasFrame: bool, op: Op, s: seq<nat>)
    requires Valid(env) && ValidOp(op) && Words(s) && Agrees(env, op, Stack(s)) && FrameKnown(op, hasFrame)
    requires StepStack(false, env, op, s) != Fail
    ensures var e := EmitOp(env.layout, hasFrame, op, WasmAddress);
            e.Emit? && Related(env, StepStack(false, env, op, s), e.mode, Run(true, env, e.ops, Stack(s)))
  {
    match op
    case Lit(_) => PushSimulates(env, op, s, [op]);
    case Const(form, value) => PushSimulates(env, op, s, EmitConst(form, value));
    case Fbreg(_) => PushSimulates(env, op, s, [op] + UNADJUST);
    case Move(move) => MoveSimulates(env, move, s);
    case Deref => DerefSimulates(env, 4, s);
    case DerefSize(n) => DerefSimulates(env, n, s);
    case Unary(u) => ArithmeticSimulates(env, op, s, EmitUnary(u));
    case PlusUconst(_) => ArithmeticSimulates(env, op, s, [op] + TRUNCATE);
    case Binary(b) => ArithmeticSimulates(env, op, s, EmitBinary(b));
    case Nop =>
    case ImplicitValue(_) => RunOne(true, env, op, Stack(s));
    case StackValue => RunOne(true, env, op, Stack(s));
    case WasmLocation(kind, index) => LocationSimulates(env, hasFrame, kind, index, s);
    case Breg(_, _) => assert false;
    case Unsupported(_) => assert false;
  }

  lemma RegisterStep(env: Env, hasFrame: bool, kind: nat, index: nat, below: seq<nat>)
    requires Exists(env.layout, kind, index) && Words(below)
    ensures var e := EmitOp(env.layout, hasFrame, StackValue, NativeAddress);
            && e.Emit?
            && Related(env, Step(false, env, StackValue, Register(kind, index, below)), e.mode,
                       Run(true, env, e.ops, Stack([Storage(env, kind, index)] + below)))
  {
    var a := Storage(env, kind, index);
    RunOne(true, env, DerefSize(4), Stack([a] + below));
    assert ([a] + below)[1..] == below;
    LoadWord(env, a, 4);
    WordsTail(below, Load(env, a, 4));
  }

  lemma StepSimulates(env: Env, hasFrame: bool, op: Op, st: State, mode: Mode, nst: State)
    requires Valid(env) && ValidOp(op) && Agrees(env, op, st) && FrameKnown(op, hasFrame)
    requires Related(env, st, mode, nst) && Step(false, env, op, st) != Fail
    ensures var e := EmitOp(env.layout, hasFrame, op, mode);
            e.Emit? && Related(env, Step(false, env, op, st), e.mode, Run(true, env, e.ops, nst))
  {
    if st.Stack? {
      StackStep(env, hasFrame, op, st.stack);
    } else {
      RegisterStep(env, hasFrame, st.kind, st.index, st.below);
    }
  }

  // ----- runs -----

  ghost predicate ValidOps(ops: seq<Op>, hasFrame: bool) {
    forall op :: op in ops ==> ValidOp(op) && FrameKnown(op, hasFrame)
  }

  /** Every step of the narrow run meets the condition of its operation. */
  ghost predicate Smooth(env: Env, ops: seq<Op>, st: State) {
    ops == [] || (Agrees(env, ops[0], st) && Smooth(env, ops[1..], Step(false, env, ops[0], st)))
  }

  lemma {:induction false} FailStays(env: Env, ops: seq<Op>)
    ensures Run(false, env, ops, Fail) == Fail
  {
    if ops != [] {
      FailStays(env, ops[1..]);
    }
  }

  lemma {:induction false} RunSimulates(env: Env, hasFrame: bool, ops: seq<Op>, st: State, mode: Mode, nst: State)
    requires Valid(env) && ValidOps(ops, hasFrame) && Related(env, st, mode, nst)
    requires Run(false, env, ops, st) != Fail && Smooth(env, ops, st)
    ensures var e := EmitAll(env.layout, hasFrame, ops, mode);
            e.Emit? && Related(env, Run(false, env, ops, st), e.mode, Run(true, env, e.ops, nst))
    decreases |ops|
  {
    if ops != [] {
      var st' := Step(false, env, ops[0], st);
      if st' == Fail {
        FailStays(env, ops[1..]);
      } else {
        StepSimulates(env, hasFrame, ops[0], st, mode, nst);
        var e := EmitOp(env.layout, hasFrame, ops[0], mode);
        RunSimulates(env, hasFrame, ops[1..], st', e.mode, Run(true, env, e.ops, nst));
        RunAppend(true, env, e.ops, EmitAll(env.layout, hasFrame, ops[1..], e.mode).ops, nst);
      }
    }
  }

  /** What a location expression describes; an empty one describes an object that is not there. */
  datatype Place = Invalid | Absent | Memory(address: nat) | InRegister(kind: nat, index: nat)
                 | Constant(value: nat) | Bytes(bytes: seq<nat>)

  function Describes(st: State): Place {
    match st
    case Fail => Invalid
    case Stack(s) => if s == [] then Absent else Memory(s[0])
    case Register(kind, index, _) => InRegister(kind, index)
    case Value(v) => Constant(v)
    case Block(bytes) => Bytes(bytes)
  }

  /** The same place on the native machine: linear memory moves to its base, registers to their storage. */
  ghost function Native(env: Env, p: Place): Place
    requires p.InRegister? ==> Exists(env.layout, p.kind, p.index)
  {
    if p.Memory? then Memory(env.base + p.address)
    else if p.InRegister? then Memory(Storage(env, p.kind, p.index))
    else p
  }

  function Start(given: seq<nat>): State {
    Stack(given)
  }

  /** The native evaluation starts from a native object address where the narrow one starts from its own. */
  ghost function NativeStart(env: Env, given: seq<nat>): State {
    if given == [] then Stack([]) else Stack([env.base + given[0]])
  }

  lemma StartSimulates(env: Env, given: seq<nat>)
    requires Valid(env) && |given| <= 1 && Words(given)
    ensures Run(true, env, if given != [] then UNADJUST else [], NativeStart(env, given)) == Stack(given)
  {
    if given != [] {
      RunUnadjust(env, env.base + given[0], []);
      assert [env.base + given[0]] + [] == [env.base + given[0]] && [given[0]] + [] == given;
    }
  }

  lemma TranslationParts(env: Env, hasFrame: bool, ops: seq<Op>, given: seq<nat>, isLocation: bool)
    requires Valid(env) && |given| <= 1 && Words(given) && EmitAll(env.layout, hasFrame, ops, WasmAddress).Emit?
    ensures var e := EmitAll(env.layout, hasFrame, ops, WasmAddress);
            var t := Translation(env.layout, hasFrame, ops, given != [], isLocation);
            && t.Emit?
            && Run(true, env, t.ops, NativeStart(env, given))
            == Run(true, env, if isLocation && e.mode == WasmAddress then ADJUST else [],
                   Run(true, env, e.ops, Stack(given)))
  {
    var e := EmitAll(env.layout, hasFrame, ops, WasmAddress);
    var front := if given != [] then UNADJUST else [];
    var back := if isLocation && e.mode == WasmAddress then ADJUST else [];
    StartSimulates(env, given);
    RunAppend(true, env, front + e.ops, back, NativeStart(env, given));
    RunAppend(true, env, front, e.ops, NativeStart(env, given));
  }

  /** A run that leaves nothing on the stack: adding the base of linear memory then finds no operand. */
  lemma AbsentFails(env: Env, hasFrame: bool, ops: seq<Op>, given: seq<nat>)
    requires Valid(env) && ValidOps(ops, hasFrame) && |given| <= 1 && Words(given)
    requires Smooth(env, ops, Start(given)) && Run(false, env, ops, Start(given)) == Stack([])
    ensures var t := Translation(env.layout, hasFrame, ops, given != [], true);
            t.Emit? && Run(true, env, t.ops, NativeStart(env, given)) == Fail
  {
    RunSimulates(env, hasFrame, ops, Stack(given), WasmAddress, Stack(given));
    TranslationParts(env, hasFrame, ops, given, true);
    Run2(env, Breg(4, 0), Op.Binary(Plus), Stack([]));
  }

  /**
   Location expressions: whatever an evaluation describes, the translation describes the same place, seen
   from the native machine, if and only if there is a place at all; the translation of a description that
   is absent cannot be evaluated.
   */
  lemma LocationPreserved(env: Env, hasFrame: bool, ops: seq<Op>, given: seq<nat>)
    requires Valid(env) && ValidOps(ops, hasFrame) && |given| <= 1 && Words(given)
    requires Smooth(env, ops, Start(given))
    requires Describes(Run(false, env, ops, Start(given))) != Invalid
    ensures var p := Describes(Run(false, env, ops, Start(given)));
            var t := Translation(env.layout, hasFrame, ops, given != [], true);
            && t.Emit? && (p.InRegister? ==> Exists(env.layout, p.kind, p.index))
            && var q := Describes(Run(true, env, t.ops, NativeStart(env, given)));
               (q == Native(env, p) <==> p != Absent) && (p == Absent ==> q == Invalid)
  {
    var st := Run(false, env, ops, Start(given));
    if st == Stack([]) {
      AbsentFails(env, hasFrame, ops, given);
    } else {
      RunSimulates(env, hasFrame, ops, Stack(given), WasmAddress, Stack(given));
      TranslationParts(env, hasFrame, ops, given, true);
      if st.Stack? {
        Front(st.stack);
        RunAdjust(env, st.stack[0], st.stack[1..]);
      }
    }
  }

  /** Integer expressions: the translation leaves the same number on top. */
  lemma IntegerPreserved(env: Env, hasFrame: bool, ops: seq<Op>, given: seq<nat>)
    requires Valid(env) && ValidOps(ops, hasFrame) && |given| <= 1 && Words(given)
    requires Smooth(env, ops, Start(given)) && Run(false, env, ops, Start(given)).Stack?
    ensures var t := Translation(env.layout, hasFrame, ops, given != [], false);
            t.Emit? && Run(true, env, t.ops, NativeStart(env, given)) == Run(false, env, ops, Start(given))
  {
    RunSimulates(env, hasFrame, ops, Stack(given), WasmAddress, Stack(given));
    TranslationParts(env, hasFrame, ops, given, false);
  }

  /** The empty expression describes nothing, and is lost. */
  lemma AbsentIsLost(env: Env, hasFrame: bool)
    requires Valid(env)
    ensures Describes(Run(false, env, [], Start([]))) == Absent
    ensures var t := Translation(env.layout, hasFrame, [], false, true);
            t.Emit? && Describes(Run(true, env, t.ops, NativeStart(env, []))) == Invalid
  {
    AbsentFails(env, hasFrame, [], []);
  }
}
