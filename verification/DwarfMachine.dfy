/**
 Expressions of section 2.5 of DWARF Version 4 on a stack machine of either width: the 32-bit one the
 expressions were written for, whose addresses are offsets into linear memory, and the 64-bit native one.
 */
module DwarfMachine {
  import opened Scaled
  import Bits
  import Bytes

  datatype Form = Const1u | Const2u | Const4u | Const8u | Const1s | Const2s | Const4s | Const8s
                | Constu | Consts | Addr

  datatype Move = Dup | Drop | Pick(index: nat) | Over | Swap | Rot

  datatype Unary = Abs | Neg | Not

  datatype Binary = And | Div | Minus | Mod | Mul | Or | Plus | Shl | Shr | Shra | Xor
                  | Le | Ge | Lt | Gt | Eq | Ne

  datatype Op =
    | Lit(n: nat)
    | Const(form: Form, value: int)
    | Fbreg(offset: int)
    | Breg(reg: nat, offset: int)
    | Move(move: Move)
    | Deref
    | DerefSize(size: nat)
    | Unary(unary: Unary)
    | PlusUconst(operand: nat)
    | Binary(binary: Binary)
    | Nop
    | ImplicitValue(block: seq<nat>)
    | StackValue
    | WasmLocation(kind: nat, index: nat)
    | Unsupported(code: nat)

  /** The operands an encoded operation can carry. */
  predicate ValidOp(op: Op) {
    match op
    case Lit(n) => n < 32
    case Const(form, v) => ValidConst(form, v)
    case Fbreg(offset) => -0x8000_0000_0000_0000 <= offset < 0x8000_0000_0000_0000
    case PlusUconst(u) => u < 0x1_0000_0000
    case DerefSize(n) => n < 256
    case _ => true
  }

  predicate ValidConst(form: Form, v: int) {
    match form
    case Const1u => 0 <= v < 0x100
    case Const2u => 0 <= v < 0x1_0000
    case Const4u => 0 <= v < 0x1_0000_0000
    case Const8u => 0 <= v < 0x1_0000_0000_0000_0000
    case Const1s => -0x80 <= v < 0x80
    case Const2s => -0x8000 <= v < 0x8000
    case Const4s => -0x8000_0000 <= v < 0x8000_0000
    case Const8s => -0x8000_0000_0000_0000 <= v < 0x8000_0000_0000_0000
    case Constu => 0 <= v < 0x1_0000_0000
    case Consts => -0x8000_0000_0000_0000 <= v < 0x8000_0000_0000_0000
    case Addr => 0 <= v < 0x1_0000_0000
  }

  /**
   Native memory; the linear memory's base, which the engine keeps in register 4; the frame pointer in
   register 6; the 32-bit frame base; and where the engine puts locals, operand stack slots and globals.
   */
  datatype Env = Env(memory: int -> Bytes.byte, base: nat, frame: nat, frameBase: nat, layout: Layout)

  /** Offsets of the locals and operand stack slots from the frame pointer, and of globals in their table. */
  datatype Layout = Layout(locals: seq<int>, slotOffset: nat -> int, globalOffset: nat -> int)

  predicate Valid(env: Env) {
    env.base + 0x1_0000_0000 <= 0x1_0000_0000_0000_0000 && env.frame < 0x1_0000_0000_0000_0000
    && env.frameBase < 0x1_0000_0000
  }

  /** An evaluation under way, one that ended in a value or a block, or a WebAssembly register location. */
  datatype State =
    | Fail
    | Stack(stack: seq<nat>)
    | Register(kind: nat, index: nat, below: seq<nat>)
    | Value(value: nat)
    | Block(bytes: seq<nat>)

  function Wrap(wide: bool, x: int): nat {
    if wide then x % 0x1_0000_0000_0000_0000 else x % 0x1_0000_0000
  }

  function Signed(wide: bool, x: nat): int {
    if wide then if x < 0x8000_0000_0000_0000 then x else x - 0x1_0000_0000_0000_0000
    else if x < 0x8000_0000 then x else x - 0x1_0000_0000
  }

  /** Division that rounds toward zero. */
  function Quotient(a: int, b: int): int
    requires b != 0
  {
    if a >= 0 then a / b else -((-a) / b)
  }

  function Flag(b: bool): nat {
    if b then 1 else 0
  }

  /** What a binary operation pushes for the second entry a and the top b; -1 stands for a division by zero. */
  function Calculate(wide: bool, op: Binary, a: nat, b: nat): int {
    match op
    case And => Bits.And(a, b)
    case Or => Bits.Or(a, b)
    case Xor => Bits.Xor(a, b)
    case Plus => Wrap(wide, a + b)
    case Minus => Wrap(wide, a - b)
    case Mul => Wrap(wide, a * b)
    case Div => if Signed(wide, b) == 0 then -1 else Wrap(wide, Quotient(Signed(wide, a), Signed(wide, b)))
    case Mod => if b == 0 then -1 else a % b
    case Shl => Wrap(wide, a * Pow2(b))
    case Shr => a / Pow2(b)
    case Shra => Wrap(wide, Signed(wide, a) / Pow2(b))
    case Le => Flag(Signed(wide, a) <= Signed(wide, b))
    case Ge => Flag(Signed(wide, a) >= Signed(wide, b))
    case Lt => Flag(Signed(wide, a) < Signed(wide, b))
    case Gt => Flag(Signed(wide, a) > Signed(wide, b))
    case Eq => Flag(a == b)
    case Ne => Flag(a != b)
  }

  function Single(wide: bool, op: Unary, a: nat): nat {
    match op
    case Abs => Wrap(wide, if Signed(wide, a) < 0 then -Signed(wide, a) else Signed(wide, a))
    case Neg => Wrap(wide, 0 - a)
    case Not => Wrap(wide, -1 - a)
  }

  function Rearrange(move: Move, s: seq<nat>): State {
    match move
    case Dup => if |s| < 1 then Fail else Stack([s[0]] + s)
    case Drop => if |s| < 1 then Fail else Stack(s[1..])
    case Pick(i) => if |s| <= i then Fail else Stack([s[i]] + s)
    case Over => if |s| < 2 then Fail else Stack([s[1]] + s)
    case Swap => if |s| < 2 then Fail else Stack([s[1], s[0]] + s[2..])
    case Rot => if |s| < 3 then Fail else Stack([s[1], s[2], s[0]] + s[3..])
  }

  /** n bytes, the first the least significant. */
  function Load(env: Env, a: int, n: nat): nat
    decreases n
  {
    if n == 0 then 0 else env.memory(a) + 256 * Load(env, a + 1, n - 1)
  }

  /** A dereference of n bytes: addresses of the narrow machine are relative to the linear memory. */
  function Fetch(wide: bool, env: Env, n: nat, s: seq<nat>): State {
    if |s| < 1 || n < 1 || n > (if wide then 8 else 4) then Fail
    else Stack([Load(env, if wide then s[0] else env.base + s[0], n)] + s[1..])
  }

  /** The storage a WebAssembly location names: a local (0), an operand stack slot (2) or a global (1 and 3). */
  predicate Exists(layout: Layout, kind: nat, index: nat) {
    if kind == 0 then index < |layout.locals| else kind <= 3
  }

  function Storage(env: Env, kind: nat, index: nat): nat
    requires Exists(env.layout, kind, index)
  {
    if kind == 0 then Wrap(true, env.frame + env.layout.locals[index])
    else if kind == 2 then Wrap(true, env.frame + env.layout.slotOffset(index))
    else Wrap(true, Load(env, Wrap(true, env.base - 4104), 8) + env.layout.globalOffset(index))
  }

  function StepStack(wide: bool, env: Env, op: Op, s: seq<nat>): State {
    match op
    case Lit(n) => Stack([n] + s)
    case Const(_, v) => Stack([Wrap(wide, v)] + s)
    case Fbreg(offset) =>
      Stack([Wrap(wide, (if wide then env.base + env.frameBase else env.frameBase) + offset)] + s)
    case Breg(reg, offset) =>
      if wide && reg == 4 then Stack([Wrap(wide, env.base + offset)] + s)
      else if wide && reg == 6 then Stack([Wrap(wide, env.frame + offset)] + s)
      else Fail
    case Move(move) => Rearrange(move, s)
    case Deref => Fetch(wide, env, if wide then 8 else 4, s)
    case DerefSize(n) => Fetch(wide, env, n, s)
    case Unary(u) => if |s| < 1 then Fail else Stack([Single(wide, u, s[0])] + s[1..])
    case PlusUconst(u) => if |s| < 1 then Fail else Stack([Wrap(wide, s[0] + u)] + s[1..])
    case Binary(b) => Combine(wide, b, s)
    case Nop => Stack(s)
    case ImplicitValue(block) => Block(block)
    case StackValue => if |s| < 1 then Fail else Value(s[0])
    case WasmLocation(kind, index) =>
      if wide || !Exists(env.layout, kind, index) then Fail else Register(kind, index, s)
    case Unsupported(_) => Fail
  }

  function Combine(wide: bool, op: Binary, s: seq<nat>): State {
    if |s| < 2 || Calculate(wide, op, s[1], s[0]) < 0 then Fail
    else Stack([Calculate(wide, op, s[1], s[0])] + s[2..])
  }

  /** Nothing but a stack value may follow a register location, and nothing at all a final value. */
  function Step(wide: bool, env: Env, op: Op, st: State): State {
    match st
    case Stack(s) => StepStack(wide, env, op, s)
    case Register(kind, index, below) =>
      if op == StackValue && Exists(env.layout, kind, index)
      then Stack([Load(env, Storage(env, kind, index), 4)] + below)
      else Fail
    case _ => Fail
  }

  function Run(wide: bool, env: Env, ops: seq<Op>, st: State): State {
    if ops == [] then st else Run(wide, env, ops[1..], Step(wide, env, ops[0], st))
  }

  lemma {:induction false} RunAppend(wide: bool, env: Env, a: seq<Op>, b: seq<Op>, st: State)
    ensures Run(wide, env, a + b, st) == Run(wide, env, b, Run(wide, env, a, st))
    decreases |a|
  {
    if a == [] {
      assert a + b == b;
    } else {
      assert (a + b)[1..] == a[1..] + b;
      RunAppend(wide, env, a[1..], b, Step(wide, env, a[0], st));
    }
  }

  lemma RunOne(wide: bool, env: Env, op: Op, st: State)
    ensures Run(wide, env, [op], st) == Step(wide, env, op, st)
  {
    assert [op][1..] == [];
  }

  lemma RunCons(wide: bool, env: Env, op: Op, rest: seq<Op>, st: State)
    ensures Run(wide, env, [op] + rest, st) == Run(wide, env, rest, Step(wide, env, op, st))
  {
    assert ([op] + rest)[1..] == rest;
  }
}
