/** Structured WebAssembly functions, what they compute, and when one is a renamed copy of another. */
module LinkModel {

  type Value = int

  /** Linear memory, and whatever else plain instructions and imported functions may change. */
  type World = map<nat, int>

  type ValType = nat

  datatype FuncType = FuncType(params: seq<ValType>, results: seq<ValType>)

  /** Blocks carry their identifier and the number of values they take and leave. */
  datatype Instr =
    | Plain(op: nat)
    | LocalGet(local: nat)
    | LocalSet(local: nat)
    | LocalTee(local: nat)
    | Call(func: nat)
    | Block(id: nat, ins: nat, outs: nat, body: Body)
    | Loop(id: nat, ins: nat, outs: nat, body: Body)
    | IfElse(id: nat, ins: nat, outs: nat, body: Body, other: nat, alternative: Body)
    | Br(target: nat)
    | BrIf(target: nat)
    | BrTable(targets: seq<nat>, target: nat)
    | Return
    | Unreachable
    | Unsupported

  datatype Body = Nil | Cons(head: Instr, tail: Body)

  datatype Func =
    | Import(namespace: nat, name: nat, ty: FuncType)
    | Local(ty: FuncType, args: seq<nat>, entry: nat, body: Body)

  type Funcs = seq<Func>

  // ----- execution -----

  datatype Effect = Fault | Effect(values: seq<Value>, world: World)

  /** What plain instructions do to the operand stack, and what imported functions return. */
  datatype Machine = Machine(plain: (nat, seq<Value>, World) -> Effect,
                             host: (nat, nat, seq<Value>, World) -> Effect)

  datatype Conf = Conf(stack: seq<Value>, locals: map<nat, Value>, world: World)

  datatype Outcome = OutOfFuel | Trap | Next(conf: Conf) | Branch(target: nat, conf: Conf) | Returned(conf: Conf)

  /** Locals start at zero. */
  function Get(locals: map<nat, Value>, l: nat): Value {
    if l in locals then locals[l] else 0
  }

  function Push(c: Conf, v: Value): Conf {
    c.(stack := c.stack + [v])
  }

  function Pop(c: Conf): Conf
    requires c.stack != []
  {
    c.(stack := c.stack[..|c.stack| - 1])
  }

  function Top(c: Conf): Value
    requires c.stack != []
  {
    c.stack[|c.stack| - 1]
  }

  /** A block leaves its results on top of what was below it, whether it ends or is left by a branch to it. */
  function Leave(id: nat, outs: nat, below: seq<Value>, o: Outcome): Outcome {
    match o
    case Next(c) => Next(c.(stack := below + c.stack))
    case Branch(t, c) =>
      if t != id then Branch(t, c.(stack := below + c.stack))
      else if |c.stack| < outs then Trap
      else Next(c.(stack := below + c.stack[|c.stack| - outs..]))
    case Returned(c) => o
    case _ => o
  }

  function RunBody(fs: Funcs, k: Machine, body: Body, c: Conf, fuel: nat): Outcome
    decreases fuel, body, 0
  {
    match body
    case Nil => Next(c)
    case Cons(i, rest) =>
      match Run(fs, k, i, c, fuel)
      case Next(c') => RunBody(fs, k, rest, c', fuel)
      case o => o
  }

  function RunBlock(fs: Funcs, k: Machine, id: nat, ins: nat, outs: nat, body: Body, c: Conf, fuel: nat): Outcome
    decreases fuel, body, 1
  {
    var n := |c.stack| - ins;
    if n < 0 then Trap
    else Leave(id, outs, c.stack[..n], RunBody(fs, k, body, c.(stack := c.stack[n..]), fuel))
  }

  /** A branch to a loop starts it again. */
  function RunLoop(fs: Funcs, k: Machine, id: nat, ins: nat, outs: nat, body: Body, c: Conf, fuel: nat): Outcome
    decreases fuel, body, 1
  {
    var n := |c.stack| - ins;
    if n < 0 then Trap
    else
      match RunBody(fs, k, body, c.(stack := c.stack[n..]), fuel)
      case Branch(t, c') =>
        if t != id then Branch(t, c'.(stack := c.stack[..n] + c'.stack))
        else if |c'.stack| < ins then Trap
        else if fuel == 0 then OutOfFuel
        else RunLoop(fs, k, id, ins, outs, body, c'.(stack := c.stack[..n] + c'.stack[|c'.stack| - ins..]), fuel - 1)
      case Next(c') => Next(c'.(stack := c.stack[..n] + c'.stack))
      case o => o
  }

  function Run(fs: Funcs, k: Machine, i: Instr, c: Conf, fuel: nat): Outcome
    decreases fuel, i
  {
    match i
    case Plain(op) =>
      (match k.plain(op, c.stack, c.world)
       case Fault => Trap
       case Effect(vs, w) => Next(c.(stack := vs, world := w)))
    case LocalGet(l) => Next(Push(c, Get(c.locals, l)))
    case LocalSet(l) => if c.stack == [] then Trap else Next(Pop(c).(locals := c.locals[l := Top(c)]))
    case LocalTee(l) => if c.stack == [] then Trap else Next(c.(locals := c.locals[l := Top(c)]))
    case Call(f) => if fuel == 0 then OutOfFuel else Invoke(fs, k, f, c, fuel - 1)
    case Block(id, ins, outs, body) => RunBlock(fs, k, id, ins, outs, body, c, fuel)
    case Loop(id, ins, outs, body) => RunLoop(fs, k, id, ins, outs, body, c, fuel)
    case IfElse(id, ins, outs, body, other, alternative) =>
      if c.stack == [] then Trap
      else if Top(c) != 0 then RunBlock(fs, k, id, ins, outs, body, Pop(c), fuel)
      else RunBlock(fs, k, other, ins, outs, alternative, Pop(c), fuel)
    case Br(t) => Branch(t, c)
    case BrIf(t) => if c.stack == [] then Trap else if Top(c) != 0 then Branch(t, Pop(c)) else Next(Pop(c))
    case BrTable(ts, t) =>
      if c.stack == [] then Trap
      else if 0 <= Top(c) < |ts| then Branch(ts[Top(c)], Pop(c)) else Branch(t, Pop(c))
    case Return => Returned(c)
    case Unreachable => Trap
    case Unsupported => Trap
  }

  /** The values a function returns: the top ones, however it ends. */
  function Results(o: Outcome, entry: nat, n: nat): Outcome {
    match o
    case Next(c) => if |c.stack| < n then Trap else Next(c.(stack := c.stack[|c.stack| - n..]))
    case Returned(c) => if |c.stack| < n then Trap else Next(c.(stack := c.stack[|c.stack| - n..]))
    case Branch(t, c) =>
      if t != entry || |c.stack| < n then Trap else Next(c.(stack := c.stack[|c.stack| - n..]))
    case _ => o
  }

  function Bind(args: seq<nat>, vs: seq<Value>): map<nat, Value>
    requires |args| <= |vs|
  {
    if args == [] then map[]
    else Bind(args[..|args| - 1], vs)[args[|args| - 1] := vs[|args| - 1]]
  }

  /** A call: arguments off the stack, results onto it; the caller keeps its locals. */
  function Invoke(fs: Funcs, k: Machine, f: nat, c: Conf, fuel: nat): Outcome
    decreases fuel, 2
  {
    if f >= |fs| || |c.stack| < |fs[f].ty.params| then Trap
    else
      var n := |c.stack| - |fs[f].ty.params|;
      match Apply(fs, k, f, c.stack[n..], c.world, fuel)
      case Fault => Trap
      case Done(vs, w) => Next(Conf(c.stack[..n] + vs, c.locals, w))
      case Running => OutOfFuel
  }

  datatype Answer = Fault | Running | Done(values: seq<Value>, world: World)

  /** What a function returns for its arguments. */
  function Apply(fs: Funcs, k: Machine, f: nat, vs: seq<Value>, w: World, fuel: nat): Answer
    requires f < |fs|
    decreases fuel, 1
  {
    match fs[f]
    case Import(namespace, name, _) =>
      (match k.host(namespace, name, vs, w)
       case Fault => Answer.Fault
       case Effect(rs, w') => Done(rs, w'))
    case Local(ty, args, entry, body) =>
      if |args| > |vs| then Answer.Fault
      else if fuel == 0 then Running
      else AnswerOf(Results(RunBody(fs, k, body, Conf([], Bind(args, vs), w), fuel - 1), entry, |ty.results|))
  }

  function AnswerOf(o: Outcome): Answer {
    match o
    case Next(c) => Done(c.stack, c.world)
    case OutOfFuel => Running
    case _ => Answer.Fault
  }

  // ----- copies -----

  /** Which copy stands for which enclosing block; the innermost one first. */
  datatype Labels = NoLabels | Label(id: nat, copy: nat, outer: Labels)

  predicate Copies(ls: Labels, x: nat, y: nat) {
    match ls
    case NoLabels => false
    case Label(id, copy, outer) => (x == id && y == copy) || Copies(outer, x, y)
  }

  /** Within a pair of matching blocks, equal names copy to equal names and different ones to different ones. */
  predicate Faithful(ls: Labels) {
    match ls
    case NoLabels => true
    case Label(id, copy, outer) => Fresh(outer, id, copy) && Faithful(outer)
  }

  predicate Fresh(ls: Labels, x: nat, y: nat) {
    match ls
    case NoLabels => true
    case Label(id, copy, outer) => id != x && copy != y && Fresh(outer, x, y)
  }

  lemma {:induction false} FreshApart(ls: Labels, id: nat, copy: nat, x: nat, y: nat)
    requires Fresh(ls, id, copy) && Copies(ls, x, y)
    ensures x != id && y != copy
  {
    if x == ls.id && y == ls.copy {
    } else {
      FreshApart(ls.outer, id, copy, x, y);
    }
  }

  /** The names under which the copy knows locals, and the pairs of functions that stand for each other. */
  datatype Renaming = Renaming(locals: map<nat, nat>, pairs: set<(nat, nat)>)

  predicate CopyLocal(r: Renaming, l: nat, l': nat) {
    l in r.locals && r.locals[l] == l'
  }

  predicate CopyTargets(ls: Labels, ts: seq<nat>, ts': seq<nat>) {
    |ts| == |ts'| && forall i :: 0 <= i < |ts| ==> Copies(ls, ts[i], ts'[i])
  }

  predicate CopyBody(r: Renaming, ls: Labels, b: Body, b': Body)
    decreases b
  {
    match b
    case Nil => b'.Nil?
    case Cons(i, rest) => b'.Cons? && CopyInstr(r, ls, i, b'.head) && CopyBody(r, ls, rest, b'.tail)
  }

  predicate CopyInstr(r: Renaming, ls: Labels, i: Instr, i': Instr)
    decreases i
  {
    match i
    case Plain(op) => i' == i
    case LocalGet(l) => i'.LocalGet? && CopyLocal(r, l, i'.local)
    case LocalSet(l) => i'.LocalSet? && CopyLocal(r, l, i'.local)
    case LocalTee(l) => i'.LocalTee? && CopyLocal(r, l, i'.local)
    case Call(f) => i'.Call? && (f, i'.func) in r.pairs
    case Block(id, ins, outs, body) =>
      i'.Block? && i'.ins == ins && i'.outs == outs && Fresh(ls, id, i'.id)
      && CopyBody(r, Label(id, i'.id, ls), body, i'.body)
    case Loop(id, ins, outs, body) =>
      i'.Loop? && i'.ins == ins && i'.outs == outs && Fresh(ls, id, i'.id)
      && CopyBody(r, Label(id, i'.id, ls), body, i'.body)
    case IfElse(id, ins, outs, body, other, alternative) =>
      i'.IfElse? && i'.ins == ins && i'.outs == outs && Fresh(ls, id, i'.id) && Fresh(ls, other, i'.other)
      && CopyBody(r, Label(id, i'.id, ls), body, i'.body)
      && CopyBody(r, Label(other, i'.other, ls), alternative, i'.alternative)
    case Br(t) => i'.Br? && Copies(ls, t, i'.target)
    case BrIf(t) => i'.BrIf? && Copies(ls, t, i'.target)
    case BrTable(ts, t) => i'.BrTable? && CopyTargets(ls, ts, i'.targets) && Copies(ls, t, i'.target)
    case Return => i' == i
    case Unreachable => i' == i
    case Unsupported => false
  }

  /** No two locals share a copy. */
  ghost predicate Injective(m: map<nat, nat>) {
    forall x, y :: x in m && y in m && m[x] == m[y] ==> x == y
  }

  /** The parameters of a copy are the copies of the parameters. */
  predicate CopyArgs(m: map<nat, nat>, args: seq<nat>, args': seq<nat>) {
    |args| == |args'| && forall i :: 0 <= i < |args| ==> args[i] in m && m[args[i]] == args'[i]
  }

  ghost predicate CopyFunc(r: Renaming, f: Func, f': Func) {
    match f
    case Import(_, _, _) => f' == f
    case Local(ty, args, entry, body) =>
      f'.Local? && f'.ty == ty && Injective(r.locals) && CopyArgs(r.locals, args, f'.args)
      && CopyBody(r, Label(entry, f'.entry, NoLabels), body, f'.body)
  }

  /** Every pair is a function and its copy, under names of its own for the locals. */
  ghost predicate Consistent(fs: Funcs, fs': Funcs, pairs: set<(nat, nat)>) {
    forall p :: p in pairs ==> p.0 < |fs| && p.1 < |fs'| && IsCopy(fs[p.0], fs'[p.1], pairs)
  }

  ghost predicate IsCopy(f: Func, f': Func, pairs: set<(nat, nat)>) {
    exists locals :: CopyFunc(Renaming(locals, pairs), f, f')
  }
}
