/**
 The deferred-destruction queue and its sessions as a state machine. Every atomic access of the code
 is one step, so sessions can lock and unlock between any two iterations of the queue's scan.
 */
module GcQueue {

  const NPOS: int := 0xffff_ffff
  const WAIT_BIT: int := 0x8000_0000

  // ----- state -----

  /** Where the thread that owns a session is, with the number of pushes before its load or its lock. */
  datatype Pc = Idle | Loaded(val: nat, loadAt: nat) | Stored(val: nat, loadAt: nat) | Failed(loadAt: nat)
              | Locked(lockAt: nat) | Notifying

  datatype Session = Session(sequence: nat, pc: Pc)

  datatype Op = Push | Poll | Run

  /** Where the holder of the queue mutex is. */
  datatype Mutex =
    | Free
    | Scanning(op: Op, start: nat, low: nat, i: nat)
    | Swapping(op: Op, start: nat, low: nat, i: nat)
    | Popping(op: Op, pos: nat, stop: nat)
    | Publishing

  /** Elements are numbered in the order of their pushes; an empty slot holds -1. */
  datatype State = State(n: nat, end: nat, size: nat, waiting: bool, slots: seq<int>,
                         sessions: seq<Session>, mutex: Mutex, pushed: nat, popped: seq<int>)

  datatype Action =
    | Load(s: nat) | Store(s: nat) | Recheck(s: nat) | Exchange(s: nat) | Notify(s: nat)
    | Begin(op: Op) | Scan | Swap | Pop | Publish

  datatype Outcome = Next(st: State) | Disabled

  function Init(n: nat, sessions: nat): State {
    State(n, 0, 0, false, seq(n, _ => -1), seq(sessions, _ => Session(NPOS, Idle)), Free, 0, [])
  }

  // ----- the code's index arithmetic -----

  /** Clears the wait bit of a 32-bit sequence. */
  function Unwait(x: nat): nat {
    if x >= WAIT_BIT then x - WAIT_BIT else x
  }

  function NextIndex(pos: nat, n: nat): nat {
    if pos + 1 == n then 0 else pos + 1
  }

  function Order(x: nat, end: nat, n: nat): nat {
    if x == NPOS then x else if x <= end then x + n else x
  }

  /** Index of the oldest element: (end + n - size) modulo n in 64-bit arithmetic. */
  function StartIndex(st: State): nat
    requires st.n != 0
  {
    ((st.end + st.n - st.size) % 0x1_0000_0000_0000_0000) % st.n
  }

  function SizeLessOne(size: nat): nat {
    if size == 0 then 0xffff_ffff_ffff_ffff else size - 1
  }

  function Lower(x: nat, low: nat, st: State): nat {
    if Order(x, st.end, st.n) < Order(low, st.end, st.n) then x else low
  }

  // ----- steps -----

  function SetSession(st: State, s: nat, sequence: nat, pc: Pc): State
    requires s < |st.sessions|
  {
    st.(sessions := st.sessions[s := Session(sequence, pc)])
  }

  function SessionStep(st: State, a: Action): Outcome
    requires a.Load? || a.Store? || a.Recheck? || a.Exchange? || a.Notify?
  {
    if a.s >= |st.sessions| then Disabled
    else
      var x := st.sessions[a.s];
      match a
      case Load(s) => if x.pc.Idle? then Next(SetSession(st, s, x.sequence, Loaded(st.end, st.pushed))) else Disabled
      case Store(s) =>
        if x.pc.Loaded? then Next(SetSession(st, s, x.pc.val, Stored(x.pc.val, x.pc.loadAt))) else Disabled
      case Recheck(s) =>
        if x.pc.Stored? then
          Next(SetSession(st, s, x.sequence, if st.end == x.pc.val then Locked(st.pushed) else Failed(x.pc.loadAt)))
        else Disabled
      case Exchange(s) =>
        if x.pc.Locked? || x.pc.Failed? then
          Next(SetSession(st, s, NPOS, if x.sequence >= WAIT_BIT then Notifying else Idle))
        else Disabled
      case Notify(s) =>
        if x.pc.Notifying? && st.mutex.Free? then Next(SetSession(st, s, x.sequence, Idle).(waiting := false))
        else Disabled
  }

  /** The scan is over with result r. */
  function Finish(st: State, op: Op, r: nat): State
    requires st.n != 0
  {
    if op.Push? && r == StartIndex(st) then st.(mutex := Free)
    else st.(mutex := Popping(op, StartIndex(st), r))
  }

  function BeginStep(st: State, op: Op): Outcome {
    if !st.mutex.Free? || st.n == 0 then Disabled
    else if op.Push? && st.size != st.n - 1 then Next(st.(mutex := Publishing))
    else Next(st.(mutex := Scanning(op, if op.Poll? then st.n else StartIndex(st), st.end, 0)))
  }

  function ScanStep(st: State): Outcome {
    if !st.mutex.Scanning? || st.n == 0 then Disabled
    else
      var Scanning(op, start, low, i) := st.mutex;
      if i >= |st.sessions| then Next(Finish(st, op, low))
      else
        var x := Unwait(st.sessions[i].sequence);
        if x == start then
          if st.waiting then Next(Finish(st, op, start)) else Next(st.(mutex := Swapping(op, start, low, i)))
        else Next(st.(mutex := Scanning(op, start, Lower(x, low, st), i + 1)))
  }

  function SwapStep(st: State): Outcome {
    if !st.mutex.Swapping? || st.mutex.i >= |st.sessions| || st.n == 0 then Disabled
    else
      var Swapping(op, start, low, i) := st.mutex;
      var x := st.sessions[i];
      if x.sequence == start then
        Next(Finish(SetSession(st, i, start + WAIT_BIT, x.pc).(waiting := true), op, start))
      else Next(st.(mutex := Scanning(op, start, Lower(x.sequence, low, st), i + 1)))
  }

  function PopStep(st: State): Outcome {
    if !st.mutex.Popping? || st.mutex.pos >= |st.slots| then Disabled
    else
      var Popping(op, pos, stop) := st.mutex;
      if pos == stop then Next(st.(mutex := if op.Push? then Publishing else Free))
      else
        Next(st.(slots := st.slots[pos := -1], size := SizeLessOne(st.size), popped := st.popped + [st.slots[pos]],
                 mutex := Popping(op, NextIndex(pos, st.n), stop)))
  }

  function PublishStep(st: State): Outcome {
    if !st.mutex.Publishing? || st.end >= |st.slots| then Disabled
    else
      Next(st.(slots := st.slots[st.end := st.pushed], end := NextIndex(st.end, st.n), size := st.size + 1,
               pushed := st.pushed + 1, mutex := Free))
  }

  function Step(st: State, a: Action): Outcome {
    match a
    case Begin(op) => BeginStep(st, op)
    case Scan => ScanStep(st)
    case Swap => SwapStep(st)
    case Pop => PopStep(st)
    case Publish => PublishStep(st)
    case _ => SessionStep(st, a)
  }

  // ----- runs -----

  function Execute(st: State, run: seq<Action>): Outcome
    decreases |run|
  {
    if run == [] then Next(st)
    else
      var r := Step(st, run[0]);
      if r.Disabled? then Disabled else Execute(r.st, run[1..])
  }
}
