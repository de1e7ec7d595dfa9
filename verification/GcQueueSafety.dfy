/** What every step of the queue keeps, and the safety of whole runs. */
module GcQueueSafety {
  import opened GcQueue

  // ----- counting pushes instead of circular indices -----

  /** The circle: its length, the index of its end, and how many elements went in and out so far. */
  datatype Ring = Ring(n: nat, end: nat, pushed: nat, popped: nat)

  function RingOf(st: State): Ring {
    Ring(st.n, st.end, st.pushed, |st.popped|)
  }

  predicate RingOk(r: Ring) {
    2 <= r.n <= 0x4000_0000 && r.end < r.n && r.popped <= r.pushed <= r.popped + r.n - 1
  }

  /** Slot index of the element (or queue end) that comes after a pushes, seen from the current end. */
  function IndexOf(r: Ring, a: int): int {
    if a + r.end >= r.pushed then a + r.end - r.pushed else a + r.end - r.pushed + r.n
  }

  /** The push count that an index below n stands for: the latest one not after the current end. */
  function CountOf(r: Ring, x: int): int {
    if x <= r.end then r.pushed - r.end + x else r.pushed - r.end + x - r.n
  }

  /** An index below n is fresh when it is in the part of the circle from the oldest element to the end. */
  predicate Fresh(r: Ring, x: int) {
    x < r.n ==> CountOf(r, x) >= r.popped
  }

  // ----- invariant -----

  /** The end after a pushes, once loaded, stands for that count until the circle has come round to it. */
  predicate LoadedOk(r: Ring, v: nat, a: nat) {
    v < r.n && a <= r.pushed && (a > r.pushed - r.n ==> v == IndexOf(r, a))
  }

  predicate SessionOk(r: Ring, x: Session) {
    match x.pc
    case Idle => x.sequence == NPOS
    case Notifying => x.sequence == NPOS
    case Loaded(v, a) => x.sequence == NPOS && LoadedOk(r, v, a)
    case Stored(v, a) => LoadedOk(r, v, a) && (x.sequence == v || x.sequence == v + WAIT_BIT)
    case Failed(a) => Unwait(x.sequence) < WAIT_BIT && LoadedOk(r, Unwait(x.sequence), a)
    case Locked(a) =>
      r.popped <= a <= r.pushed && (x.sequence == IndexOf(r, a) || x.sequence == IndexOf(r, a) + WAIT_BIT)
  }

  ghost predicate SessionsOk(r: Ring, sessions: seq<Session>) {
    forall s :: 0 <= s < |sessions| ==> SessionOk(r, sessions[s])
  }

  /** The session whose thread will clear the waiting flag. */
  predicate WillNotify(x: Session) {
    x.pc.Notifying? || (x.sequence >= WAIT_BIT && x.sequence != NPOS)
  }

  /** At most one session will notify, and there is one exactly when the flag is set. */
  ghost predicate WaitOk(waiting: bool, sessions: seq<Session>) {
    if waiting then
      exists w :: 0 <= w < |sessions| && OnlyNotifier(sessions, w)
    else forall s :: 0 <= s < |sessions| ==> !WillNotify(sessions[s])
  }

  ghost predicate OnlyNotifier(sessions: seq<Session>, w: int) {
    forall s :: 0 <= s < |sessions| ==> (WillNotify(sessions[s]) <==> s == w)
  }

  /** Locks of the first k sessions were all taken after at least c pushes. */
  ghost predicate LockedFrom(sessions: seq<Session>, k: nat, c: int)
  {
    forall s :: 0 <= s < k && s < |sessions| && sessions[s].pc.Locked? ==> sessions[s].pc.lockAt >= c
  }

  ghost predicate ScanOk(r: Ring, sessions: seq<Session>, op: Op, start: nat, low: nat, i: nat) {
    && i <= |sessions| && low < r.n
    && (if op.Poll? then start == r.n else start == IndexOf(r, r.popped))
    && (op.Push? ==> r.pushed - r.popped == r.n - 1 && low != start)
    && LockedFrom(sessions, i, CountOf(r, low))
  }

  ghost predicate PopOk(r: Ring, sessions: seq<Session>, op: Op, pos: nat, stop: nat) {
    && pos == IndexOf(r, r.popped) && stop < r.n && Fresh(r, stop)
    && LockedFrom(sessions, |sessions|, CountOf(r, stop))
    && (op.Push? && r.pushed - r.popped == r.n - 1 ==> stop != pos)
  }

  ghost predicate MutexOk(r: Ring, sessions: seq<Session>, waiting: bool, m: Mutex) {
    match m
    case Free => true
    case Publishing => r.pushed - r.popped < r.n - 1
    case Scanning(op, start, low, i) => ScanOk(r, sessions, op, start, low, i)
    case Swapping(op, start, low, i) =>
      ScanOk(r, sessions, op, start, low, i) && i < |sessions| && !waiting && !op.Poll?
    case Popping(op, pos, stop) => PopOk(r, sessions, op, pos, stop)
  }

  /**
   The slots from the oldest element to the end hold the elements not popped yet, in push order; the
   others are empty.
   */
  ghost predicate SlotsOk(r: Ring, slots: seq<int>) {
    && |slots| == r.n && (forall a :: r.popped <= a < r.pushed ==> HoldsAt(r, slots, a))
    && forall x :: 0 <= x < r.n && Vacant(r, x) ==> slots[x] == -1
  }

  predicate Vacant(r: Ring, x: int) {
    CountOf(r, x) < r.popped || CountOf(r, x) == r.pushed
  }

  predicate HoldsAt(r: Ring, slots: seq<int>, a: int) {
    0 <= IndexOf(r, a) < |slots| && slots[IndexOf(r, a)] == a
  }

  /** Everything popped so far came out in push order, each element once. */
  ghost predicate PoppedInOrder(popped: seq<int>) {
    forall i :: 0 <= i < |popped| ==> popped[i] == i
  }

  ghost predicate Inv(st: State) {
    var r := RingOf(st);
    && RingOk(r) && st.size == st.pushed - |st.popped| && SlotsOk(r, st.slots) && PoppedInOrder(st.popped)
    && SessionsOk(r, st.sessions) && WaitOk(st.waiting, st.sessions)
    && MutexOk(r, st.sessions, st.waiting, st.mutex)
  }

  // ----- index arithmetic -----

  lemma IndexCount(r: Ring, a: int)
    requires RingOk(r) && r.pushed - r.n < a <= r.pushed
    ensures 0 <= IndexOf(r, a) < r.n && CountOf(r, IndexOf(r, a)) == a
  {
  }

  lemma CountIndex(r: Ring, x: int)
    requires RingOk(r) && 0 <= x < r.n
    ensures r.pushed - r.n < CountOf(r, x) <= r.pushed && IndexOf(r, CountOf(r, x)) == x
  {
  }

  /** The circular comparison of the code orders indices by the push counts they stand for. */
  lemma OrderIsCount(r: Ring, x: nat, y: nat)
    requires RingOk(r) && x < r.n && y < r.n
    ensures Order(x, r.end, r.n) < Order(y, r.end, r.n) <==> CountOf(r, x) < CountOf(r, y)
  {
  }

  lemma ModSmall(x: int, n: int)
    requires 0 < n && 0 <= x < 2 * n
    ensures x % n == if x < n then x else x - n
  {
    if x >= n {
      ModUnique(x, n, 1, x - n);
    } else {
      ModUnique(x, n, 0, x);
    }
  }

  lemma ModUnique(x: int, n: int, q: int, r: int)
    requires 0 < n && x == n * q + r && 0 <= r < n
    ensures x % n == r
  {
    var q', r' := x / n, x % n;
    assert n * (q - q') == r' - r;
    assert q - q' >= 1 ==> n * (q - q') >= n;
    assert q - q' <= -1 ==> n * (q - q') + n <= 0;
  }

  /** The code's start index is the oldest element's slot. */
  lemma StartIsOldest(st: State)
    requires RingOk(RingOf(st)) && st.size == st.pushed - |st.popped|
    ensures StartIndex(st) == IndexOf(RingOf(st), |st.popped|)
  {
    var x := st.end + st.n - st.size;
    assert x % 0x1_0000_0000_0000_0000 == x;
    ModSmall(x, st.n);
  }

  // ----- steps of a session -----

  lemma MutexFrame(r: Ring, sessions: seq<Session>, waiting: bool, waiting': bool, m: Mutex, s: nat, y: Session)
    requires RingOk(r) && s < |sessions| && MutexOk(r, sessions, waiting, m)
    requires y.pc.Locked? ==> y.pc.lockAt == r.pushed
    requires waiting' ==> waiting
    ensures MutexOk(r, sessions[s := y], waiting', m)
  {
    match m
    case Scanning(op, start, low, i) => CountIndex(r, low);
    case Swapping(op, start, low, i) => CountIndex(r, low);
    case Popping(op, pos, stop) => CountIndex(r, stop);
    case _ =>
  }

  /** A session step either leaves the notifier alone or hands its duty on within the same session. */
  lemma WaitFrame(sessions: seq<Session>, waiting: bool, s: nat, y: Session)
    requires s < |sessions| && WaitOk(waiting, sessions)
    requires WillNotify(y) == WillNotify(sessions[s])
    ensures WaitOk(waiting, sessions[s := y])
  {
    if waiting {
      var w :| 0 <= w < |sessions| && OnlyNotifier(sessions, w);
      assert OnlyNotifier(sessions[s := y], w);
    }
  }

  lemma WaitCleared(sessions: seq<Session>, waiting: bool, s: nat, y: Session)
    requires s < |sessions| && WaitOk(waiting, sessions)
    requires WillNotify(sessions[s]) && !WillNotify(y)
    ensures waiting && WaitOk(false, sessions[s := y])
  {
  }

  lemma SessionStepInv(st: State, a: Action)
    requires Inv(st) && (a.Load? || a.Store? || a.Recheck? || a.Exchange? || a.Notify?)
    requires SessionStep(st, a).Next?
    ensures Inv(SessionStep(st, a).st)
  {
    var r, st', x := RingOf(st), SessionStep(st, a).st, st.sessions[a.s];
    var y := st'.sessions[a.s];
    assert SessionOk(r, x);
    IndexCount(r, r.pushed);
    assert SessionOk(r, y);
    MutexFrame(r, st.sessions, st.waiting, st'.waiting, st.mutex, a.s, y);
    if a.Notify? {
      WaitCleared(st.sessions, st.waiting, a.s, y);
    } else {
      WaitFrame(st.sessions, st.waiting, a.s, y);
    }
  }

  // ----- steps of the holder of the mutex -----

  lemma BeginInv(st: State, op: Op)
    requires Inv(st) && BeginStep(st, op).Next?
    ensures Inv(BeginStep(st, op).st)
  {
    StartIsOldest(st);
    IndexCount(RingOf(st), |st.popped|);
  }

  /** The scan's bound only goes down; it stays fresh just when what is taken in is fresh. */
  lemma LowerOk(st: State, x: nat, low: nat)
    requires RingOk(RingOf(st)) && low < st.n
    requires x < st.n || x == NPOS || x == NPOS - WAIT_BIT
    ensures var r, l := RingOf(st), Lower(x, low, st);
            && l < st.n && CountOf(r, l) <= CountOf(r, low)
            && (x < st.n ==> CountOf(r, l) <= CountOf(r, x))
            && (l == x || l == low)
            && (Fresh(r, l) <==> Fresh(r, x) && Fresh(r, low))
  {
    if x < st.n {
      OrderIsCount(RingOf(st), x, low);
    }
  }

  lemma FinishOk(st: State, op: Op, res: nat)
    requires Inv(st.(mutex := Free)) && res < st.n && Fresh(RingOf(st), res)
    requires LockedFrom(st.sessions, |st.sessions|, CountOf(RingOf(st), res))
    ensures Inv(Finish(st, op, res))
  {
    StartIsOldest(st);
  }

  /** The masked sequence of a session: an index, or the largest 31-bit number when it is unlocked. */
  lemma SessionRead(r: Ring, x: Session)
    requires RingOk(r) && SessionOk(r, x)
    ensures Unwait(x.sequence) < r.n || Unwait(x.sequence) == NPOS - WAIT_BIT
    ensures x.pc.Locked? ==> Unwait(x.sequence) < r.n && CountOf(r, Unwait(x.sequence)) == x.pc.lockAt
  {
    if x.pc.Locked? {
      IndexCount(r, x.pc.lockAt);
    }
  }

  lemma OldestIsLowest(r: Ring, sessions: seq<Session>)
    requires RingOk(r) && SessionsOk(r, sessions)
    ensures 0 <= IndexOf(r, r.popped) < r.n && Fresh(r, IndexOf(r, r.popped))
    ensures LockedFrom(sessions, |sessions|, CountOf(r, IndexOf(r, r.popped)))
  {
    IndexCount(r, r.popped);
    forall s | 0 <= s < |sessions| && sessions[s].pc.Locked? ensures sessions[s].pc.lockAt >= r.popped {
      assert SessionOk(r, sessions[s]);
    }
  }

  /** One more session scanned: its lock, if any, is at or above the new bound. */
  lemma ScannedOne(st: State, op: Op, start: nat, low: nat, i: nat, x: nat)
    requires RingOk(RingOf(st)) && SessionsOk(RingOf(st), st.sessions) && i < |st.sessions|
    requires ScanOk(RingOf(st), st.sessions, op, start, low, i)
    requires x < st.n || x == NPOS || x == NPOS - WAIT_BIT
    requires x != start
    requires st.sessions[i].pc.Locked? ==> x < st.n && CountOf(RingOf(st), x) == st.sessions[i].pc.lockAt
    ensures ScanOk(RingOf(st), st.sessions, op, start, Lower(x, low, st), i + 1)
  {
    LowerOk(st, x, low);
  }

  /** How far back from the end an index is, going round the circle. */
  function Gap(st: State, x: int): int
    requires st.n != 0
  {
    (st.end + st.n - x) % st.n
  }

  /** The last step of a scan hands on a bound that reaches back no further than the elements do. */
  predicate Sound(st: State, a: Action) {
    a.Scan? && st.mutex.Scanning? && st.mutex.i >= |st.sessions| && st.n != 0 ==> Gap(st, st.mutex.low) <= st.size
  }

  /** What a caller can compute from the queue's own fields decides freshness. */
  lemma FreshIffGap(st: State, x: int)
    requires RingOk(RingOf(st)) && st.size == st.pushed - |st.popped| && 0 <= x < st.n
    ensures Fresh(RingOf(st), x) <==> Gap(st, x) <= st.size
  {
    ModSmall(st.end + st.n - x, st.n);
  }

  lemma ScanInv(st: State)
    requires Inv(st) && ScanStep(st).Next? && Sound(st, Scan)
    ensures Inv(ScanStep(st).st)
  {
    var Scanning(op, start, low, i) := st.mutex;
    var r := RingOf(st);
    if i == |st.sessions| {
      FreshIffGap(st, low);
      FinishOk(st, op, low);
    } else {
      assert SessionOk(r, st.sessions[i]);
      SessionRead(r, st.sessions[i]);
      OldestIsLowest(r, st.sessions);
      var x := Unwait(st.sessions[i].sequence);
      if x != start {
        ScannedOne(st, op, start, low, i, x);
      } else if st.waiting {
        FinishOk(st, op, start);
      }
    }
  }

  /** Marking the session that sits at the start index makes it the one notifier. */
  lemma MarkOk(st: State, op: Op, start: nat, i: nat)
    requires Inv(st.(mutex := Free)) && i < |st.sessions| && !st.waiting
    requires start < st.n && st.sessions[i].sequence == start
    ensures var st' := SetSession(st, i, start + WAIT_BIT, st.sessions[i].pc).(waiting := true);
            Inv(st'.(mutex := Free))
  {
    var x := st.sessions[i];
    assert SessionOk(RingOf(st), x);
    var sessions' := st.sessions[i := Session(start + WAIT_BIT, x.pc)];
    assert OnlyNotifier(sessions', i);
  }

  lemma SwapInv(st: State)
    requires Inv(st) && SwapStep(st).Next?
    ensures Inv(SwapStep(st).st)
  {
    var Swapping(op, start, low, i) := st.mutex;
    var r, x := RingOf(st), st.sessions[i];
    assert SessionOk(r, x);
    SessionRead(r, x);
    OldestIsLowest(r, st.sessions);
    if x.sequence == start {
      MarkOk(st, op, start, i);
      var st' := SetSession(st, i, start + WAIT_BIT, x.pc).(waiting := true);
      OldestIsLowest(r, st'.sessions);
      FinishOk(st', op, start);
    } else {
      assert !WillNotify(x);
      ScannedOne(st, op, start, low, i, x.sequence);
    }
  }

  /** While elements are left to pop, the oldest one is below every lock. */
  lemma PopAhead(r: Ring, sessions: seq<Session>, op: Op, pos: nat, stop: nat)
    requires RingOk(r) && PopOk(r, sessions, op, pos, stop) && pos != stop
    ensures r.popped < r.pushed && CountOf(r, stop) > r.popped && pos < r.n
    ensures LockedFrom(sessions, |sessions|, r.popped + 1)
  {
    IndexCount(r, r.popped);
    CountIndex(r, stop);
  }

  lemma PopSlots(r: Ring, slots: seq<int>)
    requires RingOk(r) && SlotsOk(r, slots) && r.popped < r.pushed
    ensures var pos := IndexOf(r, r.popped);
            0 <= pos < |slots| && slots[pos] == r.popped && SlotsOk(r.(popped := r.popped + 1), slots[pos := -1])
  {
    var r', pos := r.(popped := r.popped + 1), IndexOf(r, r.popped);
    IndexCount(r, r.popped);
    assert HoldsAt(r, slots, r.popped);
    var slots' := slots[pos := -1];
    forall a | r'.popped <= a < r'.pushed ensures HoldsAt(r', slots', a) {
      assert HoldsAt(r, slots, a);
      IndexCount(r, a);
      assert IndexOf(r', a) == IndexOf(r, a);
    }
    forall x | 0 <= x < r'.n && Vacant(r', x) ensures slots'[x] == -1 {
      CountIndex(r, x);
    }
  }

  lemma PopSessions(r: Ring, sessions: seq<Session>)
    requires RingOk(r) && r.popped < r.pushed && SessionsOk(r, sessions)
    requires LockedFrom(sessions, |sessions|, r.popped + 1)
    ensures SessionsOk(r.(popped := r.popped + 1), sessions)
  {
    forall s | 0 <= s < |sessions| ensures SessionOk(r.(popped := r.popped + 1), sessions[s]) {
      assert SessionOk(r, sessions[s]);
    }
  }

  lemma PopInv(st: State)
    requires Inv(st) && PopStep(st).Next?
    ensures Inv(PopStep(st).st)
  {
    var Popping(op, pos, stop) := st.mutex;
    var r, st' := RingOf(st), PopStep(st).st;
    if pos != stop {
      PopAhead(r, st.sessions, op, pos, stop);
      PopSlots(r, st.slots);
      PopSessions(r, st.sessions);
      var r' := r.(popped := r.popped + 1);
      assert RingOf(st') == r';
      IndexCount(r, r.popped + 1);
      assert NextIndex(pos, r.n) == IndexOf(r', r'.popped);
      assert CountOf(r', stop) == CountOf(r, stop);
    }
  }

  /** Moving the end forward renumbers nothing that is still in the circle. */
  lemma PublishIndex(r: Ring, r': Ring, a: int)
    requires RingOk(r) && r' == r.(end := NextIndex(r.end, r.n), pushed := r.pushed + 1)
    requires r.pushed + 1 - r.n < a <= r.pushed
    ensures IndexOf(r', a) == IndexOf(r, a)
  {
  }

  lemma PublishSession(r: Ring, r': Ring, x: Session)
    requires RingOk(r) && r' == r.(end := NextIndex(r.end, r.n), pushed := r.pushed + 1) && RingOk(r')
    requires SessionOk(r, x)
    ensures SessionOk(r', x)
  {
    if x.pc.Locked? {
      PublishIndex(r, r', x.pc.lockAt);
    } else if !x.pc.Idle? && !x.pc.Notifying? && x.pc.loadAt > r'.pushed - r.n {
      PublishIndex(r, r', x.pc.loadAt);
    }
  }

  lemma PublishInv(st: State)
    requires Inv(st) && PublishStep(st).Next?
    ensures Inv(PublishStep(st).st)
  {
    var r, st' := RingOf(st), PublishStep(st).st;
    var r' := RingOf(st');
    assert r' == r.(end := NextIndex(r.end, r.n), pushed := r.pushed + 1);
    var slots' := st'.slots;
    forall a | r'.popped <= a < r'.pushed ensures HoldsAt(r', slots', a) {
      PublishIndex(r, r', a);
      if a < r.pushed {
        assert HoldsAt(r, st.slots, a);
        IndexCount(r, a);
        IndexCount(r, r.pushed);
      }
    }
    forall x | 0 <= x < r'.n && Vacant(r', x) ensures slots'[x] == -1 {
      assert x != r.end && Vacant(r, x);
    }
    forall s | 0 <= s < |st.sessions| ensures SessionOk(r', st.sessions[s]) {
      var x := st.sessions[s];
      assert SessionOk(r, x);
      PublishSession(r, r', x);
    }
  }

  lemma StepInv(st: State, a: Action)
    requires Inv(st) && Step(st, a).Next? && Sound(st, a)
    ensures Inv(Step(st, a).st)
  {
    match a
    case Begin(op) => BeginInv(st, op);
    case Scan => ScanInv(st);
    case Swap => SwapInv(st);
    case Pop => PopInv(st);
    case Publish => PublishInv(st);
    case _ => SessionStepInv(st, a);
  }

  // ----- whole runs -----

  /** Every scan along the run hands on a sound bound. */
  predicate SoundRun(st: State, run: seq<Action>)
    decreases |run|
  {
    run == [] || (Sound(st, run[0]) && (Step(st, run[0]).Next? ==> SoundRun(Step(st, run[0]).st, run[1..])))
  }

  lemma InitInv(n: nat, sessions: nat)
    requires 2 <= n <= 0x4000_0000
    ensures Inv(Init(n, sessions))
  {
  }

  lemma {:induction false} RunInv(st: State, run: seq<Action>)
    requires Inv(st) && SoundRun(st, run) && Execute(st, run).Next?
    ensures Inv(Execute(st, run).st)
    decreases |run|
  {
    if run != [] {
      StepInv(st, run[0]);
      RunInv(Step(st, run[0]).st, run[1..]);
    }
  }

  /** The element about to be popped exists, and every lock that is held was taken after it was pushed. */
  ghost predicate SafePop(st: State) {
    st.mutex.Popping? && st.mutex.pos != st.mutex.stop ==>
      && st.mutex.pos < |st.slots| && st.slots[st.mutex.pos] >= 0
      && forall s :: 0 <= s < |st.sessions| && st.sessions[s].pc.Locked? ==>
           st.sessions[s].pc.lockAt > st.slots[st.mutex.pos]
  }

  lemma PopIsSafe(st: State)
    requires Inv(st)
    ensures SafePop(st)
  {
    if st.mutex.Popping? && st.mutex.pos != st.mutex.stop {
      PopAhead(RingOf(st), st.sessions, st.mutex.op, st.mutex.pos, st.mutex.stop);
      PopSlots(RingOf(st), st.slots);
    }
  }

  /**
   Along every interleaving in which scans hand on sound bounds, no element is popped while a session
   that locked before its push is still locked, elements leave in push order, none is lost or popped
   twice, one slot stays empty, and the waiting flag is set exactly when one session will clear it.
   */
  lemma Reclamation(n: nat, sessions: nat, run: seq<Action>)
    requires 2 <= n <= 0x4000_0000
    requires SoundRun(Init(n, sessions), run) && Execute(Init(n, sessions), run).Next?
    ensures var st := Execute(Init(n, sessions), run).st;
            && SafePop(st) && PoppedInOrder(st.popped)
            && st.pushed == |st.popped| + st.size && st.size <= st.n - 1 && st.n == |st.slots|
            && WaitOk(st.waiting, st.sessions)
  {
    InitInv(n, sessions);
    RunInv(Init(n, sessions), run);
    PopIsSafe(Execute(Init(n, sessions), run).st);
  }

  /** A push that gives up the mutex to wait does so with a notifier in place. */
  lemma BlockedPushIsNotified(st: State, a: Action)
    requires Inv(st) && Sound(st, a) && Step(st, a).Next?
    requires (st.mutex.Scanning? || st.mutex.Swapping?) && st.mutex.op.Push? && Step(st, a).st.mutex.Free?
    ensures Step(st, a).st.waiting
    ensures exists w :: 0 <= w < |st.sessions| && WillNotify(Step(st, a).st.sessions[w])
  {
    StepInv(st, a);
    StartIsOldest(st);
    var st' := Step(st, a).st;
    assert st'.waiting;
    var w :| 0 <= w < |st'.sessions| && OnlyNotifier(st'.sessions, w);
    assert WillNotify(st'.sessions[w]);
  }
}
