/** Exactly when the queue is safe: which bounds, which indices and which schedules make it fail. */
module GcQueueExact {
  import opened GcQueue
  import opened GcQueueSafety

  // ----- sound bounds are what safety takes -----

  /** No state along the run is about to pop an element that does not exist or that a session protects. */
  ghost predicate SafeRun(st: State, run: seq<Action>)
    decreases |run|
  {
    SafePop(st) && (run == [] || (Step(st, run[0]).Next? ==> SafeRun(Step(st, run[0]).st, run[1..])))
  }

  lemma {:induction false} SoundIsSafe(st: State, run: seq<Action>)
    requires Inv(st) && SoundRun(st, run)
    ensures SafeRun(st, run)
    decreases |run|
  {
    PopIsSafe(st);
    if run != [] && Step(st, run[0]).Next? {
      StepInv(st, run[0]);
      SoundIsSafe(Step(st, run[0]).st, run[1..]);
    }
  }

  /** A pop loop on its way to an index behind the oldest element; everything else is in order. */
  ghost predicate Astray(st: State) {
    && Inv(st.(mutex := Free)) && st.mutex.Popping? && st.mutex.stop < st.n
    && st.mutex.pos == IndexOf(RingOf(st), |st.popped|) && !Fresh(RingOf(st), st.mutex.stop)
  }

  lemma UnsoundGoesAstray(st: State, a: Action)
    requires Inv(st) && Step(st, a).Next? && !Sound(st, a)
    ensures Astray(Step(st, a).st)
  {
    FreshIffGap(st, st.mutex.low);
    StartIsOldest(st);
    IndexCount(RingOf(st), |st.popped|);
  }

  /** Such a loop never arrives: it goes on as long as it pops safely. */
  lemma AstrayStays(st: State, a: Action)
    requires Astray(st) && SafePop(st) && Step(st, a).Next?
    ensures Astray(Step(st, a).st)
  {
    var r := RingOf(st);
    IndexCount(r, r.popped);
    if a.Pop? {
      AstrayPop(st);
    } else {
      SessionStepInv(st.(mutex := Free), a);
      assert SessionStep(st, a).st.(mutex := Free) == SessionStep(st.(mutex := Free), a).st;
    }
  }

  /** The slots it empties hold elements only up to the end, where the circle is empty. */
  lemma AstrayPop(st: State)
    requires Astray(st) && SafePop(st)
    ensures PopStep(st).Next? && Astray(PopStep(st).st)
  {
    var r, pos, st' := RingOf(st), st.mutex.pos, PopStep(st).st;
    IndexCount(r, r.popped);
    assert pos < r.n && !Vacant(r, pos);
    PopSlots(r, st.slots);
    PopSessions(r, st.sessions);
    IndexCount(r, r.popped + 1);
    assert RingOf(st') == r.(popped := r.popped + 1);
  }

  lemma {:induction false} AstrayNeverEnds(st: State, run: seq<Action>)
    requires Astray(st) && SafeRun(st, run) && Execute(st, run).Next?
    ensures Execute(st, run).st.mutex.Popping?
    decreases |run|
  {
    if run != [] {
      AstrayStays(st, run[0]);
      AstrayNeverEnds(Step(st, run[0]).st, run[1..]);
    }
  }

  lemma {:induction false} SafeIsSound(st: State, run: seq<Action>)
    requires Inv(st) && SafeRun(st, run) && Execute(st, run).Next? && !Execute(st, run).st.mutex.Popping?
    ensures SoundRun(st, run)
    decreases |run|
  {
    if run != [] {
      if !Sound(st, run[0]) {
        UnsoundGoesAstray(st, run[0]);
        AstrayNeverEnds(Step(st, run[0]).st, run[1..]);
      } else {
        StepInv(st, run[0]);
        SafeIsSound(Step(st, run[0]).st, run[1..]);
      }
    }
  }

  /**
   Along every interleaving whose pop loops have come to their end, no pop ever takes out an element that
   does not exist or that a session protects if and only if every scan hands on a bound whose distance
   from the end of the circle is at most the number of elements.
   */
  lemma SafeExactlyIfSound(n: nat, sessions: nat, run: seq<Action>)
    requires 2 <= n <= 0x4000_0000
    requires Execute(Init(n, sessions), run).Next? && !Execute(Init(n, sessions), run).st.mutex.Popping?
    ensures SafeRun(Init(n, sessions), run) <==> SoundRun(Init(n, sessions), run)
  {
    InitInv(n, sessions);
    if SoundRun(Init(n, sessions), run) {
      SoundIsSafe(Init(n, sessions), run);
    }
    if SafeRun(Init(n, sessions), run) {
      SafeIsSound(Init(n, sessions), run);
    }
  }

  // ----- which indices make a bound unsound -----

  /** The sequence that the next step of a scan takes in is fresh. */
  ghost predicate FreshRead(st: State, a: Action) {
    && (a.Scan? && st.mutex.Scanning? && st.mutex.i < |st.sessions|
        ==> Fresh(RingOf(st), Unwait(st.sessions[st.mutex.i].sequence)))
    && (a.Swap? && st.mutex.Swapping? && st.mutex.i < |st.sessions|
        ==> Fresh(RingOf(st), st.sessions[st.mutex.i].sequence))
  }

  ghost predicate FreshReads(st: State, run: seq<Action>)
    decreases |run|
  {
    run == [] || (FreshRead(st, run[0]) && (Step(st, run[0]).Next? ==> FreshReads(Step(st, run[0]).st, run[1..])))
  }

  predicate InScan(st: State) {
    st.mutex.Scanning? || st.mutex.Swapping?
  }

  /** All states along the run are within one scan. */
  predicate OneScan(st: State, run: seq<Action>)
    decreases |run|
  {
    InScan(st) && (run == [] || (Step(st, run[0]).Next? && OneScan(Step(st, run[0]).st, run[1..])))
  }

  lemma ScanStepBound(st: State, a: Action)
    requires Inv(st) && InScan(st) && Step(st, a).Next? && InScan(Step(st, a).st)
    ensures var st' := Step(st, a).st;
            && Inv(st') && RingOf(st') == RingOf(st)
            && (Fresh(RingOf(st), st'.mutex.low) <==> Fresh(RingOf(st), st.mutex.low) && FreshRead(st, a))
  {
    StepInv(st, a);
    if a.Scan? {
      ScanTakesIn(st);
    } else if a.Swap? {
      SwapTakesIn(st);
    }
  }

  lemma ScanTakesIn(st: State)
    requires Inv(st) && ScanStep(st).Next? && InScan(ScanStep(st).st)
    ensures var st', r := ScanStep(st).st, RingOf(st);
            RingOf(st') == r && (Fresh(r, st'.mutex.low) <==> Fresh(r, st.mutex.low) && FreshRead(st, Scan))
  {
    var r, x := RingOf(st), st.sessions[st.mutex.i];
    assert SessionOk(r, x);
    SessionRead(r, x);
    IndexCount(r, r.popped);
    LowerOk(st, Unwait(x.sequence), st.mutex.low);
  }

  lemma SwapTakesIn(st: State)
    requires Inv(st) && SwapStep(st).Next? && InScan(SwapStep(st).st)
    ensures var st', r := SwapStep(st).st, RingOf(st);
            RingOf(st') == r && (Fresh(r, st'.mutex.low) <==> Fresh(r, st.mutex.low) && FreshRead(st, Swap))
  {
    var r, x := RingOf(st), st.sessions[st.mutex.i];
    assert SessionOk(r, x);
    SessionRead(r, x);
    assert !WillNotify(x);
    LowerOk(st, x.sequence, st.mutex.low);
  }

  /** However session steps come between, the bound of a scan is sound if and only if all it took in was fresh. */
  lemma {:induction false} BoundExactlyFromReads(st: State, run: seq<Action>)
    requires Inv(st) && OneScan(st, run)
    ensures Execute(st, run).Next? && var st' := Execute(st, run).st;
            && InScan(st') && Inv(st') && RingOf(st') == RingOf(st)
            && (Gap(st', st'.mutex.low) <= st'.size <==> Fresh(RingOf(st), st.mutex.low) && FreshReads(st, run))
    decreases |run|
  {
    FreshIffGap(st, st.mutex.low);
    if run != [] {
      ScanStepBound(st, run[0]);
      BoundExactlyFromReads(Step(st, run[0]).st, run[1..]);
    }
  }

  /** A scan starts from the end of the circle, which is fresh. */
  lemma ScanStartsFresh(st: State, op: Op)
    requires Inv(st) && BeginStep(st, op).Next? && BeginStep(st, op).st.mutex.Scanning?
    ensures Inv(BeginStep(st, op).st) && Fresh(RingOf(st), BeginStep(st, op).st.mutex.low)
  {
    BeginInv(st, op);
  }

  /** All states along the run are within one pop loop, which the last step ends. */
  predicate OnePop(st: State, run: seq<Action>)
    decreases |run|
  {
    if run == [] then !st.mutex.Popping?
    else st.mutex.Popping? && Step(st, run[0]).Next? && OnePop(Step(st, run[0]).st, run[1..])
  }

  lemma {:induction false} OnePopIsSound(st: State, run: seq<Action>)
    requires OnePop(st, run)
    ensures SoundRun(st, run) && Execute(st, run).Next? && !Execute(st, run).st.mutex.Popping?
    decreases |run|
  {
    if run != [] {
      OnePopIsSound(Step(st, run[0]).st, run[1..]);
    }
  }

  /**
   A scan that goes through all sessions, and then its pop loop: the loop pops safely all the way if and
   only if everything the scan took in was fresh.
   */
  lemma PopsSafelyIffReadsFresh(st: State, scan: seq<Action>, pops: seq<Action>)
    requires Inv(st) && InScan(st) && Fresh(RingOf(st), st.mutex.low) && OneScan(st, scan)
    requires Execute(st, scan).Next? && var st' := Execute(st, scan).st;
             st'.mutex.Scanning? && st'.mutex.i >= |st'.sessions| && ScanStep(st').Next?
             && OnePop(ScanStep(st').st, pops)
    ensures SafeRun(ScanStep(Execute(st, scan).st).st, pops) <==> FreshReads(st, scan)
  {
    BoundExactlyFromReads(st, scan);
    var st' := Execute(st, scan).st;
    OnePopIsSound(ScanStep(st').st, pops);
    if Sound(st', Scan) {
      StepInv(st', Scan);
      SoundIsSafe(ScanStep(st').st, pops);
    } else {
      UnsoundGoesAstray(st', Scan);
      if SafeRun(ScanStep(st').st, pops) {
        AstrayNeverEnds(ScanStep(st').st, pops);
      }
    }
  }

  /** From the start of a scan that goes through all sessions to the end of its pop loop. */
  lemma ScanIsSafeIffReadsFresh(st: State, op: Op, scan: seq<Action>, pops: seq<Action>)
    requires Inv(st) && BeginStep(st, op).Next? && OneScan(BeginStep(st, op).st, scan)
    requires var st' := BeginStep(st, op).st;
             && Execute(st', scan).Next? && Execute(st', scan).st.mutex.Scanning?
             && Execute(st', scan).st.mutex.i >= |Execute(st', scan).st.sessions|
             && ScanStep(Execute(st', scan).st).Next?
             && OnePop(ScanStep(Execute(st', scan).st).st, pops)
    ensures var st' := BeginStep(st, op).st;
            SafeRun(ScanStep(Execute(st', scan).st).st, pops) <==> FreshReads(st', scan)
  {
    ScanStartsFresh(st, op);
    PopsSafelyIffReadsFresh(BeginStep(st, op).st, scan, pops);
  }

  // ----- how large a queue may be -----

  predicate UnlockedIgnored(st: State, low: nat) {
    Lower(NPOS - WAIT_BIT, low, st) == low
  }

  /**
   An unlocked session, masked, must not move the bound of a scan. Among the lengths whose indices leave
   the wait bit free, that is so for all places of the end and the bound exactly up to 2^30.
   */
  lemma UnlockedIgnoredIff(n: nat)
    requires 0 < n <= 0x7fff_ffff
    ensures n <= 0x4000_0000 <==>
              forall st: State, low: nat :: st.n == n && st.end < n && low < n ==> UnlockedIgnored(st, low)
  {
    if n > 0x4000_0000 {
      var st := Init(n, 0).(end := n - 1);
      assert !UnlockedIgnored(st, n - 1);
    }
  }

  // ----- which schedules let an index go stale -----

  /** An index goes stale only when an element pushed after it was loaded is popped before the lock is settled. */
  lemma StaleIsOvertaken(st: State, s: nat)
    requires Inv(st) && s < |st.sessions| && !Fresh(RingOf(st), Unwait(st.sessions[s].sequence))
    ensures st.sessions[s].pc.Stored? || st.sessions[s].pc.Failed?
    ensures st.sessions[s].pc.loadAt < |st.popped|
  {
    var r, x := RingOf(st), st.sessions[s];
    assert SessionOk(r, x);
    SessionRead(r, x);
    if x.pc.Stored? || x.pc.Failed? {
      if x.pc.loadAt >= r.popped {
        IndexCount(r, x.pc.loadAt);
      }
    }
  }

  /** No session has stored an index whose next element is gone by now. */
  ghost predicate Prompt(st: State) {
    forall s :: 0 <= s < |st.sessions| && (st.sessions[s].pc.Stored? || st.sessions[s].pc.Failed?) ==>
      |st.popped| <= st.sessions[s].pc.loadAt
  }

  ghost predicate PromptRun(st: State, run: seq<Action>)
    decreases |run|
  {
    Prompt(st) && (run == [] || (Step(st, run[0]).Next? ==> PromptRun(Step(st, run[0]).st, run[1..])))
  }

  ghost predicate BoundFresh(st: State) {
    InScan(st) ==> Fresh(RingOf(st), st.mutex.low)
  }

  lemma PromptReads(st: State, a: Action)
    requires Inv(st) && Prompt(st)
    ensures FreshRead(st, a)
  {
    if (a.Scan? || a.Swap?) && InScan(st) && st.mutex.i < |st.sessions| {
      var x := st.sessions[st.mutex.i];
      if !Fresh(RingOf(st), Unwait(x.sequence)) {
        StaleIsOvertaken(st, st.mutex.i);
      }
      assert x.sequence >= WAIT_BIT ==> Fresh(RingOf(st), x.sequence);
    }
  }

  lemma PromptStep(st: State, a: Action)
    requires Inv(st) && BoundFresh(st) && Prompt(st)
    ensures Sound(st, a)
    ensures Step(st, a).Next? ==> Inv(Step(st, a).st) && BoundFresh(Step(st, a).st)
  {
    if InScan(st) {
      FreshIffGap(st, st.mutex.low);
    }
    if Step(st, a).Next? {
      StepInv(st, a);
      PromptReads(st, a);
      if InScan(st) && InScan(Step(st, a).st) {
        ScanStepBound(st, a);
      }
    }
  }

  /**
   Safe whatever else the sessions do, if no session is overtaken between storing an index and settling
   the lock: no element pushed after its load is popped in that time.
   */
  lemma {:induction false} PromptIsSound(st: State, run: seq<Action>)
    requires Inv(st) && BoundFresh(st) && PromptRun(st, run)
    ensures SoundRun(st, run) && SafeRun(st, run)
    decreases |run|
  {
    PopIsSafe(st);
    if run != [] {
      PromptStep(st, run[0]);
      if Step(st, run[0]).Next? {
        PromptIsSound(Step(st, run[0]).st, run[1..]);
      }
    }
  }

  // ----- how many elements a pop loop takes -----

  /** Iterations of the pop loop from one index to another. */
  function PopsBetween(pos: nat, stop: nat, n: nat): int {
    if pos <= stop then stop - pos else stop - pos + n
  }

  lemma {:induction false} PopLoop(st: State, k: nat)
    requires st.mutex.Popping? && |st.slots| == st.n && st.mutex.pos < st.n && st.mutex.stop < st.n
    requires k == PopsBetween(st.mutex.pos, st.mutex.stop, st.n)
    ensures var r := Execute(st, seq(k, _ => Pop));
            && r.Next? && r.st.mutex == Popping(st.mutex.op, st.mutex.stop, st.mutex.stop)
            && |r.st.popped| == |st.popped| + k && r.st.pushed == st.pushed && |r.st.slots| == st.n
    decreases k
  {
    if k != 0 {
      var st' := PopStep(st).st;
      PopLoop(st', k - 1);
      assert seq(k, _ => Pop)[1..] == seq(k - 1, _ => Pop);
    }
  }

  /**
   A pop loop that starts at the oldest element and runs to an index takes out no more elements than
   were pushed exactly when that index is fresh.
   */
  lemma PopStaysInQueueIff(st: State, op: Op, stop: nat)
    requires Inv(st.(mutex := Free)) && stop < st.n
    ensures var start := st.(mutex := Popping(op, StartIndex(st), stop));
            var k := PopsBetween(StartIndex(st), stop, st.n);
            && k >= 0 && Execute(start, seq(k, _ => Pop)).Next?
            && var st' := Execute(start, seq(k, _ => Pop)).st;
               (|st'.popped| <= st'.pushed <==> Fresh(RingOf(st), stop))
  {
    StartIsOldest(st);
    IndexCount(RingOf(st), |st.popped|);
    PopLoop(st.(mutex := Popping(op, StartIndex(st), stop)), PopsBetween(StartIndex(st), stop, st.n));
  }

  // ----- a run that pops a protected element -----

  /**
   Two sessions, three usable slots. Session 1 loads the end and stalls; one element is pushed and
   reclaimed; session 1 stores the outdated index; session 0 locks; another element is pushed. The next
   scan takes session 1's index for the bound.
   */
  const STALL: seq<Action> := [Load(1), Begin(Push), Publish]
  const RECLAIM: seq<Action> := [Begin(Poll), Scan, Scan, Scan, Pop, Pop]
  const RELOCK: seq<Action> := [Store(1), Load(0), Store(0), Recheck(0), Begin(Push), Publish]
  const RESCAN: seq<Action> := [Begin(Poll), Scan, Scan, Scan]

  lemma {:induction false} ExecuteAppend(st: State, a: seq<Action>, b: seq<Action>)
    requires Execute(st, a).Next?
    ensures Execute(st, a + b) == Execute(Execute(st, a).st, b)
    decreases |a|
  {
    if a == [] {
      assert a + b == b;
    } else {
      ExecuteAppend(Step(st, a[0]).st, a[1..], b);
      assert (a + b)[1..] == a[1..] + b;
    }
  }

  lemma {:induction false} Follow(states: seq<State>, run: seq<Action>)
    requires |states| == |run| + 1
    requires forall i :: 0 <= i < |run| ==> Step(states[i], run[i]) == Next(states[i + 1])
    ensures Execute(states[0], run) == Next(states[|run|])
    decreases |run|
  {
    if run != [] {
      Follow(states[1..], run[1..]);
    }
  }

  function Stalled(): State {
    State(4, 1, 1, false, [0, -1, -1, -1], [Session(NPOS, Idle), Session(NPOS, Loaded(0, 0))], Free, 1, [])
  }

  function Reclaimed(): State {
    Stalled().(size := 0, slots := [-1, -1, -1, -1], popped := [0])
  }

  function Relocked(): State {
    State(4, 2, 1, false, [-1, 1, -1, -1], [Session(1, Locked(1)), Session(0, Stored(0, 0))], Free, 2, [0])
  }

  lemma Stall()
    ensures Execute(Init(4, 2), STALL) == Next(Stalled())
  {
    var s0 := Init(4, 2);
    var s1 := s0.(sessions := [Session(NPOS, Idle), Session(NPOS, Loaded(0, 0))]);
    var s2 := s1.(mutex := Publishing);
    assert s0.sessions == [Session(NPOS, Idle), Session(NPOS, Idle)] && s0.slots == [-1, -1, -1, -1];
    Follow([s0, s1, s2, Stalled()], STALL);
  }

  lemma Reclaim()
    ensures Execute(Stalled(), RECLAIM) == Next(Reclaimed())
  {
    var s0 := Stalled();
    var s1 := s0.(mutex := Scanning(Poll, 4, 1, 0));
    var s2 := s0.(mutex := Scanning(Poll, 4, 1, 1));
    var s3 := s0.(mutex := Scanning(Poll, 4, 1, 2));
    var s4 := s0.(mutex := Popping(Poll, 0, 1));
    var s5 := Reclaimed().(mutex := Popping(Poll, 1, 1));
    Follow([s0, s1, s2, s3, s4, s5, Reclaimed()], RECLAIM);
  }

  lemma Relock()
    ensures Execute(Reclaimed(), RELOCK) == Next(Relocked())
  {
    var s0 := Reclaimed();
    var s1 := s0.(sessions := [Session(NPOS, Idle), Session(0, Stored(0, 0))]);
    var s2 := s0.(sessions := [Session(NPOS, Loaded(1, 1)), Session(0, Stored(0, 0))]);
    var s3 := s0.(sessions := [Session(1, Stored(1, 1)), Session(0, Stored(0, 0))]);
    var s4 := s0.(sessions := [Session(1, Locked(1)), Session(0, Stored(0, 0))]);
    var s5 := s4.(mutex := Publishing);
    Follow([s0, s1, s2, s3, s4, s5, Relocked()], RELOCK);
  }

  lemma Rescan()
    ensures Execute(Relocked(), RESCAN) == Next(Relocked().(mutex := Popping(Poll, 1, 0)))
  {
    var s0 := Relocked();
    var s1 := s0.(mutex := Scanning(Poll, 4, 2, 0));
    var s2 := s0.(mutex := Scanning(Poll, 4, 1, 1));
    var s3 := s0.(mutex := Scanning(Poll, 4, 0, 2));
    Follow([s0, s1, s2, s3, s0.(mutex := Popping(Poll, 1, 0))], RESCAN);
  }

  /** The run ends with element 1 about to be popped while session 0, locked before its push, is still locked. */
  lemma UnsafeWithoutFreshness()
    ensures var st := Execute(Init(4, 2), STALL + RECLAIM + RELOCK + RESCAN);
            st.Next? && st.st == Relocked().(mutex := Popping(Poll, 1, 0)) && !SafePop(st.st)
  {
    Stall();
    Reclaim();
    Relock();
    Rescan();
    ExecuteAppend(Init(4, 2), STALL, RECLAIM);
    ExecuteAppend(Init(4, 2), STALL + RECLAIM, RELOCK);
    ExecuteAppend(Init(4, 2), STALL + RECLAIM + RELOCK, RESCAN);
    assert Relocked().sessions[0].pc == Locked(1);
  }
}
