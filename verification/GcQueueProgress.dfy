/** What a poll takes out when nothing else moves: everything that no session holds back, and no more. */
module GcQueueProgress {
  import opened GcQueue
  import opened GcQueueSafety
  import opened GcQueueExact

  /** The pushes before the earliest index that one of the first k sessions shows, or all pushes. */
  ghost function Earliest(st: State, k: nat): int
    requires k <= |st.sessions|
  {
    if k == 0 then st.pushed
    else
      var x, e := Unwait(st.sessions[k - 1].sequence), Earliest(st, k - 1);
      if x < st.n && CountOf(RingOf(st), x) < e then CountOf(RingOf(st), x) else e
  }

  ghost predicate AllFresh(st: State) {
    forall s :: 0 <= s < |st.sessions| ==> Fresh(RingOf(st), Unwait(st.sessions[s].sequence))
  }

  lemma {:induction false} EarliestFresh(st: State, k: nat)
    requires AllFresh(st) && k <= |st.sessions| && |st.popped| <= st.pushed
    ensures |st.popped| <= Earliest(st, k) <= st.pushed
  {
    if k > 0 {
      EarliestFresh(st, k - 1);
      assert Fresh(RingOf(st), Unwait(st.sessions[k - 1].sequence));
    }
  }

  /** One session read: the bound is the earlier of what it was and what the session shows. */
  lemma ReadOne(st: State, low: nat, i: nat)
    requires Inv(st) && st.mutex.Free? && i < |st.sessions|
    requires low < st.n && CountOf(RingOf(st), low) == Earliest(st, i)
    ensures var low' := Lower(Unwait(st.sessions[i].sequence), low, st);
            && low' < st.n && CountOf(RingOf(st), low') == Earliest(st, i + 1)
            && ScanStep(st.(mutex := Scanning(Poll, st.n, low, i)))
               == Next(st.(mutex := Scanning(Poll, st.n, low', i + 1)))
  {
    var r, x := RingOf(st), Unwait(st.sessions[i].sequence);
    assert SessionOk(r, st.sessions[i]);
    SessionRead(r, st.sessions[i]);
    if x < st.n {
      OrderIsCount(r, x, low);
    } else {
      UnlockedIgnoredIff(st.n);
      assert UnlockedIgnored(st, low);
    }
  }

  lemma FirstStep(st: State, a: Action, k: nat)
    requires k > 0 && Step(st, a).Next?
    ensures Execute(st, seq(k, _ => a)) == Execute(Step(st, a).st, seq(k - 1, _ => a))
  {
    assert seq(k, _ => a)[1..] == seq(k - 1, _ => a);
  }

  /** The bound after reading the sessions from i on. */
  ghost function BoundFrom(st: State, low: nat, i: nat): nat
    requires i <= |st.sessions|
    decreases |st.sessions| - i
  {
    if i == |st.sessions| then low
    else BoundFrom(st, Lower(Unwait(st.sessions[i].sequence), low, st), i + 1)
  }

  lemma {:induction false} BoundIsEarliest(st: State, low: nat, i: nat)
    requires Inv(st) && st.mutex.Free? && i <= |st.sessions|
    requires low < st.n && CountOf(RingOf(st), low) == Earliest(st, i)
    ensures BoundFrom(st, low, i) < st.n && CountOf(RingOf(st), BoundFrom(st, low, i)) == Earliest(st, |st.sessions|)
    decreases |st.sessions| - i
  {
    if i < |st.sessions| {
      ReadOne(st, low, i);
      BoundIsEarliest(st, Lower(Unwait(st.sessions[i].sequence), low, st), i + 1);
    }
  }

  lemma {:induction false} ReadAll(st: State, low: nat, i: nat)
    requires Inv(st) && st.mutex.Free? && i <= |st.sessions|
    requires low < st.n && CountOf(RingOf(st), low) == Earliest(st, i)
    ensures Execute(st.(mutex := Scanning(Poll, st.n, low, i)), seq(|st.sessions| - i + 1, _ => Scan))
         == Next(st.(mutex := Popping(Poll, StartIndex(st), BoundFrom(st, low, i))))
    decreases |st.sessions| - i
  {
    var at := st.(mutex := Scanning(Poll, st.n, low, i));
    if i < |st.sessions| {
      ReadOne(st, low, i);
      ReadAll(st, Lower(Unwait(st.sessions[i].sequence), low, st), i + 1);
    }
    FirstStep(at, Scan, |st.sessions| - i + 1);
  }

  function PollRun(sessions: nat, k: nat): seq<Action> {
    [Begin(Poll)] + seq(sessions + 1, _ => Scan) + (seq(k, _ => Pop) + [Pop])
  }

  /** The first half of a poll: the scan settles on the earliest index. */
  lemma PollScans(st: State, m: nat) returns (stop: nat)
    requires Inv(st) && st.mutex.Free? && m == |st.sessions|
    ensures stop < st.n && CountOf(RingOf(st), stop) == Earliest(st, m)
    ensures Execute(st, [Begin(Poll)] + seq(m + 1, _ => Scan)) ==
              Next(st.(mutex := Popping(Poll, StartIndex(st), stop)))
  {
    var begun, scans := BeginStep(st, Poll).st, seq(m + 1, _ => Scan);
    assert Earliest(st, 0) == CountOf(RingOf(st), st.end);
    stop := BoundFrom(st, st.end, 0);
    BoundIsEarliest(st, st.end, 0);
    ReadAll(st, st.end, 0);
    ExecuteAppend(st, [Begin(Poll)], scans);
  }

  /** The second half: the pops up to that index. */
  lemma PollPops(st: State, popping: State, stop: nat, k: nat)
    requires Inv(st) && stop < st.n && popping == st.(mutex := Popping(Poll, StartIndex(st), stop))
    requires |st.popped| <= CountOf(RingOf(st), stop) && k == CountOf(RingOf(st), stop) - |st.popped|
    ensures var r := Execute(popping, seq(k, _ => Pop) + [Pop]);
            r.Next? && r.st.mutex.Free? && r.st.pushed == st.pushed && |r.st.popped| == |st.popped| + k
  {
    StartIsOldest(st);
    IndexCount(RingOf(st), |st.popped|);
    assert k == PopsBetween(StartIndex(st), stop, st.n);
    PopLoop(popping, k);
    var r := Execute(popping, seq(k, _ => Pop)).st;
    LastPop(r);
    ExecuteAppend(popping, seq(k, _ => Pop), [Pop]);
  }

  lemma LastPop(st: State)
    requires st.mutex.Popping? && st.mutex.op == Poll && st.mutex.pos == st.mutex.stop < |st.slots|
    ensures Execute(st, [Pop]) == Next(st.(mutex := Free))
  {
    assert [Pop][1..] == [];
  }

  /** A whole poll: it leaves in the queue exactly the elements from the earliest index on. */
  lemma PollReclaims(st: State)
    requires Inv(st) && st.mutex.Free? && AllFresh(st)
    ensures |st.popped| <= Earliest(st, |st.sessions|) <= st.pushed
    ensures var k := Earliest(st, |st.sessions|) - |st.popped|;
            var r := Execute(st, PollRun(|st.sessions|, k));
            && r.Next? && r.st.mutex.Free? && r.st.pushed == st.pushed
            && |r.st.popped| == Earliest(st, |st.sessions|)
  {
    var m := |st.sessions|;
    EarliestFresh(st, m);
    var k := Earliest(st, m) - |st.popped|;
    var stop := PollScans(st, m);
    var popping := st.(mutex := Popping(Poll, StartIndex(st), stop));
    PollPops(st, popping, stop, k);
    ExecuteAppend(st, [Begin(Poll)] + seq(m + 1, _ => Scan), seq(k, _ => Pop) + [Pop]);
  }

  /** With no session locked or about to be, nothing is left. */
  lemma {:induction false} NoneHeld(st: State, k: nat)
    requires RingOk(RingOf(st)) && k <= |st.sessions| && forall s :: 0 <= s < k ==> st.sessions[s].sequence == NPOS
    ensures Earliest(st, k) == st.pushed
  {
    if k > 0 {
      NoneHeld(st, k - 1);
    }
  }
}
