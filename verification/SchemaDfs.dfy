/** The search that lays out all reachable types with an explicit stack, and what it reports. */
module SchemaDfs {
  import opened SchemaModel

  /** A type on the stack whose needed types are still being laid out, or a finished one. */
  datatype Entry = Pending(position: nat) | Done(compiled: Compiled)

  /** The search: entries, the stack with its top at the end, the next round's roots, and the finishing order. */
  datatype Search = Search(types: map<nat, Entry>, stack: seq<nat>, queue: seq<nat>, order: seq<nat>)

  datatype Outcome = Fine | Recursive | ZeroSize | TooBig

  // ----- what the search keeps -----

  predicate IsDone(s: Search, v: nat) {
    v in s.types && s.types[v].Done?
  }

  predicate IsPending(s: Search, v: nat) {
    v in s.types && s.types[v].Pending?
  }

  predicate Seen(s: Search, v: nat) {
    v in s.types || v in s.stack || v in s.queue
  }

  /** Every pending type sits at its position. */
  ghost predicate Placed(s: Search) {
    forall v: nat :: IsPending(s, v) ==> s.types[v].position < |s.stack| && s.stack[s.types[v].position] == v
  }

  /** Everything above a pending type is needed by it. */
  ghost predicate Above(g: Schema, s: Search) {
    forall v: nat, i: nat :: IsPending(s, v) && s.types[v].position < i < |s.stack| ==> Needs(g, v, s.stack[i])
  }

  /** What a pending type needs is finished or above it. */
  ghost predicate Waiting(g: Schema, s: Search) {
    forall v: nat, c: nat :: IsPending(s, v) && v < |g| && c in Strong(g[v]) ==> Waits(s, s.types[v].position, c)
  }

  predicate Waits(s: Search, position: nat, c: nat) {
    IsDone(s, c) || (position < |s.stack| && c in s.stack[position + 1..])
  }

  /** The finished types, each after those it needs. */
  ghost predicate Ordered(g: Schema, s: Search) {
    && (forall v: nat :: v in s.order <==> IsDone(s, v))
    && (forall k: nat, c: nat :: 0 <= k < |s.order| && s.order[k] < |g| && c in Strong(g[s.order[k]]) ==>
          c in s.order[..k])
  }

  /** Nothing that is referred to gets lost. */
  ghost predicate Complete(g: Schema, roots: seq<nat>, s: Search) {
    && (forall r: nat :: r in roots ==> Seen(s, r))
    && (forall v: nat, c: nat :: IsDone(s, v) && v < |g| && c in Weak(g[v]) ==> Seen(s, c))
  }

  /** Only reachable types are looked at. */
  ghost predicate Sound(g: Schema, roots: seq<nat>, s: Search) {
    forall v: nat :: Seen(s, v) ==> v < |g| && Reachable(g, roots, v)
  }

  /** Finished types have the layout that plain recursion gives, and are not empty structs. */
  ghost predicate LaidOut(g: Schema, s: Search) {
    && (forall k: nat :: 0 <= k < |s.order| ==>
          IsDone(s, s.order[k]) && Layout(g, s.order[k], k + 1) == Laid(s.types[s.order[k]].compiled))
    && (forall v: nat :: v in s.types && v < |g| ==> g[v] != Struct([]))
    && (forall v: nat :: IsPending(s, v) && v < |g| ==> !Terminal(g[v]))
  }

  ghost predicate Inv(g: Schema, roots: seq<nat>, s: Search) {
    Placed(s) && Above(g, s) && Waiting(g, s) && Ordered(g, s) && Complete(g, roots, s) && Sound(g, roots, s)
    && LaidOut(g, s)
  }

  // ----- the four things that can happen to the top of the stack -----

  function Rest(s: seq<nat>): seq<nat>
    requires s != []
  {
    s[..|s| - 1]
  }

  function Top(s: seq<nat>): nat
    requires s != []
  {
    s[|s| - 1]
  }

  /** A finished type is met again. */
  function Skip(s: Search): Search
    requires s.stack != []
  {
    s.(stack := Rest(s.stack))
  }

  /** A type is met for the first time: it stays on the stack, below the types it needs. */
  function Begin(g: Schema, s: Search): Search
    requires s.stack != [] && Top(s.stack) < |g|
  {
    var v, rest := Top(s.stack), Rest(s.stack);
    s.(types := s.types[v := Pending(|rest|)], stack := rest + [v] + Strong(g[v]))
  }

  /** A type that needs no other is finished at once, and what it refers to is left for the next round. */
  function Close(g: Schema, s: Search): Search
    requires s.stack != [] && Top(s.stack) < |g| && Terminal(g[Top(s.stack)])
  {
    var v, rest := Top(s.stack), Rest(s.stack);
    Search(s.types[v := Done(TerminalLayout(g[v]))], rest, s.queue + Weak(g[v]), s.order + [v])
  }

  /** A pending type is met at its own position: all it needs is finished. */
  function Conclude(s: Search, c: Compiled): Search
    requires s.stack != []
  {
    var v, rest := Top(s.stack), Rest(s.stack);
    Search(s.types[v := Done(c)], rest, s.queue, s.order + [v])
  }

  lemma Split(s: seq<nat>)
    requires s != []
    ensures s == Rest(s) + [Top(s)]
  {
  }

  /** Taking the finished top off the stack. */
  lemma PopWaits(s: Search, s': Search, p: nat, c: nat)
    requires s.stack != [] && s'.stack == Rest(s.stack) && Waits(s, p, c) && p < |s'.stack|
    requires IsDone(s', Top(s.stack)) && (IsDone(s, c) ==> IsDone(s', c))
    ensures Waits(s', p, c)
  {
    assert s.stack[p + 1..] == s'.stack[p + 1..] + [Top(s.stack)];
  }

  /** Entries other than the top's stay as they are, and the top is finished now. */
  ghost predicate Popped(s: Search, s': Search) {
    && s.stack != [] && s'.stack == Rest(s.stack) && IsDone(s', Top(s.stack))
    && forall v: nat :: v != Top(s.stack) ==>
         (v in s'.types <==> v in s.types) && (v in s.types ==> s'.types[v] == s.types[v])
  }

  lemma PopKeeps(g: Schema, s: Search, s': Search)
    requires Placed(s) && Above(g, s) && Waiting(g, s) && Popped(s, s')
    requires IsDone(s, Top(s.stack)) ==> s'.types == s.types
    ensures Placed(s') && Above(g, s') && Waiting(g, s')
  {
    forall v: nat | IsPending(s', v)
      ensures s'.types[v].position < |s'.stack| && s'.stack[s'.types[v].position] == v
    {
      assert IsPending(s, v);
    }
    forall v: nat, i: nat | IsPending(s', v) && s'.types[v].position < i < |s'.stack|
      ensures Needs(g, v, s'.stack[i])
    {
      assert IsPending(s, v) && s'.stack[i] == s.stack[i];
    }
    forall v: nat, c: nat | IsPending(s', v) && v < |g| && c in Strong(g[v])
      ensures Waits(s', s'.types[v].position, c)
    {
      assert IsPending(s, v) && Waits(s, s.types[v].position, c);
      PopWaits(s, s', s.types[v].position, c);
    }
  }

  lemma SkipKeeps(g: Schema, roots: seq<nat>, s: Search)
    requires Inv(g, roots, s) && s.stack != [] && IsDone(s, Top(s.stack))
    ensures Inv(g, roots, Skip(s))
  {
    var s' := Skip(s);
    PopKeeps(g, s, s');
    Split(s.stack);
    assert forall v: nat :: Seen(s', v) <==> Seen(s, v);
  }

  lemma BeginKeeps(g: Schema, roots: seq<nat>, s: Search)
    requires Closed(g) && Inv(g, roots, s) && s.stack != [] && Top(s.stack) < |g| && Top(s.stack) !in s.types
    requires g[Top(s.stack)] != Struct([]) && !Terminal(g[Top(s.stack)])
    ensures Inv(g, roots, Begin(g, s))
  {
    var v, s' := Top(s.stack), Begin(g, s);
    Split(s.stack);
    assert s'.stack == s.stack + Strong(g[v]);
    BeginAbove(g, s);
    BeginWaiting(g, s);
    assert forall u: nat :: IsDone(s', u) <==> IsDone(s, u);
    assert forall u: nat :: Seen(s, u) ==> Seen(s', u);
    forall u: nat | Seen(s', u)
      ensures u < |g| && Reachable(g, roots, u)
    {
      if !Seen(s, u) {
        assert Seen(s, v) && u in Strong(g[v]);
        ReachableChild(g, roots, v, u);
      }
    }
  }

  lemma BeginAbove(g: Schema, s: Search)
    requires s.stack != [] && Top(s.stack) < |g| && Top(s.stack) !in s.types
    requires Placed(s) && Above(g, s)
    ensures Placed(Begin(g, s)) && Above(g, Begin(g, s))
  {
    var v, s' := Top(s.stack), Begin(g, s);
    Split(s.stack);
    assert s'.stack == s.stack + Strong(g[v]);
    forall u: nat, i: nat | IsPending(s', u) && s'.types[u].position < i < |s'.stack|
      ensures Needs(g, u, s'.stack[i])
    {
      assert u != v ==> IsPending(s, u) && s.types[u] == s'.types[u];
      if i >= |s.stack| {
        assert s'.stack[i] == Strong(g[v])[i - |s.stack|];
        if u == v {
          NeedsChild(g, v, s'.stack[i]);
        } else {
          assert Needs(g, u, s.stack[|s.stack| - 1]);
          NeedsStep(g, u, v, s'.stack[i]);
        }
      }
    }
  }

  lemma BeginWaiting(g: Schema, s: Search)
    requires s.stack != [] && Top(s.stack) < |g| && Top(s.stack) !in s.types && Placed(s) && Waiting(g, s)
    ensures Waiting(g, Begin(g, s))
  {
    var v, s' := Top(s.stack), Begin(g, s);
    Split(s.stack);
    assert s'.stack == s.stack + Strong(g[v]);
    forall u: nat, c: nat | IsPending(s', u) && u < |g| && c in Strong(g[u])
      ensures Waits(s', s'.types[u].position, c)
    {
      if u == v {
        assert s'.stack[|s.stack|..] == Strong(g[v]);
      } else {
        var p := s.types[u].position;
        assert IsPending(s, u) && Waits(s, p, c);
        assert s'.stack[p + 1..] == s.stack[p + 1..] + Strong(g[v]);
      }
    }
  }

  lemma CloseKeeps(g: Schema, roots: seq<nat>, s: Search)
    requires Closed(g) && Inv(g, roots, s) && s.stack != [] && Top(s.stack) < |g| && Top(s.stack) !in s.types
    requires Terminal(g[Top(s.stack)])
    ensures Inv(g, roots, Close(g, s))
  {
    var v, s' := Top(s.stack), Close(g, s);
    Split(s.stack);
    PopKeeps(g, s, s');
    assert Seen(s, v);
    AppendOrdered(g, s, s', v);
    CloseSees(g, roots, s);
  }

  lemma CloseSees(g: Schema, roots: seq<nat>, s: Search)
    requires Closed(g) && s.stack != [] && Top(s.stack) < |g| && Terminal(g[Top(s.stack)])
    requires Complete(g, roots, s) && Sound(g, roots, s)
    ensures Complete(g, roots, Close(g, s)) && Sound(g, roots, Close(g, s))
  {
    var v, s' := Top(s.stack), Close(g, s);
    Split(s.stack);
    assert Seen(s, v);
    assert forall u: nat :: Seen(s, u) ==> Seen(s', u);
    forall u: nat, c: nat | IsDone(s', u) && u < |g| && c in Weak(g[u])
      ensures Seen(s', c)
    {
      assert u != v ==> IsDone(s, u);
    }
    forall u: nat | Seen(s', u)
      ensures u < |g| && Reachable(g, roots, u)
    {
      if !Seen(s, u) {
        ReachableChild(g, roots, v, u);
      }
    }
  }

  /** The finished top goes to the end of the order. */
  lemma AppendOrdered(g: Schema, s: Search, s': Search, v: nat)
    requires Ordered(g, s) && LaidOut(g, s) && s.stack != [] && v == Top(s.stack) && v < |g| && Popped(s, s')
    requires !IsDone(s, v) && s'.order == s.order + [v] && g[v] != Struct([])
    requires forall c :: c in Strong(g[v]) ==> c in s.order
    requires Layout(g, v, |s.order| + 1) == Laid(s'.types[v].compiled)
    ensures Ordered(g, s') && LaidOut(g, s')
  {
    AppendEarlier(g, s.order, v);
    AppendLaid(g, s, s', v);
  }

  lemma AppendEarlier(g: Schema, order: seq<nat>, v: nat)
    requires forall k: nat, c: nat :: 0 <= k < |order| && order[k] < |g| && c in Strong(g[order[k]]) ==> c in order[..k]
    requires v < |g| && forall c :: c in Strong(g[v]) ==> c in order
    ensures var o := order + [v];
            forall k: nat, c: nat :: 0 <= k < |o| && o[k] < |g| && c in Strong(g[o[k]]) ==> c in o[..k]
  {
    var o := order + [v];
    forall k: nat, c: nat | 0 <= k < |o| && o[k] < |g| && c in Strong(g[o[k]])
      ensures c in o[..k]
    {
      if k < |order| {
        assert o[k] == order[k] && o[..k] == order[..k];
      } else {
        assert o[..k] == order;
      }
    }
  }

  lemma AppendLaid(g: Schema, s: Search, s': Search, v: nat)
    requires Ordered(g, s) && LaidOut(g, s) && s.stack != [] && v == Top(s.stack) && v < |g| && Popped(s, s')
    requires !IsDone(s, v) && s'.order == s.order + [v] && g[v] != Struct([])
    requires Layout(g, v, |s.order| + 1) == Laid(s'.types[v].compiled)
    ensures LaidOut(g, s')
  {
    forall k: nat | 0 <= k < |s'.order|
      ensures IsDone(s', s'.order[k]) && Layout(g, s'.order[k], k + 1) == Laid(s'.types[s'.order[k]].compiled)
    {
      if k < |s.order| {
        assert s'.order[k] == s.order[k] && IsDone(s, s.order[k]);
      }
    }
  }

  /** The layouts of what the top needs, from the table. */
  function Needed(g: Schema, s: Search, vs: seq<nat>): (r: seq<Compiled>)
    requires forall c :: c in vs ==> IsDone(s, c)
    ensures |r| == |vs| && forall i :: 0 <= i < |vs| ==> IsDone(s, vs[i]) && r[i] == s.types[vs[i]].compiled
  {
    if vs == [] then [] else
      assert vs[0] in vs && IsDone(s, vs[0]);
      [s.types[vs[0]].compiled] + Needed(g, s, vs[1..])
  }

  /** At its own position, everything a pending type needs is finished. */
  lemma ReadyToConclude(g: Schema, roots: seq<nat>, s: Search)
    requires Inv(g, roots, s) && s.stack != [] && Top(s.stack) < |g|
    requires Top(s.stack) in s.types && s.types[Top(s.stack)] == Pending(|s.stack| - 1)
    ensures forall c :: c in Strong(g[Top(s.stack)]) ==> IsDone(s, c)
  {
    var v := Top(s.stack);
    forall c | c in Strong(g[v])
      ensures IsDone(s, c)
    {
      assert IsPending(s, v) && Waits(s, |s.stack| - 1, c);
    }
  }

  lemma {:induction false} NeededLayouts(g: Schema, s: Search, v: nat)
    requires Ordered(g, s) && LaidOut(g, s) && v < |g| && !Terminal(g[v])
    requires forall c :: c in Strong(g[v]) ==> IsDone(s, c)
    ensures Layout(g, v, |s.order| + 1) == Finish(g[v], Needed(g, s, Strong(g[v])))
  {
    var vs := Strong(g[v]);
    forall i: nat | i < |vs|
      ensures Layout(g, vs[i], |s.order|) == Laid(Needed(g, s, vs)[i])
    {
      assert vs[i] in vs && IsDone(s, vs[i]) && vs[i] in s.order;
      var k: nat :| k < |s.order| && s.order[k] == vs[i];
      LayoutStable(g, vs[i], k + 1, |s.order|);
    }
    LayoutsAre(g, vs, |s.order|, Needed(g, s, vs));
  }

  lemma ConcludeKeeps(g: Schema, roots: seq<nat>, s: Search, c: Compiled)
    requires Inv(g, roots, s) && s.stack != [] && Top(s.stack) < |g| && !Terminal(g[Top(s.stack)])
    requires Top(s.stack) in s.types && s.types[Top(s.stack)] == Pending(|s.stack| - 1)
    requires forall d :: d in Strong(g[Top(s.stack)]) ==> IsDone(s, d)
    requires Finish(g[Top(s.stack)], Needed(g, s, Strong(g[Top(s.stack)]))) == Laid(c)
    ensures Inv(g, roots, Conclude(s, c))
  {
    var v, s' := Top(s.stack), Conclude(s, c);
    Split(s.stack);
    PopKeeps(g, s, s');
    NeededLayouts(g, s, v);
    AppendOrdered(g, s, s', v);
    assert Weak(g[v]) == [];
    assert forall u: nat :: Seen(s', u) <==> Seen(s, u);
  }

  /** A pending type that is met above its own position needs itself. */
  lemma RecursiveNeedsItself(g: Schema, roots: seq<nat>, s: Search)
    requires Inv(g, roots, s) && s.stack != [] && IsPending(s, Top(s.stack))
    requires s.types[Top(s.stack)].position != |s.stack| - 1
    ensures Needs(g, Top(s.stack), Top(s.stack)) && Reachable(g, roots, Top(s.stack))
  {
    var v := Top(s.stack);
    assert s.types[v].position < |s.stack| - 1;
    assert Seen(s, v);
  }

  // ----- what the outcome says -----

  ghost predicate HasCycle(g: Schema, roots: seq<nat>) {
    exists v: nat :: Reachable(g, roots, v) && Needs(g, v, v)
  }

  ghost predicate HasEmptyStruct(g: Schema, roots: seq<nat>) {
    exists v: nat :: v < |g| && Reachable(g, roots, v) && g[v] == Struct([])
  }

  /** A member would start beyond what its 16-bit offset can say. */
  ghost predicate HasOversized(g: Schema, roots: seq<nat>) {
    exists v: nat, d: nat :: Reachable(g, roots, v) && Layout(g, v, d) == Oversized
  }

  ghost predicate Justified(g: Schema, roots: seq<nat>, r: Outcome) {
    match r
    case Fine => true
    case Recursive => HasCycle(g, roots)
    case ZeroSize => HasEmptyStruct(g, roots)
    case TooBig => HasOversized(g, roots)
  }

  /** Exactly the reachable types are laid out, as plain recursion would. */
  ghost predicate AllLaid(g: Schema, roots: seq<nat>, types: map<nat, Entry>) {
    && (forall v: nat :: v in types <==> Reachable(g, roots, v))
    && (forall v: nat :: v in types ==> types[v].Done? && LaidAs(g, v, types[v].compiled))
  }

  ghost predicate LaidAs(g: Schema, v: nat, c: Compiled) {
    exists d: nat :: Layout(g, v, d) == Laid(c)
  }

  lemma {:induction false} RootPathDone(g: Schema, roots: seq<nat>, s: Search, p: seq<nat>, i: nat)
    requires Inv(g, roots, s) && s.stack == [] && s.queue == [] && RootPath(g, roots, p) && i < |p|
    ensures IsDone(s, p[i])
  {
    if i == 0 {
      assert Seen(s, p[0]);
    } else {
      RootPathDone(g, roots, s, p, i - 1);
      var v := p[i - 1];
      assert v in s.order && Seen(s, v);
      var k: nat :| k < |s.order| && s.order[k] == v;
      if p[i] in Strong(g[v]) {
        assert p[i] in s.order[..k];
        assert p[i] in s.order;
      } else {
        assert Seen(s, p[i]);
      }
    }
    assert !IsPending(s, p[i]);
  }

  /** Along a path of needs, the types were finished earlier and earlier. */
  lemma {:induction false} NeedsGoesBack(g: Schema, s: Search, p: seq<nat>, i: nat, k: nat)
    requires Ordered(g, s) && StrongPath(g, p) && 1 <= i < |p| && k <= |s.order| && p[0] in s.order[..k]
    ensures k > 0 && p[i] in s.order[..k - 1]
  {
    var j: nat :| j < k && s.order[..k][j] == p[0];
    assert s.order[j] == p[0];
    if i == 1 {
      assert p[0 + 1] in s.order[..j];
      assert s.order[..j] <= s.order[..k - 1];
    } else {
      NeedsGoesBack(g, s, p, i - 1, k);
      var l: nat :| l < k - 1 && s.order[..k - 1][l] == p[i - 1];
      assert s.order[l] == p[i - 1] && p[i - 1 + 1] in s.order[..l];
      assert s.order[..l] <= s.order[..k - 1];
    }
  }

  /** Nothing in the finishing order needs itself. */
  lemma {:induction false} NoneNeedsItself(g: Schema, s: Search, v: nat, k: nat)
    requires Ordered(g, s) && k <= |s.order| && v in s.order[..k]
    ensures !Needs(g, v, v)
    decreases k
  {
    if Needs(g, v, v) {
      var p :| StrongPath(g, p) && p[0] == v && p[|p| - 1] == v;
      NeedsGoesBack(g, s, p, |p| - 1, k);
      NoneNeedsItself(g, s, v, k - 1);
    }
  }

  lemma ReachableDone(g: Schema, roots: seq<nat>, s: Search, v: nat)
    requires Inv(g, roots, s) && s.stack == [] && s.queue == [] && Reachable(g, roots, v)
    ensures IsDone(s, v) && v in s.order && v < |g| && g[v] != Struct([]) && !Needs(g, v, v)
  {
    var p :| RootPath(g, roots, p) && p[|p| - 1] == v;
    RootPathDone(g, roots, s, p, |p| - 1);
    assert v in s.order && Seen(s, v);
    assert s.order[..|s.order|] == s.order;
    NoneNeedsItself(g, s, v, |s.order|);
  }

  lemma DoneLaid(g: Schema, roots: seq<nat>, s: Search, v: nat) returns (d: nat)
    requires Inv(g, roots, s) && s.stack == [] && s.queue == [] && v in s.types
    ensures Reachable(g, roots, v) && s.types[v].Done? && Layout(g, v, d) == Laid(s.types[v].compiled)
  {
    assert Seen(s, v) && !IsPending(s, v) && IsDone(s, v);
    var k: nat :| k < |s.order| && s.order[k] == v;
    d := k + 1;
  }

  /** When both the stack and the queue are empty, everything reachable is laid out and nothing is wrong. */
  lemma FinishedIsComplete(g: Schema, roots: seq<nat>, s: Search)
    requires Inv(g, roots, s) && s.stack == [] && s.queue == []
    ensures AllLaid(g, roots, s.types)
    ensures !HasCycle(g, roots) && !HasEmptyStruct(g, roots) && !HasOversized(g, roots)
  {
    EverythingLaid(g, roots, s);
    NothingWrong(g, roots, s);
  }

  lemma EverythingLaid(g: Schema, roots: seq<nat>, s: Search)
    requires Inv(g, roots, s) && s.stack == [] && s.queue == []
    ensures AllLaid(g, roots, s.types)
  {
    forall v: nat | v in s.types
      ensures Reachable(g, roots, v) && s.types[v].Done? && LaidAs(g, v, s.types[v].compiled)
    {
      var d := DoneLaid(g, roots, s, v);
    }
    forall v: nat | Reachable(g, roots, v)
      ensures v in s.types
    {
      ReachableDone(g, roots, s, v);
    }
  }

  lemma NothingWrong(g: Schema, roots: seq<nat>, s: Search)
    requires Inv(g, roots, s) && s.stack == [] && s.queue == []
    ensures !HasCycle(g, roots) && !HasEmptyStruct(g, roots) && !HasOversized(g, roots)
  {
    forall v: nat | Reachable(g, roots, v)
      ensures v < |g| && g[v] != Struct([]) && !Needs(g, v, v)
    {
      ReachableDone(g, roots, s, v);
    }
    forall v: nat, d: nat | Reachable(g, roots, v)
      ensures Layout(g, v, d) != Oversized
    {
      ReachableFits(g, roots, s, v, d);
    }
  }

  lemma ReachableFits(g: Schema, roots: seq<nat>, s: Search, v: nat, d: nat)
    requires Inv(g, roots, s) && s.stack == [] && s.queue == [] && Reachable(g, roots, v)
    ensures Layout(g, v, d) != Oversized
  {
    ReachableDone(g, roots, s, v);
    var d' := DoneLaid(g, roots, s, v);
    LaidNotOversized(g, v, d', d);
  }

  /** A type whose layout succeeds at some depth is not oversized at another. */
  lemma LaidNotOversized(g: Schema, v: nat, d: nat, d': nat)
    requires Layout(g, v, d).Laid?
    ensures Layout(g, v, d') != Oversized
  {
    if d <= d' {
      LayoutStable(g, v, d, d');
    } else if Layout(g, v, d') == Oversized {
      OversizedStable(g, v, d', d);
    }
  }

  lemma OversizedStable(g: Schema, v: nat, d: nat, d': nat)
    requires d <= d' && Layout(g, v, d) == Oversized
    ensures Layout(g, v, d') == Oversized
  {
    LayoutsStable(g, Strong(g[v]), d - 1, d' - 1);
  }

  // ----- the search itself -----

  ghost function Below(n: nat): (r: set<nat>)
    ensures forall v: nat :: v in r <==> v < n
  {
    if n == 0 then {} else Below(n - 1) + {n - 1}
  }

  ghost function Finishes(s: Search): set<nat> {
    set v | v in s.types && s.types[v].Done?
  }

  /** Either a new type is met, or another one is finished, or the stack gets shorter. */
  ghost predicate Progress(s: Search, s': Search) {
    && s.types.Keys <= s'.types.Keys
    && (s.types.Keys == s'.types.Keys ==>
          s'.queue == s.queue && Finishes(s) <= Finishes(s')
          && (Finishes(s) == Finishes(s') ==> |s'.stack| < |s.stack|))
  }

  lemma SkipProgress(s: Search)
    requires s.stack != []
    ensures Progress(s, Skip(s))
  {
    assert Finishes(s) == Finishes(Skip(s));
  }

  lemma BeginProgress(g: Schema, s: Search)
    requires s.stack != [] && Top(s.stack) < |g| && Top(s.stack) !in s.types
    ensures Progress(s, Begin(g, s))
  {
    assert Top(s.stack) in Begin(g, s).types.Keys;
  }

  lemma CloseProgress(g: Schema, s: Search)
    requires s.stack != [] && Top(s.stack) < |g| && Top(s.stack) !in s.types && Terminal(g[Top(s.stack)])
    ensures Progress(s, Close(g, s))
  {
    assert Top(s.stack) in Close(g, s).types.Keys;
  }

  lemma ConcludeProgress(s: Search, c: Compiled)
    requires s.stack != [] && IsPending(s, Top(s.stack))
    ensures Progress(s, Conclude(s, c))
  {
    var s' := Conclude(s, c);
    assert Top(s.stack) in Finishes(s') && Top(s.stack) !in Finishes(s);
    assert s'.types.Keys == s.types.Keys;
  }

  /** The next round starts from what the last one left. */
  lemma SwapKeeps(g: Schema, roots: seq<nat>, s: Search)
    requires Inv(g, roots, s) && s.stack == []
    ensures Inv(g, roots, s.(stack := s.queue, queue := []))
  {
    var s' := s.(stack := s.queue, queue := []);
    assert forall v: nat :: Seen(s', v) <==> Seen(s, v);
    assert forall v: nat :: !IsPending(s, v);
    assert forall v: nat :: IsDone(s', v) <==> IsDone(s, v);
  }

  datatype Event = Start | Finished | Again | Cycle

  class CompiledSchema {
    const g: Schema
    var types: map<nat, Entry>
    var stack: seq<nat>
    var queue: seq<nat>
    ghost var order: seq<nat>

    ghost function View(): Search
      reads this
    {
      Search(types, stack, queue, order)
    }

    /** The search before its first round. */
    constructor (g: Schema, roots: seq<nat>)
      requires forall r :: r in roots ==> r < |g|
      ensures this.g == g && View() == Search(map[], [], roots, []) && Inv(g, roots, View())
    {
      this.g := g;
      types, stack, queue, order := map[], [], roots, [];
      new;
      forall r: nat | r in roots
        ensures Reachable(g, roots, r)
      {
        ReachableRoot(g, roots, r);
      }
    }

    /** Meets the type v, just taken off the stack. */
    method Discover(v: nat) returns (e: Event)
      modifies this`types, this`stack
      ensures e == Start <==> v !in old(types)
      ensures e == Start ==> types == old(types)[v := Pending(|old(stack)|)] && stack == old(stack) + [v]
      ensures e != Start ==> types == old(types) && stack == old(stack)
      ensures e == Again <==> v in old(types) && old(types)[v].Done?
      ensures e == Finished <==> v in old(types) && old(types)[v] == Pending(|old(stack)|)
    {
      if v !in types {
        types := types[v := Pending(|stack|)];
        stack := stack + [v];
        return Start;
      } else if types[v].Pending? {
        return if types[v].position != |stack| then Cycle else Finished;
      } else {
        return Again;
      }
    }

    /** Members one after the other, each type looked up in the table. */
    method LinkMembers(variable: bool, members: seq<nat>) returns (part: Part)
      requires forall c :: c in members ==> IsDone(View(), c)
      ensures part == AddMembers(Part(0, variable, []), members, Needed(g, View(), members))
    {
      part := Part(0, variable, []);
      var i := 0;
      ghost var layouts := Needed(g, View(), members);
      assert members[0..] == members && layouts[0..] == layouts;
      while i < |members| && part.Part?
        invariant i <= |members|
        invariant AddMembers(Part(0, variable, []), members, layouts) == AddMembers(part, members[i..], layouts[i..])
      {
        assert members[i] in members && layouts[i] == types[members[i]].compiled;
        assert members[i..][1..] == members[i + 1..] && layouts[i..][1..] == layouts[i + 1..];
        part := AddMember(part, members[i], types[members[i]].compiled);
        i := i + 1;
      }
    }

    /** The layout of a type whose needed types are all in the table. */
    method Link(v: nat) returns (r: Laid)
      requires v < |g| && !Terminal(g[v]) && forall c :: c in Strong(g[v]) ==> IsDone(View(), c)
      ensures r == Finish(g[v], Needed(g, View(), Strong(g[v])))
    {
      match g[v]
      case Object(ms) =>
        var part := LinkMembers(true, ms);
        r := FromPart(ObjectKind, part);
      case Struct(ms) =>
        var part := LinkMembers(false, ms);
        r := FromPart(StructKind, part);
      case Tuple(ms) =>
        var part := LinkMembers(true, ms);
        r := FromPart(ObjectKind, part);
      case Array(e, len) =>
        var part := LinkMembers(false, [e]);
        r := Repeat(FromPart(ArrayKind, part), len);
      case FracPack(e) =>
        r := Laid(Plain(Nested, [e]));
      case Custom(e) =>
        assert e in Strong(g[v]);
        r := Laid(types[e].compiled);
    }

    /** Takes the top off the stack and handles it. */
    method Visit(ghost roots: seq<nat>) returns (r: Outcome)
      requires Closed(g) && Inv(g, roots, View()) && stack != []
      modifies this
      ensures Justified(g, roots, r)
      ensures r == Fine ==> Inv(g, roots, View()) && Progress(old(View()), View())
    {
      var v := stack[|stack| - 1];
      assert Seen(View(), v);
      if Terminal(g[v]) {
        r := VisitTerminal(roots);
      } else {
        r := VisitNested(roots);
      }
    }

    method VisitNested(ghost roots: seq<nat>) returns (r: Outcome)
      requires Closed(g) && Inv(g, roots, View()) && stack != [] && Top(stack) < |g| && !Terminal(g[Top(stack)])
      modifies this
      ensures Justified(g, roots, r)
      ensures r == Fine ==> Inv(g, roots, View()) && Progress(old(View()), View())
    {
      var v := stack[|stack| - 1];
      ghost var s := View();
      stack := stack[..|stack| - 1];
      var e := Discover(v);
      match e
      case Start =>
        if g[v] == Struct([]) {
          assert Seen(s, v);
          return ZeroSize;
        }
        stack := stack + Strong(g[v]);
        BeginKeeps(g, roots, s);
        BeginProgress(g, s);
        assert View() == Begin(g, s);
        r := Fine;
      case Finished =>
        r := Settle(v, roots, s);
      case Again =>
        SkipKeeps(g, roots, s);
        SkipProgress(s);
        assert View() == Skip(s);
        r := Fine;
      case Cycle =>
        RecursiveNeedsItself(g, roots, s);
        r := Recursive;
    }

    /** Lays out the type just taken off the stack at its own position. */
    method Settle(v: nat, ghost roots: seq<nat>, ghost s: Search) returns (r: Outcome)
      requires Inv(g, roots, s) && s.stack != [] && View() == Skip(s) && v == Top(s.stack) < |g| && !Terminal(g[v])
      requires v in s.types && s.types[v] == Pending(|s.stack| - 1)
      modifies this`types, this`order
      ensures Justified(g, roots, r)
      ensures r == Fine ==> Inv(g, roots, View()) && Progress(s, View())
    {
      ReadyToConclude(g, roots, s);
      assert Needed(g, View(), Strong(g[v])) == Needed(g, s, Strong(g[v]));
      var l := Link(v);
      if l == Oversized {
        NeededLayouts(g, s, v);
        assert Seen(s, v);
        return TooBig;
      }
      types := types[v := Done(l.compiled)];
      order := order + [v];
      ConcludeKeeps(g, roots, s, l.compiled);
      ConcludeProgress(s, l.compiled);
      assert View() == Conclude(s, l.compiled);
      r := Fine;
    }

    method VisitTerminal(ghost roots: seq<nat>) returns (r: Outcome)
      requires Closed(g) && Inv(g, roots, View()) && stack != [] && Top(stack) < |g| && Terminal(g[Top(stack)])
      modifies this
      ensures r == Fine && Inv(g, roots, View()) && Progress(old(View()), View())
    {
      var v := stack[|stack| - 1];
      ghost var s := View();
      stack := stack[..|stack| - 1];
      if v !in types {
        types := types[v := Done(TerminalLayout(g[v]))];
        queue := queue + Weak(g[v]);
        order := order + [v];
        CloseKeeps(g, roots, s);
        CloseProgress(g, s);
        assert View() == Close(g, s);
      } else {
        assert !IsPending(s, v);
        SkipKeeps(g, roots, s);
        SkipProgress(s);
        assert View() == Skip(s);
      }
      r := Fine;
    }

    /** One round: empties the stack. */
    method Round(ghost roots: seq<nat>) returns (r: Outcome)
      requires Closed(g) && Inv(g, roots, View()) && queue == []
      modifies this
      ensures Justified(g, roots, r)
      ensures r == Fine ==> Inv(g, roots, View()) && stack == [] && old(types.Keys) <= types.Keys
      ensures r == Fine && types.Keys == old(types.Keys) ==> queue == []
    {
      r := Fine;
      while stack != []
        invariant r == Fine && Inv(g, roots, View()) && old(types.Keys) <= types.Keys
        invariant types.Keys == old(types.Keys) ==> queue == []
        decreases Below(|g|) - types.Keys, Below(|g|) - Finishes(View()), |stack|
      {
        ghost var s := View();
        r := Visit(roots);
        if r != Fine {
          return;
        }
        SeenBounded(g, roots, View());
      }
    }

    /** Rounds until nothing is left to look at. */
    method Compile(ghost roots: seq<nat>) returns (r: Outcome)
      requires Closed(g) && Inv(g, roots, View()) && stack == []
      modifies this
      ensures Justified(g, roots, r)
      ensures r == Fine ==> AllLaid(g, roots, types)
      ensures r == Fine <==> !HasCycle(g, roots) && !HasEmptyStruct(g, roots) && !HasOversized(g, roots)
      ensures r == Fine ==> Ordered(g, View())
      ensures !HasEmptyStruct(g, roots) && !HasOversized(g, roots) ==> (r == Recursive <==> HasCycle(g, roots))
    {
      r := Fine;
      while queue != []
        invariant r == Fine && Inv(g, roots, View()) && stack == []
        decreases Below(|g|) - types.Keys, |queue|
      {
        SwapKeeps(g, roots, View());
        stack, queue := queue, stack;
        ghost var s := View();
        r := Round(roots);
        if r != Fine {
          return;
        }
        SeenBounded(g, roots, View());
      }
      FinishedIsComplete(g, roots, View());
    }
  }

  lemma SeenBounded(g: Schema, roots: seq<nat>, s: Search)
    requires Sound(g, roots, s)
    ensures s.types.Keys <= Below(|g|) && Finishes(s) <= Below(|g|)
  {
    forall v | v in s.types
      ensures v < |g|
    {
      assert Seen(s, v);
    }
  }
}
