/** Linking: every import that the source module exports is replaced by a copy of the exported function. */
module LinkModule {
  import opened LinkModel
  import opened LinkTable
  import opened LinkBehaviour
  import opened LinkCopy

  datatype Targets = Mismatch | Targets(pairs: seq<(nat, nat)>)

  /** The exported function for each import that has one; a difference in type is an error. */
  method GetTargets(source: Funcs, exports: Exports, dest: Funcs) returns (r: Targets)
    requires forall n :: n in exports ==> exports[n] < |source|
    ensures r.Targets? ==> forall t :: t in r.pairs <==>
              t.1 < |dest| && IsTarget(exports, dest[t.1]) && t.0 == exports[dest[t.1].name]
    ensures r.Targets? ==> forall i, j :: 0 <= i < j < |r.pairs| ==> r.pairs[i].1 < r.pairs[j].1
    ensures r == Mismatch <==>
              exists d: nat :: d < |dest| && IsTarget(exports, dest[d])
                && source[exports[dest[d].name]].ty != dest[d].ty
  {
    var ts: seq<(nat, nat)> := [];
    var d := 0;
    var wrong := false;
    while d < |dest|
      invariant d <= |dest|
      invariant forall t: (nat, nat) :: t in ts <==>
                  t.1 < d && IsTarget(exports, dest[t.1]) && t.0 == exports[dest[t.1].name]
      invariant forall i, j :: 0 <= i < j < |ts| ==> ts[i].1 < ts[j].1
      invariant wrong <==>
                  exists e: nat :: e < d && IsTarget(exports, dest[e]) && source[exports[dest[e].name]].ty != dest[e].ty
    {
      if IsTarget(exports, dest[d]) {
        var s := exports[dest[d].name];
        if source[s].ty != dest[d].ty {
          wrong := true;
        }
        assert forall i :: 0 <= i < |ts| ==> ts[i] in ts;
        ts := ts + [(s, d)];
      }
      d := d + 1;
    }
    r := if wrong then Mismatch else Targets(ts);
  }

  // ----- behaviour -----

  /** The same answer on every machine, for all arguments, in every world and with any fuel. */
  ghost predicate BehavesLike(source: Funcs, f: nat, funcs: Funcs, d: nat)
    requires f < |source| && d < |funcs|
  {
    forall k: Machine, vs: seq<Value>, w: World, fuel: nat ::
      Apply(funcs, k, d, vs, w, fuel) == Apply(source, k, f, vs, w, fuel)
  }

  lemma PairBehaves(source: Funcs, funcs: Funcs, pairs: set<(nat, nat)>, f: nat, d: nat)
    requires Consistent(source, funcs, pairs) && (f, d) in pairs
    ensures f < |source| && d < |funcs| && BehavesLike(source, f, funcs, d)
  {
    assert (f, d).0 < |source| && (f, d).1 < |funcs|;
    forall k: Machine, vs: seq<Value>, w: World, fuel: nat
      ensures Apply(funcs, k, d, vs, w, fuel) == Apply(source, k, f, vs, w, fuel)
    {
      ApplySame(source, funcs, k, pairs, f, d, vs, w, fuel);
    }
  }

  /** A machine whose host knows one import only. */
  function OnlyHost(f: Func): Machine
    requires f.Import?
  {
    Machine((_, _, _) => Effect.Fault,
            (namespace, name, _, w) =>
              if namespace == f.namespace && name == f.name then Effect([], w) else Effect.Fault)
  }

  /** Only the same import behaves like an import. */
  lemma ImportBehaves(source: Funcs, f: nat, funcs: Funcs, d: nat)
    requires f < |source| && d < |funcs| && source[f].Import?
    ensures BehavesLike(source, f, funcs, d) <==> SameImport(source[f], funcs[d])
  {
    var k := OnlyHost(source[f]);
    assert Apply(source, k, f, [], map[], 0) == Done([], map[]);
    assert !SameImport(source[f], funcs[d]) ==> Apply(funcs, k, d, [], map[], 0) != Done([], map[]);
  }

  /** What linking must do to each function of the destination. */
  ghost predicate Fills(j: Job, funcs: Funcs, d: nat)
    requires ValidJob(j) && d < |j.dest| && d < |funcs|
  {
    if TargetAt(j, d) then BehavesLike(j.source, Filler(j, d), funcs, d) else funcs[d] == j.dest[d]
  }

  // ----- filling one target -----

  lemma TracedLater(j: Job, turn: nat, turn': nat, p: (nat, nat))
    requires ValidJob(j) && Traced(j, turn, p) && turn <= turn'
    ensures Traced(j, turn', p)
  {
    if !(Filled(j, turn, p.1) && p.0 == Filler(j, p.1)) {
      var e: nat :| e <= turn && Looked(j, e, p.0, p.1);
      assert e <= turn' && Looked(j, e, p.0, p.1);
    }
  }

  /** Passing over places that are no targets changes nothing. */
  lemma SkipPlaces(j: Job, used: set<nat>, turn: nat, d: nat, funcs: Funcs, pairs: set<(nat, nat)>)
    requires ValidJob(j) && Table(j, turn, funcs) && PairsOk(j, used, turn, funcs, pairs)
    requires turn <= d && forall e: nat :: turn <= e < d ==> !TargetAt(j, e)
    ensures Table(j, d, funcs) && PairsOk(j, used, d, funcs, pairs)
  {
    assert forall i: nat :: Filled(j, turn, i) <==> Filled(j, d, i);
    forall p | p in pairs
      ensures PairOk(j, used, d, funcs, pairs, p)
    {
      assert PairOk(j, used, turn, funcs, pairs, p);
      if j.source[p.0].Import? {
        TracedLater(j, turn, d, p);
      }
    }
  }

  lemma ReplaceTarget(s: Scheme, j: Job, used: set<nat>, d: nat, funcs: Funcs, pairs: set<(nat, nat)>, g: Func)
    requires ValidJob(j) && SameTypes(j) && Proper(s, j.source, used) && TargetAt(j, d) && Filler(j, d) in used
    requires Table(j, d, funcs) && PairsOk(j, used, d, funcs, pairs) && IsCopy(j.source[Filler(j, d)], g, pairs)
    ensures d < |funcs| && Table(j, d + 1, funcs[d := g])
    ensures PairsOk(j, used, d + 1, funcs[d := g], pairs + {(Filler(j, d), d)})
  {
    var funcs', f, pairs' := funcs[d := g], Filler(j, d), pairs + {(Filler(j, d), d)};
    var locals :| CopyFunc(Renaming(locals, pairs), j.source[f], g);
    CopyKeepsType(Renaming(locals, pairs), j.source[f], g);
    forall i: nat | i < |j.dest|
      ensures TableAt(j, d + 1, funcs'[i], i)
    {
      assert TableAt(j, d, funcs[i], i);
    }
    forall p | p in pairs'
      ensures PairOk(j, used, d + 1, funcs', pairs', p)
    {
      if p in pairs {
        ReplaceKeeps(s, j, used, d, funcs, pairs, pairs', g, p);
      } else {
        CopyGrows(s, j.source, f, g, pairs, pairs');
      }
    }
  }

  /** Pairs with the import that is replaced lose it; the others stay copies. */
  lemma ReplaceKeeps(s: Scheme, j: Job, used: set<nat>, d: nat, funcs: Funcs, pairs: set<(nat, nat)>,
                     pairs': set<(nat, nat)>, g: Func, p: (nat, nat))
    requires ValidJob(j) && Proper(s, j.source, used) && TargetAt(j, d) && Table(j, d, funcs) && pairs <= pairs'
    requires PairOk(j, used, d, funcs, pairs, p)
    ensures d < |funcs| && PairOk(j, used, d + 1, funcs[d := g], pairs', p)
  {
    assert TableAt(j, d, funcs[d], d);
    if j.source[p.0].Import? {
      TracedLater(j, d, d + 1, p);
    }
    if IsCopy(j.source[p.0], funcs[p.1], pairs) {
      if p.1 == d {
        var locals :| CopyFunc(Renaming(locals, pairs), j.source[p.0], funcs[d]);
        CopyKeepsType(Renaming(locals, pairs), j.source[p.0], funcs[d]);
      } else {
        CopyGrows(s, j.source, p.0, funcs[p.1], pairs, pairs');
      }
    }
  }

  /** Everything that replacing the target may come to. */
  ghost function ReachOf(j: Job, used: set<nat>, d: nat): set<nat>
    requires ValidJob(j) && TargetAt(j, d)
  {
    set f | f in used && Below(j.source, Filler(j, d), f)
  }

  lemma ReachCloses(j: Job, used: set<nat>, d: nat)
    requires ValidJob(j) && TargetAt(j, d) && ClosedUnderCalls(j.source, used) && Filler(j, d) in used
    ensures ClosedUnderCalls(j.source, ReachOf(j, used, d))
    ensures var s := j.source[Filler(j, d)]; s.Local? ==> Callees(s.body) <= ReachOf(j, used, d)
  {
    var fs, s := j.source, Filler(j, d);
    forall f, g | f in used && (f == s || Below(fs, s, f)) && Calls(fs, f, g)
      ensures g in ReachOf(j, used, d)
    {
      if f == s {
        BelowOne(fs, s, g);
      } else {
        BelowNext(fs, s, f, g);
      }
    }
    assert fs[s].Local? ==> forall g :: g in Callees(fs[s].body) ==> Calls(fs, s, g);
    forall f | f in ReachOf(j, used, d)
      ensures f < |fs| && (fs[f].Local? ==> Callees(fs[f].body) <= ReachOf(j, used, d))
    {
      assert fs[f].Local? ==> forall g :: g in Callees(fs[f].body) ==> Calls(fs, f, g);
    }
  }

  /** Replaces one import. */
  method FillTarget(linker: Linker, d: nat, s: nat) returns (ok: bool)
    requires linker.Inv() && TargetAt(linker.job, d) && s == Filler(linker.job, d) && s in linker.used
    requires linker.turn <= d && forall e: nat :: linker.turn <= e < d ==> !TargetAt(linker.job, e)
    modifies linker
    ensures ok ==> linker.Inv() && linker.turn == d + 1 && old(linker.pairs) + {(s, d)} <= linker.pairs
    ensures ok ==> Exposed(linker.job, d, linker.pairs)
    ensures old(linker.Ready()) ==> ok && linker.Ready()
  {
    SkipPlaces(linker.job, linker.used, linker.turn, d, linker.funcs, linker.pairs);
    ReachCloses(linker.job, linker.used, d);
    linker.turn, linker.reach := d, ReachOf(linker.job, linker.used, d);
    var f := linker.source[s];
    if f.Local? {
      var g := linker.CopyLocalFunc(s);
      if g.NoFunc? {
        return false;
      }
      f := g.func;
    } else {
      assert CopyFunc(Renaming(map[], linker.pairs), f, f);
    }
    PutTarget(linker, d, s, f);
    ok := true;
  }

  method PutTarget(linker: Linker, d: nat, ghost s: nat, f: Func)
    requires linker.Inv() && TargetAt(linker.job, d) && s == Filler(linker.job, d) && s in linker.used
    requires linker.turn == d && IsCopy(linker.source[s], f, linker.pairs)
    modifies linker`funcs, linker`pairs, linker`turn, linker`reach
    ensures linker.Inv() && linker.turn == d + 1 && linker.pairs == old(linker.pairs) + {(s, d)}
    ensures Exposed(linker.job, d, linker.pairs)
    ensures old(linker.Ready()) ==> linker.Ready()
  {
    Expose(linker.job, linker.used, d, linker.funcs, linker.pairs, f);
    ReplaceTarget(linker.scheme, linker.job, linker.used, d, linker.funcs, linker.pairs, f);
    LeanReplace(linker.source, |linker.job.dest|, linker.funcs, linker.pairs, linker.copied, d, f, s);
    linker.funcs := linker.funcs[d := f];
    linker.pairs := linker.pairs + {(s, d)};
    linker.turn, linker.reach := d + 1, {};
  }

  // ----- every clash leaves its mark -----

  /** The import f is called at a place that something else is put into. */
  ghost predicate Doomed(j: Job, pairs: set<(nat, nat)>, f: nat)
    requires ValidJob(j) && f < |j.source|
  {
    exists i: nat :: (f, i) in pairs && TargetAt(j, i) && !SameImport(j.source[f], j.source[Filler(j, i)])
  }

  ghost predicate Exposed(j: Job, e: nat, pairs: set<(nat, nat)>)
    requires ValidJob(j)
  {
    forall f: nat, i: nat :: Looked(j, e, f, i) && Clashes(j, e, f, i) ==> Doomed(j, pairs, f)
  }

  lemma ExposedGrows(j: Job, e: nat, pairs: set<(nat, nat)>, pairs': set<(nat, nat)>)
    requires ValidJob(j) && Exposed(j, e, pairs) && pairs <= pairs'
    ensures Exposed(j, e, pairs')
  {
    forall f: nat, i: nat | Looked(j, e, f, i) && Clashes(j, e, f, i)
      ensures Doomed(j, pairs', f)
    {
      var k: nat :| (f, k) in pairs && TargetAt(j, k) && !SameImport(j.source[f], j.source[Filler(j, k)]);
      assert (f, k) in pairs';
    }
  }

  ghost predicate Placed(pairs: set<(nat, nat)>, g: nat) {
    exists i: nat :: (g, i) in pairs
  }

  /** The copy of a body calls something for every call of the body. */
  lemma {:induction false} CalleesCopied(r: Renaming, ls: Labels, b: Body, b': Body, g: nat)
    requires CopyBody(r, ls, b, b') && g in Callees(b)
    ensures Placed(r.pairs, g)
    decreases b, 0
  {
    if g in CalleesOf(b.head) {
      CalleeCopied(r, ls, b.head, b'.head, g);
    } else {
      CalleesCopied(r, ls, b.tail, b'.tail, g);
    }
  }

  lemma {:induction false} CalleeCopied(r: Renaming, ls: Labels, i: Instr, i': Instr, g: nat)
    requires CopyInstr(r, ls, i, i') && g in CalleesOf(i)
    ensures Placed(r.pairs, g)
    decreases i, 0
  {
    match i
    case Call(f) => assert (g, i'.func) in r.pairs;
    case Block(id, _, _, body) => CalleesCopied(r, Label(id, i'.id, ls), body, i'.body, g);
    case Loop(id, _, _, body) => CalleesCopied(r, Label(id, i'.id, ls), body, i'.body, g);
    case IfElse(id, _, _, body, other, alternative) =>
      if g in Callees(body) {
        CalleesCopied(r, Label(id, i'.id, ls), body, i'.body, g);
      } else {
        CalleesCopied(r, Label(other, i'.other, ls), alternative, i'.alternative, g);
      }
  }

  lemma CallCopied(fs: Funcs, f: nat, f': Func, pairs: set<(nat, nat)>, g: nat)
    requires Calls(fs, f, g) && IsCopy(fs[f], f', pairs)
    ensures Placed(pairs, g)
  {
    var locals :| CopyFunc(Renaming(locals, pairs), fs[f], f');
    CalleesCopied(Renaming(locals, pairs), Label(fs[f].entry, f'.entry, NoLabels), fs[f].body, f'.body, g);
  }

  /** Once a function is copied, everything it may come to has a place in the destination. */
  lemma {:induction false} PathCopied(j: Job, used: set<nat>, turn: nat, funcs: Funcs, pairs: set<(nat, nat)>, s: nat,
                                      g: Func,
                                      path: seq<nat>)
    requires ValidJob(j) && PairsOk(j, used, turn, funcs, pairs) && s < |j.source| && IsCopy(j.source[s], g, pairs)
    requires CallPath(j.source, path) && path[0] == s
    ensures Placed(pairs, path[|path| - 1])
    decreases |path|
  {
    var n := |path| - 1;
    var f, h := path[n - 1], path[n];
    assert Calls(j.source, f, h);
    if n == 1 {
      CallCopied(j.source, s, g, pairs, h);
    } else {
      var front := path[..n];
      assert CallPath(j.source, front);
      PathCopied(j, used, turn, funcs, pairs, s, g, front);
      var k: nat :| (f, k) in pairs;
      assert PairOk(j, used, turn, funcs, pairs, (f, k));
      CallCopied(j.source, f, funcs[k], pairs, h);
    }
  }

  /** A clash that is met while a target is copied was met then, or before. */
  lemma Expose(j: Job, used: set<nat>, e: nat, funcs: Funcs, pairs: set<(nat, nat)>, g: Func)
    requires ValidJob(j) && TargetAt(j, e) && PairsOk(j, used, e, funcs, pairs)
    requires IsCopy(j.source[Filler(j, e)], g, pairs)
    ensures Exposed(j, e, pairs)
  {
    forall f: nat, i: nat | Looked(j, e, f, i) && Clashes(j, e, f, i)
      ensures Doomed(j, pairs, f)
    {
      var path :| CallPath(j.source, path) && path[0] == Filler(j, e) && path[|path| - 1] == f;
      PathCopied(j, used, e, funcs, pairs, Filler(j, e), g, path);
      var k: nat :| (f, k) in pairs;
      assert PairOk(j, used, e, funcs, pairs, (f, k));
      DoomedThere(j, e, f, i, k);
    }
  }

  /** If a lookup finds a target still to be replaced, no target was replaced by that import before. */
  lemma NotReplacedBefore(j: Job, e: nat, f: nat, i: nat, k: nat)
    requires ValidJob(j) && f < |j.source| && Resolves(j, e, f, i) && Clashes(j, e, f, i) && Filled(j, e, k)
    ensures !SameImport(j.source[f], j.source[Filler(j, k)])
  {
    assert !EntryIs(j, e, k, f);
  }

  lemma DoomedThere(j: Job, e: nat, f: nat, i: nat, k: nat)
    requires ValidJob(j) && f < |j.source| && Resolves(j, e, f, i) && Clashes(j, e, f, i) && Traced(j, e, (f, k))
    requires j.source[f].Import?
    ensures TargetAt(j, k) && !SameImport(j.source[f], j.source[Filler(j, k)])
  {
    if Filled(j, e, k) {
      NotReplacedBefore(j, e, f, i, k);
    }
    if !(Filled(j, e, k) && f == Filler(j, k)) {
      var e': nat :| e' <= e && Looked(j, e', f, k);
      ClashedBefore(j, e, f, i, e', k);
    }
  }

  // ----- when all targets are filled -----

  /** Without clashes, all pairs are copies. */
  lemma ConsistentWithoutClash(j: Job, used: set<nat>, funcs: Funcs, pairs: set<(nat, nat)>)
    requires ValidJob(j) && SameTypes(j) && NoClash(j)
    requires Table(j, |j.dest|, funcs) && PairsOk(j, used, |j.dest|, funcs, pairs)
    ensures Consistent(j.source, funcs, pairs)
  {
    forall p | p in pairs
      ensures p.0 < |j.source| && p.1 < |funcs| && IsCopy(j.source[p.0], funcs[p.1], pairs)
    {
      assert PairOk(j, used, |j.dest|, funcs, pairs, p);
      if !IsCopy(j.source[p.0], funcs[p.1], pairs) {
        StillTheSame(j, funcs, p);
        assert CopyFunc(Renaming(map[], pairs), j.source[p.0], funcs[p.1]);
      }
    }
  }

  lemma StillTheSame(j: Job, funcs: Funcs, p: (nat, nat))
    requires ValidJob(j) && SameTypes(j) && NoClash(j) && Table(j, |j.dest|, funcs)
    requires p.0 < |j.source| && j.source[p.0].Import? && TargetAt(j, p.1) && Traced(j, |j.dest|, p)
    requires j.dest[p.1].ty == j.source[p.0].ty
    ensures funcs[p.1] == j.source[p.0]
  {
    var f, i := p.0, p.1;
    assert TableAt(j, |j.dest|, funcs[i], i);
    if f != Filler(j, i) {
      var e: nat :| e <= |j.dest| && Looked(j, e, f, i);
      assert !Clashes(j, e, f, i);
    }
  }

  /** A doomed call does not behave like its import. */
  lemma DoomedMisbehaves(j: Job, funcs: Funcs, pairs: set<(nat, nat)>, f: nat)
    requires ValidJob(j) && f < |j.source| && j.source[f].Import? && Table(j, |j.dest|, funcs) && Doomed(j, pairs, f)
    ensures exists p :: p in pairs && p.0 == f && p.1 < |funcs| && !BehavesLike(j.source, p.0, funcs, p.1)
  {
    var i: nat :| (f, i) in pairs && TargetAt(j, i) && !SameImport(j.source[f], j.source[Filler(j, i)]);
    assert TableAt(j, |j.dest|, funcs[i], i);
    ImportBehaves(j.source, f, funcs, i);
    assert (f, i) in pairs && (f, i).0 == f && (f, i).1 == i;
  }

  /** Every function that was copied or called stands at a place that behaves like it. */
  ghost predicate AllBehave(j: Job, funcs: Funcs, pairs: set<(nat, nat)>) {
    forall p :: p in pairs ==> p.0 < |j.source| && p.1 < |funcs| && BehavesLike(j.source, p.0, funcs, p.1)
  }

  lemma BehavesIffNoClash(j: Job, used: set<nat>, funcs: Funcs, pairs: set<(nat, nat)>)
    requires ValidJob(j) && SameTypes(j) && Table(j, |j.dest|, funcs) && PairsOk(j, used, |j.dest|, funcs, pairs)
    requires forall e: nat :: TargetAt(j, e) ==> Exposed(j, e, pairs)
    ensures NoClash(j) <==> AllBehave(j, funcs, pairs)
  {
    if NoClash(j) {
      ConsistentWithoutClash(j, used, funcs, pairs);
      forall p | p in pairs
        ensures p.0 < |j.source| && p.1 < |funcs| && BehavesLike(j.source, p.0, funcs, p.1)
      {
        assert (p.0, p.1) == p;
        PairBehaves(j.source, funcs, pairs, p.0, p.1);
      }
    } else {
      var e: nat, f: nat, i: nat :| Looked(j, e, f, i) && Clashes(j, e, f, i);
      DoomedMisbehaves(j, funcs, pairs, f);
    }
  }

  // ----- the whole -----

  /** The functions that linking copies or calls. */
  ghost function UsedOf(j: Job): set<nat>
    requires ValidJob(j)
  {
    set f: nat | f < |j.source| && Used(j, f)
  }

  lemma {:induction false} ProperCallees(s: Scheme, fs: Funcs, f: nat, inside: set<nat>, b: Body, g: nat)
    requires ProperBody(s, fs, f, inside, b) && g in Callees(b)
    ensures g < |fs|
    decreases b, 0
  {
    if g in CalleesOf(b.head) {
      ProperCallee(s, fs, f, inside, b.head, g);
    } else {
      ProperCallees(s, fs, f, inside, b.tail, g);
    }
  }

  lemma {:induction false} ProperCallee(s: Scheme, fs: Funcs, f: nat, inside: set<nat>, i: Instr, g: nat)
    requires ProperInstr(s, fs, f, inside, i) && g in CalleesOf(i)
    ensures g < |fs|
    decreases i, 0
  {
    match i
    case Call(_) =>
    case Block(id, _, _, body) => ProperCallees(s, fs, f, inside + {id}, body, g);
    case Loop(id, _, _, body) => ProperCallees(s, fs, f, inside + {id}, body, g);
    case IfElse(id, _, _, body, other, alternative) =>
      if g in Callees(body) {
        ProperCallees(s, fs, f, inside + {id}, body, g);
      } else {
        ProperCallees(s, fs, f, inside + {other}, alternative, g);
      }
  }

  lemma UsedCloses(s: Scheme, j: Job)
    requires ValidJob(j) && Proper(s, j.source, UsedOf(j))
    ensures ClosedUnderCalls(j.source, UsedOf(j))
    ensures forall d: nat :: TargetAt(j, d) ==> Filler(j, d) in UsedOf(j)
  {
    var fs := j.source;
    forall f, g | f in UsedOf(j) && Calls(fs, f, g)
      ensures g in UsedOf(j)
    {
      assert ProperFunc(s, fs, f);
      ProperCallees(s, fs, f, {fs[f].entry}, fs[f].body, g);
      var d: nat :| TargetAt(j, d) && (f == Filler(j, d) || Below(fs, Filler(j, d), f));
      if f == Filler(j, d) {
        BelowOne(fs, f, g);
      } else {
        BelowNext(fs, Filler(j, d), f, g);
      }
      assert TargetAt(j, d) && Below(fs, Filler(j, d), g);
    }
    forall f | f in UsedOf(j)
      ensures f < |fs| && (fs[f].Local? ==> Callees(fs[f].body) <= UsedOf(j))
    {
      assert fs[f].Local? ==> forall g :: g in Callees(fs[f].body) ==> Calls(fs, f, g);
    }
    forall d: nat | TargetAt(j, d)
      ensures Filler(j, d) in UsedOf(j)
    {
      assert Used(j, Filler(j, d));
    }
  }

  /** Only supported instructions, and one type for all imports of one name. */
  ghost predicate Linkable(j: Job)
    requires ValidJob(j)
  {
    SameTypes(j) && Supported(j.source, UsedOf(j)) && SelfAgree(j.source, UsedOf(j))
    && AllAgree(j.source, UsedOf(j), j.dest)
  }

  /** The targets are filled with copies; what stands for an import was found by looking it up;
      the rest is as it was. */
  ghost predicate Linked(j: Job, funcs: Funcs, pairs: set<(nat, nat)>)
    requires ValidJob(j)
  {
    && |j.dest| <= |funcs|
    && (forall d: nat :: d < |j.dest| && !TargetAt(j, d) ==> funcs[d] == j.dest[d])
    && (forall d: nat :: TargetAt(j, d) ==>
          (Filler(j, d), d) in pairs && IsCopy(j.source[Filler(j, d)], funcs[d], pairs))
    && (forall p :: p in pairs && p.0 < |j.source| && j.source[p.0].Import? ==> Traced(j, |j.dest|, p))
  }

  lemma AllLinked(j: Job, used: set<nat>, funcs: Funcs, pairs: set<(nat, nat)>)
    requires ValidJob(j) && Table(j, |j.dest|, funcs) && PairsOk(j, used, |j.dest|, funcs, pairs)
    requires forall d: nat :: TargetAt(j, d) ==> (Filler(j, d), d) in pairs
    ensures Linked(j, funcs, pairs)
  {
    forall d: nat | d < |j.dest|
      ensures if TargetAt(j, d) then IsCopy(j.source[Filler(j, d)], funcs[d], pairs) else funcs[d] == j.dest[d]
    {
      assert TableAt(j, |j.dest|, funcs[d], d);
      if TargetAt(j, d) {
        assert PairOk(j, used, |j.dest|, funcs, pairs, (Filler(j, d), d));
        if j.source[Filler(j, d)].Import? {
          assert CopyFunc(Renaming(map[], pairs), j.source[Filler(j, d)], funcs[d]);
        }
      }
    }
    forall p | p in pairs && p.0 < |j.source| && j.source[p.0].Import?
      ensures Traced(j, |j.dest|, p)
    {
      assert PairOk(j, used, |j.dest|, funcs, pairs, p);
    }
  }

  /** Every function behind the destination is there for one that was needed, and none is there twice for it. */
  ghost predicate NothingTwice(j: Job, funcs: Funcs, pairs: set<(nat, nat)>) {
    && (forall i: nat :: |j.dest| <= i < |funcs| ==> Owned(pairs, i))
    && (forall f: nat, i: nat, k: nat ::
          (f, i) in pairs && (f, k) in pairs && i >= |j.dest| && k >= |j.dest| ==> i == k)
  }

  lemma LeanIsOnce(j: Job, used: set<nat>, funcs: Funcs, pairs: set<(nat, nat)>, copied: map<nat, nat>)
    requires ValidJob(j) && PairsOk(j, used, |j.dest|, funcs, pairs) && Lean(j.source, |j.dest|, funcs, pairs, copied)
    ensures NothingTwice(j, funcs, pairs)
  {
    forall f: nat, i: nat, k: nat | (f, i) in pairs && (f, k) in pairs && i >= |j.dest| && k >= |j.dest|
      ensures i == k
    {
      assert PairOk(j, used, |j.dest|, funcs, pairs, (f, i)) && PairOk(j, used, |j.dest|, funcs, pairs, (f, k));
      if j.source[f].Import? {
        assert SameImport(funcs[i], funcs[k]) && SameImport(funcs[k], funcs[i]);
      }
    }
  }

  /**
   Links a source into a destination. Whatever the targets come to must be made of properly nested blocks,
   and must not call itself. Everything that was copied or called behaves as it did in the source if and
   only if there is no clash, and then every target behaves like the function exported for it.
   */
  method Link(source: Funcs, exports: Exports, dest: Funcs, hasMemory: bool, nextLocal: nat, nextSeq: nat,
              ghost scheme: Scheme)
    returns (ok: bool, funcs: Funcs, ghost pairs: set<(nat, nat)>)
    requires ValidJob(Job(source, exports, dest)) && Proper(scheme, source, UsedOf(Job(source, exports, dest)))
    ensures ok ==> SameTypes(Job(source, exports, dest)) && Linked(Job(source, exports, dest), funcs, pairs)
    ensures ok ==> (NoClash(Job(source, exports, dest)) <==> AllBehave(Job(source, exports, dest), funcs, pairs))
    ensures ok ==> NothingTwice(Job(source, exports, dest), funcs, pairs)
    ensures ok && NoClash(Job(source, exports, dest)) ==>
              forall d: nat :: d < |dest| ==> Fills(Job(source, exports, dest), funcs, d)
    ensures Linkable(Job(source, exports, dest)) && hasMemory ==> ok
  {
    ghost var j := Job(source, exports, dest);
    pairs := {};
    var targets := GetTargets(source, exports, dest);
    if targets.Mismatch? {
      return false, dest, pairs;
    }
    UsedCloses(scheme, j);
    var linker := new Linker(source, dest, hasMemory, nextLocal, nextSeq, scheme, j, UsedOf(j));
    ok := FillAll(linker, targets.pairs);
    funcs, pairs := linker.funcs, linker.pairs;
    if ok {
      BehavesIffNoClash(j, linker.used, funcs, pairs);
      AllLinked(j, linker.used, funcs, pairs);
      LeanIsOnce(j, linker.used, funcs, pairs, linker.copied);
    }
  }

  /** Replaces all imports, in order. */
  method FillAll(linker: Linker, ts: seq<(nat, nat)>) returns (ok: bool)
    requires linker.Inv() && linker.turn == 0
    requires forall d: nat :: TargetAt(linker.job, d) ==> Filler(linker.job, d) in linker.used
    requires forall t :: t in ts <==> TargetAt(linker.job, t.1) && t.0 == Filler(linker.job, t.1)
    requires forall i, j :: 0 <= i < j < |ts| ==> ts[i].1 < ts[j].1
    modifies linker
    ensures ok ==> Table(linker.job, |linker.job.dest|, linker.funcs)
    ensures ok ==> PairsOk(linker.job, linker.used, |linker.job.dest|, linker.funcs, linker.pairs)
    ensures ok ==> forall e: nat :: TargetAt(linker.job, e) ==>
              Exposed(linker.job, e, linker.pairs) && (Filler(linker.job, e), e) in linker.pairs
    ensures ok ==> Lean(linker.job.source, |linker.job.dest|, linker.funcs, linker.pairs, linker.copied)
    ensures old(linker.Ready()) ==> ok
  {
    ok := true;
    var i := 0;
    while i < |ts|
      invariant FilledTo(linker, ts, i) && (old(linker.Ready()) ==> linker.Ready())
    {
      ok := FillNext(linker, ts, i);
      if !ok {
        return;
      }
      i := i + 1;
    }
    Between(linker.job, ts, i);
    SkipPlaces(linker.job, linker.used, linker.turn, |linker.job.dest|, linker.funcs, linker.pairs);
    AllExposed(linker.job, ts, linker.pairs);
  }

  /** The first i targets are filled. */
  ghost predicate FilledTo(linker: Linker, ts: seq<(nat, nat)>, i: nat)
    reads linker
  {
    && i <= |ts| && linker.Inv() && linker.turn == (if i == 0 then 0 else ts[i - 1].1 + 1)
    && forall k :: 0 <= k < i ==> ts[k] in linker.pairs && Exposed(linker.job, ts[k].1, linker.pairs)
  }

  method FillNext(linker: Linker, ts: seq<(nat, nat)>, i: nat) returns (ok: bool)
    requires i < |ts| && FilledTo(linker, ts, i)
    requires forall d: nat :: TargetAt(linker.job, d) ==> Filler(linker.job, d) in linker.used
    requires forall t :: t in ts <==> TargetAt(linker.job, t.1) && t.0 == Filler(linker.job, t.1)
    requires forall i, j :: 0 <= i < j < |ts| ==> ts[i].1 < ts[j].1
    modifies linker
    ensures ok ==> FilledTo(linker, ts, i + 1)
    ensures old(linker.Ready()) ==> ok && linker.Ready()
  {
    var (s, d) := ts[i];
    assert ts[i] in ts;
    Between(linker.job, ts, i);
    ghost var before := linker.pairs;
    ok := FillTarget(linker, d, s);
    if ok {
      EarlierExposed(linker.job, ts, i, before, linker.pairs);
    }
  }

  lemma AllExposed(j: Job, ts: seq<(nat, nat)>, pairs: set<(nat, nat)>)
    requires ValidJob(j) && forall t: (nat, nat) :: TargetAt(j, t.1) && t.0 == Filler(j, t.1) ==> t in ts
    requires forall k :: 0 <= k < |ts| ==> ts[k] in pairs && Exposed(j, ts[k].1, pairs)
    ensures forall e: nat :: TargetAt(j, e) ==> Exposed(j, e, pairs) && (Filler(j, e), e) in pairs
  {
    forall e: nat | TargetAt(j, e)
      ensures Exposed(j, e, pairs) && (Filler(j, e), e) in pairs
    {
      assert (Filler(j, e), e) in ts;
    }
  }

  lemma EarlierExposed(j: Job, ts: seq<(nat, nat)>, i: nat, pairs: set<(nat, nat)>, pairs': set<(nat, nat)>)
    requires ValidJob(j) && i <= |ts| && pairs <= pairs'
    requires forall k :: 0 <= k < i ==> ts[k] in pairs && Exposed(j, ts[k].1, pairs)
    ensures forall k :: 0 <= k < i ==> ts[k] in pairs' && Exposed(j, ts[k].1, pairs')
  {
    forall k | 0 <= k < i
      ensures Exposed(j, ts[k].1, pairs')
    {
      ExposedGrows(j, ts[k].1, pairs, pairs');
    }
  }

  lemma Between(j: Job, ts: seq<(nat, nat)>, i: nat)
    requires ValidJob(j) && i <= |ts| && forall t :: t in ts <==> TargetAt(j, t.1) && t.0 == Filler(j, t.1)
    requires forall a, b :: 0 <= a < b < |ts| ==> ts[a].1 < ts[b].1
    ensures var a, b := if i == 0 then 0 else ts[i - 1].1 + 1, if i == |ts| then |j.dest| else ts[i].1;
            a <= b && forall e: nat :: a <= e < b ==> !TargetAt(j, e)
  {
    var a, b := if i == 0 then 0 else ts[i - 1].1 + 1, if i == |ts| then |j.dest| else ts[i].1;
    assert i > 0 ==> ts[i - 1] in ts;
    forall e: nat | TargetAt(j, e)
      ensures e < a || e >= b
    {
      assert (Filler(j, e), e) in ts;
      var k :| 0 <= k < |ts| && ts[k] == (Filler(j, e), e);
      assert k < i ==> ts[k].1 <= ts[i - 1].1;
    }
  }

  // ----- a source that imports what it replaces -----

  const NOTHING := FuncType([], [])

  /** A function that calls function 0. */
  function Caller(entry: nat): Func {
    Local(NOTHING, [], entry, Cons(Call(0), Nil))
  }

  lemma {:induction false} CallsForever(fs: Funcs, k: Machine, entry: nat, w: World, fuel: nat)
    requires fs != [] && fs[0] == Caller(entry)
    ensures Apply(fs, k, 0, [], w, fuel) == Running
  {
    if fuel > 0 {
      var c := Conf([], map[], w);
      if fuel > 1 {
        CallsForever(fs, k, entry, w, fuel - 2);
        assert c.stack[0..] == [];
        assert Invoke(fs, k, 0, c, fuel - 2) == OutOfFuel;
      }
      assert Run(fs, k, Call(0), c, fuel - 1) == OutOfFuel;
      assert RunBody(fs, k, Cons(Call(0), Nil), c, fuel - 1) == OutOfFuel;
    }
  }

  /** A wrapper around an import, exported under the name of that very import. */
  const WRAPPER: Funcs := [Import(0, 0, NOTHING), Caller(0)]
  const WRAPPED: Funcs := [Import(0, 0, NOTHING)]

  lemma WrapperProper(scheme: Scheme)
    requires scheme.rank(0) == 0 && scheme.rank(1) == 1 && scheme.labelOwner(0) == 1
    ensures Proper(scheme, WRAPPER, UsedOf(Job(WRAPPER, map[0 := 1], WRAPPED)))
    ensures Linkable(Job(WRAPPER, map[0 := 1], WRAPPED))
  {
  }

  /** The one call of the wrapper is found at the place that the wrapper itself is put into. */
  lemma WrapperClashes()
    ensures !NoClash(Job(WRAPPER, map[0 := 1], WRAPPED))
    ensures forall e: nat, i: nat :: Looked(Job(WRAPPER, map[0 := 1], WRAPPED), e, 0, i) ==> i == 0
  {
    var j := Job(WRAPPER, map[0 := 1], WRAPPED);
    BelowOne(WRAPPER, 1, 0);
    assert EntryIs(j, 0, 0, 0);
    assert Looked(j, 0, 0, 0) && Clashes(j, 0, 0, 0);
  }

  /** The wrapper returns; linked, it calls itself and never does. */
  method LinkWrapper(hasMemory: bool, nextLocal: nat, nextSeq: nat) returns (ok: bool, funcs: Funcs)
    ensures hasMemory ==> ok
    ensures ok ==> funcs != []
    ensures ok ==> forall k: Machine, w: World, fuel: nat :: Apply(funcs, k, 0, [], w, fuel) == Running
    ensures forall k: Machine, w: World :: k.host(0, 0, [], w) == Effect([], w) ==>
              Apply(WRAPPER, k, 1, [], w, 2) == Done([], w)
  {
    ghost var scheme := Scheme(f => f, _ => 1, _ => 1);
    ghost var j := Job(WRAPPER, map[0 := 1], WRAPPED);
    WrapperProper(scheme);
    ghost var pairs;
    ok, funcs, pairs := Link(WRAPPER, map[0 := 1], WRAPPED, hasMemory, nextLocal, nextSeq, scheme);
    if ok {
      var entry := WrapperLinked(funcs, pairs);
      forall k: Machine, w: World, fuel: nat
        ensures Apply(funcs, k, 0, [], w, fuel) == Running
      {
        CallsForever(funcs, k, entry, w, fuel);
      }
    }
    forall k: Machine, w: World | k.host(0, 0, [], w) == Effect([], w)
      ensures Apply(WRAPPER, k, 1, [], w, 2) == Done([], w)
    {
      WrapperReturns(k, w);
    }
  }

  lemma WrapperReturns(k: Machine, w: World)
    requires k.host(0, 0, [], w) == Effect([], w)
    ensures Apply(WRAPPER, k, 1, [], w, 2) == Done([], w)
  {
    var c := Conf([], map[], w);
    assert Invoke(WRAPPER, k, 0, c, 0) == Next(c);
    assert RunBody(WRAPPER, k, Cons(Call(0), Nil), c, 1) == Next(c);
  }

  lemma WrapperLinked(funcs: Funcs, pairs: set<(nat, nat)>) returns (entry: nat)
    requires Linked(Job(WRAPPER, map[0 := 1], WRAPPED), funcs, pairs)
    ensures funcs != [] && funcs[0] == Caller(entry)
  {
    var j := Job(WRAPPER, map[0 := 1], WRAPPED);
    assert TargetAt(j, 0) && Filler(j, 0) == 1;
    var locals :| CopyFunc(Renaming(locals, pairs), WRAPPER[1], funcs[0]);
    var i := funcs[0].body.head.func;
    assert (0, i) in pairs && Traced(j, 1, (0, i));
    WrapperClashes();
    entry := funcs[0].entry;
  }
}
