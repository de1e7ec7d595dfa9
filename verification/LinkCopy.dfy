/** Copying functions, with everything they call, from one module into another under fresh names. */
module LinkCopy {
  import opened LinkModel
  import opened LinkTable
  import opened Sequences

  /** Which function a block or local belongs to, and a rank that goes down along calls. */
  datatype Scheme = Scheme(rank: nat -> nat, labelOwner: nat -> nat, localOwner: nat -> nat)

  // ----- what a source module must be like -----

  /** Names of its own, branches to enclosing blocks only, and calls to lower ranks only. */
  predicate ProperBody(s: Scheme, fs: Funcs, f: nat, inside: set<nat>, b: Body)
    decreases b, 0
  {
    match b
    case Nil => true
    case Cons(i, rest) => ProperInstr(s, fs, f, inside, i) && ProperBody(s, fs, f, inside, rest)
  }

  predicate ProperInstr(s: Scheme, fs: Funcs, f: nat, inside: set<nat>, i: Instr)
    decreases i, 0
  {
    match i
    case LocalGet(l) => s.localOwner(l) == f
    case LocalSet(l) => s.localOwner(l) == f
    case LocalTee(l) => s.localOwner(l) == f
    case Call(g) => g < |fs| && s.rank(g) < s.rank(f)
    case Block(id, _, _, body) => ProperBlock(s, fs, f, inside, id, body)
    case Loop(id, _, _, body) => ProperBlock(s, fs, f, inside, id, body)
    case IfElse(id, _, _, body, other, alternative) =>
      ProperBlock(s, fs, f, inside, id, body) && ProperBlock(s, fs, f, inside, other, alternative)
    case Br(t) => t in inside
    case BrIf(t) => t in inside
    case BrTable(ts, t) => t in inside && forall i :: 0 <= i < |ts| ==> ts[i] in inside
    case _ => true
  }

  predicate ProperBlock(s: Scheme, fs: Funcs, f: nat, inside: set<nat>, id: nat, body: Body)
    decreases body, 1
  {
    id !in inside && s.labelOwner(id) == f && ProperBody(s, fs, f, inside + {id}, body)
  }

  ghost predicate ProperFunc(s: Scheme, fs: Funcs, f: nat)
    requires f < |fs|
  {
    fs[f].Local? ==>
      && |fs[f].args| == |fs[f].ty.params| && Distinct(fs[f].args)
      && (forall i :: 0 <= i < |fs[f].args| ==> s.localOwner(fs[f].args[i]) == f)
      && s.labelOwner(fs[f].entry) == f && ProperBody(s, fs, f, {fs[f].entry}, fs[f].body)
  }

  ghost predicate Proper(s: Scheme, fs: Funcs, used: set<nat>) {
    forall f :: f in used ==> f < |fs| && ProperFunc(s, fs, f)
  }

  // ----- when copying cannot fail -----

  predicate SupportedBody(b: Body)
    decreases b
  {
    b.Cons? ==> SupportedInstr(b.head) && SupportedBody(b.tail)
  }

  predicate SupportedInstr(i: Instr)
    decreases i
  {
    match i
    case Unsupported => false
    case Block(_, _, _, body) => SupportedBody(body)
    case Loop(_, _, _, body) => SupportedBody(body)
    case IfElse(_, _, _, body, _, alternative) => SupportedBody(body) && SupportedBody(alternative)
    case _ => true
  }

  ghost predicate Supported(fs: Funcs, used: set<nat>) {
    forall f :: f in used && f < |fs| && fs[f].Local? ==> SupportedBody(fs[f].body)
  }

  /** Imports of one name have one type. */
  ghost predicate Agrees(source: Funcs, used: set<nat>, g: Func) {
    g.Import? ==> forall f :: f in used && f < |source| && SameImport(source[f], g) ==> source[f].ty == g.ty
  }

  ghost predicate AllAgree(source: Funcs, used: set<nat>, funcs: Funcs) {
    forall g: nat :: g < |funcs| ==> Agrees(source, used, funcs[g])
  }

  ghost predicate SelfAgree(source: Funcs, used: set<nat>) {
    forall g :: g in used && g < |source| ==> Agrees(source, used, source[g])
  }

  lemma AgreeAppend(source: Funcs, used: set<nat>, funcs: Funcs, g: Func)
    requires AllAgree(source, used, funcs) && Agrees(source, used, g)
    ensures AllAgree(source, used, funcs + [g])
  {
  }

  // ----- what copying keeps -----

  function Ids(ls: Labels): set<nat> {
    match ls
    case NoLabels => {}
    case Label(id, _, outer) => Ids(outer) + {id}
  }

  /** The map knows the copies of the enclosing blocks, which are older than n. */
  predicate Tracks(m: map<nat, nat>, ls: Labels, n: nat) {
    match ls
    case NoLabels => true
    case Label(id, copy, outer) => id in m && m[id] == copy && copy < n && Tracks(m, outer, n)
  }

  ghost predicate Kept(owner: nat -> nat, rank: nat -> nat, n: nat, a: map<nat, nat>, b: map<nat, nat>) {
    forall x :: x in a && rank(owner(x)) >= n ==> x in b && b[x] == a[x]
  }

  ghost predicate OwnedBy(owner: nat -> nat, f: nat, ls: Labels) {
    forall x :: x in Ids(ls) ==> owner(x) == f
  }

  lemma {:induction false} TracksKept(owner: nat -> nat, rank: nat -> nat, f: nat, a: map<nat, nat>, b: map<nat, nat>,
                                      ls: Labels, n: nat, n': nat)
    requires Tracks(a, ls, n) && OwnedBy(owner, f, ls) && Kept(owner, rank, rank(f), a, b) && n <= n'
    ensures Tracks(b, ls, n')
  {
    if ls.Label? {
      assert ls.id in Ids(ls);
      assert OwnedBy(owner, f, ls.outer);
      TracksKept(owner, rank, f, a, b, ls.outer, n, n');
    }
  }

  lemma {:induction false} TracksCopies(m: map<nat, nat>, ls: Labels, n: nat, x: nat)
    requires Tracks(m, ls, n) && x in Ids(ls)
    ensures x in m && Copies(ls, x, m[x])
  {
    if x != ls.id {
      TracksCopies(m, ls.outer, n, x);
    }
  }

  lemma {:induction false} TracksFresh(m: map<nat, nat>, ls: Labels, n: nat, id: nat)
    requires Tracks(m, ls, n) && id !in Ids(ls)
    ensures Fresh(ls, id, n)
  {
    if ls.Label? {
      TracksFresh(m, ls.outer, n, id);
    }
  }

  lemma {:induction false} TracksUpdate(m: map<nat, nat>, ls: Labels, n: nat, id: nat)
    requires Tracks(m, ls, n) && id !in Ids(ls)
    ensures Tracks(m[id := n], ls, n + 1)
  {
    if ls.Label? {
      TracksUpdate(m, ls.outer, n, id);
    }
  }

  /** A copy stays a copy when names of other functions change and more pairs are known. */
  ghost predicate Grows(s: Scheme, f: nat, r: Renaming, r': Renaming) {
    Kept(s.localOwner, s.rank, s.rank(f), r.locals, r'.locals) && r.pairs <= r'.pairs
  }

  lemma {:induction false} BodyGrows(s: Scheme, fs: Funcs, f: nat, r: Renaming, r': Renaming, ls: Labels, b: Body,
                                     b': Body)
    requires Grows(s, f, r, r') && ProperBody(s, fs, f, Ids(ls), b) && CopyBody(r, ls, b, b')
    ensures CopyBody(r', ls, b, b')
    decreases b, 0
  {
    if b.Cons? {
      InstrGrows(s, fs, f, r, r', ls, b.head, b'.head);
      BodyGrows(s, fs, f, r, r', ls, b.tail, b'.tail);
    }
  }

  lemma {:induction false} InstrGrows(s: Scheme, fs: Funcs, f: nat, r: Renaming, r': Renaming, ls: Labels, i: Instr,
                                      i': Instr)
    requires Grows(s, f, r, r') && ProperInstr(s, fs, f, Ids(ls), i) && CopyInstr(r, ls, i, i')
    ensures CopyInstr(r', ls, i, i')
    decreases i, 0
  {
    match i
    case Block(id, _, _, body) => BodyGrows(s, fs, f, r, r', Label(id, i'.id, ls), body, i'.body);
    case Loop(id, _, _, body) => BodyGrows(s, fs, f, r, r', Label(id, i'.id, ls), body, i'.body);
    case IfElse(id, _, _, body, other, alternative) =>
      BodyGrows(s, fs, f, r, r', Label(id, i'.id, ls), body, i'.body);
      BodyGrows(s, fs, f, r, r', Label(other, i'.other, ls), alternative, i'.alternative);
    case _ =>
  }

  /** More pairs leave a copy a copy. */
  lemma CopyGrows(s: Scheme, fs: Funcs, f: nat, f': Func, pairs: set<(nat, nat)>, pairs': set<(nat, nat)>)
    requires f < |fs| && ProperFunc(s, fs, f) && IsCopy(fs[f], f', pairs) && pairs <= pairs'
    ensures IsCopy(fs[f], f', pairs')
  {
    var locals :| CopyFunc(Renaming(locals, pairs), fs[f], f');
    if fs[f].Local? {
      var ls := Label(fs[f].entry, f'.entry, NoLabels);
      assert Ids(ls) == {fs[f].entry};
      BodyGrows(s, fs, f, Renaming(locals, pairs), Renaming(locals, pairs'), ls, fs[f].body, f'.body);
    }
    assert CopyFunc(Renaming(locals, pairs'), fs[f], f');
  }

  // ----- the destination while it is filled -----

  /** Targets below turn are replaced, and nothing else of the destination has changed. */
  ghost predicate Table(j: Job, turn: nat, funcs: Funcs)
    requires ValidJob(j)
  {
    |j.dest| <= |funcs| && forall i: nat :: i < |j.dest| ==> TableAt(j, turn, funcs[i], i)
  }

  predicate TableAt(j: Job, turn: nat, g: Func, i: nat)
    requires ValidJob(j) && i < |j.dest|
  {
    if !Filled(j, turn, i) then g == j.dest[i]
    else if j.source[Filler(j, i)].Import? then g == j.source[Filler(j, i)]
    else g.Local?
  }

  lemma TableEntries(j: Job, turn: nat, funcs: Funcs, f: nat, i: nat)
    requires ValidJob(j) && Table(j, turn, funcs) && f < |j.source| && i < |j.dest|
    ensures SameImport(j.source[f], funcs[i]) <==> EntryIs(j, turn, i, f)
  {
    assert TableAt(j, turn, funcs[i], i);
  }

  /** Where a pair with an import comes from: the replacing of a target, or a call that was looked up. */
  ghost predicate Traced(j: Job, turn: nat, p: (nat, nat))
    requires ValidJob(j)
  {
    (Filled(j, turn, p.1) && p.0 == Filler(j, p.1)) || exists e: nat :: e <= turn && Looked(j, e, p.0, p.1)
  }

  /** A copy, unless it was an import when the pair was made and has been replaced since. */
  ghost predicate PairOk(j: Job, used: set<nat>, turn: nat, funcs: Funcs, pairs: set<(nat, nat)>, p: (nat, nat))
    requires ValidJob(j)
  {
    && p.0 in used && p.0 < |j.source| && p.1 < |funcs|
    && (IsCopy(j.source[p.0], funcs[p.1], pairs) || (j.source[p.0].Import? && Filled(j, turn, p.1)))
    && (j.source[p.0].Import? ==>
          Traced(j, turn, p) && (p.1 < |j.dest| ==> j.dest[p.1].ty == j.source[p.0].ty))
  }

  ghost predicate PairsOk(j: Job, used: set<nat>, turn: nat, funcs: Funcs, pairs: set<(nat, nat)>)
    requires ValidJob(j)
  {
    forall p :: p in pairs ==> PairOk(j, used, turn, funcs, pairs, p)
  }

  lemma PairGrows(s: Scheme, j: Job, used: set<nat>, turn: nat, funcs: Funcs, funcs': Funcs,
                  pairs: set<(nat, nat)>, pairs': set<(nat, nat)>, p: (nat, nat))
    requires ValidJob(j) && Proper(s, j.source, used) && PairOk(j, used, turn, funcs, pairs, p)
    requires pairs <= pairs' && funcs <= funcs'
    ensures PairOk(j, used, turn, funcs', pairs', p)
  {
    if IsCopy(j.source[p.0], funcs[p.1], pairs) {
      CopyGrows(s, j.source, p.0, funcs[p.1], pairs, pairs');
    }
  }

  /** One more function or one more pair. */
  lemma AddPair(s: Scheme, j: Job, used: set<nat>, turn: nat, funcs: Funcs, funcs': Funcs, pairs: set<(nat, nat)>,
                f: nat, f': nat)
    requires ValidJob(j) && Proper(s, j.source, used) && PairsOk(j, used, turn, funcs, pairs) && funcs <= funcs'
    requires PairOk(j, used, turn, funcs', pairs, (f, f'))
    ensures PairsOk(j, used, turn, funcs', pairs + {(f, f')})
  {
    var pairs' := pairs + {(f, f')};
    forall p | p in pairs'
      ensures PairOk(j, used, turn, funcs', pairs', p)
    {
      if p in pairs {
        PairGrows(s, j, used, turn, funcs, funcs', pairs, pairs', p);
      } else {
        PairGrows(s, j, used, turn, funcs', funcs', pairs, pairs', p);
      }
    }
  }

  lemma TableGrows(j: Job, turn: nat, funcs: Funcs, g: Func)
    requires ValidJob(j) && Table(j, turn, funcs)
    ensures Table(j, turn, funcs + [g])
  {
    assert forall i: nat :: i < |j.dest| ==> (funcs + [g])[i] == funcs[i];
  }

  // ----- nothing is copied twice -----

  ghost predicate Owned(pairs: set<(nat, nat)>, i: nat) {
    exists f: nat :: (f, i) in pairs
  }

  /** Behind the destination stand only functions that were needed, each local one and each import once. */
  ghost predicate Lean(source: Funcs, base: nat, funcs: Funcs, pairs: set<(nat, nat)>, copied: map<nat, nat>) {
    && (forall i: nat :: base <= i < |funcs| ==> Owned(pairs, i))
    && (forall p :: p in pairs && p.1 >= base && p.0 < |source| && source[p.0].Local? ==>
          p.0 in copied && copied[p.0] == p.1)
    && (forall i: nat, k: nat :: base <= i < k < |funcs| ==> !SameImport(funcs[k], funcs[i]))
  }

  lemma LeanPair(source: Funcs, base: nat, funcs: Funcs, pairs: set<(nat, nat)>, copied: map<nat, nat>, p: (nat, nat))
    requires Lean(source, base, funcs, pairs, copied)
    requires p.1 >= base && p.0 < |source| ==> source[p.0].Import?
    ensures Lean(source, base, funcs, pairs + {p}, copied)
  {
    forall i: nat | base <= i < |funcs|
      ensures Owned(pairs + {p}, i)
    {
      assert Owned(pairs, i);
      var f: nat :| (f, i) in pairs;
      assert (f, i) in pairs + {p};
    }
  }

  lemma LeanAppend(source: Funcs, base: nat, funcs: Funcs, g: Func, pairs: set<(nat, nat)>, pairs': set<(nat, nat)>,
                   copied: map<nat, nat>, copied': map<nat, nat>, f: nat)
    requires Lean(source, base, funcs, pairs, copied) && base <= |funcs| && f < |source|
    requires pairs' == pairs + {(f, |funcs|)} && g.Import? == source[f].Import? && (g.Local? ==> f !in copied)
    requires copied' == if source[f].Local? then copied[f := |funcs|] else copied
    requires forall k: nat :: k < |funcs| ==> !SameImport(g, funcs[k])
    ensures Lean(source, base, funcs + [g], pairs', copied')
  {
    forall i: nat | base <= i < |funcs + [g]|
      ensures Owned(pairs', i)
    {
      if i < |funcs| {
        assert Owned(pairs, i);
        var h: nat :| (h, i) in pairs;
        assert (h, i) in pairs';
      } else {
        assert (f, i) in pairs';
      }
    }
  }

  lemma LeanReplace(source: Funcs, base: nat, funcs: Funcs, pairs: set<(nat, nat)>, copied: map<nat, nat>, d: nat,
                    g: Func, s: nat)
    requires Lean(source, base, funcs, pairs, copied) && d < base <= |funcs|
    ensures Lean(source, base, funcs[d := g], pairs + {(s, d)}, copied)
  {
    LeanPair(source, base, funcs, pairs, copied, (s, d));
  }

  // ----- copying -----

  datatype FuncResult = NoFuncAt | FuncAt(func: nat)

  datatype BuiltFunc = NoFunc | BuiltFunc(func: Func)

  datatype BuiltBlock = NoBlock | BuiltBlock(id: nat, body: Body)

  datatype BuiltBody = NoBody | BuiltBody(body: Body)

  datatype BuiltInstr = NoInstr | BuiltInstr(instr: Instr)

  lemma KeptTwice(owner: nat -> nat, rank: nat -> nat, n: nat, a: map<nat, nat>, b: map<nat, nat>, c: map<nat, nat>)
    requires Kept(owner, rank, n, a, b) && Kept(owner, rank, n, b, c)
    ensures Kept(owner, rank, n, a, c)
  {
  }

  lemma KeptAbove(owner: nat -> nat, rank: nat -> nat, m: nat, n: nat, a: map<nat, nat>, b: map<nat, nat>)
    requires Kept(owner, rank, m, a, b) && m <= n
    ensures Kept(owner, rank, n, a, b)
  {
  }

  /** Every local is renamed to one of its own, below the next free number. */
  ghost predicate Fitting(locals: map<nat, nat>, next: nat) {
    Injective(locals) && forall l :: l in locals ==> locals[l] < next
  }

  lemma FittingAdd(locals: map<nat, nat>, next: nat, l: nat)
    requires Fitting(locals, next)
    ensures Fitting(locals[l := next], next + 1)
  {
  }

  datatype Stage = Stage(funcs: Funcs, pairs: set<(nat, nat)>, nextSeq: nat, seqs: map<nat, nat>, locals: map<nat, nat>,
                         turn: nat, reach: set<nat>, copied: set<nat>)

  /**
   What is there stays, apart from locals of functions below rank n and blocks of those below rank m; only
   functions below rank n are copied.
   */
  ghost predicate Advanced(s: Scheme, n: nat, m: nat, a: Stage, b: Stage) {
    && a.funcs <= b.funcs && a.pairs <= b.pairs && a.nextSeq <= b.nextSeq && a.turn == b.turn && a.reach == b.reach
    && Kept(s.localOwner, s.rank, n, a.locals, b.locals) && Kept(s.labelOwner, s.rank, m, a.seqs, b.seqs)
    && forall f :: f in b.copied ==> f in a.copied || s.rank(f) < n
  }

  lemma AdvancedTwice(s: Scheme, n: nat, m: nat, a: Stage, b: Stage, c: Stage)
    requires Advanced(s, n, m, a, b) && Advanced(s, n, m, b, c)
    ensures Advanced(s, n, m, a, c)
  {
    KeptTwice(s.localOwner, s.rank, n, a.locals, b.locals, c.locals);
    KeptTwice(s.labelOwner, s.rank, m, a.seqs, b.seqs, c.seqs);
  }

  lemma AdvancedAbove(s: Scheme, n: nat, m: nat, n': nat, m': nat, a: Stage, b: Stage)
    requires Advanced(s, n, m, a, b) && n <= n' && m <= m'
    ensures Advanced(s, n', m', a, b)
  {
    KeptAbove(s.localOwner, s.rank, n, n', a.locals, b.locals);
    KeptAbove(s.labelOwner, s.rank, m, m', a.seqs, b.seqs);
  }

  class Linker {
    const source: Funcs
    const hasMemory: bool
    ghost const scheme: Scheme
    ghost const job: Job
    ghost const used: set<nat>
    var funcs: Funcs
    var nextLocal: nat
    var nextSeq: nat
    var seqs: map<nat, nat>
    var locals: map<nat, nat>
    var copied: map<nat, nat>
    ghost var pairs: set<(nat, nat)>
    ghost var turn: nat
    ghost var reach: set<nat>

    /** Nothing copied yet; new locals and blocks are numbered from the given numbers on. */
    constructor (source: Funcs, dest: Funcs, hasMemory: bool, nextLocal: nat, nextSeq: nat,
                 ghost scheme: Scheme, ghost job: Job, ghost used: set<nat>)
      requires ValidJob(job) && SameTypes(job) && source == job.source && dest == job.dest
      requires Proper(scheme, source, used) && ClosedUnderCalls(source, used)
      ensures this.source == source && this.hasMemory == hasMemory && this.scheme == scheme && this.job == job
      ensures this.used == used && funcs == dest && turn == 0 && pairs == {} && Inv()
    {
      this.source, this.hasMemory, this.scheme, funcs := source, hasMemory, scheme, dest;
      this.job, this.used, turn, reach := job, used, 0, {};
      this.nextLocal, this.nextSeq := nextLocal, nextSeq;
      seqs, locals, copied, pairs := map[], map[], map[], {};
    }

    ghost predicate Inv()
      reads this
    {
      && ValidJob(job) && SameTypes(job) && source == job.source
      && Proper(scheme, source, used) && ClosedUnderCalls(source, used) && Reached()
      && Table(job, turn, funcs) && PairsOk(job, used, turn, funcs, pairs) && Fitting(locals, nextLocal)
      && (forall f :: f in copied ==> (f, copied[f]) in pairs)
      && Lean(source, |job.dest|, funcs, pairs, copied)
    }

    /** What copying the function that replaces the current target may come to. */
    ghost predicate Reached()
      requires ValidJob(job)
      reads this
    {
      && reach <= used && ClosedUnderCalls(source, reach)
      && forall f :: f in reach ==> TargetAt(job, turn) && Below(job.source, Filler(job, turn), f)
    }

    ghost function View(): Stage
      reads this
    {
      Stage(funcs, pairs, nextSeq, seqs, locals, turn, reach, copied.Keys)
    }

    /** A local under its new name, which it gets the first time. */
    method ToDestLocal(l: nat) returns (l': nat)
      requires Inv()
      modifies this`locals, this`nextLocal
      ensures Inv() && CopyLocal(Renaming(locals, pairs), l, l')
      ensures forall x :: x in old(locals) ==> x in locals && locals[x] == old(locals)[x]
    {
      if l !in locals {
        FittingAdd(locals, nextLocal, l);
        locals := locals[l := nextLocal];
        nextLocal := nextLocal + 1;
      }
      l' := locals[l];
    }

    /** New locals for the parameters. */
    method MapArgs(f: nat) returns (args: seq<nat>)
      requires Inv() && f in used && source[f].Local?
      modifies this`locals, this`nextLocal
      ensures Inv() && CopyArgs(locals, source[f].args, args)
      ensures Kept(scheme.localOwner, scheme.rank, scheme.rank(f) + 1, old(locals), locals)
    {
      assert ProperFunc(scheme, source, f);
      var froms := source[f].args;
      args := [];
      var i := 0;
      while i < |froms|
        invariant i <= |froms| && |args| == i && Inv()
        invariant forall j :: 0 <= j < i ==> froms[j] in locals && locals[froms[j]] == args[j]
        invariant Kept(scheme.localOwner, scheme.rank, scheme.rank(f) + 1, old(locals), locals)
      {
        FittingAdd(locals, nextLocal, froms[i]);
        args := args + [nextLocal];
        locals := locals[froms[i] := nextLocal];
        nextLocal := nextLocal + 1;
        i := i + 1;
      }
    }

    /** The function's number in the destination, after copying it there if need be. */
    method ToDestFunc(f: nat) returns (r: FuncResult)
      requires Inv() && f in reach
      modifies this
      ensures r.FuncAt? ==> Inv() && (f, r.func) in pairs
      ensures r.FuncAt? ==> Advanced(scheme, scheme.rank(f) + 1, scheme.rank(f) + 1, old(View()), View())
      ensures old(Ready()) ==> r.FuncAt? && Ready()
      decreases scheme.rank(f), 4
    {
      if source[f].Import? {
        r := ToDestImport(f);
      } else if f in copied {
        r := FuncAt(copied[f]);
      } else {
        r := CopyNew(f);
      }
    }

    /** A copy of a function that has none yet, behind the others. */
    method CopyNew(f: nat) returns (r: FuncResult)
      requires Inv() && f in used && source[f].Local? && Callees(source[f].body) <= reach && f !in copied
      modifies this
      ensures r.FuncAt? ==> Inv() && (f, r.func) in pairs
      ensures r.FuncAt? ==> Advanced(scheme, scheme.rank(f) + 1, scheme.rank(f) + 1, old(View()), View())
      ensures old(Ready()) ==> r.FuncAt? && Ready()
      decreases scheme.rank(f), 4, 0
    {
      var g := CopyLocalFunc(f);
      if g.NoFunc? {
        return NoFuncAt;
      }
      ghost var v := View();
      AddLocal(f, g.func);
      r := FuncAt(|funcs| - 1);
      AdvancedTwice(scheme, scheme.rank(f) + 1, scheme.rank(f) + 1, old(View()), v, View());
    }

    /** An import of the same name, or a new one. */
    method ToDestImport(f: nat) returns (r: FuncResult)
      requires Inv() && f in reach && source[f].Import?
      modifies this
      ensures r.FuncAt? ==> Inv() && (f, r.func) in pairs
      ensures r.FuncAt? ==> Advanced(scheme, 0, 0, old(View()), View())
      ensures old(Ready()) ==> r.FuncAt? && Ready()
    {
      var s := source[f];
      var i := 0;
      while i < |funcs| && !SameImport(s, funcs[i])
        invariant i <= |funcs| && forall k :: 0 <= k < i ==> !SameImport(s, funcs[k])
      {
        i := i + 1;
      }
      ImportLooked(f, i);
      if i == |funcs| {
        AddImport(f);
        return FuncAt(i);
      }
      if funcs[i].ty != s.ty {
        return NoFuncAt;
      }
      LeanPair(source, |job.dest|, funcs, pairs, copied, (f, i));
      assert CopyFunc(Renaming(map[], pairs), source[f], funcs[i]);
      AddPair(scheme, job, used, turn, funcs, funcs, pairs, f, i);
      pairs := pairs + {(f, i)};
      r := FuncAt(i);
    }

    method AddImport(f: nat)
      requires Inv() && f in reach && source[f].Import? && Looked(job, turn, f, |funcs|)
      requires forall k: nat :: k < |funcs| ==> !SameImport(source[f], funcs[k])
      modifies this`funcs, this`pairs
      ensures Inv() && Advanced(scheme, 0, 0, old(View()), View()) && (f, |old(funcs)|) in pairs
      ensures old(Ready()) ==> Ready()
    {
      var s := source[f];
      if Ready() {
        AgreeAppend(source, used, funcs, s);
      }
      TableGrows(job, turn, funcs, s);
      assert CopyFunc(Renaming(map[], pairs), source[f], s);
      AddPair(scheme, job, used, turn, funcs, funcs + [s], pairs, f, |funcs|);
      LeanAppend(source, |job.dest|, funcs, s, pairs, pairs + {(f, |funcs|)}, copied, copied, f);
      pairs := pairs + {(f, |funcs|)};
      funcs := funcs + [s];
    }

    /** The first import of that name is what the lookup of the specification gives. */
    lemma ImportLooked(f: nat, i: nat)
      requires Inv() && f in reach && source[f].Import? && i <= |funcs|
      requires forall k :: 0 <= k < i ==> !SameImport(source[f], funcs[k])
      requires i < |funcs| ==> SameImport(source[f], funcs[i])
      ensures Looked(job, turn, f, i)
      ensures i < |job.dest| ==> job.dest[i].ty == funcs[i].ty
    {
      forall k: nat | k < |job.dest|
        ensures SameImport(source[f], funcs[k]) <==> EntryIs(job, turn, k, f)
      {
        TableEntries(job, turn, funcs, f, k);
      }
      assert i < |job.dest| ==> TableAt(job, turn, funcs[i], i);
    }

    method AddLocal(f: nat, g: Func)
      requires Inv() && f in used && source[f].Local? && IsCopy(source[f], g, pairs) && f !in copied
      modifies this
      ensures Inv() && Advanced(scheme, scheme.rank(f) + 1, scheme.rank(f) + 1, old(View()), View())
      ensures |funcs| > 0 && (f, |funcs| - 1) in pairs
      ensures old(Ready()) && g.Local? ==> Ready()
    {
      if Ready() && g.Local? {
        AgreeAppend(source, used, funcs, g);
      }
      TableGrows(job, turn, funcs, g);
      AddPair(scheme, job, used, turn, funcs, funcs + [g], pairs, f, |funcs|);
      LeanAppend(source, |job.dest|, funcs, g, pairs, pairs + {(f, |funcs|)}, copied, copied[f := |funcs|], f);
      pairs := pairs + {(f, |funcs|)};
      copied := copied[f := |funcs|];
      funcs := funcs + [g];
    }

    /** A copy of a function's body under new names for its parameters, locals and blocks. */
    method CopyLocalFunc(f: nat) returns (r: BuiltFunc)
      requires Inv() && f in used && source[f].Local? && Callees(source[f].body) <= reach
      modifies this
      ensures r.BuiltFunc? ==> Inv() && IsCopy(source[f], r.func, pairs)
      ensures r.BuiltFunc? ==> Advanced(scheme, scheme.rank(f) + 1, scheme.rank(f) + 1, old(View()), View())
      ensures r.BuiltFunc? ==> (f in copied ==> f in old(copied))
      ensures old(Ready()) ==> r.BuiltFunc? && Ready() && r.func.Local?
      decreases scheme.rank(f), 3
    {
      assert ProperFunc(scheme, source, f);
      var s := source[f];
      var args := MapArgs(f);
      ghost var v := View();
      assert Ids(NoLabels) + {s.entry} == {s.entry};
      var b := ToDestBlock(f, s.entry, s.body, NoLabels);
      if b.NoBlock? {
        return NoFunc;
      }
      AdvancedAbove(scheme, scheme.rank(f), scheme.rank(f) + 1, scheme.rank(f) + 1, scheme.rank(f) + 1, v, View());
      AdvancedTwice(scheme, scheme.rank(f) + 1, scheme.rank(f) + 1, old(View()), v, View());
      assert CopyArgs(locals, s.args, args);
      r := BuiltFunc(Local(s.ty, args, b.id, b.body));
      assert CopyFunc(Renaming(locals, pairs), source[f], r.func);
    }

    /** A block under a new name, with its instructions. */
    method ToDestBlock(f: nat, id: nat, body: Body, ghost ls: Labels) returns (r: BuiltBlock)
      requires Inv() && Inside(f, ls) && ProperBlock(scheme, source, f, Ids(ls), id, body) && Callees(body) <= reach
      modifies this
      ensures r.BuiltBlock? ==> Inv() && Inside(f, ls) && Fresh(ls, id, r.id)
      ensures r.BuiltBlock? ==> CopyBody(Renaming(locals, pairs), Label(id, r.id, ls), body, r.body)
      ensures r.BuiltBlock? ==> Advanced(scheme, scheme.rank(f), scheme.rank(f) + 1, old(View()), View())
      ensures old(Ready()) && SupportedBody(body) ==> r.BuiltBlock? && Ready()
      decreases scheme.rank(f), 1, body, 1
    {
      if !hasMemory {
        return NoBlock;
      }
      var id' := nextSeq;
      TracksFresh(seqs, ls, nextSeq, id);
      TracksUpdate(seqs, ls, nextSeq, id);
      nextSeq := nextSeq + 1;
      seqs := seqs[id := id'];
      ghost var v := View();
      var b := ToDestBody(f, body, Label(id, id', ls));
      if b.NoBody? {
        return NoBlock;
      }
      AdvancedTwice(scheme, scheme.rank(f), scheme.rank(f) + 1, old(View()), v, View());
      r := BuiltBlock(id', b.body);
    }

    /** Nothing in the source or the destination can make copying fail. */
    ghost predicate Ready()
      reads this
    {
      hasMemory && Supported(source, used) && SelfAgree(source, used) && AllAgree(source, used, funcs)
    }

    /** Where the function's own blocks are known. */
    ghost predicate Inside(f: nat, ls: Labels)
      reads this
    {
      f in used && OwnedBy(scheme.labelOwner, f, ls) && Tracks(seqs, ls, nextSeq)
    }

    method ToDestBody(f: nat, body: Body, ghost ls: Labels) returns (r: BuiltBody)
      requires Inv() && Inside(f, ls) && ProperBody(scheme, source, f, Ids(ls), body) && Callees(body) <= reach
      modifies this
      ensures r.BuiltBody? ==> Inv() && Inside(f, ls) && CopyBody(Renaming(locals, pairs), ls, body, r.body)
      ensures r.BuiltBody? ==> Advanced(scheme, scheme.rank(f), scheme.rank(f) + 1, old(View()), View())
      ensures old(Ready()) && SupportedBody(body) ==> r.BuiltBody? && Ready()
      decreases scheme.rank(f), 1, body, 0
    {
      if body.Nil? {
        return BuiltBody(Nil);
      }
      var i := ToDestInstr(f, body.head, ls);
      if i.NoInstr? {
        return NoBody;
      }
      ghost var v := View();
      var rest := ToDestBody(f, body.tail, ls);
      if rest.NoBody? {
        return NoBody;
      }
      InstrGrows(scheme, source, f, Renaming(v.locals, v.pairs), Renaming(locals, pairs), ls, body.head, i.instr);
      AdvancedTwice(scheme, scheme.rank(f), scheme.rank(f) + 1, old(View()), v, View());
      r := BuiltBody(Cons(i.instr, rest.body));
    }

    method ToDestInstr(f: nat, i: Instr, ghost ls: Labels) returns (r: BuiltInstr)
      requires Inv() && Inside(f, ls) && ProperInstr(scheme, source, f, Ids(ls), i) && CalleesOf(i) <= reach
      modifies this
      ensures r.BuiltInstr? ==> Inv() && Inside(f, ls) && CopyInstr(Renaming(locals, pairs), ls, i, r.instr)
      ensures r.BuiltInstr? ==> Advanced(scheme, scheme.rank(f), scheme.rank(f) + 1, old(View()), View())
      ensures old(Ready()) && SupportedInstr(i) ==> r.BuiltInstr? && Ready()
      decreases scheme.rank(f), 1, i
    {
      match i
      case Plain(_) => r := BuiltInstr(i);
      case Return => r := BuiltInstr(i);
      case Unreachable => r := BuiltInstr(i);
      case Unsupported => r := NoInstr;
      case LocalGet(l) =>
        var l' := ToDestLocal(l);
        r := BuiltInstr(LocalGet(l'));
      case LocalSet(l) =>
        var l' := ToDestLocal(l);
        r := BuiltInstr(LocalSet(l'));
      case LocalTee(l) =>
        var l' := ToDestLocal(l);
        r := BuiltInstr(LocalTee(l'));
      case Call(g) =>
        r := ToDestCall(f, g, ls);
      case Block(id, ins, outs, body) =>
        var b := ToDestBlock(f, id, body, ls);
        r := if b.NoBlock? then NoInstr else BuiltInstr(Block(b.id, ins, outs, b.body));
      case Loop(id, ins, outs, body) =>
        var b := ToDestBlock(f, id, body, ls);
        r := if b.NoBlock? then NoInstr else BuiltInstr(Loop(b.id, ins, outs, b.body));
      case IfElse(id, ins, outs, body, other, alternative) =>
        r := ToDestIfElse(f, i, ls);
      case Br(t) =>
        r := if t in seqs then BuiltInstr(Br(seqs[t])) else NoInstr;
        TracksCopies(seqs, ls, nextSeq, t);
      case BrIf(t) =>
        r := if t in seqs then BuiltInstr(BrIf(seqs[t])) else NoInstr;
        TracksCopies(seqs, ls, nextSeq, t);
      case BrTable(ts, t) =>
        var ts' := MapTargets(ts, ls);
        TracksCopies(seqs, ls, nextSeq, t);
        r := if t in seqs then BuiltInstr(BrTable(ts', seqs[t])) else NoInstr;
    }

    method ToDestCall(f: nat, g: nat, ghost ls: Labels) returns (r: BuiltInstr)
      requires Inv() && Inside(f, ls) && g in reach && scheme.rank(g) < scheme.rank(f)
      modifies this
      ensures r.BuiltInstr? ==> Inv() && Inside(f, ls) && CopyInstr(Renaming(locals, pairs), ls, Call(g), r.instr)
      ensures r.BuiltInstr? ==> Advanced(scheme, scheme.rank(f), scheme.rank(f) + 1, old(View()), View())
      ensures old(Ready()) ==> r.BuiltInstr? && Ready()
      decreases scheme.rank(f), 0
    {
      ghost var v := View();
      var h := ToDestFunc(g);
      if h.NoFuncAt? {
        return NoInstr;
      }
      AdvancedAbove(scheme, scheme.rank(g) + 1, scheme.rank(g) + 1, scheme.rank(f), scheme.rank(f), v, View());
      AdvancedAbove(scheme, scheme.rank(f), scheme.rank(f), scheme.rank(f), scheme.rank(f) + 1, v, View());
      TracksKept(scheme.labelOwner, scheme.rank, f, v.seqs, seqs, ls, v.nextSeq, nextSeq);
      r := BuiltInstr(Call(h.func));
    }

    method ToDestIfElse(f: nat, i: Instr, ghost ls: Labels) returns (r: BuiltInstr)
      requires Inv() && Inside(f, ls) && i.IfElse? && ProperInstr(scheme, source, f, Ids(ls), i)
      requires CalleesOf(i) <= reach
      modifies this
      ensures r.BuiltInstr? ==> Inv() && Inside(f, ls) && CopyInstr(Renaming(locals, pairs), ls, i, r.instr)
      ensures r.BuiltInstr? ==> Advanced(scheme, scheme.rank(f), scheme.rank(f) + 1, old(View()), View())
      ensures old(Ready()) && SupportedInstr(i) ==> r.BuiltInstr? && Ready()
      decreases scheme.rank(f), 1, i, 0
    {
      var b := ToDestBlock(f, i.id, i.body, ls);
      if b.NoBlock? {
        return NoInstr;
      }
      ghost var v := View();
      var a := ToDestBlock(f, i.other, i.alternative, ls);
      if a.NoBlock? {
        return NoInstr;
      }
      BodyGrows(scheme, source, f, Renaming(v.locals, v.pairs), Renaming(locals, pairs), Label(i.id, b.id, ls),
                i.body, b.body);
      AdvancedTwice(scheme, scheme.rank(f), scheme.rank(f) + 1, old(View()), v, View());
      r := BuiltInstr(IfElse(b.id, i.ins, i.outs, b.body, a.id, a.body));
    }

    method MapTargets(ts: seq<nat>, ghost ls: Labels) returns (ts': seq<nat>)
      requires Tracks(seqs, ls, nextSeq) && forall j :: 0 <= j < |ts| ==> ts[j] in Ids(ls)
      ensures CopyTargets(ls, ts, ts')
    {
      ts' := [];
      var j := 0;
      while j < |ts|
        invariant j <= |ts| && |ts'| == j && forall k :: 0 <= k < j ==> Copies(ls, ts[k], ts'[k])
      {
        TracksCopies(seqs, ls, nextSeq, ts[j]);
        ts' := ts' + [seqs[ts[j]]];
        j := j + 1;
      }
    }
  }
}
