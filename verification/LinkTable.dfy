/** What is linked into what, what an imported function is found to be at each point, and when that goes wrong. */
module LinkTable {
  import opened LinkModel

  type Exports = map<nat, nat>

  /** A source with its exported functions by name, and the destination as it was. */
  datatype Job = Job(source: Funcs, exports: Exports, dest: Funcs)

  predicate ValidJob(j: Job) {
    forall n :: n in j.exports ==> j.exports[n] < |j.source|
  }

  predicate IsTarget(exports: Exports, f: Func) {
    f.Import? && f.name in exports
  }

  /** An import of the destination that the source exports. */
  predicate TargetAt(j: Job, d: nat) {
    d < |j.dest| && IsTarget(j.exports, j.dest[d])
  }

  /** The function that replaces it. */
  function Filler(j: Job, d: nat): (s: nat)
    requires ValidJob(j) && TargetAt(j, d)
    ensures s < |j.source|
  {
    j.exports[j.dest[d].name]
  }

  /** Imports have the types of the exports that replace them. */
  ghost predicate SameTypes(j: Job)
    requires ValidJob(j)
  {
    forall d: nat :: TargetAt(j, d) ==> j.source[Filler(j, d)].ty == j.dest[d].ty
  }

  predicate SameImport(f: Func, g: Func) {
    f.Import? && g.Import? && f.namespace == g.namespace && f.name == g.name
  }

  // ----- calls -----

  function Callees(b: Body): set<nat>
    decreases b
  {
    match b
    case Nil => {}
    case Cons(i, rest) => CalleesOf(i) + Callees(rest)
  }

  function CalleesOf(i: Instr): set<nat>
    decreases i
  {
    match i
    case Call(f) => {f}
    case Block(_, _, _, body) => Callees(body)
    case Loop(_, _, _, body) => Callees(body)
    case IfElse(_, _, _, body, _, alternative) => Callees(body) + Callees(alternative)
    case _ => {}
  }

  predicate Calls(fs: Funcs, f: nat, g: nat) {
    f < |fs| && fs[f].Local? && g in Callees(fs[f].body)
  }

  ghost predicate CallPath(fs: Funcs, path: seq<nat>) {
    |path| >= 2 && forall k :: 0 <= k < |path| - 1 ==> Calls(fs, path[k], path[k + 1])
  }

  /** Running f may come to g, through one call or more. */
  ghost predicate Below(fs: Funcs, f: nat, g: nat) {
    exists path :: CallPath(fs, path) && path[0] == f && path[|path| - 1] == g
  }

  lemma BelowOne(fs: Funcs, f: nat, g: nat)
    requires Calls(fs, f, g)
    ensures Below(fs, f, g)
  {
    var path := [f, g];
    assert CallPath(fs, path) && path[0] == f && path[|path| - 1] == g;
  }

  lemma BelowNext(fs: Funcs, f: nat, g: nat, h: nat)
    requires Below(fs, f, g) && Calls(fs, g, h)
    ensures Below(fs, f, h)
  {
    var path :| CallPath(fs, path) && path[0] == f && path[|path| - 1] == g;
    var longer := path + [h];
    forall k | 0 <= k < |longer| - 1
      ensures Calls(fs, longer[k], longer[k + 1])
    {
      if k < |path| - 1 {
        assert longer[k] == path[k] && longer[k + 1] == path[k + 1];
      }
    }
    assert CallPath(fs, longer) && longer[0] == f && longer[|longer| - 1] == h;
  }

  /** A function of the source that linking copies or calls. */
  ghost predicate Used(j: Job, f: nat)
    requires ValidJob(j)
  {
    exists d: nat :: TargetAt(j, d) && (f == Filler(j, d) || Below(j.source, Filler(j, d), f))
  }

  /** Nothing outside is called from inside. */
  ghost predicate ClosedUnderCalls(fs: Funcs, used: set<nat>) {
    forall f :: f in used ==> f < |fs| && (fs[f].Local? ==> Callees(fs[f].body) <= used)
  }

  // ----- looking an import up -----

  predicate Filled(j: Job, turn: nat, i: nat) {
    TargetAt(j, i) && i < turn
  }

  /** When the targets below turn have been replaced, place i of the destination imports what f of the source does. */
  predicate EntryIs(j: Job, turn: nat, i: nat, f: nat)
    requires ValidJob(j) && i < |j.dest| && f < |j.source|
  {
    SameImport(j.source[f], if Filled(j, turn, i) then j.source[Filler(j, i)] else j.dest[i])
  }

  /** The first such place, or one behind the destination if there is none. */
  ghost predicate Resolves(j: Job, turn: nat, f: nat, i: nat)
    requires ValidJob(j) && f < |j.source|
  {
    && (forall k: nat :: k < i && k < |j.dest| ==> !EntryIs(j, turn, k, f))
    && (i < |j.dest| ==> EntryIs(j, turn, i, f))
  }

  /** Copying what replaces target e comes to a call of the import f, which is then place i. */
  ghost predicate Looked(j: Job, e: nat, f: nat, i: nat)
    requires ValidJob(j)
  {
    && TargetAt(j, e) && f < |j.source| && j.source[f].Import? && Below(j.source, Filler(j, e), f)
    && Resolves(j, e, f, i)
  }

  /** The place is itself a target that is still to be replaced, by something else than f. */
  predicate Clashes(j: Job, e: nat, f: nat, i: nat)
    requires ValidJob(j) && f < |j.source|
  {
    TargetAt(j, i) && i >= e && !SameImport(j.source[f], j.source[Filler(j, i)])
  }

  /** No call that is copied goes to such a place. */
  ghost predicate NoClash(j: Job)
    requires ValidJob(j)
  {
    forall e: nat, f: nat, i: nat :: Looked(j, e, f, i) ==> !Clashes(j, e, f, i)
  }

  /** A source that does not import what it replaces has no clash. */
  lemma NotImportedNoClash(j: Job)
    requires ValidJob(j)
    requires forall f: nat, d: nat :: f < |j.source| && TargetAt(j, d) ==> !SameImport(j.source[f], j.dest[d])
    ensures NoClash(j)
  {
  }

  /** What clashes when target e is copied would have clashed at every earlier target. */
  lemma ClashedBefore(j: Job, e: nat, f: nat, i: nat, e': nat, i': nat)
    requires ValidJob(j) && f < |j.source| && e' <= e && Resolves(j, e, f, i) && Clashes(j, e, f, i)
    requires Resolves(j, e', f, i')
    ensures Clashes(j, e', f, i')
  {
    assert EntryIs(j, e', i, f);
    assert Filled(j, e', i') ==> EntryIs(j, e, i', f);
  }
}
