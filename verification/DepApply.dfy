/** What a list of operations does to the packages that are there. */
module DepApply {
  import opened DepModel
  import opened DepPlan
  import opened Sequences

  // ----- applying operations -----

  /** The version of each package that is there. */
  type State = map<Name, Version>

  datatype Applied = Refused | Applied(state: State)

  function VersionsOf(existing: map<Name, Installed>): State {
    map p | p in existing :: existing[p].version
  }

  /** Install where there is none, replace where the old version is there, remove where there is one. */
  function Apply(state: State, op: Operation): Applied {
    match op
    case Install(name, package) => if name in state then Refused else Applied(state[name := package.version])
    case Replace(name, version, package) =>
      if name in state && state[name] == version then Applied(state[name := package.version]) else Refused
    case Remove(name) => if name in state then Applied(state - {name}) else Refused
  }

  function ApplyAll(state: State, ops: seq<Operation>): Applied {
    if ops == [] then Applied(state)
    else
      var r := ApplyAll(state, ops[..|ops| - 1]);
      if r.Refused? then r else Apply(r.state, ops[|ops| - 1])
  }

  lemma ApplyNext(state: State, ops: seq<Operation>, op: Operation)
    ensures ApplyAll(state, ops + [op]) ==
              var r := ApplyAll(state, ops);
              if r.Refused? then r else Apply(r.state, op)
  {
    assert (ops + [op])[..|ops|] == ops;
  }

  // ----- what a plan is for -----

  /**
   The selected packages are there in their selected versions. Of the others, those that work and may be
   removed are gone, and the rest is as it was.
   */
  ghost predicate Reached(packages: map<Name, Package>, existing: map<Name, Installed>, state: State) {
    && (forall p :: p in packages ==> p in state && state[p] == packages[p].version)
    && (forall p :: p !in packages ==>
          (p in state <==> p in existing && (existing[p].broken || !existing[p].canRemove)))
    && (forall p :: p !in packages && p in state ==> state[p] == existing[p].version)
  }

  /** Everything that a package to be installed depends on is there already, in its selected version. */
  ghost predicate Ready(packages: map<Name, Package>, state: State, op: Operation) {
    op.Remove? || forall r :: r in op.package.depends ==>
      r.name in packages && r.name in state && state[r.name] == packages[r.name].version
  }

  /** Step by step: no operation is refused, and none is done before its turn. */
  ghost predicate Runs(packages: map<Name, Package>, state: State, ops: seq<Operation>) {
    forall k :: 0 <= k < |ops| ==>
      ApplyAll(state, ops[..k]).Applied? && Ready(packages, ApplyAll(state, ops[..k]).state, ops[k])
  }

  ghost predicate PlanRight(packages: map<Name, Package>, existing: map<Name, Installed>, ops: seq<Operation>) {
    && ApplyAll(VersionsOf(existing), ops).Applied?
    && Reached(packages, existing, ApplyAll(VersionsOf(existing), ops).state)
    && Runs(packages, VersionsOf(existing), ops)
  }

  /** A selected package that is there in its selected version already is left alone, unless asked for again. */
  ghost predicate NothingNeedless(packages: map<Name, Package>, existing: map<Name, Installed>, again: set<Name>,
                                  ops: seq<Operation>) {
    forall p :: p in packages && p in existing && existing[p].version == packages[p].version ==>
      (p in OperationNames(ops) <==> p in again)
  }

  // ----- the two halves of a plan -----

  /** The names of a list, each before what it depends on. */
  ghost predicate DependentsEarlier(g: Graph, names: seq<Name>) {
    forall i: nat, j: nat :: i < |names| && j < |names| && DependsOn(g, names[i], names[j]) ==> i < j
  }

  /** The removals: exactly the packages that are to go, each before what it depends on. */
  ghost predicate RemovalsRight(packages: map<Name, Package>, existing: map<Name, Installed>, removed: seq<Name>) {
    && Distinct(removed) && (forall p :: p in removed <==> p in Removable(packages, existing))
    && (!Cyclic(Working(existing)) ==> DependentsEarlier(Working(existing), removed))
  }

  /** The installations: every selected package that changes, once, after what it depends on. */
  ghost predicate InstallationsRight(q: Problem, ops: seq<Operation>) {
    && Distinct(OperationNames(ops)) && DependenciesEarlier(Selected(q.packages), OperationNames(ops))
    && (forall p :: p in OperationNames(ops) <==> p in Changed(q))
    && (forall op :: op in ops ==>
          op.name in q.packages && [op] == OperationFor(q.packages, q.existing, q.again, op.name))
  }

  // ----- together they do what a plan is for -----

  /** What is there once these are removed and those installed. */
  ghost function Midway(q: Problem, removed: seq<Name>, names: seq<Name>): State
    requires forall p :: p in names ==> p in q.packages
  {
    map p | p in q.existing.Keys + q.packages.Keys && ((p in q.existing && p !in removed) || p in names) ::
      if p in names then q.packages[p].version else q.existing[p].version
  }

  lemma {:induction false} RemovalsApply(q: Problem, removed: seq<Name>, k: nat)
    requires k <= |removed| && Distinct(removed) && forall p :: p in removed ==> p in q.existing
    ensures ApplyAll(VersionsOf(q.existing), Removes(removed)[..k]) == Applied(Midway(q, removed[..k], []))
  {
    var state, ops := VersionsOf(q.existing), Removes(removed);
    if k == 0 {
      assert Midway(q, [], []) == state;
    } else {
      RemovalsApply(q, removed, k - 1);
      var p := removed[k - 1];
      assert ops[..k] == ops[..k - 1] + [Remove(p)];
      ApplyNext(state, ops[..k - 1], Remove(p));
      assert p in removed && p !in removed[..k - 1];
      assert removed[..k] == removed[..k - 1] + [p];
      RemoveOne(q, removed[..k - 1], p);
    }
  }

  lemma RemoveOne(q: Problem, removed: seq<Name>, p: Name)
    requires p in q.existing && p !in removed
    ensures Apply(Midway(q, removed, []), Remove(p)) == Applied(Midway(q, removed + [p], []))
  {
    assert Midway(q, removed + [p], []) == Midway(q, removed, []) - {p};
  }

  /** A changed package that was not changed before is replaced or installed as it was found. */
  lemma InstallOne(q: Problem, removed: seq<Name>, names: seq<Name>, op: Operation)
    requires forall p :: p in names ==> p in q.packages
    requires forall p :: p in removed ==> p !in q.packages
    requires op.name in q.packages && op.name !in names
    requires [op] == OperationFor(q.packages, q.existing, q.again, op.name)
    ensures forall p :: p in names + [op.name] ==> p in q.packages
    ensures Apply(Midway(q, removed, names), op) == Applied(Midway(q, removed, names + [op.name]))
  {
    var p, state := op.name, Midway(q, removed, names);
    assert p in state <==> p in q.existing;
    assert Midway(q, removed, names + [p]) == state[p := q.packages[p].version];
  }

  ghost predicate Halves(q: Problem, removed: seq<Name>, installs: seq<Operation>) {
    && Distinct(removed) && Distinct(OperationNames(installs))
    && (forall p :: p in removed ==> p in q.existing && p !in q.packages)
    && (forall op :: op in installs ==>
          op.name in q.packages && [op] == OperationFor(q.packages, q.existing, q.again, op.name))
  }

  lemma NamesSelected(q: Problem, removed: seq<Name>, installs: seq<Operation>, k: nat)
    requires Halves(q, removed, installs) && k <= |installs|
    ensures forall p :: p in OperationNames(installs)[..k] ==> p in q.packages
  {
    forall i | 0 <= i < k
      ensures OperationNames(installs)[i] in q.packages
    {
      assert installs[i] in installs;
    }
  }

  lemma AllRemovalsApply(q: Problem, removed: seq<Name>)
    requires Distinct(removed) && forall p :: p in removed ==> p in q.existing
    ensures ApplyAll(VersionsOf(q.existing), Removes(removed)) == Applied(Midway(q, removed, []))
  {
    RemovalsApply(q, removed, |removed|);
    assert Removes(removed)[..|removed|] == Removes(removed) && removed[..|removed|] == removed;
  }

  lemma {:induction false} InstallationsApply(q: Problem, removed: seq<Name>, installs: seq<Operation>, k: nat)
    requires Halves(q, removed, installs) && k <= |installs|
    ensures forall p :: p in OperationNames(installs)[..k] ==> p in q.packages
    ensures ApplyAll(VersionsOf(q.existing), Removes(removed) + installs[..k])
         == Applied(Midway(q, removed, OperationNames(installs)[..k]))
  {
    var state, names := VersionsOf(q.existing), OperationNames(installs);
    NamesSelected(q, removed, installs, k);
    if k == 0 {
      AllRemovalsApply(q, removed);
      assert Removes(removed) + installs[..0] == Removes(removed) && names[..0] == [];
    } else {
      InstallationsApply(q, removed, installs, k - 1);
      var op := installs[k - 1];
      assert op in installs && names[k - 1] == op.name;
      assert names[..k] == names[..k - 1] + [op.name];
      assert Removes(removed) + installs[..k] == (Removes(removed) + installs[..k - 1]) + [op];
      ApplyNext(state, Removes(removed) + installs[..k - 1], op);
      InstallOne(q, removed, names[..k - 1], op);
    }
  }

  /** A selected package that needs no operation is there in its selected version. */
  lemma UnchangedIsThere(q: Problem, p: Name)
    requires p in q.packages && p !in Changed(q)
    ensures p in q.existing && q.existing[p].version == q.packages[p].version
  {
  }

  lemma FinalState(q: Problem, removed: seq<Name>, installs: seq<Operation>)
    requires RemovalsRight(q.packages, q.existing, removed) && InstallationsRight(q, installs)
    ensures forall p :: p in OperationNames(installs) ==> p in q.packages
    ensures Reached(q.packages, q.existing, Midway(q, removed, OperationNames(installs)))
  {
    var state := Midway(q, removed, OperationNames(installs));
    forall p | p in q.packages
      ensures p in state && state[p] == q.packages[p].version
    {
      if p !in Changed(q) {
        UnchangedIsThere(q, p);
      }
    }
  }

  lemma DependencyReady(q: Problem, removed: seq<Name>, installs: seq<Operation>, k: nat, r: Ref)
    requires Closed(Selected(q.packages)) && RemovalsRight(q.packages, q.existing, removed)
    requires InstallationsRight(q, installs) && k < |installs| && r in q.packages[installs[k].name].depends
    requires forall p :: p in OperationNames(installs)[..k] ==> p in q.packages
    requires installs[k].name in q.packages
    ensures r.name in q.packages
    ensures var state := Midway(q, removed, OperationNames(installs)[..k]);
            r.name in state && state[r.name] == q.packages[r.name].version
  {
    var names, p, d, g := OperationNames(installs), installs[k].name, r.name, Selected(q.packages);
    ClosedNames(q.packages, p);
    var i: nat :| i < |q.packages[p].depends| && q.packages[p].depends[i] == r;
    assert Names(q.packages[p].depends)[i] == d;
    if d in names {
      var j: nat :| j < |names| && names[j] == d;
      assert Chain(g, [p, d]) && [p, d][0] == p && [p, d][|[p, d]| - 1] == d;
      assert DependsOn(g, names[k], names[j]);
      assert names[..k][j] == d;
    } else {
      UnchangedIsThere(q, d);
    }
  }

  lemma OperationReady(q: Problem, removed: seq<Name>, installs: seq<Operation>, k: nat)
    requires Closed(Selected(q.packages)) && RemovalsRight(q.packages, q.existing, removed)
    requires InstallationsRight(q, installs) && k < |installs|
    ensures forall p :: p in OperationNames(installs)[..k] ==> p in q.packages
    ensures Ready(q.packages, Midway(q, removed, OperationNames(installs)[..k]), installs[k])
  {
    NamesSelected(q, removed, installs, k);
    var op := installs[k];
    assert op in installs && op.package == q.packages[op.name];
    forall r | r in op.package.depends
      ensures var state := Midway(q, removed, OperationNames(installs)[..k]);
              r.name in q.packages && r.name in state && state[r.name] == q.packages[r.name].version
    {
      DependencyReady(q, removed, installs, k, r);
    }
  }

  lemma RemovalStep(q: Problem, removed: seq<Name>, installs: seq<Operation>, k: nat)
    requires RemovalsRight(q.packages, q.existing, removed) && k < |removed|
    ensures var ops := Removes(removed) + installs;
            ApplyAll(VersionsOf(q.existing), ops[..k]).Applied? && ops[k].Remove?
  {
    assert (Removes(removed) + installs)[..k] == Removes(removed)[..k];
    RemovalsApply(q, removed, k);
  }

  lemma InstallationStep(q: Problem, removed: seq<Name>, installs: seq<Operation>, k: nat)
    requires Closed(Selected(q.packages)) && RemovalsRight(q.packages, q.existing, removed)
    requires InstallationsRight(q, installs) && |removed| <= k < |removed| + |installs|
    ensures var ops := Removes(removed) + installs;
            var r := ApplyAll(VersionsOf(q.existing), ops[..k]);
            r.Applied? && Ready(q.packages, r.state, ops[k])
  {
    var i := k - |removed|;
    assert (Removes(removed) + installs)[..k] == Removes(removed) + installs[..i];
    InstallationsApply(q, removed, installs, i);
    OperationReady(q, removed, installs, i);
  }

  /** The removals followed by the installations always apply, in this order, and reach what was selected. */
  lemma PlanApplies(q: Problem, removed: seq<Name>, installs: seq<Operation>)
    requires Closed(Selected(q.packages)) && RemovalsRight(q.packages, q.existing, removed)
    requires InstallationsRight(q, installs)
    ensures PlanRight(q.packages, q.existing, Removes(removed) + installs)
  {
    var state, ops, names := VersionsOf(q.existing), Removes(removed) + installs, OperationNames(installs);
    forall k | 0 <= k < |ops|
      ensures ApplyAll(state, ops[..k]).Applied? && Ready(q.packages, ApplyAll(state, ops[..k]).state, ops[k])
    {
      if k < |removed| {
        RemovalStep(q, removed, installs, k);
      } else {
        InstallationStep(q, removed, installs, k);
      }
    }
    InstallationsApply(q, removed, installs, |installs|);
    assert installs[..|installs|] == installs && names[..|installs|] == names;
    FinalState(q, removed, installs);
  }

  lemma PlanNotNeedless(q: Problem, removed: seq<Name>, installs: seq<Operation>)
    requires RemovalsRight(q.packages, q.existing, removed) && InstallationsRight(q, installs)
    ensures NothingNeedless(q.packages, q.existing, q.again, Removes(removed) + installs)
  {
    var ops := Removes(removed) + installs;
    var names := OperationNames(ops);
    assert names == OperationNames(Removes(removed)) + OperationNames(installs);
    assert OperationNames(Removes(removed)) == removed;
  }
}
