/** The list of operations as a whole: removals, dependents first, and then installations, dependencies first. */
module DepChanges {
  import opened DepModel
  import opened DepPlan
  import opened DepApply
  import opened Sequences

  lemma ReversedEarlier(g: Graph, names: seq<Name>)
    requires DependenciesEarlier(g, names)
    ensures DependentsEarlier(g, Reversed(names))
  {
    var r, n := Reversed(names), |names|;
    forall i: nat, j: nat | i < |r| && j < |r| && DependsOn(g, r[i], r[j])
      ensures i < j
    {
      assert r[i] == names[n - 1 - i] && r[j] == names[n - 1 - j];
      assert DependsOn(g, names[n - 1 - i], names[n - 1 - j]);
    }
  }

  lemma ReversedRemoves(names: seq<Name>)
    ensures Reversed(Removes(names)) == Removes(Reversed(names))
  {
  }

  lemma ReversedSame(names: seq<Name>)
    ensures forall p :: p in Reversed(names) <==> p in names
    ensures Distinct(names) ==> Distinct(Reversed(names))
  {
    var r, n := Reversed(names), |names|;
    forall p | p in names
      ensures p in r
    {
      var i: nat :| i < n && names[i] == p;
      assert r[n - 1 - i] == p;
    }
    if Distinct(names) {
      forall i | 0 <= i < n
        ensures r[i] !in r[..i]
      {
        forall j | 0 <= j < i
          ensures r[..i][j] != r[i]
        {
          DistinctAt(names, n - 1 - i, n - 1 - j);
        }
      }
    }
  }

  method Removals(packages: map<Name, Package>, existing: map<Name, Installed>)
    returns (ops: seq<Operation>, ghost removed: seq<Name>)
    requires Settled(existing)
    ensures ops == Removes(removed) && RemovalsRight(packages, existing, removed)
  {
    var names := Enumerate(existing.Keys);
    var remover := new Remover(packages, existing);
    remover.GetRemoved(names, []);
    ops := Reversed(remover.result);
    ghost var order := remover.order;
    removed := Reversed(Among(order, Removable(packages, existing)));
    ReversedRemoves(Among(order, Removable(packages, existing)));
    RemovedRight(packages, existing, remover.found, order);
  }

  lemma RemovedRight(packages: map<Name, Package>, existing: map<Name, Installed>, found: set<Name>, order: seq<Name>)
    requires RemovalInv(existing, [], found, order) && existing.Keys <= found
    ensures RemovalsRight(packages, existing, Reversed(Among(order, Removable(packages, existing))))
  {
    var chosen := Removable(packages, existing);
    AmongDistinct(order, chosen);
    ReversedSame(Among(order, chosen));
    forall p | p in chosen
      ensures p in order
    {
      assert p in Working(existing);
    }
    if !Cyclic(Working(existing)) {
      AmongEarlier(Working(existing), order, chosen);
      ReversedEarlier(Working(existing), Among(order, chosen));
    }
  }

  lemma {:induction false} OperationsAreTheirs(q: Problem, order: seq<Name>, op: Operation)
    requires forall p :: p in order ==> p in q.packages
    requires op in Operations(q.packages, q.existing, q.again, order)
    ensures op.name in q.packages && [op] == OperationFor(q.packages, q.existing, q.again, op.name)
  {
    var n := |order| - 1;
    if op in Operations(q.packages, q.existing, q.again, order[..n]) {
      OperationsAreTheirs(q, order[..n], op);
    } else {
      assert op in OperationFor(q.packages, q.existing, q.again, order[n]);
    }
  }

  lemma InstalledRight(q: Problem, order: seq<Name>)
    requires Distinct(order) && Ordered(Selected(q.packages), order) && forall p :: p in order <==> p in q.packages
    ensures InstallationsRight(q, Operations(q.packages, q.existing, q.again, order))
    ensures !Cyclic(Selected(q.packages))
  {
    var ops := Operations(q.packages, q.existing, q.again, order);
    OperationsNameChanged(q, order);
    AmongEarlier(Selected(q.packages), order, Changed(q));
    forall op | op in ops
      ensures op.name in q.packages && [op] == OperationFor(q.packages, q.existing, q.again, op.name)
    {
      OperationsAreTheirs(q, order, op);
    }
    forall p
      ensures !DependsOn(Selected(q.packages), p, p)
    {
      NotOnItself(q, order, p);
    }
  }

  lemma NotOnItself(q: Problem, order: seq<Name>, p: Name)
    requires Ordered(Selected(q.packages), order) && forall x :: x in order <==> x in q.packages
    ensures !DependsOn(Selected(q.packages), p, p)
  {
    var g := Selected(q.packages);
    if DependsOn(g, p, p) {
      var c :| Chain(g, c) && |c| >= 2 && c[0] == p && c[|c| - 1] == p;
      assert c[0] in g;
      var k: nat :| k < |order| && order[k] == p;
      OrderedNotCyclic(g, order, p, k);
    }
  }

  /** From one set of packages to another: fails just when the selection depends on itself. */
  method EvaluateChanges(packages: map<Name, Package>, existing: map<Name, Installed>, request: set<Name>,
                         reinstall: bool)
    returns (ok: bool, ops: seq<Operation>, ghost removed: seq<Name>, ghost installs: seq<Operation>)
    requires Closed(Selected(packages)) && Settled(existing)
    ensures ok <==> !Cyclic(Selected(packages))
    ensures ok ==> ops == Removes(removed) + installs && RemovalsRight(packages, existing, removed)
    ensures ok ==>
              InstallationsRight(Problem(packages, existing, if reinstall then request else {}, Removes(removed)),
                                 installs)
    ensures ok ==> PlanRight(packages, existing, ops)
    ensures ok ==> NothingNeedless(packages, existing, if reinstall then request else {}, ops)
  {
    ops, removed := Removals(packages, existing);
    var again := if reinstall then request else {};
    var names := Enumerate(packages.Keys);
    var installer := new Installer(packages, existing, again, ops);
    ok := installer.GetInstalled(names, []);
    installs := [];
    if ok {
      ops := installer.result;
      AllInstalled(installer.q, installer.View());
      installs := Operations(packages, existing, again, installer.order);
      InstalledRight(installer.q, installer.order);
      PlanApplies(installer.q, removed, installs);
      PlanNotNeedless(installer.q, removed, installs);
    }
  }

  lemma AllInstalled(q: Problem, s: Plan)
    requires Accounted(q, [], s) && forall p :: p in q.packages ==> p in s.order
    ensures forall p :: p in s.order <==> p in q.packages
  {
  }
}
