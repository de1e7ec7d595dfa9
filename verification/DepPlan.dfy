/** Ordering the operations that take one set of packages to another. */
module DepPlan {
  import opened DepModel
  import opened Sequences

  type Version = nat

  type Pattern = nat

  /** A dependency on some version of a package. */
  datatype Ref = Ref(name: Name, pattern: Pattern)

  datatype Package = Package(version: Version, depends: seq<Ref>)

  datatype Installed = Installed(version: Version, depends: seq<Ref>, canBreak: bool, canRemove: bool, broken: bool)

  datatype Operation = Install(name: Name, package: Package)
                     | Replace(name: Name, version: Version, package: Package)
                     | Remove(name: Name)

  function Names(refs: seq<Ref>): (r: seq<Name>)
    ensures |r| == |refs| && forall i :: 0 <= i < |refs| ==> r[i] == refs[i].name
  {
    seq(|refs|, i requires 0 <= i < |refs| => refs[i].name)
  }

  function Selected(packages: map<Name, Package>): Graph {
    map p | p in packages :: Names(packages[p].depends)
  }

  // ----- installing -----

  /** What happens to a selected package: nothing when its version is there already. */
  function Listed(package: Package, existing: map<Name, Installed>, again: set<Name>, p: Name): seq<Operation> {
    if p !in existing then [Install(p, package)]
    else if existing[p].version != package.version || p in again then [Replace(p, existing[p].version, package)]
    else []
  }

  function OperationFor(packages: map<Name, Package>, existing: map<Name, Installed>, again: set<Name>, p: Name)
    : seq<Operation>
    requires p in packages
  {
    Listed(packages[p], existing, again, p)
  }

  function Operations(packages: map<Name, Package>, existing: map<Name, Installed>, again: set<Name>, order: seq<Name>)
    : seq<Operation>
    requires forall p :: p in order ==> p in packages
  {
    if order == [] then []
    else
      Operations(packages, existing, again, order[..|order| - 1])
      + OperationFor(packages, existing, again, order[|order| - 1])
  }

  lemma OperationsAppend(packages: map<Name, Package>, existing: map<Name, Installed>, again: set<Name>,
                         order: seq<Name>, p: Name)
    requires p in packages && forall q :: q in order ==> q in packages
    ensures forall q :: q in order + [p] ==> q in packages
    ensures Operations(packages, existing, again, order + [p])
         == Operations(packages, existing, again, order) + OperationFor(packages, existing, again, p)
  {
    assert (order + [p])[..|order|] == order;
  }

  /** The state of the search: what is left, what was there, what is begun (false) or done (true). */
  datatype Plan = Plan(reg: map<Name, Package>, existing: map<Name, Installed>, found: map<Name, bool>,
                       result: seq<Operation>, order: seq<Name>)

  /** The problem: the selection, the packages there, those to install again, and the operations already listed. */
  datatype Problem = Problem(packages: map<Name, Package>, existing: map<Name, Installed>, again: set<Name>,
                             start: seq<Operation>)

  ghost predicate Accounted(q: Problem, path: seq<Name>, s: Plan) {
    && (forall p :: p in q.packages <==> p in s.reg || p in s.found)
    && (forall p :: p in s.reg ==> p !in s.found && s.reg[p] == q.packages[p])
    && (forall p :: p in s.order <==> p in s.found && s.found[p])
    && (forall p :: p in path <==> p in s.found && !s.found[p])
    && (forall p :: p in s.existing <==> p in q.existing && p !in s.order)
    && (forall p :: p in s.existing ==> s.existing[p] == q.existing[p])
  }

  ghost predicate Inv(q: Problem, path: seq<Name>, s: Plan) {
    && Accounted(q, path, s)
    && Distinct(s.order) && Ordered(Selected(q.packages), s.order)
    && (path == [] || Chain(Selected(q.packages), path))
    && s.result == q.start + Operations(q.packages, q.existing, q.again, s.order)
  }

  function Enter(s: Plan, p: Name): Plan {
    s.(reg := s.reg - {p}, found := s.found[p := false])
  }

  ghost function Leave(q: Problem, s: Plan, p: Name): Plan
    requires p in q.packages
  {
    Plan(s.reg, s.existing - {p}, s.found[p := true],
         s.result + OperationFor(q.packages, q.existing, q.again, p), s.order + [p])
  }

  lemma EnterAccounted(q: Problem, path: seq<Name>, s: Plan, p: Name)
    requires Accounted(q, path, s) && p in s.reg
    ensures Accounted(q, path + [p], Enter(s, p))
  {
    var s' := Enter(s, p);
    assert forall x :: x in path + [p] <==> x in path || x == p;
  }

  lemma EnterKeeps(q: Problem, path: seq<Name>, s: Plan, p: Name)
    requires Inv(q, path, s) && p in s.reg
    requires path != [] ==> p in Selected(q.packages)[path[|path| - 1]]
    ensures Inv(q, path + [p], Enter(s, p))
  {
    EnterAccounted(q, path, s, p);
    if path != [] {
      ChainAppend(Selected(q.packages), path, p);
    }
  }

  lemma LeaveAccounted(q: Problem, path: seq<Name>, s: Plan, p: Name)
    requires Accounted(q, path + [p], s) && p in q.packages && p !in path
    ensures Accounted(q, path, Leave(q, s, p)) && p !in s.order
  {
    var s' := Leave(q, s, p);
    assert forall x :: x in path + [p] <==> x in path || x == p;
    assert forall x :: x in s'.order <==> x in s.order || x == p;
  }

  lemma LeaveResult(q: Problem, s: Plan, p: Name)
    requires p in q.packages && (forall x :: x in s.order ==> x in q.packages)
    requires s.result == q.start + Operations(q.packages, q.existing, q.again, s.order)
    ensures forall x :: x in s.order + [p] ==> x in q.packages
    ensures Leave(q, s, p).result == q.start + Operations(q.packages, q.existing, q.again, s.order + [p])
  {
    OperationsAppend(q.packages, q.existing, q.again, s.order, p);
  }

  lemma LeaveKeeps(q: Problem, path: seq<Name>, s: Plan, p: Name)
    requires Inv(q, path + [p], s) && p in q.packages && p !in path
    requires forall d :: d in Selected(q.packages)[p] ==> d in s.order
    ensures Inv(q, path, Leave(q, s, p))
  {
    LeaveAccounted(q, path, s, p);
    LeaveResult(q, s, p);
    OrderedAppend(Selected(q.packages), s.order, p);
    DistinctAppend(s.order, p);
    if path != [] {
      ChainPrefix(Selected(q.packages), path, p);
    }
  }

  /** What a selected package depends on is selected. */
  lemma ClosedNames(packages: map<Name, Package>, p: Name)
    requires Closed(Selected(packages)) && p in packages
    ensures Selected(packages)[p] == Names(packages[p].depends)
    ensures forall n :: n in Names(packages[p].depends) ==> n in packages
  {
    forall n | n in Names(packages[p].depends)
      ensures n in packages
    {
      assert n in Selected(packages)[p];
      assert n in Selected(packages);
    }
  }

  /** A selected package is left, or begun, or done; before it is done, it is as it was there. */
  lemma Whereabouts(q: Problem, path: seq<Name>, s: Plan, p: Name)
    requires Accounted(q, path, s) && p in q.packages
    ensures p !in s.found ==> p in s.reg
    ensures p in s.found && s.found[p] ==> p in s.order
    ensures p in path ==> (p in s.existing <==> p in q.existing)
    ensures p in s.existing ==> p in q.existing && s.existing[p] == q.existing[p]
  {
  }

  lemma ChainPrefix(g: Graph, path: seq<Name>, p: Name)
    requires path != [] && Chain(g, path + [p])
    ensures Chain(g, path)
  {
    forall i | 0 <= i < |path| - 1
      ensures path[i] in g && path[i + 1] in g[path[i]]
    {
      assert (path + [p])[i] == path[i] && (path + [p])[i + 1] == path[i + 1];
    }
  }

  /** A package that is begun but not done, met again, depends on itself. */
  lemma MetAgain(q: Problem, path: seq<Name>, s: Plan, p: Name)
    requires Inv(q, path, s) && p in s.found && !s.found[p]
    requires path != [] ==> p in Selected(q.packages)[path[|path| - 1]]
    ensures Cyclic(Selected(q.packages))
  {
    var g := Selected(q.packages);
    assert p in path;
    var i: nat :| i < |path| && path[i] == p;
    ChainTail(g, path, i);
    ChainAppend(g, path[i..], p);
    var c := path[i..] + [p];
    assert c[0] == p && c[|c| - 1] == p;
    assert DependsOn(g, p, p);
  }

  lemma EnterPackage(q: Problem, path: seq<Name>, s: Plan, p: Name)
    requires Closed(Selected(q.packages)) && Inv(q, path, s) && p in s.reg
    requires path != [] ==> p in Selected(q.packages)[path[|path| - 1]]
    ensures p in q.packages && s.reg[p] == q.packages[p] && p !in path && Inv(q, path + [p], Enter(s, p))
    ensures Selected(q.packages)[p] == Names(q.packages[p].depends)
    ensures forall n :: n in Names(q.packages[p].depends) ==> n in q.packages
  {
    EnterKeeps(q, path, s, p);
    ClosedNames(q.packages, p);
  }

  lemma LeavePackage(q: Problem, path: seq<Name>, s: Plan, p: Name)
    requires Inv(q, path + [p], s) && p in q.packages && p !in path
    requires forall d :: d in Selected(q.packages)[p] ==> d in s.order
    ensures Inv(q, path, Leave(q, s, p)) && Grows(s.order, Leave(q, s, p).order) && p in Leave(q, s, p).order
    ensures Listed(q.packages[p], s.existing, q.again, p) == OperationFor(q.packages, q.existing, q.again, p)
  {
    LeaveKeeps(q, path, s, p);
    ListedTheSame(q, path + [p], s, p);
    GrowsByOne(s.order, p);
  }

  /** What was there of a package on the path is there still, so its operation is the same. */
  lemma ListedTheSame(q: Problem, path: seq<Name>, s: Plan, p: Name)
    requires Accounted(q, path, s) && p in q.packages && path != [] && path[|path| - 1] == p
    ensures Listed(q.packages[p], s.existing, q.again, p) == OperationFor(q.packages, q.existing, q.again, p)
  {
    assert p in path;
    Whereabouts(q, path, s, p);
  }

  lemma GrowsByOne(order: seq<Name>, p: Name)
    ensures Grows(order, order + [p]) && p in order + [p]
  {
  }

  ghost predicate Grows(a: seq<Name>, b: seq<Name>) {
    forall p :: p in a ==> p in b
  }

  ghost predicate AllIn(names: seq<Name>, i: nat, order: seq<Name>) {
    i <= |names| && forall n :: n in names[..i] ==> n in order
  }

  lemma AllInGrows(names: seq<Name>, i: nat, a: seq<Name>, b: seq<Name>)
    requires AllIn(names, i, a) && Grows(a, b) && i < |names| && names[i] in b
    ensures AllIn(names, i + 1, b)
  {
    assert names[..i + 1] == names[..i] + [names[i]];
  }

  class Installer {
    ghost const q: Problem
    const again: set<Name>
    var reg: map<Name, Package>
    var existing: map<Name, Installed>
    var found: map<Name, bool>
    var result: seq<Operation>
    ghost var order: seq<Name>

    ghost function View(): Plan
      reads this
    {
      Plan(reg, existing, found, result, order)
    }

    constructor (packages: map<Name, Package>, existing: map<Name, Installed>, again: set<Name>, start: seq<Operation>)
      ensures q == Problem(packages, existing, again, start) && this.again == again && Inv(q, [], View())
    {
      q := Problem(packages, existing, again, start);
      this.again := again;
      reg, this.existing, found, result, order := packages, existing, map[], start, [];
    }

    /** Installs the packages with these names, after everything they depend on. */
    method GetInstalled(names: seq<Name>, ghost path: seq<Name>) returns (ok: bool)
      requires again == q.again && Closed(Selected(q.packages)) && Inv(q, path, View())
      requires forall n :: n in names ==> n in q.packages
      requires path != [] ==> forall n :: n in names ==> n in Selected(q.packages)[path[|path| - 1]]
      modifies this
      ensures ok ==> Inv(q, path, View()) && reg.Keys <= old(reg.Keys)
      ensures ok ==> Grows(old(order), order) && forall n :: n in names ==> n in order
      ensures !ok ==> Cyclic(Selected(q.packages))
      decreases reg.Keys, 1
    {
      ok := true;
      var i := 0;
      while i < |names|
        invariant ok && i <= |names| && Inv(q, path, View()) && reg.Keys <= old(reg.Keys)
        invariant Grows(old(order), order) && AllIn(names, i, order)
      {
        assert names[i] in names;
        ghost var before := order;
        ok := Handle(names[i], path);
        if !ok {
          return;
        }
        AllInGrows(names, i, before, order);
        i := i + 1;
      }
      assert names[..i] == names;
    }

    method Handle(name: Name, ghost path: seq<Name>) returns (ok: bool)
      requires again == q.again && Closed(Selected(q.packages)) && Inv(q, path, View()) && name in q.packages
      requires path != [] ==> name in Selected(q.packages)[path[|path| - 1]]
      modifies this
      ensures ok ==> Inv(q, path, View()) && reg.Keys <= old(reg.Keys)
      ensures ok ==> Grows(old(order), order) && name in order
      ensures !ok ==> Cyclic(Selected(q.packages))
      decreases reg.Keys, 0, 1
    {
      Whereabouts(q, path, View(), name);
      if name in found {
        ok := found[name];
        if !ok {
          MetAgain(q, path, View(), name);
        }
      } else {
        ok := InstallOne(name, path);
      }
    }

    method InstallOne(name: Name, ghost path: seq<Name>) returns (ok: bool)
      requires again == q.again && Closed(Selected(q.packages)) && Inv(q, path, View()) && name in reg
      requires path != [] ==> name in Selected(q.packages)[path[|path| - 1]]
      modifies this
      ensures ok ==> Inv(q, path, View()) && reg.Keys <= old(reg.Keys)
      ensures ok ==> Grows(old(order), order) && name in order
      ensures !ok ==> Cyclic(Selected(q.packages))
      decreases reg.Keys, 0, 0
    {
      var package := reg[name];
      EnterPackage(q, path, View(), name);
      Begin(name);
      ok := GetInstalled(Names(package.depends), path + [name]);
      if ok {
        LeavePackage(q, path, View(), name);
        Finish(name, package);
      }
    }

    method Begin(name: Name)
      modifies this`reg, this`found
      ensures View() == Enter(old(View()), name)
    {
      reg := reg - {name};
      found := found[name := false];
    }

    /** Everything the package depends on is done: lists its own operation. */
    method Finish(name: Name, package: Package)
      requires name in q.packages
      requires Listed(package, existing, again, name) == OperationFor(q.packages, q.existing, q.again, name)
      modifies this`existing, this`found, this`result, this`order
      ensures View() == Leave(q, old(View()), name)
    {
      result := result + Listed(package, existing, again, name);
      existing := existing - {name};
      found := found[name := true];
      order := order + [name];
    }
  }

  /** The packages whose version changes, or that are installed again. */
  ghost function Changed(q: Problem): set<Name> {
    set p | p in q.packages && OperationFor(q.packages, q.existing, q.again, p) != []
  }

  function OperationNames(ops: seq<Operation>): (r: seq<Name>)
    ensures |r| == |ops| && forall i :: 0 <= i < |ops| ==> r[i] == ops[i].name
  {
    seq(|ops|, i requires 0 <= i < |ops| => ops[i].name)
  }

  /** The operations name the changed packages, in the order in which they were done. */
  lemma {:induction false} OperationsNameChanged(q: Problem, order: seq<Name>)
    requires forall p :: p in order ==> p in q.packages
    ensures OperationNames(Operations(q.packages, q.existing, q.again, order)) == Among(order, Changed(q))
  {
    if order != [] {
      var n := |order| - 1;
      OperationsNameChanged(q, order[..n]);
      var front := Operations(q.packages, q.existing, q.again, order[..n]);
      var last := OperationFor(q.packages, q.existing, q.again, order[n]);
      assert OperationNames(front + last) == OperationNames(front) + OperationNames(last);
    } else {
      assert OperationNames([]) == [];
    }
  }

  /** The names of a list that hold something back, in the order of the list. */
  ghost predicate DependenciesEarlier(g: Graph, names: seq<Name>) {
    forall i: nat, j: nat :: i < |names| && j < |names| && DependsOn(g, names[i], names[j]) ==> j < i
  }

  lemma AmongEarlier(g: Graph, order: seq<Name>, chosen: set<Name>)
    requires Ordered(g, order) && Distinct(order)
    ensures DependenciesEarlier(g, Among(order, chosen)) && Distinct(Among(order, chosen))
  {
    var names := Among(order, chosen);
    AmongDistinct(order, chosen);
    forall i: nat, j: nat | i < |names| && j < |names| && DependsOn(g, names[i], names[j])
      ensures j < i
    {
      AmongPosition(g, order, chosen, i, j);
    }
  }

  lemma AmongPosition(g: Graph, order: seq<Name>, chosen: set<Name>, i: nat, j: nat)
    requires Ordered(g, order) && Distinct(order) && Distinct(Among(order, chosen))
    requires i < |Among(order, chosen)| && j < |Among(order, chosen)|
    requires DependsOn(g, Among(order, chosen)[i], Among(order, chosen)[j])
    ensures j < i
  {
    var names := Among(order, chosen);
    assert names[i] in names && names[j] in names;
    var k: nat :| k < |order| && order[k] == names[i];
    DependenciesFirst(g, order, names[i], names[j], k);
    AmongKeepsOrder(order, chosen, k, names[j]);
    var a: nat, b: nat :| a < b < |names| && names[a] == names[j] && names[b] == names[i];
    SamePlace(names, a, j);
    SamePlace(names, b, i);
  }

  lemma SamePlace(names: seq<Name>, a: nat, b: nat)
    requires Distinct(names) && a < |names| && b < |names| && names[a] == names[b]
    ensures a == b
  {
    if a < b {
      DistinctAt(names, a, b);
    } else if b < a {
      DistinctAt(names, b, a);
    }
  }

  lemma DistinctAt(names: seq<Name>, a: nat, b: nat)
    requires Distinct(names) && a < b < |names|
    ensures names[a] != names[b]
  {
    assert names[..b][a] == names[a];
  }

  // ----- removing -----

  /** The packages in working order; nothing is known of what broken ones depend on. */
  function Working(existing: map<Name, Installed>): Graph {
    map p | p in existing && !existing[p].broken :: Names(existing[p].depends)
  }

  /** What a working package depends on is there and works. */
  ghost predicate Settled(existing: map<Name, Installed>) {
    Closed(Working(existing))
  }

  predicate ShouldRemove(packages: map<Name, Package>, existing: map<Name, Installed>, p: Name)
    requires p in existing
  {
    p !in packages && existing[p].canRemove
  }

  ghost function Removable(packages: map<Name, Package>, existing: map<Name, Installed>): set<Name> {
    set p | p in existing && !existing[p].broken && ShouldRemove(packages, existing, p)
  }

  function Removes(names: seq<Name>): seq<Operation> {
    seq(|names|, i requires 0 <= i < |names| => Remove(names[i]))
  }

  /** Begun packages are on the path or done; unless there is a cycle, each comes after what it depends on. */
  ghost predicate RemovalInv(existing: map<Name, Installed>, path: seq<Name>, found: set<Name>, order: seq<Name>) {
    && (forall p :: p in Working(existing) ==> (p in found <==> p in path || p in order))
    && (forall p :: p in path ==> p in Working(existing) && p in found)
    && (forall p :: p in order ==> p in Working(existing) && p in found && p !in path)
    && Distinct(order) && (path == [] || Chain(Working(existing), path))
    && (Cyclic(Working(existing)) || Ordered(Working(existing), order))
  }

  lemma RemovalEnter(existing: map<Name, Installed>, path: seq<Name>, found: set<Name>, order: seq<Name>, p: Name)
    requires RemovalInv(existing, path, found, order) && p in Working(existing) && p !in found
    requires path != [] ==> p in Working(existing)[path[|path| - 1]]
    ensures RemovalInv(existing, path + [p], found + {p}, order)
  {
    assert forall x :: x in path + [p] <==> x in path || x == p;
    if path != [] {
      ChainAppend(Working(existing), path, p);
    }
  }

  lemma RemovalLeave(existing: map<Name, Installed>, path: seq<Name>, found: set<Name>, order: seq<Name>, p: Name)
    requires RemovalInv(existing, path + [p], found, order) && p !in path && p in Working(existing)
    requires !Cyclic(Working(existing)) ==> forall d :: d in Working(existing)[p] ==> d in order
    ensures RemovalInv(existing, path, found, order + [p])
  {
    assert p in path + [p];
    assert forall x :: x in path + [p] <==> x in path || x == p;
    assert forall x :: x in order + [p] <==> x in order || x == p;
    DistinctAppend(order, p);
    if !Cyclic(Working(existing)) {
      OrderedAppend(Working(existing), order, p);
    }
    if path != [] {
      ChainPrefix(Working(existing), path, p);
    }
  }

  /** A broken package is only marked. */
  lemma RemovalSkip(existing: map<Name, Installed>, path: seq<Name>, found: set<Name>, order: seq<Name>, p: Name)
    requires RemovalInv(existing, path, found, order) && p !in Working(existing)
    ensures RemovalInv(existing, path, found + {p}, order)
  {
  }

  /** In the absence of cycles, a working dependency that was begun is done. */
  lemma FoundIsDone(existing: map<Name, Installed>, path: seq<Name>, found: set<Name>, order: seq<Name>, p: Name)
    requires RemovalInv(existing, path, found, order) && p in found && p in Working(existing)
    requires path != [] ==> p in Working(existing)[path[|path| - 1]]
    ensures Cyclic(Working(existing)) || p in order
  {
    var g := Working(existing);
    if p in path {
      var i: nat :| i < |path| && path[i] == p;
      ChainTail(g, path, i);
      ChainAppend(g, path[i..], p);
      var c := path[i..] + [p];
      assert c[0] == p && c[|c| - 1] == p;
      assert DependsOn(g, p, p);
    }
  }

  class Remover {
    const packages: map<Name, Package>
    const existing: map<Name, Installed>
    var found: set<Name>
    var result: seq<Operation>
    ghost var order: seq<Name>

    ghost predicate Inv(path: seq<Name>)
      reads this
    {
      && RemovalInv(existing, path, found, order)
      && result == Removes(Among(order, Removable(packages, existing)))
    }

    constructor (packages: map<Name, Package>, existing: map<Name, Installed>)
      ensures this.packages == packages && this.existing == existing && Inv([])
    {
      this.packages, this.existing := packages, existing;
      found, result, order := {}, [], [];
    }

    method GetRemoved(names: seq<Name>, ghost path: seq<Name>)
      requires Settled(existing) && Inv(path) && (forall n :: n in names ==> n in existing)
      requires path != [] ==> path[|path| - 1] in Working(existing)
      requires path != [] ==> forall n :: n in names ==> n in Working(existing)[path[|path| - 1]]
      modifies this
      ensures Inv(path) && old(found) <= found && Grows(old(order), order)
      ensures forall n :: n in names ==> n in found
      ensures forall n :: n in names && n in Working(existing) ==> Cyclic(Working(existing)) || n in order
      decreases existing.Keys - found, 1
    {
      var i := 0;
      while i < |names|
        invariant i <= |names| && Inv(path) && old(found) <= found && Grows(old(order), order)
        invariant forall j :: 0 <= j < i ==> names[j] in found
        invariant Cyclic(Working(existing)) || AllDone(names, i, existing, order)
      {
        assert names[i] in names;
        ghost var before := order;
        RemoveOne(names[i], path);
        if !Cyclic(Working(existing)) {
          AllDoneGrows(names, i, existing, before, order);
        }
        i := i + 1;
      }
      assert names[..i] == names;
    }

    method RemoveOne(name: Name, ghost path: seq<Name>)
      requires Settled(existing) && Inv(path) && name in existing
      requires path != [] ==> path[|path| - 1] in Working(existing) && name in Working(existing)[path[|path| - 1]]
      modifies this
      ensures Inv(path) && old(found) <= found && Grows(old(order), order) && name in found
      ensures name in Working(existing) ==> Cyclic(Working(existing)) || name in order
      decreases existing.Keys - found, 0
    {
      if name in found {
        if name in Working(existing) {
          FoundIsDone(existing, path, found, order, name);
        }
        return;
      }
      var package := existing[name];
      if package.broken {
        RemovalSkip(existing, path, found, order, name);
        found := found + {name};
        return;
      }
      RemovalEnter(existing, path, found, order, name);
      WorkingNames(existing, name);
      found := found + {name};
      GetRemoved(Names(package.depends), path + [name]);
      RemovalLeave(existing, path, found, order, name);
      RemovesAppend(packages, existing, order, name);
      Drop(name);
    }

    method Drop(name: Name)
      requires name in existing
      modifies this`result, this`order
      ensures result == old(result) + RemoveFor(packages, existing, name) && order == old(order) + [name]
    {
      if ShouldRemove(packages, existing, name) {
        result := result + [Remove(name)];
      }
      order := order + [name];
    }
  }

  function RemoveFor(packages: map<Name, Package>, existing: map<Name, Installed>, p: Name): seq<Operation>
    requires p in existing
  {
    if ShouldRemove(packages, existing, p) then [Remove(p)] else []
  }

  lemma RemovesAppend(packages: map<Name, Package>, existing: map<Name, Installed>, order: seq<Name>, p: Name)
    requires p in Working(existing)
    ensures Removes(Among(order + [p], Removable(packages, existing)))
         == Removes(Among(order, Removable(packages, existing))) + RemoveFor(packages, existing, p)
    ensures Grows(order, order + [p]) && p in order + [p]
  {
    AmongAppend(order, Removable(packages, existing), p);
  }

  ghost predicate AllDone(names: seq<Name>, i: nat, existing: map<Name, Installed>, order: seq<Name>) {
    i <= |names| && forall n :: n in names[..i] && n in Working(existing) ==> n in order
  }

  lemma AllDoneGrows(names: seq<Name>, i: nat, existing: map<Name, Installed>, a: seq<Name>, b: seq<Name>)
    requires AllDone(names, i, existing, a) && Grows(a, b) && i < |names|
    requires names[i] in Working(existing) ==> names[i] in b
    ensures AllDone(names, i + 1, existing, b)
  {
    assert names[..i + 1] == names[..i] + [names[i]];
  }

  lemma WorkingNames(existing: map<Name, Installed>, p: Name)
    requires Settled(existing) && p in Working(existing)
    ensures Working(existing)[p] == Names(existing[p].depends)
    ensures forall n :: n in Names(existing[p].depends) ==> n in existing && n in Working(existing)
  {
    forall n | n in Names(existing[p].depends)
      ensures n in Working(existing)
    {
      assert n in Working(existing)[p];
    }
  }
}
