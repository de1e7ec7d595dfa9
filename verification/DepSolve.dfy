/** From a model of the clauses to the operations that install what it selects. */
module DepSolve {
  import opened DepModel
  import opened DepPlan
  import opened DepApply
  import opened DepChanges
  import opened DepBroken
  import opened DepSat

  // ----- at most one version means one -----

  lemma {:induction false} CountLast(ls: seq<Lit>, l: Lit, a: Assignment)
    ensures Count(ls + [l], a) == Count(ls, a) + (if Holds(l, a) then 1 else 0)
  {
    if ls == [] {
      assert ls + [l] == [l] && [l][1..] == [];
    } else {
      assert (ls + [l])[1..] == ls[1..] + [l];
      CountLast(ls[1..], l, a);
    }
  }

  lemma {:induction false} NoneSelected(cs: seq<Candidate>, a: Assignment, c: Candidate)
    requires Count(Group(cs, c.name), a) == 0 && c in cs
    ensures c.v !in a
  {
    var n := |cs| - 1;
    CountLast(Group(cs[..n], c.name), Selects(cs[n]), a);
    if c != cs[n] {
      assert cs == cs[..n] + [cs[n]];
      NoneSelected(cs[..n], a, c);
    }
  }

  /** Of one package, only one candidate is selected. */
  lemma {:induction false} OnlyOneSelected(cs: seq<Candidate>, a: Assignment, c: Candidate, d: Candidate)
    requires SingleVersion(cs, c.name, a) && c in cs && d in cs && c.v in a && d.v in a && c.name == d.name
    ensures c == d
  {
    var n := |cs| - 1;
    CountLast(Group(cs[..n], c.name), Selects(cs[n]), a);
    assert cs == cs[..n] + [cs[n]];
    if cs[n] == c && d != c {
      NoneSelected(cs[..n], a, d);
    } else if cs[n] == d && d != c {
      NoneSelected(cs[..n], a, c);
    } else if d != c {
      OnlyOneSelected(cs[..n], a, c, d);
    }
  }

  // ----- the selection -----

  function PackageOf(c: Candidate): Package {
    Package(c.version, c.depends)
  }

  /** The packages are the selected candidates, each under its name. */
  ghost predicate Reads(cs: seq<Candidate>, a: Assignment, packages: map<Name, Package>) {
    && (forall c :: c in cs && c.v in a ==> c.name in packages)
    && (forall p :: p in packages ==> exists c :: c in cs && c.v in a && c.name == p && packages[p] == PackageOf(c))
  }

  method ReadSelection(cs: seq<Candidate>, model: Assignment) returns (packages: map<Name, Package>)
    ensures Reads(cs, model, packages)
  {
    packages := map[];
    var i := 0;
    while i < |cs|
      invariant i <= |cs| && Reads(cs[..i], model, packages)
    {
      ReadsNext(cs, i, model, packages);
      if cs[i].v in model {
        packages := packages[cs[i].name := PackageOf(cs[i])];
      }
      i := i + 1;
    }
    assert cs[..i] == cs;
  }

  lemma ReadsNext(cs: seq<Candidate>, i: nat, a: Assignment, packages: map<Name, Package>)
    requires i < |cs| && Reads(cs[..i], a, packages)
    ensures var packages' := if cs[i].v in a then packages[cs[i].name := PackageOf(cs[i])] else packages;
            Reads(cs[..i + 1], a, packages')
  {
    assert cs[..i + 1] == cs[..i] + [cs[i]];
    var packages' := if cs[i].v in a then packages[cs[i].name := PackageOf(cs[i])] else packages;
    forall p | p in packages'
      ensures exists c :: c in cs[..i + 1] && c.v in a && c.name == p && packages'[p] == PackageOf(c)
    {
      if cs[i].v in a && p == cs[i].name {
        assert cs[i] in cs[..i + 1];
      } else {
        var c :| c in cs[..i] && c.v in a && c.name == p && packages[p] == PackageOf(c);
        assert c in cs[..i + 1];
      }
    }
  }

  /** Some version that fits is there. */
  predicate Provided(packages: map<Name, Package>, matches: (Pattern, Version) -> bool, r: Ref) {
    r.name in packages && matches(r.pattern, packages[r.name].version)
  }

  lemma MetIsProvided(cs: seq<Candidate>, matches: (Pattern, Version) -> bool, a: Assignment, packages: map<Name,
                      Package>,
                      r: Ref)
    requires Reads(cs, a, packages) && SingleVersion(cs, r.name, a) && Met(cs, matches, r, a)
    ensures Provided(packages, matches, r)
  {
    var c :| c in cs && DepSat.Fits(matches, r, c) && c.v in a;
    var d :| d in cs && d.v in a && d.name == r.name && packages[r.name] == PackageOf(d);
    OnlyOneSelected(cs, a, c, d);
  }

  /** What is requested is there, and so is everything that something there depends on, in a version that fits. */
  ghost predicate Installable(packages: map<Name, Package>, matches: (Pattern, Version) -> bool, requests: seq<Ref>) {
    && (forall r :: r in requests ==> Provided(packages, matches, r))
    && (forall p, r :: p in packages && r in packages[p].depends ==> Provided(packages, matches, r))
  }

  /** A valid choice, read back as packages, is installable as a whole. */
  lemma ValidIsInstallable(cs: seq<Candidate>, matches: (Pattern, Version) -> bool, requests: seq<Ref>, a: Assignment,
                           packages: map<Name, Package>)
    requires ValidChoice(cs, matches, requests, a) && Reads(cs, a, packages)
    ensures Installable(packages, matches, requests) && Closed(Selected(packages))
  {
    forall r | r in requests
      ensures Provided(packages, matches, r)
    {
      MetIsProvided(cs, matches, a, packages, r);
    }
    forall p, r | p in packages && r in packages[p].depends
      ensures Provided(packages, matches, r)
    {
      var c :| c in cs && c.v in a && c.name == p && packages[p] == PackageOf(c);
      assert Supported(cs, matches, c, a);
      MetIsProvided(cs, matches, a, packages, r);
    }
    InstallableIsClosed(packages, matches, requests);
  }

  lemma InstallableIsClosed(packages: map<Name, Package>, matches: (Pattern, Version) -> bool, requests: seq<Ref>)
    requires Installable(packages, matches, requests)
    ensures Closed(Selected(packages))
  {
    forall p, d | p in Selected(packages) && d in Selected(packages)[p]
      ensures d in Selected(packages)
    {
      var i: nat :| i < |packages[p].depends| && Names(packages[p].depends)[i] == d;
      assert packages[p].depends[i] in packages[p].depends;
      assert Provided(packages, matches, packages[p].depends[i]);
    }
  }

  // ----- the whole -----

  datatype Outcome = NotInstalled | DependencyCycle | Planned(ops: seq<Operation>)

  /**
   What follows the search for a model: fails when something installed depends on something that is not,
   or when the selection depends on itself, and in no other case; otherwise the operations take the
   installed packages to a selection in which all requests and all dependencies are met.
   */
  method Solve(graph: DepGraph, cs: seq<Candidate>, matches: (Pattern, Version) -> bool, requests: seq<Ref>,
               request: set<Name>, reinstall: bool, model: Assignment, ghost names: seq<Name>, ghost n: nat)
    returns (r: Outcome, packages: map<Name, Package>, ghost removed: seq<Name>, ghost installs: seq<Operation>)
    requires Satisfies(Formula(cs, matches, requests, names, n), model) && forall c :: c in cs ==> c.name in names
    requires forall p :: p in graph.existing ==> !graph.existing[p].broken
    modifies graph
    ensures r == NotInstalled <==> !Closed(Everything(old(graph.existing)))
    ensures r != NotInstalled ==> Adjusted(old(graph.existing), matches, graph.existing)
    ensures r != NotInstalled ==> Installable(packages, matches, requests) && Reads(cs, model, packages)
    ensures r != NotInstalled ==> (r == DependencyCycle <==> Cyclic(Selected(packages)))
    ensures r.Planned? ==> r.ops == Removes(removed) + installs && RemovalsRight(packages, graph.existing, removed)
    ensures r.Planned? ==>
              InstallationsRight(Problem(packages, graph.existing, if reinstall then request else {}, Removes(removed)),
                                 installs)
    ensures r.Planned? ==> PlanRight(packages, graph.existing, r.ops)
    ensures r.Planned? ==> NothingNeedless(packages, graph.existing, if reinstall then request else {}, r.ops)
  {
    packages, removed, installs := map[], [], [];
    var known := graph.AdjustCurrentlyBroken(matches);
    if !known {
      return NotInstalled, packages, removed, installs;
    }
    ModelsAreValid(cs, matches, requests, names, n, model);
    packages := ReadSelection(cs, model);
    ValidIsInstallable(cs, matches, requests, model, packages);
    var ok, ops;
    ok, ops, removed, installs := EvaluateChanges(packages, graph.existing, request, reinstall);
    r := if ok then Planned(ops) else DependencyCycle;
  }
}
