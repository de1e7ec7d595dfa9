/** The constraints and the marking of broken packages, told by what is installed and what it depends on. */
module DepExact {
  import opened DepModel
  import opened DepPlan
  import opened DepBroken
  import opened DepSat
  import opened DepSolve

  // ----- the packages that work -----

  /** What these packages depend on is among them, in a version that fits. */
  ghost predicate SelfSufficient(existing: map<Name, Installed>, matches: (Pattern, Version) -> bool, some: set<Name>) {
    some <= existing.Keys && forall p, r :: p in some && r in existing[p].depends ==>
      r.name in some && matches(r.pattern, existing[r.name].version)
  }

  ghost function WorkingNow(existing: map<Name, Installed>): set<Name> {
    set p | p in existing && !existing[p].broken
  }

  lemma WorkingProvided(before: map<Name, Installed>, matches: (Pattern, Version) -> bool, p: Name, r: Ref)
    requires Closed(Everything(before)) && p in before && r in before[p].depends
    requires !MustBreak(Everything(before), Direct(before, matches), p)
    ensures r.name in before && !MustBreak(Everything(before), Direct(before, matches), r.name)
    ensures matches(r.pattern, before[r.name].version)
  {
    var g, direct := Everything(before), Direct(before, matches);
    var i: nat :| i < |before[p].depends| && before[p].depends[i] == r;
    assert Names(before[p].depends)[i] == r.name;
    assert r.name in g[p] && r.name in g;
    if p in direct {
      DirectMustBreak(g, direct, p);
    }
    if MustBreak(g, direct, r.name) {
      DependentMustBreak(g, direct, p, r.name);
    }
    assert !Unmet(before, matches, r);
  }

  /** Dependencies never lead out of a self-sufficient set. */
  lemma {:induction false} ChainStays(existing: map<Name, Installed>, matches: (Pattern, Version) -> bool,
                                      some: set<Name>, c: seq<Name>, i: nat)
    requires SelfSufficient(existing, matches, some) && Chain(Everything(existing), c) && c[0] in some && i < |c|
    ensures c[i] in some
  {
    if i > 0 {
      ChainStays(existing, matches, some, c, i - 1);
      var p := c[i - 1];
      assert c[i - 1 + 1] in Everything(existing)[p];
      var j: nat :| j < |existing[p].depends| && Names(existing[p].depends)[j] == c[i];
      assert existing[p].depends[j] in existing[p].depends;
    }
  }

  lemma SelfSufficientWorks(before: map<Name, Installed>, matches: (Pattern, Version) -> bool, some: set<Name>, p: Name)
    requires SelfSufficient(before, matches, some) && p in some
    ensures !MustBreak(Everything(before), Direct(before, matches), p)
  {
    var g, direct := Everything(before), Direct(before, matches);
    forall c | Chain(g, c) && c[0] == p
      ensures c[|c| - 1] !in direct
    {
      ChainStays(before, matches, some, c, |c| - 1);
      NoneUnmet(before, matches, some, c[|c| - 1]);
    }
  }

  lemma NoneUnmet(before: map<Name, Installed>, matches: (Pattern, Version) -> bool, some: set<Name>, p: Name)
    requires SelfSufficient(before, matches, some) && p in some
    ensures !SomeUnmet(before, matches, before[p].depends)
  {
  }

  /**
   The packages left unmarked are the largest set that has everything it depends on. They are as they were;
   the marked ones keep their version and what they depend on, may stay broken, and are not to be removed.
   */
  lemma UnmarkedIsLargest(before: map<Name, Installed>, matches: (Pattern, Version) -> bool,
                          after: map<Name, Installed>)
    requires Adjusted(before, matches, after) && Closed(Everything(before))
    requires forall p :: p in before ==> !before[p].broken
    ensures SelfSufficient(before, matches, WorkingNow(after))
    ensures forall some :: SelfSufficient(before, matches, some) ==> some <= WorkingNow(after)
    ensures forall p :: p in WorkingNow(after) ==> after[p] == before[p]
    ensures forall p :: p in after && p !in WorkingNow(after) ==>
              after[p] == Installed(before[p].version, before[p].depends, true, false, true)
  {
    forall p, r | p in WorkingNow(after) && r in before[p].depends
      ensures r.name in WorkingNow(after) && matches(r.pattern, before[r.name].version)
    {
      WorkingProvided(before, matches, p, r);
    }
    forall some | SelfSufficient(before, matches, some)
      ensures some <= WorkingNow(after)
    {
      forall p | p in some
        ensures p in WorkingNow(after)
      {
        SelfSufficientWorks(before, matches, some, p);
      }
    }
  }

  // ----- the clauses have a model exactly if there is something to install -----

  /** Each package is one of the candidates. */
  ghost predicate Offered(cs: seq<Candidate>, packages: map<Name, Package>) {
    forall p :: p in packages ==> exists i :: 0 <= i < |cs| && Offers(cs[i], packages) && cs[i].name == p
  }

  predicate Offers(c: Candidate, packages: map<Name, Package>) {
    c.name in packages && packages[c.name] == PackageOf(c)
  }

  predicate OwnVariables(cs: seq<Candidate>) {
    forall i, j :: 0 <= i < j < |cs| ==> cs[i].v != cs[j].v
  }

  /** The first candidate that is this package. */
  ghost predicate First(cs: seq<Candidate>, packages: map<Name, Package>, i: nat)
    requires i < |cs|
  {
    Offers(cs[i], packages) && forall j :: 0 <= j < i ==> !(Offers(cs[j], packages) && cs[j].name == cs[i].name)
  }

  ghost function Picked(cs: seq<Candidate>, packages: map<Name, Package>): Assignment {
    set i | 0 <= i < |cs| && First(cs, packages, i) :: cs[i].v
  }

  lemma {:induction false} FirstExists(cs: seq<Candidate>, packages: map<Name, Package>, i: nat) returns (k: nat)
    requires i < |cs| && Offers(cs[i], packages)
    ensures k <= i && First(cs, packages, k) && cs[k].name == cs[i].name
    decreases i
  {
    if First(cs, packages, i) {
      k := i;
    } else {
      var j: nat :| j < i && Offers(cs[j], packages) && cs[j].name == cs[i].name;
      k := FirstExists(cs, packages, j);
    }
  }

  lemma PickedIsFirst(cs: seq<Candidate>, packages: map<Name, Package>, i: nat)
    requires OwnVariables(cs) && i < |cs|
    ensures cs[i].v in Picked(cs, packages) <==> First(cs, packages, i)
  {
    if cs[i].v in Picked(cs, packages) {
      var k: nat :| k < |cs| && First(cs, packages, k) && cs[k].v == cs[i].v;
      assert k == i;
    }
  }

  lemma PickedMeets(cs: seq<Candidate>, matches: (Pattern, Version) -> bool, packages: map<Name, Package>, r: Ref)
    requires Offered(cs, packages) && Provided(packages, matches, r)
    ensures Met(cs, matches, r, Picked(cs, packages))
  {
    var i: nat :| i < |cs| && Offers(cs[i], packages) && cs[i].name == r.name;
    var k := FirstExists(cs, packages, i);
    assert cs[k] in cs && DepSat.Fits(matches, r, cs[k]) && cs[k].v in Picked(cs, packages);
  }

  lemma {:induction false} NoneCounted(cs: seq<Candidate>, a: Assignment, name: Name, n: nat)
    requires n <= |cs| && forall i :: 0 <= i < n && cs[i].name == name ==> cs[i].v !in a
    ensures Count(Group(cs[..n], name), a) == 0
    decreases n
  {
    if n > 0 {
      NoneCounted(cs, a, name, n - 1);
      assert cs[..n][..n - 1] == cs[..n - 1];
      CountLast(Group(cs[..n - 1], name), Selects(cs[n - 1]), a);
    }
  }

  lemma {:induction false} PickedOnce(cs: seq<Candidate>, packages: map<Name, Package>, name: Name, n: nat)
    requires OwnVariables(cs) && n <= |cs|
    ensures Count(Group(cs[..n], name), Picked(cs, packages)) <= 1
    decreases n
  {
    if n > 0 {
      var a, c := Picked(cs, packages), cs[n - 1];
      PickedOnce(cs, packages, name, n - 1);
      assert cs[..n][..n - 1] == cs[..n - 1];
      CountLast(Group(cs[..n - 1], name), Selects(c), a);
      if c.name == name && c.v in a {
        PickedIsFirst(cs, packages, n - 1);
        forall i | 0 <= i < n - 1 && cs[i].name == name
          ensures cs[i].v !in a
        {
          PickedIsFirst(cs, packages, i);
        }
        NoneCounted(cs, a, name, n - 1);
      }
    }
  }

  /** An installable selection among the candidates is a valid choice. */
  lemma InstallableIsValid(cs: seq<Candidate>, matches: (Pattern, Version) -> bool, requests: seq<Ref>,
                           packages: map<Name, Package>)
    requires OwnVariables(cs) && Offered(cs, packages) && Installable(packages, matches, requests)
    ensures ValidChoice(cs, matches, requests, Picked(cs, packages))
  {
    var a := Picked(cs, packages);
    forall r | r in requests
      ensures Met(cs, matches, r, a)
    {
      PickedMeets(cs, matches, packages, r);
    }
    forall c | c in cs
      ensures Supported(cs, matches, c, a)
    {
      var i: nat :| i < |cs| && cs[i] == c;
      PickedIsFirst(cs, packages, i);
      if c.v in a {
        forall r | r in c.depends
          ensures Met(cs, matches, r, a)
        {
          assert r in packages[c.name].depends;
          PickedMeets(cs, matches, packages, r);
        }
      }
    }
    forall name
      ensures SingleVersion(cs, name, a)
    {
      PickedOnce(cs, packages, name, |cs|);
      assert cs[..|cs|] == cs;
    }
  }

  lemma ReadIsOffered(cs: seq<Candidate>, a: Assignment, packages: map<Name, Package>)
    requires Reads(cs, a, packages)
    ensures Offered(cs, packages)
  {
    forall p | p in packages
      ensures exists i :: 0 <= i < |cs| && Offers(cs[i], packages) && cs[i].name == p
    {
      var c :| c in cs && c.v in a && c.name == p && packages[p] == PackageOf(c);
      var i: nat :| i < |cs| && cs[i] == c;
      assert Offers(cs[i], packages);
    }
  }

  /** The packages of a choice, the last candidate of each name. */
  ghost function Reading(cs: seq<Candidate>, a: Assignment, n: nat): map<Name, Package>
    requires n <= |cs|
  {
    if n == 0 then map[]
    else
      var front := Reading(cs, a, n - 1);
      if cs[n - 1].v in a then front[cs[n - 1].name := PackageOf(cs[n - 1])] else front
  }

  lemma {:induction false} ReadingReads(cs: seq<Candidate>, a: Assignment, n: nat)
    requires n <= |cs|
    ensures Reads(cs[..n], a, Reading(cs, a, n))
  {
    if n > 0 {
      ReadingReads(cs, a, n - 1);
      ReadsNext(cs, n - 1, a, Reading(cs, a, n - 1));
    }
  }

  ghost predicate Satisfiable(clauses: seq<Clause>) {
    exists a :: Satisfies(clauses, a)
  }

  ghost predicate SomeInstallable(cs: seq<Candidate>, matches: (Pattern, Version) -> bool, requests: seq<Ref>) {
    exists packages :: Offered(cs, packages) && Installable(packages, matches, requests)
  }

  /** The solver has something to find exactly if some of the candidates can be installed together. */
  lemma SatisfiableIff(cs: seq<Candidate>, matches: (Pattern, Version) -> bool, requests: seq<Ref>, names: seq<Name>,
                       n: nat)
    requires Numbered(cs, n) && OwnVariables(cs) && forall c :: c in cs ==> c.name in names
    ensures Satisfiable(Formula(cs, matches, requests, names, n)) <==> SomeInstallable(cs, matches, requests)
  {
    var clauses := Formula(cs, matches, requests, names, n);
    if Satisfiable(clauses) {
      var a :| Satisfies(clauses, a);
      ModelsAreValid(cs, matches, requests, names, n, a);
      var packages := Reading(cs, a, |cs|);
      ReadingReads(cs, a, |cs|);
      assert cs[..|cs|] == cs;
      ReadIsOffered(cs, a, packages);
      ValidIsInstallable(cs, matches, requests, a, packages);
    }
    if SomeInstallable(cs, matches, requests) {
      var packages :| Offered(cs, packages) && Installable(packages, matches, requests);
      InstallableIsValid(cs, matches, requests, packages);
      var b := ValidHasModel(cs, matches, requests, names, n, Picked(cs, packages));
    }
  }
}
