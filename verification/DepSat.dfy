/** The package constraints as clauses, and the install sets that satisfy them. */
module DepSat {
  import opened DepModel
  import opened DepPlan

  datatype Lit = Lit(v: nat, positive: bool)

  type Clause = seq<Lit>

  /** The variables that are true. */
  type Assignment = set<nat>

  function Not(l: Lit): Lit {
    l.(positive := !l.positive)
  }

  predicate Holds(l: Lit, a: Assignment) {
    (l.v in a) == l.positive
  }

  ghost predicate Meets(c: Clause, a: Assignment) {
    exists l :: l in c && Holds(l, a)
  }

  ghost predicate Satisfies(cs: seq<Clause>, a: Assignment) {
    forall c :: c in cs ==> Meets(c, a)
  }

  ghost predicate Agree(n: nat, a: Assignment, b: Assignment) {
    forall v: nat :: v < n ==> (v in a <==> v in b)
  }

  ghost predicate Known(c: Clause, n: nat) {
    forall l :: l in c ==> l.v < n
  }

  lemma MeetsAgree(c: Clause, n: nat, a: Assignment, b: Assignment)
    requires Known(c, n) && Agree(n, a, b)
    ensures Meets(c, a) <==> Meets(c, b)
  {
    assert forall l :: l in c ==> (Holds(l, a) <==> Holds(l, b));
  }

  lemma SatisfiesBoth(xs: seq<Clause>, ys: seq<Clause>, a: Assignment)
    ensures Satisfies(xs + ys, a) <==> Satisfies(xs, a) && Satisfies(ys, a)
  {
    assert forall c :: c in xs + ys <==> c in xs || c in ys;
  }

  // ----- at most one -----

  function Count(ls: seq<Lit>, a: Assignment): nat {
    if ls == [] then 0 else (if Holds(ls[0], a) then 1 else 0) + Count(ls[1..], a)
  }

  lemma CountCons(l: Lit, ls: seq<Lit>, a: Assignment)
    ensures Count([l] + ls, a) == (if Holds(l, a) then 1 else 0) + Count(ls, a)
  {
    assert ([l] + ls)[1..] == ls;
  }

  lemma {:induction false} CountAgree(ls: seq<Lit>, n: nat, a: Assignment, b: Assignment)
    requires Known(ls, n) && Agree(n, a, b)
    ensures Count(ls, a) == Count(ls, b)
  {
    if ls != [] {
      assert ls[0] in ls;
      CountAgree(ls[1..], n, a, b);
    }
  }

  /** r stands for x or y. */
  function OrClauses(r: Lit, x: Lit, y: Lit): seq<Clause> {
    [[r, Not(y)], [r, Not(x)], [Not(r), x, y]]
  }

  lemma OrMeans(r: Lit, x: Lit, y: Lit, a: Assignment)
    ensures Satisfies(OrClauses(r, x, y), a) <==> (Holds(r, a) <==> Holds(x, a) || Holds(y, a))
  {
    var c1, c2, c3 := [r, Not(y)], [r, Not(x)], [Not(r), x, y];
    assert OrClauses(r, x, y) == [c1, c2, c3];
    assert Meets(c1, a) <==> Holds(r, a) || !Holds(y, a) by {
      assert r in c1 && Not(y) in c1;
    }
    assert Meets(c2, a) <==> Holds(r, a) || !Holds(x, a) by {
      assert r in c2 && Not(x) in c2;
    }
    assert Meets(c3, a) <==> !Holds(r, a) || Holds(x, a) || Holds(y, a) by {
      assert Not(r) in c3 && x in c3 && y in c3;
    }
    assert forall c :: c in OrClauses(r, x, y) <==> c == c1 || c == c2 || c == c3;
  }

  /** carry says whether an earlier literal holds; each further one must not hold with it. */
  function AtMostOne(carry: Lit, ls: seq<Lit>, n: nat): seq<Clause>
    decreases |ls|
  {
    if ls == [] then []
    else
      OrClauses(Lit(n, true), carry, ls[0]) + [[Not(carry), Not(ls[0])]] + AtMostOne(Lit(n, true), ls[1..], n + 1)
  }

  lemma BothMeans(x: Lit, y: Lit, a: Assignment)
    ensures Satisfies([[Not(x), Not(y)]], a) <==> !(Holds(x, a) && Holds(y, a))
  {
    var c := [Not(x), Not(y)];
    assert Meets(c, a) <==> !Holds(x, a) || !Holds(y, a) by {
      assert Not(x) in c && Not(y) in c;
    }
    assert forall d :: d in [c] <==> d == c;
  }

  lemma AtMostOneParts(carry: Lit, ls: seq<Lit>, n: nat, a: Assignment)
    requires ls != []
    ensures Satisfies(AtMostOne(carry, ls, n), a) <==>
            && (Holds(Lit(n, true), a) <==> Holds(carry, a) || Holds(ls[0], a))
            && !(Holds(carry, a) && Holds(ls[0], a))
            && Satisfies(AtMostOne(Lit(n, true), ls[1..], n + 1), a)
  {
    var x, y, z := OrClauses(Lit(n, true), carry, ls[0]), [[Not(carry), Not(ls[0])]],
                   AtMostOne(Lit(n, true), ls[1..], n + 1);
    SatisfiesBoth(x + y, z, a);
    SatisfiesBoth(x, y, a);
    OrMeans(Lit(n, true), carry, ls[0], a);
    BothMeans(carry, ls[0], a);
  }

  lemma {:induction false} AtMostOneSound(carry: Lit, ls: seq<Lit>, n: nat, a: Assignment)
    requires Satisfies(AtMostOne(carry, ls, n), a)
    ensures Count([carry] + ls, a) <= 1
    decreases |ls|
  {
    CountCons(carry, ls, a);
    if ls != [] {
      AtMostOneParts(carry, ls, n, a);
      AtMostOneSound(Lit(n, true), ls[1..], n + 1, a);
      CountCons(Lit(n, true), ls[1..], a);
    }
  }

  /** The values of the fresh variables that the literals call for. */
  ghost function Extend(carry: Lit, ls: seq<Lit>, n: nat, a: Assignment): Assignment
    decreases |ls|
  {
    if ls == [] then a
    else Extend(Lit(n, true), ls[1..], n + 1, if Holds(carry, a) || Holds(ls[0], a) then a + {n} else a - {n})
  }

  lemma {:induction false} ExtendAgrees(carry: Lit, ls: seq<Lit>, n: nat, a: Assignment)
    ensures Agree(n, a, Extend(carry, ls, n, a))
    decreases |ls|
  {
    if ls != [] {
      var a' := if Holds(carry, a) || Holds(ls[0], a) then a + {n} else a - {n};
      ExtendAgrees(Lit(n, true), ls[1..], n + 1, a');
    }
  }

  lemma {:induction false} AtMostOneComplete(carry: Lit, ls: seq<Lit>, n: nat, a: Assignment)
    requires carry.v < n && Known(ls, n) && Count([carry] + ls, a) <= 1
    ensures Satisfies(AtMostOne(carry, ls, n), Extend(carry, ls, n, a))
    decreases |ls|
  {
    if ls != [] {
      var a' := if Holds(carry, a) || Holds(ls[0], a) then a + {n} else a - {n};
      CarryCounts(carry, ls, n, a, a');
      AtMostOneComplete(Lit(n, true), ls[1..], n + 1, a');
      ExtendAgrees(Lit(n, true), ls[1..], n + 1, a');
      AtMostOneParts(carry, ls, n, Extend(Lit(n, true), ls[1..], n + 1, a'));
    }
  }

  /** With the fresh variable in place of the two literals it stands for, no more hold than before. */
  lemma CarryCounts(carry: Lit, ls: seq<Lit>, n: nat, a: Assignment, a': Assignment)
    requires carry.v < n && Known(ls, n) && ls != [] && Count([carry] + ls, a) <= 1
    requires Agree(n, a, a') && (n in a' <==> Holds(carry, a) || Holds(ls[0], a))
    ensures ls[0].v < n && Known(ls[1..], n + 1) && Count([Lit(n, true)] + ls[1..], a') <= 1
    ensures !(Holds(carry, a) && Holds(ls[0], a))
  {
    assert ls[0] in ls && ls == [ls[0]] + ls[1..];
    CountCons(carry, ls, a);
    CountCons(ls[0], ls[1..], a);
    CountAgree(ls[1..], n, a, a');
    CountCons(Lit(n, true), ls[1..], a');
  }

  // ----- the constraints -----

  /** A version of a package on offer, and the variable that selects it. */
  datatype Candidate = Candidate(name: Name, version: Version, depends: seq<Ref>, v: nat)

  function Selects(c: Candidate): Lit {
    Lit(c.v, true)
  }

  predicate Fits(matches: (Pattern, Version) -> bool, r: Ref, c: Candidate) {
    c.name == r.name && matches(r.pattern, c.version)
  }

  function Matching(cs: seq<Candidate>, matches: (Pattern, Version) -> bool, r: Ref): seq<Lit> {
    if cs == [] then []
    else
      var front := Matching(cs[..|cs| - 1], matches, r);
      if Fits(matches, r, cs[|cs| - 1]) then front + [Selects(cs[|cs| - 1])] else front
  }

  /** Some selected version fits. */
  ghost predicate Met(cs: seq<Candidate>, matches: (Pattern, Version) -> bool, r: Ref, a: Assignment) {
    exists c :: c in cs && Fits(matches, r, c) && c.v in a
  }

  lemma {:induction false} MatchingLits(cs: seq<Candidate>, matches: (Pattern, Version) -> bool, r: Ref, l: Lit)
    ensures l in Matching(cs, matches, r) <==> exists c :: c in cs && Fits(matches, r, c) && l == Selects(c)
  {
    if cs != [] {
      var n := |cs| - 1;
      MatchingLits(cs[..n], matches, r, l);
      assert cs == cs[..n] + [cs[n]];
    }
  }

  lemma MatchingMeans(cs: seq<Candidate>, matches: (Pattern, Version) -> bool, r: Ref, a: Assignment)
    ensures Meets(Matching(cs, matches, r), a) <==> Met(cs, matches, r, a)
  {
    if Met(cs, matches, r, a) {
      var c :| c in cs && Fits(matches, r, c) && c.v in a;
      MatchingLits(cs, matches, r, Selects(c));
      assert Holds(Selects(c), a);
    }
    if Meets(Matching(cs, matches, r), a) {
      var l :| l in Matching(cs, matches, r) && Holds(l, a);
      MatchingLits(cs, matches, r, l);
    }
  }

  /** A request must be met; a dependency must be met if the package that has it is selected. */
  function RootClause(cs: seq<Candidate>, matches: (Pattern, Version) -> bool, r: Ref): Clause {
    Matching(cs, matches, r)
  }

  function DependClause(cs: seq<Candidate>, matches: (Pattern, Version) -> bool, c: Candidate, r: Ref): Clause {
    Matching(cs, matches, r) + [Not(Selects(c))]
  }

  lemma DependMeans(cs: seq<Candidate>, matches: (Pattern, Version) -> bool, c: Candidate, r: Ref, a: Assignment)
    ensures Meets(DependClause(cs, matches, c, r), a) <==> (c.v in a ==> Met(cs, matches, r, a))
  {
    var m, x := Matching(cs, matches, r), Not(Selects(c));
    MatchingMeans(cs, matches, r, a);
    assert x in m + [x];
    if Meets(m, a) {
      var l :| l in m && Holds(l, a);
      assert l in m + [x];
    }
    if Meets(m + [x], a) && c.v in a {
      var l :| l in m + [x] && Holds(l, a);
      assert l in m;
    }
  }

  function RootClauses(cs: seq<Candidate>, matches: (Pattern, Version) -> bool, rs: seq<Ref>): seq<Clause> {
    if rs == [] then [] else RootClauses(cs, matches, rs[..|rs| - 1]) + [RootClause(cs, matches, rs[|rs| - 1])]
  }

  function DependsOf(cs: seq<Candidate>, matches: (Pattern, Version) -> bool, c: Candidate, rs: seq<Ref>): seq<Clause> {
    if rs == [] then [] else DependsOf(cs, matches, c, rs[..|rs| - 1]) + [DependClause(cs, matches, c, rs[|rs| - 1])]
  }

  function DependClauses(cs: seq<Candidate>, matches: (Pattern, Version) -> bool, ds: seq<Candidate>): seq<Clause> {
    if ds == [] then []
    else
      DependClauses(cs, matches, ds[..|ds| - 1]) + DependsOf(cs, matches, ds[|ds| - 1], ds[|ds| - 1].depends)
  }

  lemma {:induction false} RootsMean(cs: seq<Candidate>, matches: (Pattern, Version) -> bool, rs: seq<Ref>,
                                     a: Assignment)
    ensures Satisfies(RootClauses(cs, matches, rs), a) <==> forall r :: r in rs ==> Met(cs, matches, r, a)
  {
    if rs != [] {
      var n := |rs| - 1;
      RootsMean(cs, matches, rs[..n], a);
      MatchingMeans(cs, matches, rs[n], a);
      SatisfiesLast(RootClauses(cs, matches, rs[..n]), RootClause(cs, matches, rs[n]), a);
      assert rs == rs[..n] + [rs[n]];
    }
  }

  lemma SatisfiesLast(cs: seq<Clause>, c: Clause, a: Assignment)
    ensures Satisfies(cs + [c], a) <==> Satisfies(cs, a) && Meets(c, a)
  {
    SatisfiesBoth(cs, [c], a);
    assert forall d :: d in [c] <==> d == c;
  }

  lemma {:induction false} DependsOfMean(cs: seq<Candidate>, matches: (Pattern, Version) -> bool, c: Candidate,
                                         rs: seq<Ref>,
                                         a: Assignment)
    ensures Satisfies(DependsOf(cs, matches, c, rs), a) <==>
              (c.v in a ==> forall r :: r in rs ==> Met(cs, matches, r, a))
  {
    if rs != [] {
      var n := |rs| - 1;
      DependsOfMean(cs, matches, c, rs[..n], a);
      DependMeans(cs, matches, c, rs[n], a);
      SatisfiesLast(DependsOf(cs, matches, c, rs[..n]), DependClause(cs, matches, c, rs[n]), a);
      assert rs == rs[..n] + [rs[n]];
    }
  }

  ghost predicate Supported(cs: seq<Candidate>, matches: (Pattern, Version) -> bool, c: Candidate, a: Assignment) {
    c.v in a ==> forall r :: r in c.depends ==> Met(cs, matches, r, a)
  }

  lemma AllButLast(cs: seq<Candidate>, matches: (Pattern, Version) -> bool, ds: seq<Candidate>, a: Assignment)
    requires ds != []
    ensures (forall d :: d in ds ==> Supported(cs, matches, d, a)) <==>
            (forall d :: d in ds[..|ds| - 1] ==> Supported(cs, matches, d, a))
            && Supported(cs, matches, ds[|ds| - 1], a)
  {
    var n := |ds| - 1;
    assert ds[n] in ds;
    assert forall d :: d in ds ==> d in ds[..n] || d == ds[n];
    assert forall d :: d in ds[..n] ==> d in ds;
  }

  lemma {:induction false} DependsMean(cs: seq<Candidate>, matches: (Pattern, Version) -> bool, ds: seq<Candidate>,
                                       a: Assignment)
    ensures Satisfies(DependClauses(cs, matches, ds), a) <==> forall d :: d in ds ==> Supported(cs, matches, d, a)
  {
    if ds != [] {
      var n := |ds| - 1;
      DependsMean(cs, matches, ds[..n], a);
      DependsOfMean(cs, matches, ds[n], ds[n].depends, a);
      SatisfiesBoth(DependClauses(cs, matches, ds[..n]), DependsOf(cs, matches, ds[n], ds[n].depends), a);
      assert ds == ds[..n] + [ds[n]];
      assert Satisfies(DependsOf(cs, matches, ds[n], ds[n].depends), a) <==> Supported(cs, matches, ds[n], a);
      AllButLast(cs, matches, ds, a);
    }
  }

  // ----- conflicts -----

  /** The versions of one package. */
  function Group(cs: seq<Candidate>, name: Name): seq<Lit> {
    if cs == [] then []
    else
      var front := Group(cs[..|cs| - 1], name);
      if cs[|cs| - 1].name == name then front + [Selects(cs[|cs| - 1])] else front
  }

  function ZeroOrOne(ls: seq<Lit>, n: nat): seq<Clause> {
    if ls == [] then [] else AtMostOne(ls[0], ls[1..], n)
  }

  /** Every literal but the first needs a fresh variable. */
  function Fresh(ls: seq<Lit>): nat {
    if ls == [] then 0 else |ls| - 1
  }

  function ConflictClauses(cs: seq<Candidate>, names: seq<Name>, n: nat): seq<Clause>
    decreases |names|
  {
    if names == [] then []
    else
      ZeroOrOne(Group(cs, names[0]), n) + ConflictClauses(cs, names[1..], n + Fresh(Group(cs, names[0])))
  }

  ghost predicate SingleVersion(cs: seq<Candidate>, name: Name, a: Assignment) {
    Count(Group(cs, name), a) <= 1
  }

  ghost predicate Numbered(cs: seq<Candidate>, n: nat) {
    forall c :: c in cs ==> c.v < n
  }

  lemma {:induction false} GroupKnown(cs: seq<Candidate>, name: Name, n: nat)
    requires Numbered(cs, n)
    ensures Known(Group(cs, name), n)
  {
    if cs != [] {
      assert cs[|cs| - 1] in cs;
      GroupKnown(cs[..|cs| - 1], name, n);
    }
  }

  lemma ZeroOrOneSound(ls: seq<Lit>, n: nat, a: Assignment)
    requires Satisfies(ZeroOrOne(ls, n), a)
    ensures Count(ls, a) <= 1
  {
    if ls != [] {
      AtMostOneSound(ls[0], ls[1..], n, a);
      assert ls == [ls[0]] + ls[1..];
    }
  }

  lemma ZeroOrOneComplete(ls: seq<Lit>, n: nat, a: Assignment) returns (b: Assignment)
    requires Known(ls, n) && Count(ls, a) <= 1
    ensures Agree(n, a, b) && Satisfies(ZeroOrOne(ls, n), b)
  {
    if ls == [] {
      b := a;
    } else {
      assert ls[0] in ls && ls == [ls[0]] + ls[1..];
      b := Extend(ls[0], ls[1..], n, a);
      ExtendAgrees(ls[0], ls[1..], n, a);
      AtMostOneComplete(ls[0], ls[1..], n, a);
    }
  }

  lemma {:induction false} AtMostOneKnown(carry: Lit, ls: seq<Lit>, n: nat)
    requires carry.v < n && Known(ls, n)
    ensures forall c :: c in AtMostOne(carry, ls, n) ==> Known(c, n + |ls|)
    decreases |ls|
  {
    if ls != [] {
      assert ls[0] in ls;
      AtMostOneKnown(Lit(n, true), ls[1..], n + 1);
    }
  }

  lemma SatisfiesAgree(cs: seq<Clause>, n: nat, a: Assignment, b: Assignment)
    requires Agree(n, a, b) && forall c :: c in cs ==> Known(c, n)
    ensures Satisfies(cs, a) <==> Satisfies(cs, b)
  {
    forall c | c in cs
      ensures Meets(c, a) <==> Meets(c, b)
    {
      MeetsAgree(c, n, a, b);
    }
  }

  lemma {:induction false} ConflictsSound(cs: seq<Candidate>, names: seq<Name>, n: nat, a: Assignment, name: Name)
    requires Satisfies(ConflictClauses(cs, names, n), a) && name in names
    ensures SingleVersion(cs, name, a)
    decreases |names|
  {
    var g := Group(cs, names[0]);
    SatisfiesBoth(ZeroOrOne(g, n), ConflictClauses(cs, names[1..], n + Fresh(g)), a);
    if name == names[0] {
      ZeroOrOneSound(g, n, a);
    } else {
      ConflictsSound(cs, names[1..], n + Fresh(g), a, name);
    }
  }

  lemma {:induction false} ConflictsComplete(cs: seq<Candidate>, names: seq<Name>, m: nat, n: nat, a: Assignment)
    returns (b: Assignment)
    requires Numbered(cs, m) && m <= n && forall name :: name in names ==> SingleVersion(cs, name, a)
    ensures Agree(n, a, b) && Satisfies(ConflictClauses(cs, names, n), b)
    decreases |names|
  {
    if names == [] {
      b := a;
    } else {
      var g := Group(cs, names[0]);
      var k := n + Fresh(g);
      GroupKnown(cs, names[0], n);
      assert names[0] in names && SingleVersion(cs, names[0], a);
      var a' := ZeroOrOneComplete(g, n, a);
      StillSingle(cs, names[1..], m, a, a');
      b := ConflictsComplete(cs, names[1..], m, k, a');
      ZeroOrOneKnown(g, n);
      SatisfiesAgree(ZeroOrOne(g, n), k, a', b);
      SatisfiesBoth(ZeroOrOne(g, n), ConflictClauses(cs, names[1..], k), b);
    }
  }

  lemma ZeroOrOneKnown(ls: seq<Lit>, n: nat)
    requires Known(ls, n)
    ensures forall c :: c in ZeroOrOne(ls, n) ==> Known(c, n + Fresh(ls))
  {
    if ls != [] {
      assert ls[0] in ls;
      AtMostOneKnown(ls[0], ls[1..], n);
    }
  }

  lemma StillSingle(cs: seq<Candidate>, names: seq<Name>, m: nat, a: Assignment, b: Assignment)
    requires Numbered(cs, m) && Agree(m, a, b) && forall name :: name in names ==> SingleVersion(cs, name, a)
    ensures forall name :: name in names ==> SingleVersion(cs, name, b)
  {
    forall name | name in names
      ensures SingleVersion(cs, name, b)
    {
      GroupKnown(cs, name, m);
      CountAgree(Group(cs, name), m, a, b);
    }
  }

  // ----- exactness -----

  /** A set of versions that meets every request and every dependency of its members, one version a package. */
  ghost predicate ValidChoice(cs: seq<Candidate>, matches: (Pattern, Version) -> bool, requests: seq<Ref>,
                              a: Assignment) {
    && (forall r :: r in requests ==> Met(cs, matches, r, a))
    && (forall c :: c in cs ==> Supported(cs, matches, c, a))
    && (forall name :: SingleVersion(cs, name, a))
  }

  function Formula(cs: seq<Candidate>, matches: (Pattern, Version) -> bool, requests: seq<Ref>, names: seq<Name>,
                   n: nat)
    : seq<Clause>
  {
    RootClauses(cs, matches, requests) + DependClauses(cs, matches, cs) + ConflictClauses(cs, names, n)
  }

  lemma ValidAgree(cs: seq<Candidate>, matches: (Pattern, Version) -> bool, r: Ref, n: nat, a: Assignment,
                   b: Assignment)
    requires Numbered(cs, n) && Agree(n, a, b)
    ensures Met(cs, matches, r, a) <==> Met(cs, matches, r, b)
  {
  }

  lemma {:induction false} OtherNames(cs: seq<Candidate>, name: Name)
    requires forall c :: c in cs ==> c.name != name
    ensures Group(cs, name) == []
  {
    if cs != [] {
      assert cs[|cs| - 1] in cs;
      OtherNames(cs[..|cs| - 1], name);
    }
  }

  /** Every model selects a valid choice. */
  lemma ModelsAreValid(cs: seq<Candidate>, matches: (Pattern, Version) -> bool, requests: seq<Ref>, names: seq<Name>,
                       n: nat,
                       a: Assignment)
    requires Satisfies(Formula(cs, matches, requests, names, n), a) && forall c :: c in cs ==> c.name in names
    ensures ValidChoice(cs, matches, requests, a)
  {
    var x, y, z := RootClauses(cs, matches, requests), DependClauses(cs, matches, cs), ConflictClauses(cs, names, n);
    SatisfiesBoth(x + y, z, a);
    SatisfiesBoth(x, y, a);
    RootsMean(cs, matches, requests, a);
    DependsMean(cs, matches, cs, a);
    forall name
      ensures SingleVersion(cs, name, a)
    {
      if name in names {
        ConflictsSound(cs, names, n, a, name);
      } else {
        OtherNames(cs, name);
      }
    }
  }

  /** Every valid choice is selected by a model. */
  lemma ValidHasModel(cs: seq<Candidate>, matches: (Pattern, Version) -> bool, requests: seq<Ref>, names: seq<Name>,
                      n: nat,
                      a: Assignment) returns (b: Assignment)
    requires Numbered(cs, n) && ValidChoice(cs, matches, requests, a)
    ensures Agree(n, a, b) && Satisfies(Formula(cs, matches, requests, names, n), b)
  {
    b := ConflictsComplete(cs, names, n, n, a);
    var x, y, z := RootClauses(cs, matches, requests), DependClauses(cs, matches, cs), ConflictClauses(cs, names, n);
    forall r
      ensures Met(cs, matches, r, a) <==> Met(cs, matches, r, b)
    {
      ValidAgree(cs, matches, r, n, a, b);
    }
    assert forall c :: c in cs ==> Supported(cs, matches, c, b);
    RootsMean(cs, matches, requests, b);
    DependsMean(cs, matches, cs, b);
    SatisfiesBoth(x, y, b);
    SatisfiesBoth(x + y, z, b);
  }

  // ----- building the formula -----

  class Solver {
    var next: nat
    var clauses: seq<Clause>

    constructor ()
      ensures next == 0 && clauses == []
    {
      next, clauses := 0, [];
    }

    method NewLit() returns (l: Lit)
      modifies this`next
      ensures l == Lit(old(next), true) && next == old(next) + 1
    {
      l := Lit(next, true);
      next := next + 1;
    }

    method AddClause(c: Clause)
      modifies this`clauses
      ensures clauses == old(clauses) + [c]
    {
      clauses := clauses + [c];
    }
  }

  method BitOr(solver: Solver, x: Lit, y: Lit) returns (r: Lit)
    modifies solver
    ensures r == Lit(old(solver.next), true) && solver.next == old(solver.next) + 1
    ensures solver.clauses == old(solver.clauses) + OrClauses(r, x, y)
  {
    r := solver.NewLit();
    solver.AddClause([r, Not(y)]);
    solver.AddClause([r, Not(x)]);
    solver.AddClause([Not(r), x, y]);
  }

  datatype Carry = None | Some(lit: Lit)

  /** What is still to be added once the first i literals are in. */
  ghost function Remaining(carry: Carry, ls: seq<Lit>, n: nat): seq<Clause> {
    match carry
    case None => ZeroOrOne(ls, n)
    case Some(c) => AtMostOne(c, ls, n)
  }

  method ZeroOrOneOf(solver: Solver, ls: seq<Lit>)
    modifies solver
    ensures solver.clauses == old(solver.clauses) + ZeroOrOne(ls, old(solver.next))
    ensures solver.next == old(solver.next) + Fresh(ls)
  {
    var carry := None;
    var i := 0;
    ghost var n0 := solver.next;
    ghost var whole := solver.clauses + ZeroOrOne(ls, n0);
    assert ls[0..] == ls;
    while i < |ls|
      invariant i <= |ls| && (carry == None <==> i == 0)
      invariant solver.next == n0 + (if i == 0 then 0 else i - 1)
      invariant whole == solver.clauses + Remaining(carry, ls[i..], solver.next)
    {
      ghost var before := solver.clauses;
      assert ls[i..][1..] == ls[i + 1..];
      match carry {
        case None =>
          carry := Some(ls[i]);
        case Some(c) =>
          RemainingStep(before, c, ls, i, solver.next);
          var r := BitOr(solver, c, ls[i]);
          carry := Some(r);
          solver.AddClause([Not(c), Not(ls[i])]);
      }
      i := i + 1;
    }
    assert Remaining(carry, ls[i..], solver.next) == [];
  }

  lemma RemainingStep(before: seq<Clause>, c: Lit, ls: seq<Lit>, i: nat, n: nat)
    requires i < |ls|
    ensures before + AtMostOne(c, ls[i..], n)
         == before + OrClauses(Lit(n, true), c, ls[i]) + [[Not(c), Not(ls[i])]]
            + AtMostOne(Lit(n, true), ls[i + 1..], n + 1)
  {
    assert ls[i..][1..] == ls[i + 1..];
    var x, y, z := OrClauses(Lit(n, true), c, ls[i]), [[Not(c), Not(ls[i])]],
                   AtMostOne(Lit(n, true), ls[i + 1..], n + 1);
    assert AtMostOne(c, ls[i..], n) == x + y + z;
    assert before + (x + y + z) == before + x + y + z;
  }

  /** The clauses that say what is requested and what depends on what. */
  method AddRoots(solver: Solver, cs: seq<Candidate>, matches: (Pattern, Version) -> bool, requests: seq<Ref>)
    modifies solver
    ensures solver.next == old(solver.next)
    ensures solver.clauses == old(solver.clauses) + RootClauses(cs, matches, requests)
  {
    var i := 0;
    while i < |requests|
      invariant i <= |requests| && solver.next == old(solver.next)
      invariant solver.clauses == old(solver.clauses) + RootClauses(cs, matches, requests[..i])
    {
      assert requests[..i + 1][..i] == requests[..i];
      var group := GetMatching(cs, matches, requests[i]);
      solver.AddClause(group);
      i := i + 1;
    }
    assert requests[..i] == requests;
  }

  method GetMatching(cs: seq<Candidate>, matches: (Pattern, Version) -> bool, r: Ref) returns (group: seq<Lit>)
    ensures group == Matching(cs, matches, r)
  {
    group := [];
    var i := 0;
    while i < |cs|
      invariant i <= |cs| && group == Matching(cs[..i], matches, r)
    {
      assert cs[..i + 1][..i] == cs[..i];
      if Fits(matches, r, cs[i]) {
        group := group + [Selects(cs[i])];
      }
      i := i + 1;
    }
    assert cs[..i] == cs;
  }

  method AddDependsOf(solver: Solver, cs: seq<Candidate>, matches: (Pattern, Version) -> bool, c: Candidate)
    modifies solver
    ensures solver.next == old(solver.next)
    ensures solver.clauses == old(solver.clauses) + DependsOf(cs, matches, c, c.depends)
  {
    var i := 0;
    while i < |c.depends|
      invariant i <= |c.depends| && solver.next == old(solver.next)
      invariant solver.clauses == old(solver.clauses) + DependsOf(cs, matches, c, c.depends[..i])
    {
      assert c.depends[..i + 1][..i] == c.depends[..i];
      var group := GetMatching(cs, matches, c.depends[i]);
      solver.AddClause(group + [Not(Selects(c))]);
      i := i + 1;
    }
    assert c.depends[..i] == c.depends;
  }

  method AddDepends(solver: Solver, cs: seq<Candidate>, matches: (Pattern, Version) -> bool)
    modifies solver
    ensures solver.next == old(solver.next)
    ensures solver.clauses == old(solver.clauses) + DependClauses(cs, matches, cs)
  {
    var i := 0;
    while i < |cs|
      invariant i <= |cs| && solver.next == old(solver.next)
      invariant solver.clauses == old(solver.clauses) + DependClauses(cs, matches, cs[..i])
    {
      assert cs[..i + 1][..i] == cs[..i];
      AddDependsOf(solver, cs, matches, cs[i]);
      i := i + 1;
    }
    assert cs[..i] == cs;
  }

  /** The versions of each package, by name. */
  method ByName(cs: seq<Candidate>) returns (groups: map<Name, seq<Lit>>)
    ensures forall name :: name in groups ==> groups[name] == Group(cs, name)
    ensures forall c :: c in cs ==> c.name in groups
  {
    groups := map[];
    var i := 0;
    while i < |cs|
      invariant i <= |cs| && forall name :: name in groups ==> groups[name] == Group(cs[..i], name)
      invariant forall c :: c in cs[..i] ==> c.name in groups
    {
      var c := cs[i];
      assert cs[..i + 1][..i] == cs[..i];
      if c.name !in groups {
        OtherNames(cs[..i], c.name);
        groups := groups[c.name := [Selects(c)]];
      } else {
        groups := groups[c.name := groups[c.name] + [Selects(c)]];
      }
      i := i + 1;
    }
    assert cs[..i] == cs;
  }

  lemma Associate(a: seq<Clause>, b: seq<Clause>, c: seq<Clause>)
    ensures a + (b + c) == a + b + c
  {
  }

  lemma ConflictStep(before: seq<Clause>, cs: seq<Candidate>, names: seq<Name>, i: nat, n: nat, g: seq<Lit>)
    requires i < |names| && g == Group(cs, names[i])
    ensures before + ConflictClauses(cs, names[i..], n)
         == before + ZeroOrOne(g, n) + ConflictClauses(cs, names[i + 1..], n + Fresh(g))
  {
    assert names[i..][1..] == names[i + 1..] && names[i..][0] == names[i];
    Associate(before, ZeroOrOne(g, n), ConflictClauses(cs, names[i + 1..], n + Fresh(g)));
  }

  method AddConflict(solver: Solver, ghost cs: seq<Candidate>, ghost names: seq<Name>, ghost i: nat, group: seq<Lit>)
    requires i < |names| && group == Group(cs, names[i])
    modifies solver
    ensures solver.clauses + ConflictClauses(cs, names[i + 1..], solver.next)
         == old(solver.clauses) + ConflictClauses(cs, names[i..], old(solver.next))
  {
    ConflictStep(solver.clauses, cs, names, i, solver.next, group);
    ZeroOrOneOf(solver, group);
  }

  method AddConflicts(solver: Solver, cs: seq<Candidate>) returns (ghost names: seq<Name>)
    modifies solver
    ensures forall c :: c in cs ==> c.name in names
    ensures solver.clauses == old(solver.clauses) + ConflictClauses(cs, names, old(solver.next))
  {
    var groups := ByName(cs);
    var order := Enumerate(groups.Keys);
    names := order;
    ghost var whole := solver.clauses + ConflictClauses(cs, order, solver.next);
    var i := 0;
    assert order[0..] == order;
    while i < |order|
      invariant i <= |order| && whole == solver.clauses + ConflictClauses(cs, order[i..], solver.next)
    {
      assert order[i] in order;
      AddConflict(solver, cs, order, i, groups[order[i]]);
      i := i + 1;
    }
    assert ConflictClauses(cs, order[i..], solver.next) == [];
  }

  /** All clauses, in the order in which they are added. */
  method Encode(cs: seq<Candidate>, matches: (Pattern, Version) -> bool, requests: seq<Ref>, n: nat)
    returns (solver: Solver, ghost names: seq<Name>)
    ensures solver.clauses == Formula(cs, matches, requests, names, n)
    ensures Exact(cs, matches, requests, solver.clauses, n)
  {
    solver := new Solver();
    solver.next := n;
    AddRoots(solver, cs, matches, requests);
    assert solver.clauses == RootClauses(cs, matches, requests);
    AddDepends(solver, cs, matches);
    names := AddConflicts(solver, cs);
    assert solver.clauses == Formula(cs, matches, requests, names, n);
    EncodingExact(cs, matches, requests, names, n);
  }

  /** The models of the clauses are the valid choices, up to the values of the variables from n on. */
  ghost predicate Exact(cs: seq<Candidate>, matches: (Pattern, Version) -> bool, requests: seq<Ref>,
                        clauses: seq<Clause>, n: nat) {
    && (forall a :: Satisfies(clauses, a) ==> ValidChoice(cs, matches, requests, a))
    && (Numbered(cs, n) ==> forall a :: ValidChoice(cs, matches, requests, a) ==> HasModel(clauses, n, a))
  }

  ghost predicate HasModel(clauses: seq<Clause>, n: nat, a: Assignment) {
    exists b :: Agree(n, a, b) && Satisfies(clauses, b)
  }

  lemma EncodingExact(cs: seq<Candidate>, matches: (Pattern, Version) -> bool, requests: seq<Ref>, names: seq<Name>,
                      n: nat)
    requires forall c :: c in cs ==> c.name in names
    ensures Exact(cs, matches, requests, Formula(cs, matches, requests, names, n), n)
  {
    var clauses := Formula(cs, matches, requests, names, n);
    forall a | Satisfies(clauses, a)
      ensures ValidChoice(cs, matches, requests, a)
    {
      ModelsAreValid(cs, matches, requests, names, n, a);
    }
    if Numbered(cs, n) {
      forall a | ValidChoice(cs, matches, requests, a)
        ensures HasModel(clauses, n, a)
      {
        var b := ValidHasModel(cs, matches, requests, names, n, a);
      }
    }
  }
}
