/** Which installed packages are broken: those with a missing dependency, and whatever depends on them. */
module DepBroken {
  import opened DepModel
  import opened DepPlan

  /** Broken itself, or through something it depends on. */
  ghost predicate MustBreak(g: Graph, direct: set<Name>, p: Name) {
    exists c :: Chain(g, c) && c[0] == p && c[|c| - 1] in direct
  }

  lemma DirectMustBreak(g: Graph, direct: set<Name>, p: Name)
    requires p in direct
    ensures MustBreak(g, direct, p)
  {
    var c := [p];
    assert Chain(g, c) && c[0] == p && c[|c| - 1] in direct;
  }

  lemma DependentMustBreak(g: Graph, direct: set<Name>, p: Name, q: Name)
    requires MustBreak(g, direct, q) && p in g && q in g[p]
    ensures MustBreak(g, direct, p)
  {
    var c :| Chain(g, c) && c[0] == q && c[|c| - 1] in direct;
    var e := [p] + c;
    forall i | 0 <= i < |e| - 1
      ensures e[i] in g && e[i + 1] in g[e[i]]
    {
      if i > 0 {
        assert e[i] == c[i - 1] && e[i + 1] == c[i];
      }
    }
    assert Chain(g, e) && e[|e| - 1] == c[|c| - 1];
  }

  /** Whoever depends on whom, the other way round. */
  ghost predicate IsReverse(g: Graph, reverse: map<Name, seq<Name>>) {
    forall q, p :: q in reverse ==> (p in reverse[q] <==> p in g && q in g[p])
  }

  ghost function Elements(s: seq<Name>): set<Name> {
    set p | p in s
  }

  ghost function OnStack(stack: seq<seq<Name>>): set<Name> {
    if stack == [] then {} else OnStack(stack[..|stack| - 1]) + Elements(stack[|stack| - 1])
  }

  lemma OnStackPush(stack: seq<seq<Name>>, group: seq<Name>)
    ensures OnStack(stack + [group]) == OnStack(stack) + Elements(group)
  {
    assert (stack + [group])[..|stack|] == stack;
  }

  /** The closure under way: left holds the packages not marked yet, listed those to be looked at. */
  ghost predicate Closing(g: Graph, direct: set<Name>, left: map<Name, seq<Name>>, listed: set<Name>) {
    && left.Keys <= g.Keys && IsReverse(g, left)
    && (forall p :: p in g && p !in left ==> MustBreak(g, direct, p))
    && (forall p :: p in listed ==> p in g && MustBreak(g, direct, p))
    && (forall p :: p in direct ==> p !in left || p in listed)
    && (forall p, q :: p in g && q in g[p] && q in g && q !in left ==> p !in left || p in listed)
  }

  /** Marks a listed package, and lists what depends on it. */
  lemma MarkKeeps(g: Graph, direct: set<Name>, left: map<Name, seq<Name>>, listed: set<Name>, listed': set<Name>,
                  x: Name)
    requires Closing(g, direct, left, listed) && x in left && x in listed
    requires listed - {x} + Elements(left[x]) <= listed' <= listed + Elements(left[x])
    ensures Closing(g, direct, left - {x}, listed')
  {
    forall p | p in Elements(left[x])
      ensures p in g && MustBreak(g, direct, p)
    {
      DependentMustBreak(g, direct, p, x);
    }
  }

  /** A listed package that is marked already needs no second look. */
  lemma SkipKeeps(g: Graph, direct: set<Name>, left: map<Name, seq<Name>>, listed: set<Name>, listed': set<Name>,
                  x: Name)
    requires Closing(g, direct, left, listed) && x !in left && listed - {x} <= listed' <= listed
    ensures Closing(g, direct, left, listed')
  {
  }

  /** When nothing is listed any more, exactly the broken packages are marked. */
  lemma ClosedIsExact(g: Graph, direct: set<Name>, left: map<Name, seq<Name>>, p: Name)
    requires Closing(g, direct, left, {}) && p in g && Closed(g) && direct <= g.Keys
    ensures p !in left <==> MustBreak(g, direct, p)
  {
    if MustBreak(g, direct, p) {
      var c :| Chain(g, c) && c[0] == p && c[|c| - 1] in direct;
      ChainMarked(g, direct, left, c, 0);
    }
  }

  lemma {:induction false} ChainMarked(g: Graph, direct: set<Name>, left: map<Name, seq<Name>>, c: seq<Name>, i: nat)
    requires Closing(g, direct, left, {}) && direct <= g.Keys && Chain(g, c) && c[|c| - 1] in direct && i < |c|
    ensures c[i] in g && c[i] !in left
    decreases |c| - i
  {
    if i < |c| - 1 {
      ChainMarked(g, direct, left, c, i + 1);
      assert c[i] in g && c[i + 1] in g[c[i]];
    }
  }

  // ----- finding them -----

  function Everything(existing: map<Name, Installed>): Graph {
    map p | p in existing :: Names(existing[p].depends)
  }

  predicate Unmet(existing: map<Name, Installed>, matches: (Pattern, Version) -> bool, d: Ref) {
    d.name !in existing || !matches(d.pattern, existing[d.name].version)
  }

  ghost predicate SomeUnmet(existing: map<Name, Installed>, matches: (Pattern, Version) -> bool, refs: seq<Ref>) {
    exists d :: d in refs && Unmet(existing, matches, d)
  }

  /** The packages with a dependency that is missing or has the wrong version. */
  ghost function Direct(existing: map<Name, Installed>, matches: (Pattern, Version) -> bool): set<Name> {
    set p | p in existing && SomeUnmet(existing, matches, existing[p].depends)
  }

  /** The reverse graph of the packages done and the first dependencies of the current one. */
  ghost predicate PartReverse(g: Graph, reverse: map<Name, seq<Name>>, done: set<Name>, current: Name,
                              part: set<Name>) {
    forall q, p :: q in reverse ==>
      (p in reverse[q] <==> (p in done && p in g && q in g[p]) || (p == current && q in part))
  }

  lemma PartStep(g: Graph, reverse: map<Name, seq<Name>>, done: set<Name>, current: Name, part: set<Name>, d: Name)
    requires PartReverse(g, reverse, done, current, part) && d in reverse
    ensures PartReverse(g, reverse[d := reverse[d] + [current]], done, current, part + {d})
  {
  }

  lemma PartDone(g: Graph, reverse: map<Name, seq<Name>>, done: set<Name>, p: Name)
    requires p in g && PartReverse(g, reverse, done, p, Elements(g[p]))
    ensures PartReverse(g, reverse, done + {p}, p, {})
  {
  }

  lemma PartNext(g: Graph, reverse: map<Name, seq<Name>>, done: set<Name>, p: Name, p': Name)
    requires PartReverse(g, reverse, done, p, {})
    ensures PartReverse(g, reverse, done, p', {})
  {
  }

  lemma ElementsStep(s: seq<Name>, j: nat)
    requires j < |s|
    ensures Elements(s[..j + 1]) == Elements(s[..j]) + {s[j]}
  {
    assert s[..j + 1] == s[..j] + [s[j]];
  }

  lemma PartWhole(g: Graph, reverse: map<Name, seq<Name>>, done: set<Name>)
    requires PartReverse(g, reverse, done, 0, {}) && done == g.Keys
    ensures IsReverse(g, reverse)
  {
  }

  lemma TakeOne(all: set<Name>, left: set<Name>, done: set<Name>, x: Name)
    requires left <= all && done == all - left && x in left
    ensures done + {x} == all - (left - {x})
  {
  }

  class DepGraph {
    var existing: map<Name, Installed>

    constructor (existing: map<Name, Installed>)
      ensures this.existing == existing
    {
      this.existing := existing;
    }

    /** Enters one package into the reverse graph; stops when a dependency is not installed at all. */
    method AddReverse(name: Name, matches: (Pattern, Version) -> bool, reverse0: map<Name, seq<Name>>,
                      ghost done: set<Name>)
      returns (ok: bool, broken: bool, reverse: map<Name, seq<Name>>)
      requires name in existing && reverse0.Keys == existing.Keys
      requires PartReverse(Everything(existing), reverse0, done, name, {})
      ensures ok <==> forall d :: d in existing[name].depends ==> d.name in existing
      ensures ok ==> reverse.Keys == existing.Keys && (broken <==> SomeUnmet(existing, matches, existing[name].depends))
      ensures ok ==> PartReverse(Everything(existing), reverse, done + {name}, name, {})
    {
      var depends := existing[name].depends;
      ghost var g := Everything(existing);
      ok, broken, reverse := true, false, reverse0;
      var j := 0;
      while j < |depends|
        invariant ok && j <= |depends| && reverse.Keys == existing.Keys
        invariant forall i :: 0 <= i < j ==> depends[i].name in existing
        invariant broken <==> exists i :: 0 <= i < j && Unmet(existing, matches, depends[i])
        invariant PartReverse(g, reverse, done, name, Elements(Names(depends)[..j]))
      {
        var dep := depends[j];
        if !broken {
          broken := Unmet(existing, matches, dep);
        }
        if dep.name !in reverse {
          assert dep in depends;
          return false, broken, reverse;
        }
        PartStep(g, reverse, done, name, Elements(Names(depends)[..j]), dep.name);
        ElementsStep(Names(depends), j);
        reverse := reverse[dep.name := reverse[dep.name] + [name]];
        j := j + 1;
      }
      assert Names(depends)[..j] == g[name];
      PartDone(g, reverse, done, name);
    }

    /** The directly broken packages and the reverse graph of all of them. */
    method BuildReverse(matches: (Pattern, Version) -> bool)
      returns (ok: bool, direct: seq<Name>, reverse: map<Name, seq<Name>>)
      ensures ok <==> Closed(Everything(existing))
      ensures ok ==> Elements(direct) == Direct(existing, matches)
      ensures ok ==> reverse.Keys == existing.Keys && IsReverse(Everything(existing), reverse)
    {
      ghost var g := Everything(existing);
      ok, direct, reverse := true, [], map p | p in existing :: [];
      var left := existing.Keys;
      ghost var done: set<Name> := {};
      while left != {}
        invariant ok && left <= existing.Keys && done == existing.Keys - left && reverse.Keys == existing.Keys
        invariant PartReverse(g, reverse, done, 0, {}) && AllOf(existing, done)
        invariant Elements(direct) == done * Direct(existing, matches)
        decreases left
      {
        var name :| name in left;
        PartNext(g, reverse, done, 0, name);
        var broken: bool;
        ok, broken, reverse := AddReverse(name, matches, reverse, done);
        if !ok {
          NotClosed(existing, name);
          return;
        }
        PartNext(g, reverse, done + {name}, name, 0);
        DirectStep(existing, matches, direct, done, name, broken);
        if broken {
          direct := direct + [name];
        }
        TakeOne(existing.Keys, left, done, name);
        left, done := left - {name}, done + {name};
      }
      assert done == existing.Keys;
      PartWhole(g, reverse, done);
      ThereIsClosed(existing);
    }

    /** Marks everything in the group that is not marked yet, and lists what depends on it. */
    method MarkGroup(group: seq<Name>, reverse0: map<Name, seq<Name>>, stack0: seq<seq<Name>>,
                     ghost g: Graph, ghost direct: set<Name>, ghost before: map<Name, Installed>)
      returns (reverse: map<Name, seq<Name>>, stack: seq<seq<Name>>)
      requires Closing(g, direct, reverse0, OnStack(stack0) + Elements(group)) && g.Keys == before.Keys
      requires existing == Marked(before, reverse0.Keys)
      modifies this
      ensures Closing(g, direct, reverse, OnStack(stack)) && existing == Marked(before, reverse.Keys)
      ensures reverse.Keys <= reverse0.Keys && (reverse.Keys == reverse0.Keys ==> stack == stack0)
    {
      reverse, stack := reverse0, stack0;
      var j := 0;
      assert group[0..] == group;
      while j < |group|
        invariant j <= |group| && Closing(g, direct, reverse, OnStack(stack) + Elements(group[j..]))
        invariant existing == Marked(before, reverse.Keys)
        invariant reverse.Keys <= reverse0.Keys && (reverse.Keys == reverse0.Keys ==> stack == stack0)
      {
        var package := group[j];
        ElementsTail(group, j);
        if package in reverse {
          OnStackPush(stack, reverse[package]);
          MarkKeeps(g, direct, reverse, OnStack(stack) + Elements(group[j..]),
                    OnStack(stack + [reverse[package]]) + Elements(group[j + 1..]), package);
          MarkedStep(before, reverse.Keys, package);
          stack := stack + [reverse[package]];
          reverse := reverse - {package};
          existing := existing[package := existing[package].(canBreak := true, canRemove := false, broken := true)];
        } else {
          SkipKeeps(g, direct, reverse, OnStack(stack) + Elements(group[j..]),
                    OnStack(stack) + Elements(group[j + 1..]), package);
        }
        j := j + 1;
      }
      assert Elements(group[j..]) == {};
    }

    /** Marks the broken packages; fails, without an answer, when a dependency is not installed at all. */
    method AdjustCurrentlyBroken(matches: (Pattern, Version) -> bool) returns (ok: bool)
      requires forall p :: p in existing ==> !existing[p].broken
      modifies this
      ensures ok <==> Closed(Everything(old(existing)))
      ensures ok ==> Adjusted(old(existing), matches, existing) && Settled(existing)
    {
      ghost var before, g, broken := existing, Everything(existing), Direct(existing, matches);
      var direct, reverse;
      ok, direct, reverse := BuildReverse(matches);
      if !ok {
        return;
      }
      BeginClosing(before, matches, direct, reverse);
      reverse := MarkAll(reverse, [direct], g, broken, before);
      ClosingDone(before, matches, reverse);
    }

    /** Goes through the groups of dependents until none is left. */
    method MarkAll(reverse0: map<Name, seq<Name>>, stack0: seq<seq<Name>>,
                   ghost g: Graph, ghost direct: set<Name>, ghost before: map<Name, Installed>)
      returns (reverse: map<Name, seq<Name>>)
      requires Closing(g, direct, reverse0, OnStack(stack0)) && g.Keys == before.Keys
      requires existing == Marked(before, reverse0.Keys)
      modifies this
      ensures Closing(g, direct, reverse, {}) && existing == Marked(before, reverse.Keys)
    {
      reverse := reverse0;
      var stack := stack0;
      while stack != []
        invariant Closing(g, direct, reverse, OnStack(stack)) && existing == Marked(before, reverse.Keys)
        decreases reverse.Keys, |stack|
      {
        var group := stack[|stack| - 1];
        stack := stack[..|stack| - 1];
        reverse, stack := MarkGroup(group, reverse, stack, g, direct, before);
      }
    }
  }

  /** A broken package may stay broken, and is not removed. */
  function Mark(p: Installed): Installed {
    p.(canBreak := true, canRemove := false, broken := true)
  }

  /** Exactly the packages that must break are marked; nothing else changes. */
  ghost predicate Adjusted(before: map<Name, Installed>, matches: (Pattern, Version) -> bool, after: map<Name,
                           Installed>) {
    && after.Keys == before.Keys
    && forall p :: p in after ==>
         after[p] == if MustBreak(Everything(before), Direct(before, matches), p) then Mark(before[p]) else before[p]
  }

  function Marked(before: map<Name, Installed>, left: set<Name>): map<Name, Installed> {
    map p | p in before :: if p in left then before[p] else Mark(before[p])
  }

  lemma MarkedStep(before: map<Name, Installed>, left: set<Name>, p: Name)
    requires p in before && p in left
    ensures Marked(before, left)[p := Mark(Marked(before, left)[p])] == Marked(before, left - {p})
  {
  }

  lemma ElementsTail(group: seq<Name>, j: nat)
    requires j < |group|
    ensures Elements(group[j..]) == {group[j]} + Elements(group[j + 1..])
  {
    assert group[j..] == [group[j]] + group[j + 1..];
  }

  lemma StartClosing(g: Graph, direct: set<Name>, reverse: map<Name, seq<Name>>)
    requires reverse.Keys == g.Keys && IsReverse(g, reverse) && direct <= g.Keys
    ensures Closing(g, direct, reverse, direct)
  {
    forall p | p in direct
      ensures MustBreak(g, direct, p)
    {
      DirectMustBreak(g, direct, p);
    }
  }

  lemma BeginClosing(before: map<Name, Installed>, matches: (Pattern, Version) -> bool, direct: seq<Name>,
                     reverse: map<Name, seq<Name>>)
    requires Elements(direct) == Direct(before, matches)
    requires reverse.Keys == before.Keys && IsReverse(Everything(before), reverse)
    ensures Closing(Everything(before), Direct(before, matches), reverse, OnStack([direct]))
    ensures Marked(before, reverse.Keys) == before
  {
    StartClosing(Everything(before), Direct(before, matches), reverse);
    OnStackPush([], direct);
    assert [] + [direct] == [direct];
  }

  lemma ClosingDone(before: map<Name, Installed>, matches: (Pattern, Version) -> bool, left: map<Name, seq<Name>>)
    requires Closing(Everything(before), Direct(before, matches), left, {}) && Closed(Everything(before))
    requires forall p :: p in before ==> !before[p].broken
    ensures Adjusted(before, matches, Marked(before, left.Keys)) && Settled(Marked(before, left.Keys))
  {
    var g, direct, after := Everything(before), Direct(before, matches), Marked(before, left.Keys);
    forall p | p in before
      ensures p !in left <==> MustBreak(g, direct, p)
    {
      ClosedIsExact(g, direct, left, p);
    }
    ClosingSettled(before, direct, left);
  }

  /** What a working package depends on is working. */
  lemma ClosingSettled(before: map<Name, Installed>, direct: set<Name>, left: map<Name, seq<Name>>)
    requires Closing(Everything(before), direct, left, {}) && Closed(Everything(before))
    requires forall p :: p in before ==> !before[p].broken
    ensures Settled(Marked(before, left.Keys))
  {
    var g, after := Everything(before), Marked(before, left.Keys);
    forall p, d | p in Working(after) && d in Working(after)[p]
      ensures d in Working(after)
    {
      assert p in left && d in g[p] && d in g;
      assert d in left;
    }
  }

  lemma DirectStep(existing: map<Name, Installed>, matches: (Pattern, Version) -> bool, direct: seq<Name>,
                   done: set<Name>, p: Name, broken: bool)
    requires p in existing && Elements(direct) == done * Direct(existing, matches)
    requires broken <==> SomeUnmet(existing, matches, existing[p].depends)
    ensures Elements(if broken then direct + [p] else direct) == (done + {p}) * Direct(existing, matches)
  {
    assert Elements(direct + [p]) == Elements(direct) + {p};
  }

  ghost predicate AllOf(existing: map<Name, Installed>, done: set<Name>) {
    forall p :: p in done ==> AllThere(existing, p)
  }

  predicate AllThere(existing: map<Name, Installed>, p: Name) {
    p in existing && forall d :: d in existing[p].depends ==> d.name in existing
  }

  lemma NotClosed(existing: map<Name, Installed>, p: Name)
    requires p in existing && !AllThere(existing, p)
    ensures !Closed(Everything(existing))
  {
    var d :| d in existing[p].depends && d.name !in existing;
    var i: nat :| i < |existing[p].depends| && existing[p].depends[i] == d;
    assert Names(existing[p].depends)[i] == d.name;
    assert p in Everything(existing) && d.name in Everything(existing)[p] && d.name !in Everything(existing);
  }

  /** A package with a dependency that is not installed at all: broken itself, and yet there is no answer. */
  lemma MissingDependencyWitness(matches: (Pattern, Version) -> bool, package: Installed, pattern: Pattern)
    requires package.depends == [Ref(1, pattern)]
    ensures 0 in Direct(map[0 := package], matches) && !Closed(Everything(map[0 := package]))
  {
    var existing := map[0 := package];
    assert package.depends[0] in package.depends;
    assert Unmet(existing, matches, package.depends[0]);
    NotClosed(existing, 0);
  }

  lemma ThereIsClosed(existing: map<Name, Installed>)
    requires AllOf(existing, existing.Keys)
    ensures Closed(Everything(existing))
  {
    forall p, d | p in Everything(existing) && d in Everything(existing)[p]
      ensures d in Everything(existing)
    {
      assert AllThere(existing, p);
      var i: nat :| i < |existing[p].depends| && Names(existing[p].depends)[i] == d;
      assert existing[p].depends[i] in existing[p].depends;
    }
  }
}
