/** Packages that depend on packages, and the order in which to go through them. */
module DepModel {
  import opened Sequences

  /** Names and versions are only ever compared, so numbers stand for them. */
  type Name = nat

  /** What each package depends on. */
  type Graph = map<Name, seq<Name>>

  /** Every dependency is a package itself. */
  ghost predicate Closed(g: Graph) {
    forall p, d :: p in g && d in g[p] ==> d in g
  }

  /** A chain of dependencies. */
  ghost predicate Chain(g: Graph, c: seq<Name>) {
    |c| >= 1 && (forall i :: 0 <= i < |c| - 1 ==> c[i] in g && c[i + 1] in g[c[i]])
  }

  /** p depends on q, directly or not. */
  ghost predicate DependsOn(g: Graph, p: Name, q: Name) {
    exists c :: Chain(g, c) && |c| >= 2 && c[0] == p && c[|c| - 1] == q
  }

  ghost predicate Cyclic(g: Graph) {
    exists p :: DependsOn(g, p, p)
  }

  /** Each package comes after what it depends on. */
  ghost predicate Ordered(g: Graph, order: seq<Name>) {
    forall k: nat, d :: k < |order| && order[k] in g && d in g[order[k]] ==> d in order[..k]
  }

  lemma OrderedAppend(g: Graph, order: seq<Name>, p: Name)
    requires Ordered(g, order) && (p in g ==> forall d :: d in g[p] ==> d in order)
    ensures Ordered(g, order + [p])
  {
    var o := order + [p];
    forall k: nat, d | k < |o| && o[k] in g && d in g[o[k]]
      ensures d in o[..k]
    {
      if k < |order| {
        assert o[k] == order[k] && o[..k] == order[..k];
      } else {
        assert o[..k] == order;
      }
    }
  }

  lemma ChainAppend(g: Graph, c: seq<Name>, d: Name)
    requires Chain(g, c) && c[|c| - 1] in g && d in g[c[|c| - 1]]
    ensures Chain(g, c + [d])
  {
    var e := c + [d];
    forall i | 0 <= i < |e| - 1
      ensures e[i] in g && e[i + 1] in g[e[i]]
    {
      if i < |c| - 1 {
        assert e[i] == c[i] && e[i + 1] == c[i + 1];
      }
    }
  }

  lemma ChainTail(g: Graph, c: seq<Name>, i: nat)
    requires Chain(g, c) && i < |c|
    ensures Chain(g, c[i..])
  {
  }

  /** Going down a chain goes back in the order. */
  lemma {:induction false} ChainGoesBack(g: Graph, order: seq<Name>, c: seq<Name>, i: nat, k: nat)
    requires Ordered(g, order) && Chain(g, c) && 1 <= i < |c| && k < |order| && order[k] == c[0]
    ensures c[i] in order[..k]
  {
    if i == 1 {
      assert c[0] in g && c[0 + 1] in g[c[0]];
    } else {
      ChainGoesBack(g, order, c, i - 1, k);
      var l: nat :| l < k && order[..k][l] == c[i - 1];
      assert order[l] == c[i - 1] && c[i - 1 + 1] in order[..l];
      assert order[..l] <= order[..k];
    }
  }

  /** What a package depends on, directly or not, comes before it. */
  lemma DependenciesFirst(g: Graph, order: seq<Name>, p: Name, q: Name, k: nat)
    requires Ordered(g, order) && DependsOn(g, p, q) && k < |order| && order[k] == p
    ensures q in order[..k]
  {
    var c :| Chain(g, c) && |c| >= 2 && c[0] == p && c[|c| - 1] == q;
    ChainGoesBack(g, order, c, |c| - 1, k);
  }

  /** No package of an ordered list depends on itself. */
  lemma {:induction false} OrderedNotCyclic(g: Graph, order: seq<Name>, p: Name, k: nat)
    requires Ordered(g, order) && k < |order| && order[k] == p
    ensures !DependsOn(g, p, p)
    decreases k
  {
    if DependsOn(g, p, p) {
      DependenciesFirst(g, order, p, p, k);
      var l: nat :| l < k && order[..k][l] == p;
      OrderedNotCyclic(g, order, p, l);
    }
  }

  /** The parts of a list that satisfy a condition, in the same order. */
  ghost function Among(order: seq<Name>, chosen: set<Name>): (r: seq<Name>)
    ensures forall p :: p in r <==> p in order && p in chosen
  {
    if order == [] then []
    else
      var last := order[|order| - 1];
      var front := Among(order[..|order| - 1], chosen);
      if last in chosen then front + [last] else front
  }

  lemma AmongAppend(order: seq<Name>, chosen: set<Name>, p: Name)
    ensures Among(order + [p], chosen) == Among(order, chosen) + (if p in chosen then [p] else [])
  {
    assert (order + [p])[..|order|] == order;
  }

  lemma DistinctPrefix(order: seq<Name>, n: nat)
    requires Distinct(order) && n <= |order|
    ensures Distinct(order[..n])
  {
    forall i | 0 <= i < n
      ensures order[..n][i] !in order[..n][..i]
    {
      assert order[..n][..i] == order[..i];
    }
  }

  lemma DistinctAppend(order: seq<Name>, p: Name)
    requires Distinct(order) && p !in order
    ensures Distinct(order + [p])
  {
    var o := order + [p];
    forall i | 0 <= i < |o|
      ensures o[i] !in o[..i]
    {
      assert o[..i] == order[..i];
    }
  }

  lemma {:induction false} AmongDistinct(order: seq<Name>, chosen: set<Name>)
    requires Distinct(order)
    ensures Distinct(Among(order, chosen))
  {
    if order != [] {
      var n := |order| - 1;
      DistinctPrefix(order, n);
      AmongDistinct(order[..n], chosen);
      if order[n] in chosen {
        DistinctAppend(Among(order[..n], chosen), order[n]);
      }
    }
  }

  /** Whatever comes first in a list also comes first among the chosen. */
  lemma {:induction false} AmongKeepsOrder(order: seq<Name>, chosen: set<Name>, i: nat, p: Name)
    requires Distinct(order) && i < |order| && p in order[..i] && p in chosen && order[i] in chosen
    ensures exists a: nat, b: nat :: a < b < |Among(order, chosen)|
              && Among(order, chosen)[a] == p && Among(order, chosen)[b] == order[i]
  {
    var n := |order| - 1;
    var front := Among(order[..n], chosen);
    if i == n {
      assert p in front;
      var a: nat :| a < |front| && front[a] == p;
      assert Among(order, chosen)[a] == p && Among(order, chosen)[|front|] == order[i];
    } else {
      assert order[..n][..i] == order[..i] && order[..n][i] == order[i];
      DistinctPrefix(order, n);
      AmongKeepsOrder(order[..n], chosen, i, p);
      var a: nat, b: nat :| a < b < |front| && front[a] == p && front[b] == order[i];
      assert Among(order, chosen)[a] == p && Among(order, chosen)[b] == order[i];
    }
  }

  /** The names in some order, as a hash table would list them. */
  method Enumerate(keys: set<Name>) returns (names: seq<Name>)
    ensures forall n :: n in names <==> n in keys
  {
    var left := keys;
    names := [];
    while left != {}
      invariant left <= keys && forall n :: n in names <==> n in keys && n !in left
      decreases left
    {
      var n :| n in left;
      names := names + [n];
      left := left - {n};
    }
  }
}
