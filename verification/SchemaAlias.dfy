/** Following type aliases to the type they stand for. */
module SchemaAlias {

  /** A use of a named type, or a type of its own. */
  datatype Link = Alias(name: string) | Concrete(id: nat)

  datatype Resolved = Cyclic | Resolved(id: nat)

  /** One lookup; an unknown name leads nowhere else. */
  function Next(types: map<string, Link>, l: Link): Link {
    if l.Alias? && l.name in types then types[l.name] else l
  }

  function Follow(types: map<string, Link>, l: Link, k: nat): Link {
    if k == 0 then l else Next(types, Follow(types, l, k - 1))
  }

  ghost predicate Ends(types: map<string, Link>, l: Link) {
    exists k: nat :: Follow(types, l, k).Concrete?
  }

  /** Following from two equal places leads to equal places. */
  lemma {:induction false} FollowSame(types: map<string, Link>, l: Link, i: nat, j: nat, d: nat)
    requires Follow(types, l, i) == Follow(types, l, j)
    ensures Follow(types, l, i + d) == Follow(types, l, j + d)
    decreases d
  {
    if d > 0 {
      FollowSame(types, l, i, j, d - 1);
    }
  }

  /** A repetition among aliases goes on forever. */
  lemma {:induction false} Loops(types: map<string, Link>, l: Link, i: nat, j: nat, k: nat)
    requires i < j && Follow(types, l, i) == Follow(types, l, j)
    requires forall m: nat :: m <= j ==> Follow(types, l, m).Alias?
    ensures Follow(types, l, k).Alias?
    decreases k
  {
    if k > j {
      FollowSame(types, l, i, j, k - j);
      Loops(types, l, i, j, i + (k - j));
    }
  }

  /** More entries than a set has elements repeat one. */
  lemma {:induction false} Pigeonhole(names: seq<string>, keys: set<string>) returns (i: nat, j: nat)
    requires |names| > |keys| && forall m :: 0 <= m < |names| ==> names[m] in keys
    ensures i < j < |names| && names[i] == names[j]
    decreases |names|
  {
    var last := names[|names| - 1];
    if k: nat :| k < |names| - 1 && names[k] == last {
      return k, |names| - 1;
    } else {
      i, j := Pigeonhole(names[..|names| - 1], keys - {last});
    }
  }

  /** A chain that has not ended after as many lookups as there are names never ends. */
  lemma LongChainsNeverEnd(types: map<string, Link>, l: Link)
    requires forall m: nat :: m <= |types| ==> Follow(types, l, m).Alias?
    ensures !Ends(types, l)
  {
    var n := |types|;
    var i: nat, j: nat;
    if u: nat :| u <= n && Follow(types, l, u).name !in types {
      assert Follow(types, l, u + 1) == Follow(types, l, u);
      if u == n {
        forall m: nat | m <= n + 1 ensures Follow(types, l, m).Alias? {
          if m == n + 1 {
            assert Follow(types, l, m) == Follow(types, l, n);
          }
        }
      }
      i, j := u, u + 1;
    } else {
      var names := seq(n + 1, m requires 0 <= m <= n => Follow(types, l, m).name);
      i, j := Pigeonhole(names, types.Keys);
    }
    forall k: nat
      ensures Follow(types, l, k).Alias?
    {
      Loops(types, l, i, j, k);
    }
  }

  /** Follows a chain for as many lookups as there are names; fails just when the chain does not end. */
  method Resolve(types: map<string, Link>, start: Link) returns (r: Resolved)
    ensures r.Resolved? <==> Ends(types, start)
    ensures r.Resolved? ==> exists k: nat :: Follow(types, start, k) == Concrete(r.id)
  {
    var n, result := |types|, start;
    ghost var k := 0;
    while result.Alias?
      invariant 0 <= n && k + n == |types| && result == Follow(types, start, k)
      invariant forall m: nat :: m < k ==> Follow(types, start, m).Alias?
      decreases n
    {
      if result.name in types {
        result := types[result.name];
      }
      if n == 0 {
        LongChainsNeverEnd(types, start);
        return Cyclic;
      }
      n := n - 1;
      k := k + 1;
    }
    r := Resolved(result.id);
  }
}
