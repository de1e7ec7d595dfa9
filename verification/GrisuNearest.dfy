/** Reading the printed decimal back gives the double that was printed. */
module GrisuNearest {
  import opened Scaled
  import opened CachedPowers
  import opened Grisu
  import opened GrisuBounds

  ghost function Value(z: Scale, f: nat, e: int): int
    requires Ample(z) && -1074 <= e
  {
    f * TwoTo(z, e)
  }

  /** No finite double is as close to n * 10^k as f * 2^e is. */
  ghost predicate Nearest(z: Scale, f: nat, e: int, n: int, k: int)
    requires Ample(z) && -1074 <= e && k >= -400
  {
    forall f': nat, e': int :: IsDouble(f', e') && (f', e') != (f, e) ==>
      Distance(Value(z, f, e), n * TenTo(z, k)) < Distance(Value(z, f', e'), n * TenTo(z, k))
  }

  lemma {:induction false} TwoToGrows(z: Scale, x: int, y: int)
    requires x + z.bits >= 0 && x < y
    ensures 2 * TwoTo(z, x) <= TwoTo(z, y)
    decreases y - x
  {
    if x + 1 < y {
      TwoToGrows(z, x, y - 1);
    }
  }

  lemma Halves(z: Scale, f: nat, e: int)
    requires Ample(z) && -1074 <= e
    ensures 2 * HalfwayAbove(z, f, e) == 2 * Value(z, f, e) + TwoTo(z, e)
    ensures f != TWO_52 ==> 2 * HalfwayBelow(z, f, e) == 2 * Value(z, f, e) - TwoTo(z, e)
    ensures f == TWO_52 ==> 4 * HalfwayBelow(z, f, e) == 4 * Value(z, f, e) - TwoTo(z, e)
  {
    var t := TwoTo(z, e - 1);
    Distribute(2 * f, 1, t);
    Distribute(2 * f, -1, t);
    Twice(f, t);
    Double(f, t);
    var q := TwoTo(z, e - 2);
    Distribute(4 * f, -1, q);
    Twice(f, q);
    Double(f, q);
    Double(2 * f, q);
  }

  /** Doubles of a larger exponent are larger, by at least one unit of the smaller one. */
  lemma LargerExponent(z: Scale, f: nat, e: int, f': nat, e': int)
    requires Ample(z) && IsDouble(f, e) && IsDouble(f', e') && e < e'
    ensures Value(z, f, e) + TwoTo(z, e) <= Value(z, f', e')
  {
    var t := TwoTo(z, e);
    TwoToGrows(z, e, e');
    Commute(f', TwoTo(z, e'));
    MulLe(2 * t, TwoTo(z, e'), f');
    MulLe(TWO_52, f', 2 * t);
    Commute(f', 2 * t);
    MulLe(f + 1, TWO_53, t);
    Distribute(f, 1, t);
  }

  lemma SameExponent(z: Scale, f: nat, f': nat, e: int)
    requires Ample(z) && IsDouble(f, e) && IsDouble(f', e) && f < f'
    ensures Value(z, f, e) + TwoTo(z, e) <= Value(z, f', e)
  {
    MulLe(f + 1, f', TwoTo(z, e));
    Distribute(f, 1, TwoTo(z, e));
  }

  /** A double of a smaller exponent stays half a unit below, or a whole one unless f is the smallest fraction. */
  lemma SmallerExponent(z: Scale, f: nat, e: int, f': nat, e': int)
    requires Ample(z) && IsDouble(f, e) && IsDouble(f', e') && e' < e
    ensures 2 * Value(z, f', e') + TwoTo(z, e) <= 2 * Value(z, f, e)
    ensures f > TWO_52 ==> Value(z, f', e') + TwoTo(z, e) <= Value(z, f, e)
  {
    var t, h := TwoTo(z, e), TwoTo(z, e - 1);
    if e' < e - 1 {
      TwoToGrows(z, e', e - 1);
    }
    MulLe(f', TWO_53 - 1, TwoTo(z, e'));
    Commute(TWO_53 - 1, TwoTo(z, e'));
    Commute(TWO_53 - 1, h);
    MulLe(TwoTo(z, e'), h, TWO_53 - 1);
    MulLe(TWO_52, f, t);
    if f > TWO_52 {
      MulLe(TWO_52 + 1, f, t);
    }
  }

  lemma CloserThan(z: Scale, f: nat, e: int, n: int, k: int, f': nat, e': int)
    requires IsDouble(f, e) && f > 0 && Between(z, f, e, n, k) && IsDouble(f', e') && (f', e') != (f, e)
    ensures Distance(Value(z, f, e), n * TenTo(z, k)) < Distance(Value(z, f', e'), n * TenTo(z, k))
  {
    Halves(z, f, e);
    if e < e' {
      LargerExponent(z, f, e, f', e');
    } else if e' < e {
      SmallerExponent(z, f, e, f', e');
    } else if f < f' {
      SameExponent(z, f, f', e);
    } else {
      SameExponent(z, f', f, e);
    }
  }

  lemma BetweenIsNearest(z: Scale, f: nat, e: int, n: int, k: int)
    requires IsDouble(f, e) && f > 0 && Between(z, f, e, n, k)
    ensures Nearest(z, f, e, n, k)
  {
    forall f': nat, e': int | IsDouble(f', e') && (f', e') != (f, e)
      ensures Distance(Value(z, f, e), n * TenTo(z, k)) < Distance(Value(z, f', e'), n * TenTo(z, k))
    {
      CloserThan(z, f, e, n, k, f', e');
    }
  }
}
