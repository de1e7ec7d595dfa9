/** The digits stand for a decimal strictly between the halfway points around the double. */
module GrisuBounds {
  import opened Scaled
  import opened CachedPowers
  import opened Grisu

  // ----- the scaled interval -----

  /** The three products keep their order, with room for the two single-unit corrections. */
  lemma Gaps(f: nat, c: nat, mu: nat, mw: nat, ml: nat)
    requires 0 < f < TWO_53 && TWO_63 <= c < TWO_64
    requires Lower(f) >= 0 && Rounded(mu, Upper(f), c) && Rounded(mw, Middle(f), c) && Rounded(ml, Lower(f), c)
    ensures ml + 1 <= mw <= mu - 1 && mu - ml - 2 >= 512 && mu >= 0x4000_0000_0000_0000
    ensures Coarse(mu - 1, mu - ml - 2)
  {
    var u, m, l := Upper(f), Middle(f), Lower(f);
    LowerShift(f);
    Gap(u, m, c, mu, mw, 1024);
    Gap(m, l, c, mw, ml, 512);
    MulLe(TWO_63, u, c);
    WideInterval(f);
    WideProducts(u, l, c, mu, ml);
  }

  lemma Gap(a: nat, b: nat, c: nat, ma: nat, mb: nat, d: nat)
    requires b + d <= a && TWO_63 <= c && Rounded(ma, a, c) && Rounded(mb, b, c)
    ensures 2 * (ma - mb) + 2 > d
  {
    Distribute(b, a - b, c);
    MulLe(d, a - b, c);
    Commute(d, c);
    MulLe(TWO_63, c, d);
  }

  lemma WideInterval(f: nat)
    requires 0 < f < TWO_53
    ensures Upper(f) <= 10000000000000000 * (Upper(f) - Lower(f) - 6)
  {
    var p := Pow2(Shifts(f) + 10);
    LowerShift(f);
    Pow2Values();
    Pow2Monotone(10, Shifts(f) + 10);
    if f != TWO_52 {
      Distribute(2 * f, 1, p);
    }
  }

  lemma WideProducts(u: nat, l: nat, c: nat, mu: nat, ml: nat)
    requires l + 6 <= u <= 10000000000000000 * (u - l - 6) && TWO_63 <= c < TWO_64
    requires Rounded(mu, u, c) && Rounded(ml, l, c) && mu - ml >= 2
    ensures Coarse(mu - 1, mu - ml - 2)
  {
    MulLe(u, 10000000000000000 * (u - l - 6), c);
    assert (10000000000000000 * (u - l - 6)) * c == 10000000000000000 * (u * c - l * c - 6 * c) by {
      Distribute(u, 0 - l - 6, c);
      Distribute(l, 6, c);
    }
  }

  // ----- from the scaled interval to the real one -----

  /** W * m is within half of W from a * c, so one unit of m outweighs the error of c as well. */
  lemma UpperMargin(nn: nat, d: nat, u: nat, c: nat, mu: nat, p: nat)
    requires Rounded(mu, u, c) && nn * p <= (mu - 1) * d && u < TWO_64 && c >= 1 && d >= 1 && mu >= 1
    ensures 2 * TWO_64 * (nn * p) < (u * (2 * c - 1)) * d
  {
    assert u * (2 * c - 1) == 2 * (u * c) - u by {
      Distribute(2 * c, -1, u);
    }
    LessTimes(2 * TWO_64 * (mu - 1), u * (2 * c - 1), d);
  }

  lemma LowerMargin(nn: nat, d: nat, l: nat, c: nat, ml: nat, p: nat)
    requires Rounded(ml, l, c) && (ml + 1) * d <= nn * p && l < TWO_64 && d >= 1
    ensures (l * (2 * c + 1)) * d < 2 * TWO_64 * (nn * p)
  {
    assert l * (2 * c + 1) == 2 * (l * c) + l by {
      Distribute(2 * c, 1, l);
    }
    LessTimes(l * (2 * c + 1), 2 * TWO_64 * (ml + 1), d);
  }

  lemma LessTimes(a: int, b: int, t: int)
    requires a < b && t >= 1
    ensures a * t < b * t
  {
    Distribute(b - a, a, t);
    assert (b - a) * t >= 1;
  }

  /**
   What the scale says about one conversion: x2 is 2^x, c2 the unit of the cached power, k10 and j10 are
   10^k and 10^-k, one is 1, and v is 2^(-s - 64).
   */
  ghost predicate Powers(x2: nat, c2: nat, k10: nat, j10: nat, one: nat, v: nat, p: nat) {
    && one == (TWO_64 * p) * v && x2 * c2 == one * v && j10 * k10 == one * one
    && c2 >= 1 && k10 >= 1 && one >= 1 && v >= 1
  }

  lemma UpperPure(nn: nat, d: nat, u: nat, c: nat, p: nat, x2: nat, c2: nat, k10: nat, j10: nat, one: nat, v: nat)
    requires Powers(x2, c2, k10, j10, one, v, p) && c >= 1
    requires 2 * TWO_64 * (nn * p) < (u * (2 * c - 1)) * d && 2 * c * c2 <= 2 * k10 + c2
    ensures nn * j10 < d * (u * x2)
  {
    var a := u * (2 * c - 1);
    LessTimes(2 * TWO_64 * (nn * p), a * d, v * one);
    assert (2 * TWO_64 * (nn * p)) * (v * one) == 2 * ((nn * j10) * k10) by {
      Unit(nn, p, v, one, j10, k10);
    }
    assert (a * d) * (v * one) == ((d * (u * x2)) * ((2 * c - 1) * c2)) by {
      Shuffle(a, d, v * one, x2, c2, u, 2 * c - 1);
    }
    var y := d * (u * x2);
    assert y * ((2 * c - 1) * c2) <= 2 * (y * k10) by {
      Distribute(2 * c, -1, c2);
      assert y >= 0;
      MulLe((2 * c - 1) * c2, 2 * k10, y);
      Commute((2 * c - 1) * c2, y);
      Commute(2 * k10, y);
      Twice(y, k10);
    }
    CancelLess(nn * j10, y, k10);
  }

  lemma LowerPure(nn: nat, d: nat, l: nat, c: nat, p: nat, x2: nat, c2: nat, k10: nat, j10: nat, one: nat, v: nat)
    requires Powers(x2, c2, k10, j10, one, v, p)
    requires (l * (2 * c + 1)) * d < 2 * TWO_64 * (nn * p) && 2 * k10 <= 2 * c * c2 + c2
    ensures d * (l * x2) < nn * j10
  {
    var a := l * (2 * c + 1);
    LessTimes(a * d, 2 * TWO_64 * (nn * p), v * one);
    assert (2 * TWO_64 * (nn * p)) * (v * one) == 2 * ((nn * j10) * k10) by {
      Unit(nn, p, v, one, j10, k10);
    }
    assert (a * d) * (v * one) == ((d * (l * x2)) * ((2 * c + 1) * c2)) by {
      Shuffle(a, d, v * one, x2, c2, l, 2 * c + 1);
    }
    var y := d * (l * x2);
    assert 2 * (y * k10) <= y * ((2 * c + 1) * c2) by {
      Distribute(2 * c, 1, c2);
      assert y >= 0;
      MulLe(2 * k10, (2 * c + 1) * c2, y);
      Commute((2 * c + 1) * c2, y);
      Commute(2 * k10, y);
      Twice(y, k10);
    }
    CancelLess(y, nn * j10, k10);
  }

  lemma Unit(nn: nat, p: nat, v: nat, one: nat, j10: nat, k10: nat)
    requires one == (TWO_64 * p) * v && j10 * k10 == one * one
    ensures (2 * TWO_64 * (nn * p)) * (v * one) == 2 * ((nn * j10) * k10)
  {
    calc {
      (2 * TWO_64 * (nn * p)) * (v * one);
      { Regroup(2 * TWO_64 * (nn * p), v, one); }
      ((2 * TWO_64 * (nn * p)) * v) * one;
      { assert (2 * TWO_64 * (nn * p)) * v == 2 * nn * ((TWO_64 * p) * v); }
      (2 * nn * one) * one;
      { Regroup(2 * nn, one, one); }
      2 * nn * (one * one);
      { Regroup(nn, j10, k10); Regroup(2, nn, j10 * k10); }
      2 * ((nn * j10) * k10);
    }
  }

  lemma Shuffle(a: nat, d: nat, o: nat, x2: nat, c2: nat, u: nat, w: nat)
    requires a == u * w && o == x2 * c2
    ensures (a * d) * o == (d * (u * x2)) * (w * c2)
  {
    Regroup(a, d, o);
    assert a * o == (u * x2) * (w * c2) by {
      assert (u * w) * (x2 * c2) == (u * x2) * (w * c2);
    }
    Regroup(d, u * x2, w * c2);
  }

  lemma CancelLess(a: int, b: int, t: int)
    requires t > 0 && a * t < b * t
    ensures a < b
  {
    assert a - b >= 0 ==> (a - b) * t >= 0;
    Distribute(a, -b, t);
  }

  /** The decimal's value in units of 10^-k, as a fraction: n * 10^kappa is Whole / Parts. */
  ghost function Whole(n: nat, kappa: int): nat {
    if kappa >= 0 then n * Pow10(kappa) else n
  }

  ghost function Parts(kappa: int): nat {
    if kappa >= 0 then 1 else Pow10(-kappa)
  }

  lemma IntervalAsFraction(n: nat, kappa: int, s: nat, lower: nat, upper: nat)
    requires InInterval(n, kappa, s, lower, upper)
    ensures lower * Parts(kappa) <= Whole(n, kappa) * Pow2(s) <= upper * Parts(kappa)
  {
    if kappa >= 0 {
      Regroup(n, Pow10(kappa), Pow2(s));
    }
  }

  lemma Rescale(z: Scale, n: nat, kappa: int, j: int)
    requires j + z.digits >= 0 && kappa + j + z.digits >= 0
    ensures (n * TenTo(z, kappa + j)) * Parts(kappa) == Whole(n, kappa) * TenTo(z, j)
  {
    if kappa >= 0 {
      TenToShift(z, kappa, j);
      Regroup(n, Pow10(kappa), TenTo(z, j));
    } else {
      TenToShift(z, -kappa, kappa + j);
      Commute(Pow10(-kappa), TenTo(z, kappa + j));
      Regroup(n, TenTo(z, kappa + j), Pow10(-kappa));
    }
  }

  lemma PowersHold(z: Scale, x: int, ce: int, k: int, s: nat)
    requires Ample(z) && x + z.bits >= 0 && ce + z.bits >= 0 && x + ce + 64 + s == 0 && s <= 60 && -348 <= k <= 348
    ensures Powers(TwoTo(z, x), TwoTo(z, ce), TenTo(z, k), TenTo(z, -k), TwoTo(z, 0), TwoTo(z, x + ce), Pow2(s))
  {
    TwoToShift(z, s + 64, x + ce);
    Pow2Add(64, s);
    assert Pow2(64) == TWO_64 by {
      Pow2Values();
    }
    TwoToAdd(z, x, ce);
    TenToAdd(z, -k, k);
    SameOne(z);
  }

  /** The halfway point below the double f * 2^e; for a power of two it is half as far. */
  ghost function HalfwayBelow(z: Scale, f: nat, e: int): int
    requires Ample(z) && -1074 <= e
  {
    if f == TWO_52 then (4 * f - 1) * TwoTo(z, e - 2) else (2 * f - 1) * TwoTo(z, e - 1)
  }

  ghost function HalfwayAbove(z: Scale, f: nat, e: int): int
    requires Ample(z) && -1074 <= e
  {
    (2 * f + 1) * TwoTo(z, e - 1)
  }

  lemma UpperIsAbove(z: Scale, f: nat, e: int)
    requires Ample(z) && IsDouble(f, e) && f > 0
    ensures e - Grisu.Shifts(f) - 11 + z.bits >= 0
    ensures Upper(f) * TwoTo(z, e - Grisu.Shifts(f) - 11) == HalfwayAbove(z, f, e)
  {
    ShiftsBound(f);
    var t := Grisu.Shifts(f);
    TwoToShift(z, t + 10, e - t - 11);
    Regroup(2 * f + 1, Pow2(t + 10), TwoTo(z, e - t - 11));
  }

  lemma LowerIsBelow(z: Scale, f: nat, e: int)
    requires Ample(z) && IsDouble(f, e) && f > 0
    ensures e - Grisu.Shifts(f) - 11 + z.bits >= 0
    ensures Lower(f) * TwoTo(z, e - Grisu.Shifts(f) - 11) == HalfwayBelow(z, f, e)
  {
    ShiftsBound(f);
    LowerShift(f);
    var t := Grisu.Shifts(f);
    if f == TWO_52 {
      TwoToShift(z, 9, e - 11);
      Regroup(4 * f - 1, Pow2(9), TwoTo(z, e - 11));
    } else {
      TwoToShift(z, t + 10, e - t - 11);
      Regroup(2 * f - 1, Pow2(t + 10), TwoTo(z, e - t - 11));
    }
  }

  /** n * 10^k lies strictly between the halfway points around f * 2^e. */
  ghost predicate Between(z: Scale, f: nat, e: int, n: int, k: int) {
    Ample(z) && -1074 <= e && k >= -400 && HalfwayBelow(z, f, e) < n * TenTo(z, k) < HalfwayAbove(z, f, e)
  }

  lemma UpperCase(nn: nat, d: nat, u: nat, c: nat, mu: nat, p: nat, x2: nat, c2: nat, k10: nat, j10: nat,
                  one: nat, v: nat, value: int)
    requires Powers(x2, c2, k10, j10, one, v, p) && 1 <= c && 2 * c * c2 <= 2 * k10 + c2 && u < TWO_64
    requires Rounded(mu, u, c) && nn * p <= (mu - 1) * d && d >= 1 && mu >= 1 && value * d == nn * j10
    ensures value < u * x2
  {
    assert nn * j10 < d * (u * x2) by {
      UpperMargin(nn, d, u, c, mu, p);
      UpperPure(nn, d, u, c, p, x2, c2, k10, j10, one, v);
    }
    Commute(d, u * x2);
    CancelLess(value, u * x2, d);
  }

  lemma LowerCase(nn: nat, d: nat, l: nat, c: nat, ml: nat, p: nat, x2: nat, c2: nat, k10: nat, j10: nat,
                  one: nat, v: nat, value: int)
    requires Powers(x2, c2, k10, j10, one, v, p) && 2 * k10 <= 2 * c * c2 + c2 && l < TWO_64
    requires Rounded(ml, l, c) && (ml + 1) * d <= nn * p && d >= 1 && value * d == nn * j10
    ensures l * x2 < value
  {
    assert d * (l * x2) < nn * j10 by {
      LowerMargin(nn, d, l, c, ml, p);
      LowerPure(nn, d, l, c, p, x2, c2, k10, j10, one, v);
    }
    Commute(d, l * x2);
    CancelLess(l * x2, value, d);
  }

  /**
   Whatever power was multiplied in, as long as it is within half a unit of 10^k: digits between the
   products of the halfway points, one unit inside, lie strictly between the halfway points themselves.
   */
  lemma Inside(z: Scale, f: nat, e: int, c: Fp, k: int, s: nat, n: nat, kappa: int, mu: nat, ml: nat)
    requires Ample(z) && IsDouble(f, e) && f > 0 && s <= 60 && -16 <= kappa && mu >= 1
    requires 1 <= c.frac && -348 <= k <= 348 && HalfUnit(z, c, k)
    requires e - Grisu.Shifts(f) - 11 + c.exp + 64 + s == 0
    requires Rounded(mu, Upper(f), c.frac) && Rounded(ml, Lower(f), c.frac)
    requires InInterval(n, kappa, s, ml + 1, mu - 1)
    ensures Between(z, f, e, n, kappa - k)
  {
    var x, d, w := e - Grisu.Shifts(f) - 11, Parts(kappa), Whole(n, kappa);
    UpperIsAbove(z, f, e);
    LowerIsBelow(z, f, e);
    LowerShift(f);
    PowersHold(z, x, c.exp, k, s);
    IntervalAsFraction(n, kappa, s, ml + 1, mu - 1);
    Rescale(z, n, kappa, -k);
    UpperCase(w, d, Upper(f), c.frac, mu, Pow2(s), TwoTo(z, x), TwoTo(z, c.exp), TenTo(z, k), TenTo(z, -k),
              TwoTo(z, 0), TwoTo(z, x + c.exp), n * TenTo(z, kappa - k));
    LowerCase(w, d, Lower(f), c.frac, ml, Pow2(s), TwoTo(z, x), TwoTo(z, c.exp), TenTo(z, k), TenTo(z, -k),
              TwoTo(z, 0), TwoTo(z, x + c.exp), n * TenTo(z, kappa - k));
  }

  // ----- the whole conversion -----

  /**
   With the double and its halfway points scaled by a power c of 10^p and rounded to 64 bits: n * 10^k lies
   between the scaled halfway points, one unit inside; no shorter decimal does, and no decimal as long is
   closer to the scaled double.
   */
  ghost predicate Picked(f: nat, e: int, n: int, k: int, c: Fp, p: int, mw: nat, ml: nat, mu: nat) {
    && 0 < f < TWO_53 && 1 <= mu && -60 <= e - Grisu.Shifts(f) - 11 + c.exp + 64 <= -32
    && Rounded(mw, Middle(f), c.frac) && Rounded(ml, Lower(f), c.frac) && Rounded(mu, Upper(f), c.frac)
    && Chosen(n, k + p, -(e - Grisu.Shifts(f) - 11 + c.exp + 64), mw, ml + 1, mu - 1)
  }

  /** The decimal is the choice in the scale of one of the table's powers. */
  ghost predicate Selected(f: nat, e: int, n: int, k: int) {
    exists i, mw, ml, mu :: 0 <= i < ENTRIES && Picked(f, e, n, k, PowerTen(i), Exponent(i), mw, ml, mu)
  }

  method Grisu2(f: nat, e: int, digits: array<char>) returns (n: nat, k: int)
    requires IsDouble(f, e) && f > 0 && digits.Length >= 18
    modifies digits
    ensures 0 < n <= 17 && AllDigits(digits[..n]) && digits[0] != '0' && -400 <= k <= 400
    ensures forall z :: Ample(z) ==> Between(z, f, e, Number(digits[..n]), k)
    ensures Selected(f, e, Number(digits[..n]), k)
  {
    var w := Fp(f, e);
    var lower, upper := Boundaries(w);
    w := Normalize(w);
    ExponentRange(f, e);
    var cp, decimal, i := CachedPower(upper.exp);
    LowerShift(f);
    var mw := Product(w, cp);
    var mu := Product(upper, cp);
    var ml := Product(lower, cp);
    Gaps(f, cp.frac, mu.frac, mw.frac, ml.frac);
    var s := -mu.exp;
    PowerBelow60(s);
    var kappa: int;
    n, kappa := GenerateDigits(digits, s, mw.frac, U64(ml.frac + 1), U64(mu.frac - 1));
    k := kappa - decimal;
    NumberNotNegative(digits[..n]);
    assert Picked(f, e, Number(digits[..n]), k, PowerTen(i), Exponent(i), mw.frac, ml.frac, mu.frac);
    forall z | Ample(z)
      ensures Between(z, f, e, Number(digits[..n]), k)
    {
      Inside(z, f, e, cp, decimal, s, Number(digits[..n]), kappa, mu.frac, ml.frac);
    }
  }

  method CachedPower(exp: int) returns (p: Fp, k: int, ghost i: int)
    requires -1137 <= exp <= 960
    ensures 0 <= i < ENTRIES && p == PowerTen(i) && k == Exponent(i)
    ensures TWO_63 <= p.frac < TWO_64 && -348 <= k <= 340 && -60 <= exp + p.exp + 64 <= -32
    ensures forall z :: Ample(z) ==> HalfUnit(z, p, k)
  {
    var idx := FindCachedPower(exp);
    i := idx;
    LinksHold(i);
    p, k := PowerTen(idx), Exponent(idx);
    forall z | Ample(z)
      ensures HalfUnit(z, p, k)
    {
      TableIsAccurate(z, i);
    }
  }

  lemma ExponentRange(f: nat, e: int)
    requires IsDouble(f, e) && f > 0
    ensures -1137 <= e - Grisu.Shifts(f) - 11 <= 960
  {
    ShiftsBound(f);
  }

  method Product(a: Fp, b: Fp) returns (r: Fp)
    requires a.frac < TWO_64 && b.frac < TWO_64
    ensures r.exp == a.exp + b.exp + 64 && Rounded(r.frac, a.frac, b.frac) && r.frac < TWO_64
  {
    MultiplyRounds(a, b);
    MultiplyFits(a.frac, b.frac);
    r := Multiply(a, b);
  }
}
