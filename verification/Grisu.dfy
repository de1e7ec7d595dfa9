/** Printing a positive finite double with the digits of an interval around it, in 64-bit arithmetic. */
module Grisu {
  import opened Scaled
  import opened CachedPowers

  const TWO_32: int := 0x1_0000_0000
  const TWO_52: int := 0x10_0000_0000_0000
  const TWO_53: int := 0x20_0000_0000_0000
  const TWO_63: int := 0x8000_0000_0000_0000
  const TWO_64: int := 0x1_0000_0000_0000_0000

  /** A value computed in 64 bits. Each use is a proof that the step does not overflow. */
  function U64(x: int): (r: nat)
    requires 0 <= x < 0x1_0000_0000_0000_0000
    ensures r == x
  {
    x
  }

  // ----- doubles -----

  /** f * 2^e is a finite double, zero included, in its one representation. */
  predicate IsDouble(f: nat, e: int) {
    f < TWO_53 && -1074 <= e <= 971 && (f >= TWO_52 || e == -1074)
  }

  /** The bits of a finite double: 52 bits of fraction and 11 of biased exponent. */
  function BuildFp(fraction: nat, biased: nat): (r: Fp)
    requires fraction < TWO_52 && biased < 2047
    ensures IsDouble(r.frac, r.exp)
  {
    if biased != 0 then Fp(fraction + TWO_52, biased - 1075) else Fp(fraction, -1074)
  }

  /** Every finite double has one pair of fraction and biased exponent. */
  lemma BuildFpOnce(f: nat, e: int, fraction: nat, biased: nat)
    requires IsDouble(f, e) && fraction < TWO_52 && biased < 2047
    ensures BuildFp(fraction, biased) == Fp(f, e) <==>
              fraction == f % TWO_52 && biased == if f < TWO_52 then 0 else e + 1075
  {
  }

  // ----- normalisation -----

  /** Left shifts that bring f up to 53 bits. */
  function Shifts(f: nat): nat
    requires 0 < f < TWO_53
    decreases TWO_53 - f
  {
    if f >= TWO_52 then 0 else 1 + Shifts(2 * f)
  }

  /** The value, its upper halfway point and its lower one, as 64-bit fractions of one exponent. */
  function Middle(f: nat): nat
    requires 0 < f < TWO_53
  {
    f * Pow2(Shifts(f) + 11)
  }

  function Upper(f: nat): nat
    requires 0 < f < TWO_53
  {
    (2 * f + 1) * Pow2(Shifts(f) + 10)
  }

  function Lower(f: nat): int
    requires 0 < f < TWO_53
  {
    if f == TWO_52 then (4 * f - 1) * Pow2(9) else (2 * f - 1) * Pow2(Shifts(f) + 10)
  }

  lemma {:induction false} ShiftsBound(f: nat)
    requires 0 < f < TWO_53
    ensures TWO_52 <= f * Pow2(Shifts(f)) < TWO_53 && Shifts(f) <= 52
    decreases TWO_53 - f
  {
    if f < TWO_52 {
      ShiftsBound(2 * f);
      var t := Shifts(2 * f);
      Twice(f, Pow2(t));
      Double(f, Pow2(t));
      ManyShifts(f, t + 1);
    }
  }

  lemma ManyShifts(f: nat, t: nat)
    requires f > 0
    ensures t > 52 ==> f * Pow2(t) >= TWO_53
  {
    if t > 52 {
      Pow2Values();
      Pow2Add(53, t - 53);
      MulLe(1, Pow2(t - 53), TWO_53);
      MulLe(1, f, Pow2(t));
    }
  }

  /** Below 53 bits after t shifts, the next odd number is below 54 bits after as many. */
  lemma HalfwayShifts(f: nat, t: nat)
    requires f > 0 && t <= 52
    ensures f * Pow2(t) < TWO_52 <==> (2 * f + 1) * Pow2(t) < TWO_53
    ensures f * Pow2(t) < TWO_53 <==> (2 * f + 1) * Pow2(t) < 2 * TWO_53
  {
    Pow2Values();
    Pow2Add(52 - t, t);
    Pow2Add(53 - t, t);
    HalfwayPure(f, Pow2(t), Pow2(52 - t), TWO_52);
    HalfwayPure(f, Pow2(t), Pow2(53 - t), TWO_53);
  }

  lemma HalfwayPure(f: nat, p: nat, q: nat, m: nat)
    requires p >= 1 && q * p == m
    ensures f * p < m <==> (2 * f + 1) * p < 2 * m
  {
    Distribute(f, 1, p);
    Distribute(2 * f, 1, p);
    Distribute(f, f, p);
    if f < q {
      MulLe(f + 1, q, p);
    } else {
      MulLe(q, f, p);
    }
  }

  method Normalize(w: Fp) returns (r: Fp)
    requires 0 < w.frac < TWO_53
    ensures r == Fp(Middle(w.frac), w.exp - Shifts(w.frac) - 11)
    ensures TWO_63 <= r.frac < TWO_64
  {
    var frac, exp := w.frac, w.exp;
    ghost var t := 0;
    ShiftsBound(w.frac);
    while frac / 0x10_0000_0000_0000 % 2 == 0
      invariant 0 < frac < TWO_53 && frac == w.frac * Pow2(t) && exp == w.exp - t
      invariant t + Shifts(frac) == Shifts(w.frac)
      decreases TWO_53 - frac
    {
      assert frac < TWO_52;
      Twice(w.frac, Pow2(t));
      frac := U64(frac * 2);
      exp := exp - 1;
      t := t + 1;
    }
    AddShifts(w.frac, t, 11, 2048);
    r := Fp(U64(frac * 2048), exp - 11);
  }

  lemma AddShifts(f: nat, t: nat, m: nat, p: nat)
    requires m <= 11 && p == Pow2(m)
    ensures f * Pow2(t + m) == (f * Pow2(t)) * p
  {
    Pow2Add(t, m);
    Regroup(f, Pow2(t), p);
  }

  /** The halfway points keep a distance from the value that survives the later rounding. */
  lemma LowerShift(f: nat)
    requires 0 < f < TWO_53
    ensures 0 < Lower(f) && Lower(f) + 512 <= Middle(f) && Middle(f) + 1024 <= Upper(f) < TWO_64
    ensures TWO_63 <= Middle(f)
  {
    var t := Shifts(f);
    ShiftsBound(f);
    Pow2Values();
    AddShifts(f, t, 11, 2048);
    HalfwayShifts(f, t);
    AddShifts(2 * f + 1, t, 10, 1024);
    Around(f, Pow2(t + 10), Pow2(t + 11));
    Pow2Monotone(10, t + 10);
  }

  lemma Around(f: nat, p: nat, q: nat)
    requires q == 2 * p
    ensures (2 * f + 1) * p == f * q + p && (2 * f - 1) * p == f * q - p
  {
    Distribute(2 * f, 1, p);
    Distribute(2 * f, -1, p);
    Twice(f, p);
    Double(f, p);
  }

  lemma {:induction false} Pow2Monotone(m: nat, n: nat)
    requires m <= n
    ensures Pow2(m) <= Pow2(n)
    decreases n
  {
    if m < n {
      Pow2Monotone(m, n - 1);
    }
  }

  /** x and frac are f and 2 * f + 1 after t shifts, and lose their room at the same time. */
  ghost predicate Aligned(f: nat, t: nat, x: int, frac: int) {
    && x == f * Pow2(t) && frac == (2 * f + 1) * Pow2(t) && 0 < x < TWO_53 && frac < 2 * TWO_53
    && (x < TWO_52 <==> frac < TWO_53)
  }

  lemma Align(f: nat, t: nat, x: int, frac: int)
    requires f > 0 && x == f * Pow2(t) && frac == (2 * f + 1) * Pow2(t) && x < TWO_53 && t <= 52
    ensures Aligned(f, t, x, frac)
  {
    HalfwayShifts(f, t);
    MulLe(1, f, Pow2(t));
  }

  lemma AlignedStep(f: nat, t: nat, x: int, frac: int)
    requires f > 0 && Aligned(f, t, x, frac) && frac < TWO_53 && t < 52
    ensures Aligned(f, t + 1, 2 * x, 2 * frac)
  {
    Twice(f, Pow2(t));
    Twice(2 * f + 1, Pow2(t));
    Align(f, t + 1, 2 * x, 2 * frac);
  }

  /** Shifts the upper halfway point until its top bit is in place. */
  method ShiftUpper(f: nat, e: int) returns (frac: nat, exp: int)
    requires 0 < f < TWO_53
    ensures frac == (2 * f + 1) * Pow2(Shifts(f)) && exp == e - 1 - Shifts(f) && frac < 2 * TWO_53
  {
    frac, exp := U64(f * 2 + 1), e - 1;
    ghost var t: nat, x: nat := 0, f;
    ShiftsBound(f);
    Align(f, t, x, frac);
    while frac / 0x20_0000_0000_0000 % 2 == 0
      invariant Aligned(f, t, x, frac)
      invariant exp == e - 1 - t && t + Shifts(x) == Shifts(f)
      decreases 2 * TWO_53 - frac
    {
      AlignedStep(f, t, x, frac);
      frac := U64(frac * 2);
      exp := exp - 1;
      t, x := t + 1, 2 * x;
    }
  }

  method Boundaries(w: Fp) returns (lower: Fp, upper: Fp)
    requires 0 < w.frac < TWO_53
    ensures upper == Fp(Upper(w.frac), w.exp - Shifts(w.frac) - 11)
    ensures Lower(w.frac) >= 0 && lower == Fp(Lower(w.frac), upper.exp)
  {
    var f := w.frac;
    var frac, exp := ShiftUpper(f, w.exp);
    Pow2Values();
    AddShifts(2 * f + 1, Shifts(f), 10, 1024);
    upper := Fp(U64(frac * 1024), exp - 10);
    LowerShift(f);
    var shift := if f == TWO_52 then 2 else 1;
    var odd := if f == TWO_52 then U64(f * 4 - 1) else U64(f * 2 - 1);
    var distance := w.exp - shift - upper.exp;
    assert f == TWO_52 ==> Shifts(f) == 0;
    assert odd * Pow2(distance) == Lower(f);
    lower := Fp(U64(odd * Pow2(distance)), upper.exp);
  }

  // ----- multiplication -----

  /** The high 64 bits of the 128-bit product, from four 32-bit products, rounded by adding half. */
  function Multiply(a: Fp, b: Fp): Fp
    requires a.frac < TWO_64 && b.frac < TWO_64
  {
    var ah, al := a.frac / 0x1_0000_0000, a.frac % 0x1_0000_0000;
    var bh, bl := b.frac / 0x1_0000_0000, b.frac % 0x1_0000_0000;
    Fp(Combine(ah * bl, al * bh, al * bl, ah * bh), a.exp + b.exp + 64)
  }

  function Combine(ahbl: nat, albh: nat, albl: nat, ahbh: nat): nat {
    ahbh + ahbl / 0x1_0000_0000 + albh / 0x1_0000_0000 + RoundingSum(ahbl, albh, albl) / 0x1_0000_0000
  }

  function RoundingSum(ahbl: nat, albh: nat, albl: nat): nat {
    ahbl % 0x1_0000_0000 + albh % 0x1_0000_0000 + albl / 0x1_0000_0000 + 0x8000_0000
  }

  /** m is a * c / 2^64 rounded to nearest, half up. */
  ghost predicate Rounded(m: int, a: int, c: int) {
    TWO_64 * m <= a * c + TWO_63 < TWO_64 * m + TWO_64
  }

  lemma SplitProduct(a: int, b: int, ah: int, al: int, bh: int, bl: int)
    requires a == ah * 0x1_0000_0000 + al && b == bh * 0x1_0000_0000 + bl
    ensures a * b == ah * bh * 0x1_0000_0000_0000_0000 + (ah * bl + al * bh) * 0x1_0000_0000 + al * bl
  {
    Distribute(ah * 0x1_0000_0000, al, b);
    assert ah * b == ah * bh * 0x1_0000_0000 + ah * bl by {
      Distribute(bh * 0x1_0000_0000, bl, ah);
    }
    assert al * b == al * bh * 0x1_0000_0000 + al * bl by {
      Distribute(bh * 0x1_0000_0000, bl, al);
    }
  }

  lemma MultiplyRounds(a: Fp, b: Fp)
    requires a.frac < TWO_64 && b.frac < TWO_64
    ensures Rounded(Multiply(a, b).frac, a.frac, b.frac)
  {
    var ah, al := a.frac / 0x1_0000_0000, a.frac % 0x1_0000_0000;
    var bh, bl := b.frac / 0x1_0000_0000, b.frac % 0x1_0000_0000;
    SplitProduct(a.frac, b.frac, ah, al, bh, bl);
    AddHalves(ah * bl, al * bh, al * bl, ah * bh);
  }

  lemma AddHalves(x: nat, y: nat, z: nat, h: nat)
    ensures var product := h * 0x1_0000_0000_0000_0000 + (x + y) * 0x1_0000_0000 + z;
            TWO_64 * Combine(x, y, z, h) <= product + TWO_63 < TWO_64 * Combine(x, y, z, h) + TWO_64
  {
  }

  /** None of the code's 64-bit intermediate values overflows. */
  lemma MultiplyFits(a: nat, b: nat)
    requires a < TWO_64 && b < TWO_64
    ensures var ah, al, bh, bl := a / 0x1_0000_0000, a % 0x1_0000_0000, b / 0x1_0000_0000, b % 0x1_0000_0000;
            && ah * bl < TWO_64 && al * bh < TWO_64 && al * bl < TWO_64 && ah * bh < TWO_64
            && RoundingSum(ah * bl, al * bh, al * bl) < TWO_64
    ensures Multiply(Fp(a, 0), Fp(b, 0)).frac < TWO_64
  {
    var ah, al, bh, bl := a / 0x1_0000_0000, a % 0x1_0000_0000, b / 0x1_0000_0000, b % 0x1_0000_0000;
    SmallProduct(ah, bl);
    SmallProduct(al, bh);
    SmallProduct(al, bl);
    SmallProduct(ah, bh);
  }

  lemma SmallProduct(x: nat, y: nat)
    requires x < TWO_32 && y < TWO_32
    ensures x * y <= (TWO_32 - 1) * (TWO_32 - 1)
  {
    MulLe(x, TWO_32 - 1, y);
    MulLe(y, TWO_32 - 1, TWO_32 - 1);
  }

  // ----- choosing the cached power -----

  lemma ExponentSteps(i: int)
    requires 0 <= i < ENTRIES
    ensures i + 1 < ENTRIES ==> 26 <= PowerTen(i + 1).exp - PowerTen(i).exp <= 27
    ensures PowerTen(0).exp == -1220 && PowerTen(86).exp == 1066
  {
    if i + 1 < ENTRIES {
      if i >= 44 {
        LinksHold(i + 1);
      } else {
        LinksHold(i);
      }
    }
  }

  function Truncate(x: real): int {
    if x >= 0.0 then x.Floor else -((-x).Floor)
  }

  /** Starts from an estimate of the decimal exponent and walks to an entry that fits the window. */
  method FindCachedPower(exp: int) returns (idx: int)
    requires -1137 <= exp <= 960
    ensures 0 <= idx < ENTRIES && -60 <= exp + PowerTen(idx).exp + 64 <= -32
  {
    var approx := Truncate((-(exp + 87)) as real * 0.30102999566398114);
    idx := (approx + 348) / 8;
    var current := exp + PowerTen(idx).exp + 64;
    while current < -60 || current > -32
      invariant 0 <= idx < ENTRIES && current == exp + PowerTen(idx).exp + 64
      decreases if current < -60 then -60 - current else if current > -32 then current + 32 else 0
    {
      ExponentSteps(idx);
      if idx > 0 {
        ExponentSteps(idx - 1);
      }
      if current < -60 {
        assert idx != 86;
        idx := idx + 1;
      } else {
        assert idx != 0;
        idx := idx - 1;
      }
      current := exp + PowerTen(idx).exp + 64;
    }
  }

  // ----- digits -----

  predicate Digit(c: char) {
    '0' <= c <= '9'
  }

  ghost predicate AllDigits(ds: seq<char>) {
    forall i :: 0 <= i < |ds| ==> Digit(ds[i])
  }

  /** The number that a row of digits spells. */
  ghost function Number(ds: seq<char>): int {
    if ds == [] then 0 else 10 * Number(ds[..|ds| - 1]) + (ds[|ds| - 1] as int - 48)
  }

  lemma NumberAppend(ds: seq<char>, c: char)
    ensures Number(ds + [c]) == 10 * Number(ds) + (c as int - 48)
  {
    assert (ds + [c])[..|ds|] == ds;
  }

  lemma NumberLast(ds: seq<char>, c: char)
    requires ds != []
    ensures Number(ds[|ds| - 1 := c]) == Number(ds) - ds[|ds| - 1] as int + c as int
  {
    assert ds[|ds| - 1 := c][..|ds| - 1] == ds[..|ds| - 1];
  }

  lemma {:induction false} NumberBound(ds: seq<char>)
    requires AllDigits(ds) && ds != [] && ds[0] != '0'
    ensures Number(ds) >= Pow10(|ds| - 1)
  {
    if |ds| > 1 {
      NumberBound(ds[..|ds| - 1]);
      assert Digit(ds[|ds| - 1]);
    } else {
      assert ds[..0] == [];
      assert Digit(ds[0]);
    }
  }

  ghost function Distance(a: int, b: int): nat {
    if a <= b then b - a else a - b
  }

  /** How far from frac the digits end up when the last one is lowered i times. */
  ghost function Miss(rem: int, kappa: int, frac: int, i: int): nat {
    Distance(rem + i * kappa, frac)
  }

  /** No number of steps within delta ends closer to frac than j steps. */
  ghost predicate BestStep(rem: int, kappa: int, frac: int, delta: int, j: int) {
    forall i: nat :: rem + i * kappa <= delta ==> Miss(rem, kappa, frac, j) <= Miss(rem, kappa, frac, i)
  }

  /** A step that came closer, and no closer step within delta ahead: no other number of steps is better. */
  lemma NoBetterStep(rem: int, kappa: int, frac: int, delta: int, j: int, at: int, i: int)
    requires kappa > 0 && 0 <= j && 0 <= i && at == rem + j * kappa && rem + i * kappa <= delta
    requires j == 0 || Distance(at, frac) <= frac - (at - kappa)
    requires at >= frac || delta - at < kappa || frac - at <= at + kappa - frac
    ensures Miss(rem, kappa, frac, j) <= Miss(rem, kappa, frac, i)
  {
    StepsApart(i, j, kappa);
    StepsApart(j, i, kappa);
  }

  lemma StepsApart(i: int, j: int, kappa: int)
    requires kappa > 0
    ensures i < j ==> i * kappa + kappa <= j * kappa
  {
    if i < j {
      MulLe(i + 1, j, kappa);
      Distribute(i, 1, kappa);
    }
  }

  /** Lowers the last digit towards the exact value: no step within delta ends closer to it. */
  method RoundDigit(digits: array<char>, n: nat, delta: nat, rem0: nat, kappa: nat, frac: nat)
    returns (ghost j: nat)
    requires 0 < n <= digits.Length && Digit(digits[n - 1])
    requires delta < TWO_64 && rem0 <= delta && 0 < kappa < TWO_64 && frac < TWO_64
    requires rem0 + (digits[n - 1] as int - 48) * kappa >= delta
    modifies digits
    ensures j <= old(digits[n - 1]) as int - 48 && rem0 + j * kappa <= delta
    ensures digits[..] == old(digits[..])[n - 1 := (old(digits[n - 1]) as int - j) as char]
    ensures BestStep(rem0, kappa, frac, delta, j)
  {
    var rem := rem0;
    ghost var last := digits[n - 1] as int;
    j := 0;
    while rem < frac && U64(delta - rem) >= kappa
          && (U64(rem + kappa) < frac || U64(frac - rem) > U64(rem + kappa - frac))
      invariant rem == rem0 + j * kappa <= delta && j <= last - 48
      invariant digits[n - 1] as int == last - j
      invariant j == 0 || Distance(rem, frac) <= frac - (rem - kappa)
      invariant digits[..] == old(digits[..])[n - 1 := (last - j) as char]
      decreases delta - rem
    {
      Distribute(j, 1, kappa);
      StaysBelow(j + 1, last - 48, kappa, delta, rem0);
      digits[n - 1] := (digits[n - 1] as int - 1) as char;
      rem := U64(rem + kappa);
      j := j + 1;
    }
    forall i: nat | rem0 + i * kappa <= delta
      ensures Miss(rem0, kappa, frac, j) <= Miss(rem0, kappa, frac, i)
    {
      NoBetterStep(rem0, kappa, frac, delta, j, rem, i);
    }
  }

  lemma StaysBelow(j: int, d: int, kappa: int, delta: int, rem: int)
    requires kappa > 0 && rem + j * kappa <= delta <= rem + d * kappa
    ensures j <= d
  {
    StepsApart(d, j, kappa);
  }

  /** The decimal N * 10^kappa, in units of 2^-s, lies between the two bounds. */
  ghost predicate InInterval(number: int, kappa: int, s: nat, lower: nat, upper: nat) {
    if kappa >= 0 then lower <= number * (Pow10(kappa) * Pow2(s)) <= upper
    else lower * Pow10(-kappa) <= number * Pow2(s) <= upper * Pow10(-kappa)
  }

  /** The distance from the decimal N * 10^kappa to w, in units of 2^-s, or of 10^kappa * 2^-s below one. */
  ghost function Error(number: int, kappa: int, s: nat, w: nat): nat {
    if kappa >= 0 then Distance(number * (Pow10(kappa) * Pow2(s)), w)
    else Distance(number * Pow2(s), w * Pow10(-kappa))
  }

  /** No decimal of the same scale in the interval is closer to w. */
  ghost predicate Closest(number: int, kappa: int, s: nat, w: nat, lower: nat, upper: nat) {
    forall m: int :: InInterval(m, kappa, s, lower, upper) ==> Error(number, kappa, s, w) <= Error(m, kappa, s, w)
  }

  /** No decimal of this scale lies in the interval, other than at its lower end. */
  ghost predicate TooCoarse(kappa: int, s: nat, lower: nat, upper: nat) {
    forall m: int :: InInterval(m, kappa, s, lower, upper) ==> Error(m, kappa, s, lower) == 0
  }

  /** What the digits are chosen for: inside the interval, none shorter, and none of that length closer to w. */
  ghost predicate Chosen(number: int, kappa: int, s: nat, w: nat, lower: nat, upper: nat) {
    && InInterval(number, kappa, s, lower, upper)
    && Closest(number, kappa, s, w, lower, upper)
    && TooCoarse(kappa + 1, s, lower, upper)
  }

  /** Every candidate m of the scale is reached by lowering the last digit some number of times. */
  lemma NoneCloser(number: int, j: nat, unit: int, rem: int, delta: int, frac: nat, upper: int, w: int, m: int)
    requires unit > 0 && upper == number * unit + rem && 0 <= rem < unit && frac == upper - w
    requires upper - delta <= m * unit <= upper
    requires BestStep(rem, unit, frac, delta, j)
    ensures Distance((number - j) * unit, w) <= Distance(m * unit, w)
  {
    var i := number - m;
    assert i >= 0 && rem + i * unit == upper - m * unit by {
      Distribute(number, -m, unit);
      StepsApart(i, 0, unit);
    }
    assert (number - j) * unit == number * unit - j * unit by {
      Distribute(number, 0 - j, unit);
    }
    assert Miss(rem, unit, frac, j) <= Miss(rem, unit, frac, i);
  }

  /** A coarser candidate leaves over at least what the last digit and the rest stand for. */
  lemma CoarserIsLow(number: int, before: int, digit: int, unit: int, rem: int, upper: int, delta: int, m: int)
    requires unit > 0 && 0 <= rem < unit && 0 <= digit <= 9 && number == 10 * before + digit
    requires upper == number * unit + rem
    requires delta <= digit * unit + rem && 10 * (m * unit) <= upper
    ensures 10 * (m * unit) <= upper - delta
  {
    Distribute(10 * before, digit, unit);
    MulLe(digit, 9, unit);
    StepsApart(before, m, unit);
    StepsApart(m, before, unit);
  }

  const TENS: seq<nat> := [
    10000000000000000000, 1000000000000000000, 100000000000000000, 10000000000000000, 1000000000000000,
    100000000000000, 10000000000000, 1000000000000, 100000000000, 10000000000, 1000000000, 100000000,
    10000000, 1000000, 100000, 10000, 1000, 100, 10, 1
  ]

  method TableEntry(i: nat) returns (r: nat)
    requires i < 20
    ensures r == Pow10(19 - i)
  {
    assert TENS[19] == Pow10(0);
    assert TENS[18] == Pow10(1);
    assert TENS[17] == Pow10(2);
    assert TENS[16] == Pow10(3);
    assert TENS[15] == Pow10(4);
    assert TENS[14] == Pow10(5);
    assert TENS[13] == Pow10(6);
    assert TENS[12] == Pow10(7);
    assert TENS[11] == Pow10(8);
    assert TENS[10] == Pow10(9);
    assert TENS[9] == Pow10(10);
    assert TENS[8] == Pow10(11);
    assert TENS[7] == Pow10(12);
    assert TENS[6] == Pow10(13);
    assert TENS[5] == Pow10(14);
    assert TENS[4] == Pow10(15);
    assert TENS[3] == Pow10(16);
    assert TENS[2] == Pow10(17);
    assert TENS[1] == Pow10(18);
    assert TENS[0] == Pow10(19);
    r := TENS[i];
  }

  /** State of the integer loop: the digits so far, what is left of the integer part, and the fraction. */
  ghost predicate IntegerState(ds: seq<char>, kappa: int, part1: nat, part2: nat, p: nat, upper: nat, delta: nat) {
    && 0 <= kappa <= 10 && |ds| <= 10 - kappa && AllDigits(ds) && (ds != [] ==> ds[0] != '0')
    && part1 < Pow10(kappa) && part2 < p
    && upper == (Number(ds) * Pow10(kappa) + part1) * p + part2
    && delta < part1 * p + part2
  }

  /** Appends a digit unless it would be a leading zero. */
  function Append(ds: seq<char>, digit: int): seq<char>
    requires 0 <= digit <= 9
  {
    if digit != 0 || ds != [] then ds + [(digit + 48) as char] else ds
  }

  lemma AppendNumber(ds: seq<char>, digit: int)
    requires 0 <= digit <= 9 && AllDigits(ds) && (ds != [] ==> ds[0] != '0')
    ensures Number(Append(ds, digit)) == 10 * Number(ds) + digit
    ensures AllDigits(Append(ds, digit)) && (Append(ds, digit) != [] ==> Append(ds, digit)[0] != '0')
    ensures Append(ds, digit) != [] ==> Append(ds, digit)[|Append(ds, digit)| - 1] == (digit + 48) as char
  {
    NumberAppend(ds, (digit + 48) as char);
  }

  lemma SplitDigit(number: int, number': int, power: nat, div: nat, digit: nat, rest: nat,
                   part1: nat, part2: nat, p: nat)
    requires power == 10 * div && part1 == digit * div + rest && number' == 10 * number + digit
    ensures (number * power + part1) * p + part2 == (number' * div + rest) * p + part2
    ensures part1 * p + part2 == digit * (div * p) + (rest * p + part2)
  {
    Distribute(10 * number, digit, div);
    Distribute(digit * div, rest, p);
  }

  lemma DigitOf(part1: nat, div: nat)
    requires div > 0 && part1 < 10 * div
    ensures var digit := part1 / div;
            0 <= digit <= 9 && 0 <= part1 - digit * div < div
  {
    var q, r := part1 / div, part1 % div;
    assert part1 == div * q + r;
    Commute(div, q);
    assert q >= 10 ==> q * div >= 10 * div;
  }

  /** What one pass of the integer loop leaves: shorter integer part, one more digit. */
  lemma IntegerStep(ds: seq<char>, kappa: int, part1: nat, part2: nat, p: nat, upper: nat, delta: nat,
                    digit: nat, rest: nat, div: nat)
    requires IntegerState(ds, kappa, part1, part2, p, upper, delta) && kappa > 0 && div == Pow10(kappa - 1)
    requires digit <= 9 && part1 == digit * div + rest
    ensures upper == (Number(Append(ds, digit)) * div + rest) * p + part2
    ensures delta < digit * (div * p) + (rest * p + part2)
  {
    AppendNumber(ds, digit);
    SplitDigit(Number(ds), Number(Append(ds, digit)), Pow10(kappa), div, digit, rest, part1, part2, p);
  }

  lemma DigitNeeded(digit: int, unit: int, rem: int, delta: int)
    requires delta < digit * unit + rem
    ensures rem <= delta ==> digit != 0
  {
  }

  /** The digits fit the interval once what is left over is within delta. */
  lemma LeftOverFits(number: int, j: int, unit: nat, rem: nat, upper: nat, delta: nat)
    requires upper == number * unit + rem && rem + j * unit <= delta <= upper && j >= 0
    ensures upper - delta <= (number - j) * unit <= upper
  {
    Distribute(number, -j, unit);
    assert j * unit >= 0;
  }

  lemma StrictlyBelow(j: int, d: int, unit: int, delta: int, rem: int)
    requires unit > 0 && rem + j * unit <= delta < rem + d * unit
    ensures j < d
  {
    assert j - d >= 0 ==> (j - d) * unit >= 0;
    Distribute(j, -d, unit);
  }

  lemma UnitBelow(number: int, unit: nat, rem: nat, upper: nat)
    requires number >= 1 && upper == number * unit + rem
    ensures unit <= upper
  {
    assert (number - 1) * unit >= 0;
    Distribute(number, -1, unit);
  }

  /** The integer loop may stop: what the digits leave over is within delta, but no longer with one more. */
  ghost predicate Stopped(ds: seq<char>, kappa: nat, rem: nat, p: nat, upper: nat, delta: nat) {
    && ds != [] && AllDigits(ds) && ds[0] != '0' && rem <= delta && rem < Pow10(kappa) * p
    && upper == Number(ds) * (Pow10(kappa) * p) + rem
    && delta < (ds[|ds| - 1] as int - 48) * (Pow10(kappa) * p) + rem
  }

  lemma IntegerClosest(number: int, j: nat, kappa: nat, s: nat, rem: nat, delta: nat, w: nat, upper: nat, unit: nat)
    requires unit == Pow10(kappa) * Pow2(s) && upper == number * unit + rem && rem < unit && w <= upper
    requires delta <= upper
    requires BestStep(rem, unit, upper - w, delta, j)
    ensures Closest(number - j, kappa, s, w, upper - delta, upper)
  {
    forall m: int | InInterval(m, kappa, s, upper - delta, upper)
      ensures Error(number - j, kappa, s, w) <= Error(m, kappa, s, w)
    {
      NoneCloser(number, j, unit, rem, delta, upper - w, upper, w, m);
    }
  }

  lemma IntegerShortest(ds: seq<char>, kappa: nat, s: nat, rem: nat, upper: nat, delta: nat)
    requires Stopped(ds, kappa, rem, Pow2(s), upper, delta) && delta <= upper
    ensures TooCoarse(kappa + 1, s, upper - delta, upper)
  {
    var unit, last, coarse, lower := Pow10(kappa) * Pow2(s), ds[|ds| - 1], kappa + 1, upper - delta;
    assert Digit(last);
    forall m: int | InInterval(m, coarse, s, lower, upper)
      ensures Error(m, coarse, s, lower) == 0
    {
      assert m * (Pow10(coarse) * Pow2(s)) == 10 * (m * unit) by {
        Tenfold(m, Pow10(kappa), Pow2(s));
      }
      CoarserIsLow(Number(ds), Number(ds[..|ds| - 1]), last as int - 48, unit, rem, upper, delta, m);
    }
  }

  lemma Tenfold(m: int, t: int, p: int)
    ensures m * (10 * t * p) == 10 * (m * (t * p))
  {
    Regroup(10 * m, t, p);
  }

  lemma IntegerRounded(ds: seq<char>, j: nat, kappa: nat, s: nat, rem: nat, delta: nat, w: nat, upper: nat, unit: nat)
    requires Stopped(ds, kappa, rem, Pow2(s), upper, delta) && delta <= upper && w <= upper
    requires unit == Pow10(kappa) * Pow2(s) && rem + j * unit <= delta && j <= ds[|ds| - 1] as int - 48
    requires BestStep(rem, unit, upper - w, delta, j)
    ensures var ds' := ds[|ds| - 1 := (ds[|ds| - 1] as int - j) as char];
            AllDigits(ds') && ds'[0] != '0' && Chosen(Number(ds'), kappa, s, w, upper - delta, upper)
  {
    var last := ds[|ds| - 1];
    assert Digit(last);
    StrictlyBelow(j, last as int - 48, unit, delta, rem);
    NumberLast(ds, (last as int - j) as char);
    LeftOverFits(Number(ds), j, unit, rem, upper, delta);
    IntegerClosest(Number(ds), j, kappa, s, rem, delta, w, upper, unit);
    IntegerShortest(ds, kappa, s, rem, upper, delta);
  }

  /** Rounding the last digit of an integer-loop result keeps the digits well formed and gets them closest to w. */
  method FinishInteger(digits: array<char>, n: nat, delta: nat, rem: nat, kappa: nat, s: nat, frac: nat,
                       ghost w: nat, upper: nat)
    requires n <= digits.Length && Stopped(digits[..n], kappa, rem, Pow2(s), upper, delta)
    requires frac < TWO_64 && delta <= upper < TWO_64 && w <= upper && frac == upper - w
    modifies digits
    ensures n > 0 && AllDigits(digits[..n]) && digits[0] != '0'
    ensures Chosen(Number(digits[..n]), kappa, s, w, upper - delta, upper)
  {
    ghost var ds := digits[..n];
    assert Digit(ds[n - 1]);
    NumberBound(ds);
    UnitBelow(Number(ds), Pow10(kappa) * Pow2(s), rem, upper);
    var j := RoundDigit(digits, n, delta, rem, U64(Pow10(kappa) * Pow2(s)), frac);
    assert digits[..n] == ds[n - 1 := (ds[n - 1] as int - j) as char];
    IntegerRounded(ds, j, kappa, s, rem, delta, w, upper, Pow10(kappa) * Pow2(s));
  }

  /** State of the fraction loop after m more digits: everything is scaled by 10^m. */
  ghost predicate FractionState(ds: seq<char>, m: nat, part2: nat, p: nat, upper: nat, delta: nat) {
    && ds != [] && AllDigits(ds) && ds[0] != '0' && part2 < p
    && upper * Pow10(m) == Number(ds) * p + part2
    && delta * Pow10(m) <= part2
  }

  lemma {:induction false} Pow10Monotone(m: nat, n: nat)
    requires m <= n
    ensures Pow10(m) <= Pow10(n)
    decreases n
  {
    if m < n {
      Pow10Monotone(m, n - 1);
    }
  }

  /** The interval is wide enough for 17 digits to reach into it. */
  predicate Coarse(upper: nat, delta: nat) {
    upper < 10000000000000000 * delta
  }

  /** While the loop goes on, the digits so far are fewer than the buffer holds. */
  lemma DigitsFit(ds: seq<char>, m: nat, part2: nat, p: nat, upper: nat, delta: nat)
    requires FractionState(ds, m, part2, p, upper, delta)
    requires 512 <= delta && upper < TWO_64 && p <= 0x1000_0000_0000_0000
    ensures |ds| <= 17 && m <= 15
    ensures Coarse(upper, delta) ==> |ds| <= 16
  {
    var n, t := Number(ds), Pow10(m);
    NumberBound(ds);
    Pow10Values();
    if m >= 16 {
      Pow10Monotone(16, m);
      MulLe(512, delta, t);
      assert false;
    }
    NumberSmall(n, delta, t, p, upper);
    Pow10Monotone(16, if |ds| >= 17 then |ds| - 1 else 16);
    Pow10Monotone(17, if |ds| >= 18 then |ds| - 1 else 17);
  }

  lemma NumberSmall(n: nat, delta: nat, t: nat, p: nat, upper: nat)
    requires t >= 1 && n * p <= upper * t && delta * t < p && 512 <= delta && upper < TWO_64
    ensures n < 100000000000000000
    ensures Coarse(upper, delta) ==> n < 10000000000000000
  {
    Commute(n, p);
    MulLe(delta * t, p, n);
    assert (n * delta) * t <= upper * t by {
      assert (delta * t) * n == (n * delta) * t;
    }
    Cancel(n * delta, upper, t);
    Commute(n, delta);
    MulLe(512, delta, n);
    if n >= 10000000000000000 {
      MulLe(10000000000000000, n, delta);
    }
  }

  lemma Cancel(a: int, b: int, t: int)
    requires t > 0 && a * t <= b * t
    ensures a <= b
  {
    assert a - b >= 1 ==> (a - b) * t >= t;
    Distribute(a, -b, t);
  }

  lemma NextDigit(part2: nat, p: nat)
    requires part2 < p
    ensures var digit, rest := 10 * part2 / p, 10 * part2 % p;
            0 <= digit <= 9 && 10 * part2 == digit * p + rest && 0 <= rest < p
  {
    DigitOf(10 * part2, p);
    assert 10 * part2 == p * (10 * part2 / p) + 10 * part2 % p;
    Commute(p, 10 * part2 / p);
  }

  lemma ScaleByTen(u: nat, t: nat, n: int, p: nat, part2: nat, digit: nat, rest: nat)
    requires u * t == n * p + part2 && 10 * part2 == digit * p + rest
    ensures u * (10 * t) == (10 * n + digit) * p + rest
  {
    Twice(u, t);
    Distribute(10 * n, digit, p);
  }

  lemma FractionStep(ds: seq<char>, m: nat, part2: nat, p: nat, upper: nat, delta: nat, digit: nat, rest: nat)
    requires FractionState(ds, m, part2, p, upper, delta)
    requires digit <= 9 && 10 * part2 == digit * p + rest
    ensures var ds' := ds + [(digit + 48) as char];
            && AllDigits(ds') && ds'[0] != '0'
            && upper * Pow10(m + 1) == Number(ds') * p + rest
            && delta * Pow10(m + 1) == 10 * (delta * Pow10(m)) <= digit * p + rest
  {
    NumberAppend(ds, (digit + 48) as char);
    ScaleByTen(upper, Pow10(m), Number(ds), p, part2, digit, rest);
    Twice(delta, Pow10(m));
  }

  lemma FractionClosest(number: int, j: nat, m: nat, s: nat, rem: nat, delta: nat, w: nat, lower: nat, upper: nat,
                        t: nat, frac: nat)
    requires m > 0 && t == Pow10(m) && upper * t == number * Pow2(s) + rem && rem < Pow2(s)
    requires lower <= upper && w <= upper && delta == (upper - lower) * t && frac == (upper - w) * t
    requires BestStep(rem, Pow2(s), frac, delta, j)
    ensures Closest(number - j, -(m as int), s, w, lower, upper)
  {
    Distribute(upper, 0 - lower, t);
    Distribute(upper, 0 - w, t);
    var kappa := -(m as int);
    forall x: int | InInterval(x, kappa, s, lower, upper)
      ensures Error(number - j, kappa, s, w) <= Error(x, kappa, s, w)
    {
      NoneCloser(number, j, Pow2(s), rem, delta, frac, upper * t, w * t, x);
    }
  }

  /** One digit less, in the units of m fraction digits. */
  lemma CoarserUnits(x: int, m: nat, s: nat, lower: nat, upper: nat)
    requires m > 0 && InInterval(x, 1 - (m as int), s, lower, upper)
    ensures lower * Pow10(m) <= 10 * (x * Pow2(s)) <= upper * Pow10(m)
    ensures 10 * (x * Pow2(s)) == lower * Pow10(m) ==> Error(x, 1 - (m as int), s, lower) == 0
  {
    if m == 1 {
      assert Pow10(0) == 1;
      TenTimes(x * Pow2(s), lower, upper, 1);
    } else {
      TenTimes(x * Pow2(s), lower, upper, Pow10(m - 1));
    }
  }

  lemma TenTimes(v: int, lower: int, upper: int, t: int)
    requires lower * t <= v <= upper * t
    ensures lower * (10 * t) <= 10 * v <= upper * (10 * t)
    ensures 10 * v == lower * (10 * t) ==> v == lower * t
  {
    Twice(lower, t);
    Twice(upper, t);
  }

  lemma FractionShortest(ds: seq<char>, m: nat, s: nat, rem: nat, delta: nat, lower: nat, upper: nat)
    requires m > 0 && ds != [] && AllDigits(ds) && upper * Pow10(m) == Number(ds) * Pow2(s) + rem && rem < Pow2(s)
    requires lower <= upper && delta == (upper - lower) * Pow10(m)
    requires delta <= (ds[|ds| - 1] as int - 48) * Pow2(s) + rem
    ensures TooCoarse(1 - (m as int), s, lower, upper)
  {
    var last, kappa := ds[|ds| - 1], 1 - (m as int);
    assert Digit(last);
    assert delta == upper * Pow10(m) - lower * Pow10(m) by {
      Distribute(upper, 0 - lower, Pow10(m));
    }
    forall x: int | InInterval(x, kappa, s, lower, upper)
      ensures Error(x, kappa, s, lower) == 0
    {
      CoarserUnits(x, m, s, lower, upper);
      CoarserIsLow(Number(ds), Number(ds[..|ds| - 1]), last as int - 48, Pow2(s), rem, upper * Pow10(m), delta, x);
    }
  }

  method FinishFraction(digits: array<char>, n: nat, delta: nat, rem: nat, one: nat, frac: nat,
                        ghost m: nat, ghost s: nat, ghost w: nat, ghost lower: nat, ghost upper: nat)
    requires 1 < n <= digits.Length && AllDigits(digits[..n]) && digits[0] != '0' && m > 0
    requires one == Pow2(s) < TWO_64 && frac < TWO_64 && rem < delta < TWO_64 && lower <= upper
    requires rem < one && w <= upper && frac == (upper - w) * Pow10(m)
    requires delta == (upper - lower) * Pow10(m)
    requires upper * Pow10(m) == Number(digits[..n]) * one + rem
    requires delta <= (digits[n - 1] as int - 48) * one + rem
    modifies digits
    ensures AllDigits(digits[..n]) && digits[0] != '0'
    ensures Chosen(Number(digits[..n]), -(m as int), s, w, lower, upper)
  {
    ghost var ds := digits[..n];
    assert Digit(ds[n - 1]);
    var j := RoundDigit(digits, n, delta, rem, one, frac);
    assert digits[..n] == ds[n - 1 := (ds[n - 1] as int - j) as char];
    NumberLast(ds, (ds[n - 1] as int - j) as char);
    ScaledLeftOver(Number(ds), j, one, rem, lower, upper, Pow10(m), delta);
    FractionClosest(Number(ds), j, m, s, rem, delta, w, lower, upper, Pow10(m), frac);
    FractionShortest(ds, m, s, rem, delta, lower, upper);
  }

  lemma ScaledLeftOver(number: int, j: int, unit: nat, rem: nat, lower: nat, upper: nat, t: nat, delta: nat)
    requires lower <= upper && delta == (upper - lower) * t && upper * t == number * unit + rem
    requires rem + j * unit <= delta && j >= 0
    ensures lower * t <= (number - j) * unit <= upper * t
  {
    Distribute(upper, 0 - lower, t);
    LeftOverFits(number, j, unit, rem, upper * t, delta);
  }

  /** One more digit: ten times the fraction is a digit and a new fraction. */
  method FractionDigit(digits: array<char>, n: nat, part2: nat, one: nat,
                       ghost m: nat, ghost upper: nat, ghost delta: nat) returns (rest: nat)
    requires n < digits.Length && part2 * 10 < TWO_64 && one > 0
    requires FractionState(digits[..n], m, part2, one, upper, delta)
    modifies digits
    ensures digits[..n] == old(digits[..n]) && digits[n + 1..] == old(digits[n + 1..])
    ensures rest < one && AllDigits(digits[..n + 1]) && digits[0] != '0'
    ensures upper * Pow10(m + 1) == Number(digits[..n + 1]) * one + rest
    ensures delta * Pow10(m + 1) == 10 * (delta * Pow10(m)) <= (digits[n] as int - 48) * one + rest
  {
    ghost var ds := digits[..n];
    NextDigit(part2, one);
    FractionStep(ds, m, part2, one, upper, delta, 10 * part2 / one, 10 * part2 % one);
    var tenfold := U64(part2 * 10);
    var digit := tenfold / one;
    digits[n] := (digit + 48) as char;
    assert digits[..n + 1] == ds + [(digit + 48) as char];
    rest := tenfold % one;
  }

  /** One pass of the fraction loop: one more digit, and ten times the delta. */
  method FractionPass(digits: array<char>, n: nat, part2: nat, one: nat, delta: nat,
                      ghost m: nat, ghost upper: nat, ghost delta0: nat) returns (rest: nat, delta': nat)
    requires digits.Length >= 18 && n <= 18 && 512 <= delta0 && upper < TWO_64 && 0 < one <= 0x1000_0000_0000_0000
    requires FractionState(digits[..n], m, part2, one, upper, delta0) && delta == delta0 * Pow10(m)
    modifies digits
    ensures n <= 17 && m <= 15 && (Coarse(upper, delta0) ==> n <= 16)
    ensures delta < delta' == delta0 * Pow10(m + 1) < TWO_64 && rest < one
    ensures AllDigits(digits[..n + 1]) && digits[0] != '0'
    ensures upper * Pow10(m + 1) == Number(digits[..n + 1]) * one + rest
    ensures delta' <= (digits[n] as int - 48) * one + rest
    ensures rest >= delta' ==> FractionState(digits[..n + 1], m + 1, rest, one, upper, delta0)
  {
    DigitsFit(digits[..n], m, part2, one, upper, delta0);
    rest := FractionDigit(digits, n, part2, one, m, upper, delta0);
    delta' := U64(delta * 10);
  }

  /** The distance to the exact value, scaled by a table entry as often as the fraction was. */
  method ScaledDistance(wfrac: nat, ghost delta0: nat, ghost delta: nat, m: nat) returns (frac: nat)
    requires 1 <= m <= 16 && wfrac <= delta0 && delta == delta0 * Pow10(m) < TWO_64
    ensures frac == wfrac * Pow10(m) && frac < TWO_64
  {
    var unit := TableEntry(19 - m);
    MulLe(wfrac, delta0, unit);
    frac := U64(wfrac * unit);
  }

  /** The end of the fraction loop: the distance to the exact value is scaled, and the last digit rounded. */
  method EndFraction(digits: array<char>, n: nat, delta: nat, rem: nat, s: nat, wfrac: nat, m: nat,
                     ghost w: nat, ghost lower: nat, ghost upper: nat)
    requires s <= 60 && 1 < n <= digits.Length && AllDigits(digits[..n]) && digits[0] != '0' && 1 <= m <= 16
    requires lower <= w <= upper && wfrac == upper - w && delta == (upper - lower) * Pow10(m) < TWO_64
    requires rem < delta && rem < Pow2(s) && upper * Pow10(m) == Number(digits[..n]) * Pow2(s) + rem
    requires delta <= (digits[n - 1] as int - 48) * Pow2(s) + rem
    modifies digits
    ensures AllDigits(digits[..n]) && digits[0] != '0'
    ensures Chosen(Number(digits[..n]), -(m as int), s, w, lower, upper)
  {
    PowerBelow60(s);
    var frac := ScaledDistance(wfrac, upper - lower, delta, m);
    FinishFraction(digits, n, delta, rem, Pow2(s), frac, m, s, w, lower, upper);
  }

  method FractionDigits(digits: array<char>, idx: nat, part: nat, s: nat, wfrac: nat, delta0: nat,
                        ghost w: nat, ghost lower: nat, ghost upper: nat) returns (n: nat, kappa: int)
    requires s <= 60 && digits.Length >= 18 && idx <= 10
    requires lower <= upper < TWO_64 && delta0 == upper - lower >= 512
    requires lower <= w <= upper && wfrac == upper - w
    requires FractionState(digits[..idx], 0, part, Pow2(s), upper, delta0)
    modifies digits
    ensures 0 < n <= 18 && AllDigits(digits[..n]) && digits[0] != '0' && -16 <= kappa <= 0
    ensures Coarse(upper, delta0) ==> n <= 17
    ensures Chosen(Number(digits[..n]), kappa, s, w, lower, upper)
  {
    var one, part2, delta, m := Pow2(s), part, delta0, 0;
    PowerBelow60(s);
    n := idx;
    while true
      invariant 0 < n <= 18 && (Coarse(upper, delta0) ==> n <= 17)
      invariant FractionState(digits[..n], m, part2, one, upper, delta0)
      invariant delta == delta0 * Pow10(m)
      decreases one - delta
    {
      part2, delta := FractionPass(digits, n, part2, one, delta, m, upper, delta0);
      n, m := n + 1, m + 1;
      kappa := -m;
      if part2 < delta {
        EndFraction(digits, n, delta, part2, s, wfrac, m, w, lower, upper);
        return;
      }
    }
  }

  lemma PowerBelow60(s: nat)
    requires s <= 60
    ensures Pow2(s) <= 0x1000_0000_0000_0000
  {
    Pow2Monotone(s, 60);
    Pow2Values();
  }

  lemma PowerAbove32(s: nat)
    requires s >= 32
    ensures Pow2(s) >= 0x1_0000_0000
  {
    Pow2Monotone(32, s);
    Pow2Values();
  }

  /** One pass of the integer loop: the next digit, unless it would lead with zero. */
  method IntegerDigit(digits: array<char>, idx: nat, part1: nat, div: nat)
    returns (n: nat, digit: nat, rest: nat)
    requires idx < digits.Length && div > 0 && part1 < 10 * div
    modifies digits
    ensures digit <= 9 && part1 == digit * div + rest && rest < div
    ensures n <= digits.Length && digits[..n] == Append(old(digits[..idx]), digit)
  {
    DigitOf(part1, div);
    ghost var ds := digits[..idx];
    digit := part1 / div;
    n := idx;
    if digit != 0 || idx != 0 {
      digits[idx] := (digit + 48) as char;
      n := idx + 1;
      assert digits[..n] == ds + [(digit + 48) as char];
    }
    rest := part1 - digit * div;
  }

  lemma IntegerAfter(ds: seq<char>, kappa: nat, part1: nat, part2: nat, p: nat, upper: nat, delta: nat,
                     digit: nat, rest: nat, div: nat, rem: int)
    requires IntegerState(ds, kappa, part1, part2, p, upper, delta) && kappa > 0 && div == Pow10(kappa - 1)
    requires digit <= 9 && part1 == digit * div + rest && rest < div && rem == rest * p + part2
    ensures |Append(ds, digit)| <= 11 - kappa && 0 <= rem <= upper
    ensures rem <= delta ==> Stopped(Append(ds, digit), kappa - 1, rem, p, upper, delta)
    ensures rem > delta ==> IntegerState(Append(ds, digit), kappa - 1, rest, part2, p, upper, delta)
  {
    var ds', unit := Append(ds, digit), div * p;
    AppendNumber(ds, digit);
    NumberNotNegative(ds');
    assert delta < digit * unit + rem && upper == (Number(ds') * div + rest) * p + part2 by {
      IntegerStep(ds, kappa, part1, part2, p, upper, delta, digit, rest, div);
    }
    DigitNeeded(digit, unit, rem, delta);
    StepsApart(rest, div, p);
    LeftOver(Number(ds'), div, rest, p, part2, upper);
  }

  /** The same pass, seen as a step of the loop's state; rem is what is left over in all. */
  method IntegerPass(digits: array<char>, idx: nat, kappa: nat, part1: nat, part2: nat, p: nat,
                     ghost upper: nat, ghost delta: nat) returns (n: nat, rest: nat, rem: nat)
    requires 0 < kappa && digits.Length >= 18 && idx <= 10 - kappa && upper < TWO_64
    requires IntegerState(digits[..idx], kappa, part1, part2, p, upper, delta)
    modifies digits
    ensures n <= 11 - kappa
    ensures rem <= delta ==> Stopped(digits[..n], kappa - 1, rem, p, upper, delta)
    ensures rem > delta ==> IntegerState(digits[..n], kappa - 1, rest, part2, p, upper, delta)
  {
    ghost var ds := digits[..idx];
    var digit: nat;
    var div := TableEntry(20 - kappa);
    n, digit, rest := IntegerDigit(digits, idx, part1, div);
    IntegerAfter(ds, kappa, part1, part2, p, upper, delta, digit, rest, div, rest * p + part2);
    rem := U64(rest * p + part2);
  }

  lemma {:induction false} NumberNotNegative(ds: seq<char>)
    requires AllDigits(ds)
    ensures Number(ds) >= 0
  {
    if ds != [] {
      NumberNotNegative(ds[..|ds| - 1]);
      assert Digit(ds[|ds| - 1]);
    }
  }

  lemma LeftOver(number: nat, div: nat, rest: nat, p: nat, part2: nat, upper: nat)
    requires upper == (number * div + rest) * p + part2
    ensures upper == number * (div * p) + (rest * p + part2) && 0 <= rest * p + part2 <= upper
  {
    MulLe(0, rest, p);
    Distribute(number * div, rest, p);
    assert (number * div) * p == number * (div * p);
  }

  /** The integer loop: stops as soon as the digits may be cut, or leaves the fraction to the next loop. */
  method IntegerDigits(digits: array<char>, one: nat, delta: nat, part: nat, part2: nat, ghost upper: nat)
    returns (done: bool, n: nat, kappa: nat, rem: nat)
    requires digits.Length >= 18 && one <= upper < TWO_64
    requires IntegerState([], 10, part, part2, one, upper, delta)
    modifies digits
    ensures n <= 10 && kappa <= 10
    ensures done ==> Stopped(digits[..n], kappa, rem, one, upper, delta)
    ensures !done ==> FractionState(digits[..n], 0, part2, one, upper, delta)
  {
    var part1: nat := part;
    done, n, kappa, rem := false, 0, 10, 0;
    assert digits[..0] == [];
    while kappa > 0
      invariant kappa <= 10 && n <= 10 - kappa
      invariant IntegerState(digits[..n], kappa, part1, part2, one, upper, delta)
    {
      n, part1, rem := IntegerPass(digits, n, kappa, part1, part2, one, upper, delta);
      kappa := kappa - 1;
      if rem <= delta {
        done := true;
        return;
      }
    }
    StartFraction(digits[..n], part1, part2, one, upper, delta);
  }

  method GenerateDigits(digits: array<char>, s: nat, w: nat, lower: nat, upper: nat) returns (n: nat, kappa: int)
    requires 32 <= s <= 60 && digits.Length >= 18
    requires 0 < lower <= w <= upper < TWO_64 && upper - lower >= 512 && Pow2(s) <= upper
    modifies digits
    ensures 0 < n <= 18 && AllDigits(digits[..n]) && digits[0] != '0' && -16 <= kappa <= 10
    ensures Coarse(upper, upper - lower) ==> n <= 17
    ensures Chosen(Number(digits[..n]), kappa, s, w, lower, upper)
  {
    var wfrac, delta, one := U64(upper - w), U64(upper - lower), Pow2(s);
    var part1, part2 := upper / one, upper % one;
    StartInteger(s, upper, delta);
    var done: bool;
    var rem: nat;
    done, n, kappa, rem := IntegerDigits(digits, one, delta, part1, part2, upper);
    if done {
      FinishInteger(digits, n, delta, rem, kappa, s, wfrac, w, upper);
    } else {
      n, kappa := FractionDigits(digits, n, part2, s, wfrac, delta, w, lower, upper);
    }
  }

  lemma StartInteger(s: nat, upper: nat, delta: nat)
    requires 32 <= s && delta < upper < TWO_64
    ensures IntegerState([], 10, upper / Pow2(s), upper % Pow2(s), Pow2(s), upper, delta)
  {
    PowerAbove32(s);
    assert Pow10(10) == 10000000000 by {
      Pow10Values();
    }
    SplitUpper(upper, Pow2(s));
  }

  lemma SplitUpper(upper: nat, p: nat)
    requires TWO_32 <= p && upper < TWO_64
    ensures upper == upper / p * p + upper % p && upper / p < TWO_32
  {
    var q, r := upper / p, upper % p;
    assert upper == p * q + r;
    Commute(p, q);
    if q >= TWO_32 {
      MulLe(TWO_32, p, q);
      assert false;
    }
  }

  lemma StartFraction(ds: seq<char>, part1: nat, part2: nat, p: nat, upper: nat, delta: nat)
    requires IntegerState(ds, 0, part1, part2, p, upper, delta) && p <= upper
    ensures FractionState(ds, 0, part2, p, upper, delta)
  {
    assert Pow10(0) == 1;
  }
}
