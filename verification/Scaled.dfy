/**
 Powers of two and ten with negative exponents, kept exact as integers: everything is counted in units
 of 1 / (2^bits * 10^digits) for a large enough scale. TwoTo(s, x) stands for 2^x and TenTo(s, k) for
 10^k, so a * TwoTo(s, x) < b * TenTo(s, k) says that a * 2^x < b * 10^k.
 */
module Scaled {

  datatype Scale = Scale(bits: nat, digits: nat)

  /** Large enough for every exponent that comes up with 64-bit floating point. */
  predicate Ample(s: Scale) {
    s.bits >= 1400 && s.digits >= 400
  }

  function Pow2(e: nat): (r: nat)
    ensures r >= 1
  {
    if e == 0 then 1 else 2 * Pow2(e - 1)
  }

  function Pow10(e: nat): (r: nat)
    ensures r >= 1
  {
    if e == 0 then 1 else 10 * Pow10(e - 1)
  }

  ghost function TwoTo(s: Scale, x: int): (r: nat)
    requires x + s.bits >= 0
    ensures r >= 1
    decreases s, x + s.bits
  {
    if x + s.bits == 0 then Pow10(s.digits) else 2 * TwoTo(s, x - 1)
  }

  ghost function TenTo(s: Scale, k: int): (r: nat)
    requires k + s.digits >= 0
    ensures r >= 1
    decreases s, k + s.digits
  {
    if k + s.digits == 0 then Pow2(s.bits) else 10 * TenTo(s, k - 1)
  }

  lemma {:induction false} TwoToIs(s: Scale, x: int)
    requires x + s.bits >= 0
    ensures TwoTo(s, x) == Pow2(x + s.bits) * Pow10(s.digits)
    decreases x + s.bits
  {
    if x + s.bits > 0 {
      TwoToIs(s, x - 1);
      Double(Pow2(x - 1 + s.bits), Pow10(s.digits));
    }
  }

  lemma Double(a: int, b: int)
    ensures (2 * a) * b == 2 * (a * b) && (10 * a) * b == 10 * (a * b)
  {
  }

  lemma Twice(a: int, b: int)
    ensures a * (2 * b) == 2 * (a * b) && a * (10 * b) == 10 * (a * b)
  {
  }

  lemma Commute(a: int, b: int)
    ensures a * b == b * a
  {
  }

  lemma Regroup(a: int, b: int, t: int)
    ensures (a * b) * t == a * (b * t) && (a * b) * t == b * (a * t)
  {
  }

  lemma Distribute(a: int, b: int, t: int)
    ensures (a + b) * t == a * t + b * t
  {
  }

  lemma MulLe(a: int, b: int, t: int)
    requires a <= b && t >= 0
    ensures a * t <= b * t
  {
  }

  lemma {:induction false} TenToIs(s: Scale, k: int)
    requires k + s.digits >= 0
    ensures TenTo(s, k) == Pow10(k + s.digits) * Pow2(s.bits)
    decreases k + s.digits
  {
    if k + s.digits > 0 {
      TenToIs(s, k - 1);
      Double(Pow10(k - 1 + s.digits), Pow2(s.bits));
    }
  }

  /** Both scales agree on 1. */
  lemma SameOne(s: Scale)
    ensures TenTo(s, 0) == TwoTo(s, 0)
  {
    TwoToIs(s, 0);
    TenToIs(s, 0);
    Commute(Pow2(s.bits), Pow10(s.digits));
  }

  /** 2^e * 2^x == 2^(e + x) for a natural e. */
  lemma {:induction false} TwoToShift(s: Scale, e: nat, x: int)
    requires x + s.bits >= 0
    ensures Pow2(e) * TwoTo(s, x) == TwoTo(s, e + x)
    decreases e
  {
    if e > 0 {
      TwoToShift(s, e - 1, x);
      Double(Pow2(e - 1), TwoTo(s, x));
    }
  }

  lemma {:induction false} TenToShift(s: Scale, e: nat, k: int)
    requires k + s.digits >= 0
    ensures Pow10(e) * TenTo(s, k) == TenTo(s, e + k)
    decreases e
  {
    if e > 0 {
      TenToShift(s, e - 1, k);
      Double(Pow10(e - 1), TenTo(s, k));
    }
  }

  /** 2^x * 2^y == 2^0 * 2^(x + y). */
  lemma {:induction false} TwoToAdd(s: Scale, x: int, y: int)
    requires x + s.bits >= 0 && y + s.bits >= 0 && x + y + s.bits >= 0
    ensures TwoTo(s, x) * TwoTo(s, y) == TwoTo(s, 0) * TwoTo(s, x + y)
    decreases if x >= 0 then x else -x
  {
    if x > 0 {
      TwoToAdd(s, x - 1, y);
      Double(TwoTo(s, x - 1), TwoTo(s, y));
      Twice(TwoTo(s, 0), TwoTo(s, x + y - 1));
    } else if x < 0 {
      TwoToAdd(s, x + 1, y);
      Double(TwoTo(s, x), TwoTo(s, y));
      Twice(TwoTo(s, 0), TwoTo(s, x + y));
    }
  }

  lemma {:induction false} TenToAdd(s: Scale, x: int, y: int)
    requires x + s.digits >= 0 && y + s.digits >= 0 && x + y + s.digits >= 0
    ensures TenTo(s, x) * TenTo(s, y) == TenTo(s, 0) * TenTo(s, x + y)
    decreases if x >= 0 then x else -x
  {
    if x > 0 {
      TenToAdd(s, x - 1, y);
      Double(TenTo(s, x - 1), TenTo(s, y));
      Twice(TenTo(s, 0), TenTo(s, x + y - 1));
    } else if x < 0 {
      TenToAdd(s, x + 1, y);
      Double(TenTo(s, x), TenTo(s, y));
      Twice(TenTo(s, 0), TenTo(s, x + y));
    }
  }

  lemma {:induction false} Pow2Add(m: nat, n: nat)
    ensures Pow2(m + n) == Pow2(m) * Pow2(n)
  {
    if n != 0 {
      Pow2Add(m, n - 1);
      assert Pow2(m + n) == 2 * Pow2(m + n - 1);
      Twice(Pow2(m), Pow2(n - 1));
    }
  }

  lemma Pow2Values()
    ensures Pow2(8) == 256 && Pow2(9) == 512 && Pow2(10) == 1024 && Pow2(11) == 2048 && Pow2(16) == 0x1_0000
    ensures Pow2(26) == 67108864 && Pow2(27) == 134217728
    ensures Pow2(32) == 0x1_0000_0000 && Pow2(52) == 0x10_0000_0000_0000 && Pow2(53) == 0x20_0000_0000_0000
    ensures Pow2(60) == 0x1000_0000_0000_0000 && Pow2(63) == 0x8000_0000_0000_0000
    ensures Pow2(64) == 0x1_0000_0000_0000_0000
  {
    assert Pow2(8) == 256;
    Pow2Add(8, 8);
    Pow2Add(16, 10);
    Pow2Add(16, 11);
    Pow2Add(16, 16);
    Pow2Add(26, 26);
    Pow2Add(26, 27);
    Pow2Add(27, 27);
    Pow2Add(54, 6);
    Pow2Add(60, 3);
    Pow2Add(60, 4);
  }

  lemma Pow10Values()
    ensures Pow10(4) == 10000 && Pow10(8) == 100000000 && Pow10(9) == 1000000000 && Pow10(10) == 10000000000
    ensures Pow10(16) == 10000000000000000 && Pow10(17) == 100000000000000000 && Pow10(19) == 10000000000000000000
  {
    assert Pow10(8) == 100000000;
    assert Pow10(16) == 10000000000000000;
  }
}
