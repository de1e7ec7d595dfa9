/** Bitwise operations on naturals of any width. */
module Bits {
  import opened Scaled

  function And(a: nat, b: nat): nat {
    if a == 0 || b == 0 then 0 else 2 * And(a / 2, b / 2) + (if a % 2 == 1 && b % 2 == 1 then 1 else 0)
  }

  function Or(a: nat, b: nat): nat {
    if a == 0 then b else if b == 0 then a
    else 2 * Or(a / 2, b / 2) + (if a % 2 == 1 || b % 2 == 1 then 1 else 0)
  }

  function Xor(a: nat, b: nat): nat {
    if a == 0 then b else if b == 0 then a
    else 2 * Xor(a / 2, b / 2) + (if a % 2 != b % 2 then 1 else 0)
  }

  /** No operation needs more bits than its operands have. */
  lemma {:induction false} Fits(a: nat, b: nat, k: nat)
    requires a < Pow2(k) && b < Pow2(k)
    ensures And(a, b) < Pow2(k) && Or(a, b) < Pow2(k) && Xor(a, b) < Pow2(k)
  {
    if a != 0 && b != 0 && k > 0 {
      Fits(a / 2, b / 2, k - 1);
    }
  }

  /** A mask of k ones keeps the remainder modulo 2^k. */
  lemma {:induction false} MaskIsRemainder(x: nat, k: nat)
    ensures And(x, Pow2(k) - 1) == x % Pow2(k)
  {
    if k > 0 {
      MaskIsRemainder(x / 2, k - 1);
      HalfRemainder(x, Pow2(k - 1));
      assert (Pow2(k) - 1) / 2 == Pow2(k - 1) - 1;
    }
  }

  lemma HalfRemainder(x: nat, p: nat)
    requires p > 0
    ensures x % (2 * p) == 2 * (x / 2 % p) + x % 2
  {
    var q, r := x / 2 / p, x / 2 % p;
    DivMod(x / 2, p);
    Twice(q, p);
    RemainderIs(x, 2 * p, q, 2 * r + x % 2);
  }

  lemma DivMod(x: int, m: int)
    requires m > 0
    ensures x == x / m * m + x % m && 0 <= x % m < m
  {
    assert x == m * (x / m) + x % m;
    Commute(m, x / m);
  }

  lemma RemainderIs(x: int, m: int, q: int, r: int)
    requires x == q * m + r && 0 <= r < m
    ensures x % m == r
  {
    DivMod(x, m);
    Distribute(q, -(x / m), m);
    Distribute(x / m, -(x / m), m);
    OnlyZero(q - x / m, m);
  }

  lemma RemainderBelow(x: nat, m: nat)
    requires m > 0
    ensures 0 <= x % m < m
  {
  }

  lemma OnlyZero(d: int, m: int)
    requires -m < d * m < m
    ensures d == 0
  {
    if d >= 1 {
      MulLe(1, d, m);
    } else if d <= -1 {
      MulLe(d, -1, m);
    }
  }
}
