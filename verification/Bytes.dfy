/** Bytes, little-endian integers and the fixed-width wrap-around that the modelled code relies on. */
module Bytes {

  type byte = x: int | 0 <= x < 256

  const U16: int := 0x1_0000
  const U32: int := 0x1_0000_0000

  /** Arithmetic on a 32-bit unsigned integer keeps the low 32 bits. */
  function Wrap32(n: int): (r: nat)
    ensures 0 <= n < U32 ==> r == n
    ensures r < U32
  {
    n % 0x1_0000_0000
  }

  /**
   Product, quotient and remainder written as repeated addition and subtraction, so that facts about
   layouts stay linear. TimesIsProduct and DivideIsQuotient say that they are what the operators compute.
   */
  function Times(n: nat, size: nat): nat
    decreases n
  {
    if n == 0 then 0 else Times(n - 1, size) + size
  }

  function Quotient(n: nat, size: nat): nat
    requires size != 0
    decreases n
  {
    if n < size then 0 else 1 + Quotient(n - size, size)
  }

  function Remainder(n: nat, size: nat): nat
    requires size != 0
    decreases n
  {
    if n < size then n else Remainder(n - size, size)
  }

  lemma {:induction false} TimesIsProduct(n: nat, size: nat)
    ensures Times(n, size) == n * size
  {
    if n != 0 {
      TimesIsProduct(n - 1, size);
      assert (n - 1) * size + size == n * size;
    }
  }

  lemma {:induction false} DivideIsQuotient(n: nat, size: nat)
    requires size != 0
    ensures Quotient(n, size) == n / size && Remainder(n, size) == n % size
  {
    if n < size {
      QuotientUnique(n, size, 0, n);
    } else {
      DivideIsQuotient(n - size, size);
      QuotientNext(n - size, size);
    }
  }

  lemma QuotientNext(n: nat, d: nat)
    requires d != 0
    ensures (n + d) / d == n / d + 1 && (n + d) % d == n % d
  {
    var q, r := n / d, n % d;
    assert d * (q + 1) == d * q + d;
    QuotientUnique(n + d, d, q + 1, r);
  }

  lemma QuotientUnique(n: int, d: int, q: int, r: int)
    requires d > 0 && n == d * q + r && 0 <= r < d
    ensures n / d == q && n % d == r
  {
    var q', r' := n / d, n % d;
    assert d * (q - q') == r' - r;
    assert q - q' >= 1 ==> d * (q - q') >= d;
    assert q - q' <= -1 ==> d * (q - q') + d <= 0;
  }

  lemma {:induction false} TimesDivides(n: nat, size: nat)
    requires size != 0
    ensures Quotient(Times(n, size), size) == n && Remainder(Times(n, size), size) == 0
  {
    if n != 0 {
      TimesDivides(n - 1, size);
    }
  }

  ghost function Pow256(k: nat): (r: int)
    ensures r >= 1
  {
    if k == 0 then 1 else 256 * Pow256(k - 1)
  }

  lemma Pow256Values()
    ensures Pow256(1) == 256 && Pow256(2) == U16 && Pow256(4) == U32
  {
    assert Pow256(1) == 256 * Pow256(0);
    assert Pow256(2) == 256 * Pow256(1);
    assert Pow256(3) == 256 * Pow256(2);
  }

  lemma EightBytes()
    ensures Pow256(8) == 0x1_0000_0000_0000_0000
  {
    Pow256Values();
    assert Pow256(5) == 256 * Pow256(4);
    assert Pow256(6) == 256 * Pow256(5);
    assert Pow256(7) == 256 * Pow256(6);
  }

  /** The k low-order bytes of n, least significant first. */
  function LittleEndian(n: nat, k: nat): (s: seq<byte>)
    ensures |s| == k
  {
    if k == 0 then [] else [n % 256] + LittleEndian(n / 256, k - 1)
  }

  function FromLittleEndian(s: seq<byte>): (n: nat)
  {
    if s == [] then 0 else s[0] + 256 * FromLittleEndian(s[1..])
  }

  lemma {:induction false} LittleEndianRoundTrip(n: nat, k: nat)
    requires n < Pow256(k)
    ensures FromLittleEndian(LittleEndian(n, k)) == n
  {
    if k != 0 {
      LittleEndianRoundTrip(n / 256, k - 1);
      assert LittleEndian(n, k)[1..] == LittleEndian(n / 256, k - 1);
    }
  }

  lemma {:induction false} LittleEndianZero(k: nat)
    ensures forall i :: 0 <= i < k ==> LittleEndian(0, k)[i] == 0
  {
    if k > 0 {
      LittleEndianZero(k - 1);
    }
  }

  /** Byte i is the i-th digit of n to the base 256, counted from the low end. */
  lemma {:induction false} LittleEndianByte(n: nat, k: nat, i: nat)
    requires i < k
    ensures LittleEndian(n, k)[i] == n / Pow256(i) % 256
  {
    if i > 0 {
      LittleEndianByte(n / 256, k - 1, i - 1);
      DivideTwice(n, 256, Pow256(i - 1));
    }
  }

  lemma DivideTwice(n: nat, a: nat, b: nat)
    requires a > 0 && b > 0
    ensures a * b > 0 && n / (a * b) == n / a / b
  {
    var q, r := n / a, n % a;
    var q', r' := q / b, q % b;
    TwoDigits(a, b, q', r', r, q, n);
    QuotientUnique(n, a * b, q', a * r' + r);
  }

  lemma TwoDigits(a: int, b: int, x: int, y: int, z: int, q: int, n: int)
    requires a > 0 && 0 <= y < b && 0 <= z < a && q == b * x + y && n == a * q + z
    ensures a * b > 0 && n == a * b * x + (a * y + z) && 0 <= a * y + z < a * b
  {
    assert a * (b * x + y) == a * b * x + a * y;
    assert a * (y + 1) <= a * b;
    assert a * y >= 0;
  }

  /** The bytes b stand at position pos of src. */
  ghost predicate At(src: seq<byte>, pos: nat, b: seq<byte>)
  {
    pos + |b| <= |src| && forall k :: 0 <= k < |b| ==> b[k] == src[pos + k]
  }

  lemma AtSlice(src: seq<byte>, pos: nat, b: seq<byte>)
    ensures At(src, pos, b) <==> pos + |b| <= |src| && src[pos..pos + |b|] == b
  {
    if pos + |b| <= |src| && src[pos..pos + |b|] == b {
      forall k | 0 <= k < |b| ensures b[k] == src[pos + k] {
        assert b[k] == src[pos..pos + |b|][k];
      }
    }
  }

  lemma AtConcat(src: seq<byte>, pos: nat, a: seq<byte>, b: seq<byte>)
    ensures At(src, pos, a + b) <==> At(src, pos, a) && At(src, pos + |a|, b)
  {
    var ab := a + b;
    if At(src, pos, ab) {
      forall k | 0 <= k < |a| ensures a[k] == src[pos + k] {
        assert ab[k] == src[pos + k];
      }
      forall k | 0 <= k < |b| ensures b[k] == src[pos + |a| + k] {
        assert ab[|a| + k] == src[pos + (|a| + k)];
      }
    }
    if At(src, pos, a) && At(src, pos + |a|, b) {
      forall k | 0 <= k < |ab| ensures ab[k] == src[pos + k] {
        if k >= |a| {
          assert b[k - |a|] == src[pos + |a| + (k - |a|)];
        }
      }
    }
  }

  /** The same, as an equation between sequences. */
  predicate Stands(src: seq<byte>, pos: nat, b: seq<byte>)
  {
    pos + |b| <= |src| && src[pos..pos + |b|] == b
  }

  lemma StandsFirst(src: seq<byte>, pos: nat, b: seq<byte>)
    requires Stands(src, pos, b) && b != []
    ensures src[pos] == b[0]
  {
    assert src[pos..pos + |b|][0] == src[pos];
  }

  lemma StandsConcat(src: seq<byte>, pos: nat, a: seq<byte>, b: seq<byte>)
    requires Stands(src, pos, a + b)
    ensures Stands(src, pos, a) && Stands(src, pos + |a|, b)
  {
    var ab := src[pos..pos + |a + b|];
    assert src[pos..pos + |a|] == ab[..|a|];
    assert src[pos + |a|..pos + |a| + |b|] == ab[|a|..];
  }

  /** Appending moves nothing, and what is appended stands behind. */
  lemma StandsAppend(a: seq<byte>, b: seq<byte>, pos: nat, x: seq<byte>)
    ensures Stands(a, pos, x) ==> Stands(a + b, pos, x)
    ensures Stands(a + b, |a|, b)
  {
    if Stands(a, pos, x) {
      assert (a + b)[pos..pos + |x|] == a[pos..pos + |x|];
    }
  }
}
