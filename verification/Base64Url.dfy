/** Unpadded base64url, section 5 of RFC 4648. */
module Base64Url {
  import opened Bytes

  type sextet = x: int | 0 <= x < 64

  // ----- the alphabet -----

  function CharOf(v: sextet): byte {
    if v < 26 then v + 65 else if v < 52 then v + 71 else if v < 62 then v - 4 else if v == 62 then 45 else 95
  }

  datatype Value = NoValue | Value(v: sextet)

  function ValueOf(c: byte): Value {
    if 65 <= c <= 90 then Value(c - 65)
    else if 97 <= c <= 122 then Value(c - 71)
    else if 48 <= c <= 57 then Value(c + 4)
    else if c == 45 then Value(62)
    else if c == 95 then Value(63)
    else NoValue
  }

  lemma AlphabetRoundTrip(v: sextet, c: byte)
    ensures ValueOf(CharOf(v)) == Value(v)
    ensures ValueOf(c) == Value(v) ==> CharOf(v) == c
  {
  }

  function CharsOf(vs: seq<sextet>): (r: seq<byte>)
    ensures |r| == |vs|
  {
    if vs == [] then [] else CharsOf(vs[..|vs| - 1]) + [CharOf(vs[|vs| - 1])]
  }

  datatype Values = NoValues | Values(vs: seq<sextet>)

  function ValuesOf(t: seq<byte>): Values {
    if t == [] then Values([])
    else
      var front, last := ValuesOf(t[..|t| - 1]), ValueOf(t[|t| - 1]);
      if front.NoValues? || last.NoValue? then NoValues else Values(front.vs + [last.v])
  }

  lemma {:induction false} CharsRoundTrip(vs: seq<sextet>)
    ensures ValuesOf(CharsOf(vs)) == Values(vs)
  {
    if vs != [] {
      var n := |vs| - 1;
      CharsRoundTrip(vs[..n]);
      AlphabetRoundTrip(vs[n], 0);
      assert CharsOf(vs)[..n] == CharsOf(vs[..n]);
    }
  }

  lemma {:induction false} ValuesRoundTrip(t: seq<byte>)
    requires ValuesOf(t).Values?
    ensures CharsOf(ValuesOf(t).vs) == t && |ValuesOf(t).vs| == |t|
  {
    if t != [] {
      var n := |t| - 1;
      ValuesRoundTrip(t[..n]);
      AlphabetRoundTrip(ValueOf(t[n]).v, t[n]);
      assert ValuesOf(t).vs[..n] == ValuesOf(t[..n]).vs;
    }
  }

  // ----- groups of three bytes and four characters -----

  function S0(x: int): int { x / 4 }
  function S1(x: int, y: int): int { x % 4 * 16 + y / 16 }
  function S2(y: int, z: int): int { y % 16 * 4 + z / 64 }
  function S3(z: int): int { z % 64 }

  function O0(a: int, b: int): int { a * 4 + b / 16 }
  function O1(b: int, c: int): int { b % 16 * 16 + c / 4 }
  function O2(c: int, d: int): int { c % 4 * 64 + d }

  lemma GroupOut(x: byte, y: byte, z: byte)
    ensures 0 <= S0(x) < 64 && 0 <= S1(x, y) < 64 && 0 <= S2(y, z) < 64 && 0 <= S3(z) < 64
    ensures O0(S0(x), S1(x, y)) == x && O1(S1(x, y), S2(y, z)) == y && O2(S2(y, z), S3(z)) == z
  {
  }

  lemma GroupIn(a: sextet, b: sextet, c: sextet, d: sextet)
    ensures 0 <= O0(a, b) < 256 && 0 <= O1(b, c) < 256 && 0 <= O2(c, d) < 256
    ensures S0(O0(a, b)) == a && S1(O0(a, b), O1(b, c)) == b && S2(O1(b, c), O2(c, d)) == c && S3(O2(c, d)) == d
  {
  }

  /** Three bytes at a time; a rest of one or two is filled up with zero bits. */
  function Sextets(b: seq<byte>): seq<sextet>
    decreases |b|
  {
    if |b| == 0 then []
    else if |b| == 1 then [S0(b[0]), S1(b[0], 0)]
    else if |b| == 2 then [S0(b[0]), S1(b[0], b[1]), S2(b[1], 0)]
    else [S0(b[0]), S1(b[0], b[1]), S2(b[1], b[2]), S3(b[2])] + Sextets(b[3..])
  }

  /** Four characters at a time; a rest gives the bytes that it fills. */
  function Octets(vs: seq<sextet>): seq<byte>
    decreases |vs|
  {
    if |vs| <= 1 then []
    else if |vs| == 2 then [O0(vs[0], vs[1])]
    else if |vs| == 3 then [O0(vs[0], vs[1]), O1(vs[1], vs[2])]
    else [O0(vs[0], vs[1]), O1(vs[1], vs[2]), O2(vs[2], vs[3])] + Octets(vs[4..])
  }

  /** The bits of the rest that fill no byte. */
  function LeftOver(vs: seq<sextet>): nat
    decreases |vs|
  {
    if |vs| == 0 then 0
    else if |vs| == 1 then vs[0]
    else if |vs| == 2 then vs[1] % 16
    else if |vs| == 3 then vs[2] % 4
    else LeftOver(vs[4..])
  }

  function Remainder(vs: seq<sextet>): nat
    decreases |vs|
  {
    if |vs| < 4 then |vs| else Remainder(vs[4..])
  }

  lemma {:induction false} RemainderIsModulo(vs: seq<sextet>)
    ensures Remainder(vs) == |vs| % 4
    decreases |vs|
  {
    if |vs| >= 4 {
      RemainderIsModulo(vs[4..]);
    }
  }

  /** One group more in front. */
  lemma OctetsGroup(a: sextet, b: sextet, c: sextet, d: sextet, x: byte, y: byte, z: byte, rest: seq<sextet>)
    requires O0(a, b) == x && O1(b, c) == y && O2(c, d) == z
    ensures Octets([a, b, c, d] + rest) == [x, y, z] + Octets(rest)
    ensures LeftOver([a, b, c, d] + rest) == LeftOver(rest) && Remainder([a, b, c, d] + rest) == Remainder(rest)
  {
    assert ([a, b, c, d] + rest)[4..] == rest;
  }

  lemma SextetsGroup(x: byte, y: byte, z: byte, a: sextet, b: sextet, c: sextet, d: sextet, rest: seq<byte>)
    requires S0(x) == a && S1(x, y) == b && S2(y, z) == c && S3(z) == d
    ensures Sextets([x, y, z] + rest) == [a, b, c, d] + Sextets(rest)
  {
    assert ([x, y, z] + rest)[3..] == rest;
  }

  lemma OneByte(x: byte)
    ensures Octets(Sextets([x])) == [x] && LeftOver(Sextets([x])) == 0 && Remainder(Sextets([x])) != 1
  {
    var b := ZeroFill(x);
    PairOut(x, S0(x), b);
  }

  lemma ZeroFill(x: byte) returns (b: sextet)
    ensures b == S1(x, 0) && b % 16 == 0 && O0(S0(x), b) == x
  {
    b := x % 4 * 16;
  }

  lemma PairOut(x: byte, a: sextet, b: sextet)
    requires Sextets([x]) == [a, b] && O0(a, b) == x && b % 16 == 0
    ensures Octets(Sextets([x])) == [x] && LeftOver(Sextets([x])) == 0 && Remainder(Sextets([x])) != 1
  {
  }

  lemma TwoBytes(x: byte, y: byte)
    ensures Octets(Sextets([x, y])) == [x, y] && LeftOver(Sextets([x, y])) == 0 && Remainder(Sextets([x, y])) != 1
  {
    GroupOut(x, y, 0);
  }

  lemma {:induction false} OctetsOfSextets(b: seq<byte>)
    ensures Octets(Sextets(b)) == b && LeftOver(Sextets(b)) == 0 && Remainder(Sextets(b)) != 1
    decreases |b|
  {
    if |b| == 1 {
      OneByte(b[0]);
      assert b == [b[0]];
    } else if |b| == 2 {
      TwoBytes(b[0], b[1]);
      assert b == [b[0], b[1]];
    } else if |b| >= 3 {
      OctetsOfSextets(b[3..]);
      GroupOut(b[0], b[1], b[2]);
      OneGroupOut(b[0], b[1], b[2], S0(b[0]), S1(b[0], b[1]), S2(b[1], b[2]), S3(b[2]), b[3..]);
      assert b == [b[0], b[1], b[2]] + b[3..];
    }
  }

  lemma OneGroupOut(x: byte, y: byte, z: byte, a: sextet, b: sextet, c: sextet, d: sextet, rest: seq<byte>)
    requires S0(x) == a && S1(x, y) == b && S2(y, z) == c && S3(z) == d
    requires O0(a, b) == x && O1(b, c) == y && O2(c, d) == z && Octets(Sextets(rest)) == rest
    ensures var vs := Sextets([x, y, z] + rest);
            && Octets(vs) == [x, y, z] + rest && LeftOver(vs) == LeftOver(Sextets(rest))
            && Remainder(vs) == Remainder(Sextets(rest))
  {
    SextetsGroup(x, y, z, a, b, c, d, rest);
    OctetsGroup(a, b, c, d, x, y, z, Sextets(rest));
  }

  lemma TwoChars(a: sextet, b: sextet)
    requires b % 16 == 0
    ensures Sextets(Octets([a, b])) == [a, b]
  {
    GroupIn(a, b, 0, 0);
  }

  lemma ThreeChars(a: sextet, b: sextet, c: sextet)
    requires c % 4 == 0
    ensures Sextets(Octets([a, b, c])) == [a, b, c]
  {
    GroupIn(a, b, c, 0);
  }

  lemma {:induction false} SextetsOfOctets(vs: seq<sextet>)
    requires LeftOver(vs) == 0 && Remainder(vs) != 1
    ensures Sextets(Octets(vs)) == vs
    decreases |vs|
  {
    if |vs| == 2 {
      assert vs == [vs[0], vs[1]];
      TwoChars(vs[0], vs[1]);
    } else if |vs| == 3 {
      assert vs == [vs[0], vs[1], vs[2]];
      ThreeChars(vs[0], vs[1], vs[2]);
    } else if |vs| >= 4 {
      assert vs == [vs[0], vs[1], vs[2], vs[3]] + vs[4..];
      GroupIn(vs[0], vs[1], vs[2], vs[3]);
      OneGroupIn(vs[0], vs[1], vs[2], vs[3], O0(vs[0], vs[1]), O1(vs[1], vs[2]), O2(vs[2], vs[3]), vs[4..]);
    }
  }

  lemma {:induction false} OneGroupIn(a: sextet, b: sextet, c: sextet, d: sextet, x: byte, y: byte, z: byte,
                                      rest: seq<sextet>)
    requires S0(x) == a && S1(x, y) == b && S2(y, z) == c && S3(z) == d
    requires O0(a, b) == x && O1(b, c) == y && O2(c, d) == z
    requires LeftOver([a, b, c, d] + rest) == 0 && Remainder([a, b, c, d] + rest) != 1
    ensures Sextets(Octets([a, b, c, d] + rest)) == [a, b, c, d] + rest
    decreases |rest| + 3
  {
    OctetsGroup(a, b, c, d, x, y, z, rest);
    SextetsOfOctets(rest);
    SextetsGroup(x, y, z, a, b, c, d, Octets(rest));
  }

  // ----- whole texts -----

  datatype Decoded = BadCharacter | BadPadding | Decoded(bytes: seq<byte>)

  function Encode(b: seq<byte>): seq<byte> {
    CharsOf(Sextets(b))
  }

  function Decode(t: seq<byte>): Decoded {
    match ValuesOf(t)
    case NoValues => BadCharacter
    case Values(vs) => if LeftOver(vs) != 0 then BadPadding else Decoded(Octets(vs))
  }

  /** Decoding an encoding gives the bytes back. */
  lemma DecodeEncode(b: seq<byte>)
    ensures Decode(Encode(b)) == Decoded(b)
  {
    CharsRoundTrip(Sextets(b));
    OctetsOfSextets(b);
  }

  /** An accepted text comes back just when its length is not one more than a multiple of four. */
  lemma EncodeDecode(t: seq<byte>)
    requires Decode(t).Decoded?
    ensures Encode(Decode(t).bytes) == t <==> |t| % 4 != 1
  {
    var vs := ValuesOf(t).vs;
    ValuesRoundTrip(t);
    RemainderIsModulo(vs);
    if |t| % 4 != 1 {
      SextetsOfOctets(vs);
    } else {
      OctetsOfSextets(Octets(vs));
      RemainderIsModulo(Sextets(Octets(vs)));
    }
  }

  /** One zero character too many is accepted and lost. */
  lemma OddLengthWitness()
    ensures Decode([65]) == Decoded([]) && Encode([]) == []
  {
    assert [65][..0] == [];
  }

  // ----- the loops -----

  /** The accumulator keeps 32 bits, of which only the last few count. */
  function Accumulate8(buf: nat, c: byte): nat {
    (buf * 256 + c) % 0x1_0000_0000
  }

  function Accumulate6(buf: nat, v: sextet): nat {
    (buf * 64 + v) % 0x1_0000_0000
  }

  /** (buf >> bits) & 0x3f and (buf >> bits) & 0xff, for the numbers of pending bits that come up. */
  function Take6(buf: nat, bits: nat): sextet {
    if bits == 0 then buf % 64 else if bits == 2 then buf / 4 % 64
    else if bits == 4 then buf / 16 % 64 else buf / 64 % 64
  }

  function Take8(buf: nat, bits: nat): byte {
    if bits == 0 then buf % 256 else if bits == 2 then buf / 4 % 256 else buf / 16 % 256
  }

  /** A multiple of d * e more changes neither the remainder by d nor what is taken behind it. */
  lemma Higher(t: int, m: int, d: int, e: int, k: int)
    requires d > 0 && e > 0 && k == d * (e * t) + m
    ensures k % d == m % d && k / d == e * t + m / d && (e * t + m / d) % e == m / d % e
  {
    assert m == d * (m / d) + m % d;
    assert d * (e * t + m / d) == d * (e * t) + d * (m / d);
    QuotientUnique(k, d, e * t + m / d, m % d);
    var y := m / d;
    assert y == e * (y / e) + y % e;
    assert e * (t + y / e) == e * t + e * (y / e);
    QuotientUnique(e * t + y, e, t + y / e, y % e);
  }

  /** The last twelve bits decide what is taken. */
  lemma LastTwelve(n: nat, t: int, m: nat)
    requires n == 4096 * t + m && m < 4096
    ensures n % 4 == m % 4 && n % 16 == m % 16 && n % 64 == m % 64 && n % 256 == m % 256
    ensures n / 4 % 64 == m / 4 % 64 && n / 16 % 64 == m / 16 % 64 && n / 64 % 64 == m / 64 % 64
    ensures n / 4 % 256 == m / 4 % 256 && n / 16 % 256 == m / 16 % 256
  {
    Higher(16 * t, m, 4, 64, n);
    Higher(4 * t, m, 16, 64, n);
    Higher(t, m, 64, 64, n);
    Higher(4 * t, m, 4, 256, n);
    Higher(t, m, 16, 256, n);
    Higher(t, m, 256, 16, n);
  }

  lemma Take6Is(buf: nat, c: byte)
    requires buf < 0x1_0000_0000
    ensures var n := Accumulate8(buf, c);
            && Take6(n, 2) == S0(c) && n % 4 == c % 4
            && Take6(n, 4) == buf % 4 * 16 + c / 16 && n % 16 == c % 16
            && Take6(n, 6) == buf % 16 * 4 + c / 64 && Take6(n, 0) == c % 64
  {
    var n, t, r := Accumulate8(buf, c), Dropped(buf / 16, buf * 256 + c), buf % 16;
    assert n == 4096 * t + (256 * r + c) by {
      assert buf == 16 * (buf / 16) + r;
    }
    LastTwelve(n, t, 256 * r + c);
    Parts8(buf, r, c);
    Small(c / 4);
  }

  lemma Small(x: int)
    requires 0 <= x < 64
    ensures x % 64 == x
  {
  }

  /** What stands above the last twelve bits once a sum has wrapped around. */
  function Dropped(q: int, sum: int): (t: int)
    ensures 4096 * q - 4096 * t == sum - sum % 0x1_0000_0000
  {
    q - 1048576 * (sum / 0x1_0000_0000)
  }

  lemma Parts8(buf: nat, r: nat, c: byte)
    requires r == buf % 16
    ensures var m := 256 * r + c;
            && m / 4 % 64 == c / 4 % 64 && m % 4 == c % 4 && m / 16 % 64 == buf % 4 * 16 + c / 16 && m % 16 == c % 16
            && m / 64 % 64 == r * 4 + c / 64 && m % 64 == c % 64
  {
    var m := 256 * r + c;
    assert m / 4 % 64 == c / 4 % 64 && m % 4 == c % 4 by {
      Higher(r, c, 4, 64, m);
    }
    assert m / 64 % 64 == r * 4 + c / 64 && m % 64 == c % 64 by {
      Higher(r, c, 64, 4, m);
      Small(4 * r + c / 64);
    }
    assert m / 16 == 16 * r + c / 16 && m % 16 == c % 16 by {
      Higher(r, c, 16, 16, m);
    }
    Lowest(r, buf, 4, 4);
    Quarter(r, c / 16);
  }

  /** Sixteen times r and a little more, modulo 64. */
  lemma Quarter(r: nat, y: nat)
    requires y < 16
    ensures (16 * r + y) % 64 == r % 4 * 16 + y
  {
    QuotientUnique(16 * r + y, 64, r / 4, r % 4 * 16 + y);
  }

  lemma Lowest(r: nat, buf: nat, d: nat, e: nat)
    requires d > 0 && e > 0 && r == buf % (d * e)
    ensures r % d == buf % d
  {
    var q := buf / (d * e);
    assert buf == (d * e) * q + r;
    assert (d * e) * q == d * (e * q);
    Higher(q, r, d, e, buf);
  }

  lemma Take8Is(buf: nat, v: sextet)
    requires buf < 0x1_0000_0000
    ensures var n := Accumulate6(buf, v);
            && n % 64 == v && Take8(n, 4) == buf % 64 * 4 + v / 16 && n % 16 == v % 16
            && Take8(n, 2) == buf % 16 * 16 + v / 4 && n % 4 == v % 4
            && Take8(n, 0) == buf % 4 * 64 + v
  {
    var n, t, r := Accumulate6(buf, v), Dropped(buf / 64, buf * 64 + v), buf % 64;
    assert n == 4096 * t + (64 * r + v) by {
      assert buf == 64 * (buf / 64) + r;
    }
    LastTwelve(n, t, 64 * r + v);
    Parts6(buf, r, v);
  }

  lemma Parts6(buf: nat, r: nat, v: sextet)
    requires r == buf % 64
    ensures var m := 64 * r + v;
            && m % 64 == v && m / 16 % 256 == r * 4 + v / 16 && m % 16 == v % 16
            && m / 4 % 256 == buf % 16 * 16 + v / 4 && m % 4 == v % 4 && m % 256 == buf % 4 * 64 + v
  {
    var m := 64 * r + v;
    QuotientUnique(m, 64, r, v);
    Higher(r, v, 16, 4, m);
    Higher(r, v, 4, 16, m);
    Lowest(r, buf, 16, 4);
    Lowest(r, buf, 4, 16);
    QuotientUnique(16 * r + v / 4, 256, r / 16, r % 16 * 16 + v / 4);
    QuotientUnique(m, 256, r / 4, r % 4 * 64 + v);
  }

  /** The characters a group has given so far, and the number of its bits still pending. */
  function Partial6(tail: seq<byte>): seq<sextet> {
    if |tail| == 0 then [] else if |tail| == 1 then [S0(tail[0])] else [S0(tail[0]), S1(tail[0], tail[1])]
  }

  function Partial8(tail: seq<sextet>): seq<byte> {
    if |tail| <= 1 then [] else if |tail| == 2 then [O0(tail[0], tail[1])]
    else [O0(tail[0], tail[1]), O1(tail[1], tail[2])]
  }

  lemma {:induction false} SextetsConcat(g: seq<byte>, tail: seq<byte>)
    requires |g| % 3 == 0
    ensures Sextets(g + tail) == Sextets(g) + Sextets(tail)
    decreases |g|
  {
    if |g| == 0 {
      assert g + tail == tail;
    } else {
      var front, back := g[..3], g[3..];
      SextetsConcat(back, tail);
      assert g == front + back && g + tail == front + (back + tail);
      SextetsFront(front, back);
      SextetsFront(front, back + tail);
    }
  }

  lemma SextetsFront(front: seq<byte>, back: seq<byte>)
    requires |front| == 3
    ensures Sextets(front + back) == Sextets(front) + Sextets(back)
  {
    var x, y, z := front[0], front[1], front[2];
    GroupOut(x, y, z);
    assert front == [x, y, z] && front == [x, y, z] + [];
    SextetsGroup(x, y, z, S0(x), S1(x, y), S2(y, z), S3(z), []);
    SextetsGroup(x, y, z, S0(x), S1(x, y), S2(y, z), S3(z), back);
  }

  lemma {:induction false} OctetsConcat(g: seq<sextet>, tail: seq<sextet>)
    requires |g| % 4 == 0
    ensures Octets(g + tail) == Octets(g) + Octets(tail) && LeftOver(g + tail) == LeftOver(tail)
    decreases |g|
  {
    if |g| == 0 {
      assert g + tail == tail;
    } else {
      OctetsConcat(g[4..], tail);
      var front, back := g[..4], g[4..];
      assert g == front + back && g + tail == front + (back + tail);
      OctetsFront(front, back);
      OctetsFront(front, back + tail);
    }
  }

  lemma OctetsFront(front: seq<sextet>, back: seq<sextet>)
    requires |front| == 4
    ensures Octets(front + back) == Octets(front) + Octets(back) && LeftOver(front + back) == LeftOver(back)
  {
    assert (front + back)[4..] == back && front[4..] == [];
  }

  /** The bits of the last byte or character that still wait in the accumulator. */
  predicate Waiting8(buf: nat, tail: seq<byte>) {
    buf < 0x1_0000_0000 && |tail| <= 2 && (|tail| == 1 ==> buf % 4 == tail[0] % 4)
    && (|tail| == 2 ==> buf % 16 == tail[1] % 16)
  }

  predicate Waiting6(buf: nat, tail: seq<sextet>) {
    buf < 0x1_0000_0000 && |tail| <= 3 && (|tail| == 1 ==> buf % 64 == tail[0])
    && (|tail| == 2 ==> buf % 16 == tail[1] % 16)
    && (|tail| == 3 ==> buf % 4 == tail[2] % 4)
  }

  function Next6(tail: seq<byte>, c: byte): seq<sextet>
    requires |tail| <= 2
  {
    if |tail| == 0 then [S0(c)] else if |tail| == 1 then [S1(tail[0], c)] else [S2(tail[1], c), S3(c)]
  }

  function Next8(tail: seq<sextet>, v: sextet): seq<byte>
    requires |tail| <= 3
  {
    if |tail| == 0 then [] else if |tail| == 1 then [O0(tail[0], v)]
    else if |tail| == 2 then [O1(tail[1], v)] else [O2(tail[2], v)]
  }

  /** One byte in: one character out, or two when it completes a group. */
  method Feed8(buf0: nat, bits0: nat, c: byte, ghost tail: seq<byte>) returns (buf: nat, bits: nat, out: seq<sextet>)
    requires Waiting8(buf0, tail) && bits0 == 2 * |tail|
    ensures out == Next6(tail, c) && Waiting8(buf, if |tail| == 2 then [] else tail + [c])
    ensures bits == if |tail| == 2 then 0 else bits0 + 2
  {
    buf, bits, out := Accumulate8(buf0, c), bits0 + 8, [];
    Take6Is(buf0, c);
    while bits >= 6
      invariant buf == Accumulate8(buf0, c)
      invariant || (bits == bits0 + 8 && out == [])
                || (bits == bits0 + 2 && out == [Take6(buf, bits)])
                || (bits0 == 4 && bits == 0 && out == [Take6(buf, 6), Take6(buf, 0)])
      decreases bits
    {
      bits := bits - 6;
      out := out + [Take6(buf, bits)];
    }
  }

  lemma CompleteGroup(b: seq<byte>, g: nat)
    requires g % 3 == 0 && g + 3 <= |b|
    ensures Sextets(b[..g + 3])
         == Sextets(b[..g]) + [S0(b[g]), S1(b[g], b[g + 1]), S2(b[g + 1], b[g + 2]), S3(b[g + 2])]
  {
    var x, y, z := b[g], b[g + 1], b[g + 2];
    assert b[..g + 3] == b[..g] + [x, y, z];
    SextetsConcat(b[..g], [x, y, z]);
    GroupOut(x, y, z);
    assert [x, y, z] + [] == [x, y, z];
    SextetsGroup(x, y, z, S0(x), S1(x, y), S2(y, z), S3(z), []);
  }

  lemma FinishSextets(b: seq<byte>, g: nat)
    requires g % 3 == 0 && g <= |b| <= g + 2
    ensures Sextets(b) == Sextets(b[..g]) + Partial6(b[g..])
                          + (if |b| == g then [] else if |b| == g + 1 then [S1(b[g], 0)] else [S2(b[g + 1], 0)])
  {
    assert b == b[..g] + b[g..];
    SextetsConcat(b[..g], b[g..]);
  }

  /** What one more byte adds. */
  lemma Step6(b: seq<byte>, g: nat, i: nat)
    requires g % 3 == 0 && g <= i < |b| && i - g <= 2
    ensures i - g < 2 ==> b[g..i + 1] == b[g..i] + [b[i]]
    ensures i - g < 2 ==>
              Sextets(b[..g]) + Partial6(b[g..i]) + Next6(b[g..i], b[i]) == Sextets(b[..g]) + Partial6(b[g..i + 1])
    ensures i - g == 2 ==> b[g + 3..i + 1] == []
    ensures i - g == 2 ==>
              Sextets(b[..g]) + Partial6(b[g..i]) + Next6(b[g..i], b[i]) == Sextets(b[..g + 3]) + Partial6([])
  {
    if i - g == 2 {
      CompleteGroup(b, g);
    } else {
      assert b[g..i + 1] == b[g..i] + [b[i]];
    }
  }

  /** Bytes to characters' values, through the accumulator. */
  method ToSextets(b: seq<byte>) returns (out: seq<sextet>)
    ensures out == Sextets(b)
  {
    out := [];
    var buf, bits, i := 0, 0, 0;
    ghost var g := 0;
    while i < |b|
      invariant g <= i <= |b| && g % 3 == 0 && i - g <= 2 && bits == 2 * (i - g) && Waiting8(buf, b[g..i])
      invariant out == Sextets(b[..g]) + Partial6(b[g..i])
    {
      ghost var h := if i - g == 2 then g + 3 else g;
      Step6(b, g, i);
      var more: seq<sextet>;
      buf, bits, more := Feed8(buf, bits, b[i], b[g..i]);
      out := out + more;
      assert out == Sextets(b[..h]) + Partial6(b[h..i + 1]);
      g, i := h, i + 1;
    }
    FinishSextets(b, g);
    assert b[g..i] == b[g..];
    if bits != 0 {
      var last := if bits == 2 then buf % 4 * 16 else buf % 16 * 4;
      out := out + [last];
    }
  }

  method ToBase64Url(b: seq<byte>) returns (t: seq<byte>)
    ensures t == Encode(b)
  {
    var vs := ToSextets(b);
    t := [];
    var i := 0;
    while i < |vs|
      invariant i <= |vs| && t == CharsOf(vs[..i])
    {
      assert vs[..i + 1][..i] == vs[..i];
      t := t + [CharOf(vs[i])];
      i := i + 1;
    }
    assert vs[..i] == vs;
  }

  /** One character in: one byte out, unless it starts a group. */
  method Feed6(buf0: nat, bits0: nat, v: sextet, ghost tail: seq<sextet>) returns (buf: nat, bits: nat, out: seq<byte>)
    requires Waiting6(buf0, tail) && bits0 == if |tail| == 0 then 0 else 8 - 2 * |tail|
    ensures out == Next8(tail, v) && Waiting6(buf, if |tail| == 3 then [] else tail + [v])
    ensures bits == if |tail| == 0 then 6 else bits0 - 2
  {
    buf, bits, out := Accumulate6(buf0, v), bits0 + 6, [];
    Take8Is(buf0, v);
    while bits >= 8
      invariant buf == Accumulate6(buf0, v)
      invariant (bits == bits0 + 6 && out == []) || (bits0 >= 2 && bits == bits0 - 2 && out == [Take8(buf, bits)])
      decreases bits
    {
      bits := bits - 8;
      out := out + [Take8(buf, bits)];
    }
  }

  lemma CompleteOctets(vs: seq<sextet>, g: nat)
    requires g % 4 == 0 && g + 4 <= |vs|
    ensures Octets(vs[..g + 4])
         == Octets(vs[..g]) + [O0(vs[g], vs[g + 1]), O1(vs[g + 1], vs[g + 2]), O2(vs[g + 2], vs[g + 3])]
  {
    var a, b, c, d := vs[g], vs[g + 1], vs[g + 2], vs[g + 3];
    assert vs[..g + 4] == vs[..g] + [a, b, c, d];
    OctetsConcat(vs[..g], [a, b, c, d]);
    GroupIn(a, b, c, d);
    assert [a, b, c, d] + [] == [a, b, c, d];
    OctetsGroup(a, b, c, d, O0(a, b), O1(b, c), O2(c, d), []);
  }

  lemma FinishOctets(vs: seq<sextet>, g: nat)
    requires g % 4 == 0 && g <= |vs| <= g + 3
    ensures Octets(vs) == Octets(vs[..g]) + Partial8(vs[g..])
    ensures LeftOver(vs) == if |vs| == g then 0 else if |vs| == g + 1 then vs[g]
                            else if |vs| == g + 2 then vs[g + 1] % 16 else vs[g + 2] % 4
  {
    assert vs == vs[..g] + vs[g..];
    OctetsConcat(vs[..g], vs[g..]);
  }

  /** What one more character adds. */
  lemma Step8(vs: seq<sextet>, g: nat, i: nat)
    requires g % 4 == 0 && g <= i < |vs| && i - g <= 3
    ensures i - g < 3 ==> vs[g..i + 1] == vs[g..i] + [vs[i]]
    ensures i - g < 3 ==>
              Octets(vs[..g]) + Partial8(vs[g..i]) + Next8(vs[g..i], vs[i]) == Octets(vs[..g]) + Partial8(vs[g..i + 1])
    ensures i - g == 3 ==> vs[g + 4..i + 1] == []
    ensures i - g == 3 ==>
              Octets(vs[..g]) + Partial8(vs[g..i]) + Next8(vs[g..i], vs[i]) == Octets(vs[..g + 4]) + Partial8([])
  {
    if i - g == 3 {
      CompleteOctets(vs, g);
    } else {
      assert vs[g..i + 1] == vs[g..i] + [vs[i]];
    }
  }

  /** Values to bytes; the bits left over at the end must be zero. */
  method FromSextets(vs: seq<sextet>) returns (ok: bool, out: seq<byte>)
    ensures ok <==> LeftOver(vs) == 0
    ensures out == Octets(vs)
  {
    out := [];
    var buf, bits: nat, i := 0, 0, 0;
    ghost var g: nat := 0;
    while i < |vs|
      invariant i <= |vs| && Midway6(vs, g, i, buf, bits, out)
    {
      buf, bits, out, g := FeedNext6(vs, g, i, buf, bits, out);
      i := i + 1;
    }
    FinishOctets(vs, g);
    assert vs[g..i] == vs[g..];
    ok := Padding(buf, bits) == 0;
  }

  /** Before character i, of a group that started with character g. */
  ghost predicate Midway6(vs: seq<sextet>, g: nat, i: nat, buf: nat, bits: nat, out: seq<byte>) {
    && g <= i <= |vs| && g % 4 == 0 && i - g <= 3 && bits == (if i == g then 0 else 8 - 2 * (i - g))
    && Waiting6(buf, vs[g..i]) && out == Octets(vs[..g]) + Partial8(vs[g..i])
  }

  method FeedNext6(vs: seq<sextet>, ghost g: nat, i: nat, buf0: nat, bits0: nat, out0: seq<byte>)
    returns (buf: nat, bits: nat, out: seq<byte>, ghost h: nat)
    requires i < |vs| && Midway6(vs, g, i, buf0, bits0, out0)
    ensures Midway6(vs, h, i + 1, buf, bits, out)
  {
    Step8(vs, g, i);
    var more: seq<byte>;
    buf, bits, more := Feed6(buf0, bits0, vs[i], vs[g..i]);
    out := out0 + more;
    h := if i - g == 3 then g + 4 else g;
    assert out == Octets(vs[..h]) + Partial8(vs[h..i + 1]);
  }

  function Padding(buf: nat, bits: nat): nat {
    if bits == 0 then 0 else if bits == 2 then buf % 4 else if bits == 4 then buf % 16 else buf % 64
  }

  method FromBase64Url(t: seq<byte>) returns (r: Decoded)
    ensures r == Decode(t)
  {
    var vs: seq<sextet> := [];
    var i := 0;
    while i < |t|
      invariant i <= |t| && ValuesOf(t[..i]) == Values(vs)
    {
      assert t[..i + 1][..i] == t[..i];
      match ValueOf(t[i]) {
        case NoValue =>
          NoValuesStay(t, i + 1);
          return BadCharacter;
        case Value(v) =>
          vs := vs + [v];
      }
      i := i + 1;
    }
    assert t[..i] == t;
    var ok, out := FromSextets(vs);
    r := if ok then Decoded(out) else BadPadding;
  }

  lemma {:induction false} NoValuesStay(t: seq<byte>, i: nat)
    requires i <= |t| && ValuesOf(t[..i]) == NoValues
    ensures ValuesOf(t) == NoValues
    decreases |t|
  {
    if i < |t| {
      assert t[..|t| - 1][..i] == t[..i];
      NoValuesStay(t[..|t| - 1], i);
    } else {
      assert t[..i] == t;
    }
  }
}
