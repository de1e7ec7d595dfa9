/** The byte sequences that a text may be: exactly the UTF-8 encodings of Unicode scalar values. */
module Utf8 {
  import opened Bytes

  /** The recogniser: well-formed byte sequences, by the ranges of Table 3-7 of the Unicode Standard. */
  predicate IsUtf8(s: seq<byte>) {
    if s == [] then true
    else if s[0] < 0x80 then IsUtf8(s[1..])
    else if 0xC2 <= s[0] <= 0xDF then |s| >= 2 && Tail(s[1]) && IsUtf8(s[2..])
    else if 0xE0 <= s[0] <= 0xEF then
      && |s| >= 3 && Tail(s[1]) && Tail(s[2])
      && (s[0] == 0xE0 ==> s[1] >= 0xA0) && (s[0] == 0xED ==> s[1] < 0xA0)
      && IsUtf8(s[3..])
    else if 0xF0 <= s[0] <= 0xF4 then
      && |s| >= 4 && Tail(s[1]) && Tail(s[2]) && Tail(s[3])
      && (s[0] == 0xF0 ==> s[1] >= 0x90) && (s[0] == 0xF4 ==> s[1] < 0x90)
      && IsUtf8(s[4..])
    else false
  }

  predicate Tail(b: byte) {
    0x80 <= b < 0xC0
  }

  /** A Unicode scalar value: a code point that is not a surrogate. */
  predicate IsScalar(c: nat) {
    c < 0xD800 || 0xE000 <= c < 0x11_0000
  }

  ghost predicate AllScalars(cs: seq<nat>) {
    forall i :: 0 <= i < |cs| ==> IsScalar(cs[i])
  }

  /** The encoding itself: the bits of c, six to a trailing byte (section 3 of RFC 3629). */
  function EncodeScalar(c: nat): (s: seq<byte>)
    requires IsScalar(c)
    ensures s != []
  {
    if c < 0x80 then [c]
    else if c < 0x800 then [0xC0 + c / 0x40, 0x80 + c % 0x40]
    else if c < 0x1_0000 then [0xE0 + c / 0x1000, 0x80 + c / 0x40 % 0x40, 0x80 + c % 0x40]
    else [0xF0 + c / 0x4_0000, 0x80 + c / 0x1000 % 0x40, 0x80 + c / 0x40 % 0x40, 0x80 + c % 0x40]
  }

  function Encode(cs: seq<nat>): seq<byte>
    requires AllScalars(cs)
  {
    if cs == [] then [] else EncodeScalar(cs[0]) + Encode(cs[1..])
  }

  /** The lead byte gives the length, and excludes longer forms than needed, surrogates and what is too large. */
  lemma LeadByte(c: nat)
    requires IsScalar(c)
    ensures var s := EncodeScalar(c);
            || (|s| == 1 && s[0] < 0x80)
            || (|s| == 2 && 0xC2 <= s[0] <= 0xDF)
            || (|s| == 3 && 0xE0 <= s[0] <= 0xEF && (s[0] == 0xE0 ==> s[1] >= 0xA0) && (s[0] == 0xED ==> s[1] < 0xA0))
            || (|s| == 4 && 0xF0 <= s[0] <= 0xF4 && (s[0] == 0xF0 ==> s[1] >= 0x90) && (s[0] == 0xF4 ==> s[1] < 0x90))
    ensures forall i :: 1 <= i < |EncodeScalar(c)| ==> Tail(EncodeScalar(c)[i])
  {
  }

  lemma ScalarThenText(c: nat, rest: seq<byte>)
    requires IsScalar(c)
    ensures IsUtf8(EncodeScalar(c) + rest) <==> IsUtf8(rest)
  {
    var s := EncodeScalar(c);
    var t := s + rest;
    LeadByte(c);
    assert t[|s|..] == rest;
    assert forall i :: 0 <= i < |s| ==> t[i] == s[i];
  }

  lemma {:induction false} EncodedIsUtf8(cs: seq<nat>)
    requires AllScalars(cs)
    ensures IsUtf8(Encode(cs))
  {
    if cs != [] {
      EncodedIsUtf8(cs[1..]);
      ScalarThenText(cs[0], Encode(cs[1..]));
    }
  }

  /** Trailing bytes put together again, six bits each. */
  function Join(a: int, b: int): int {
    a * 0x40 + (b - 0x80)
  }

  lemma Split(a: int, b: int)
    requires 0x80 <= b < 0xC0
    ensures Join(a, b) / 0x40 == a && 0x80 + Join(a, b) % 0x40 == b
  {
  }

  /** The scalar value that leads the text. */
  function LeadingScalar(s: seq<byte>): int
    requires s != [] && IsUtf8(s)
  {
    if s[0] < 0x80 then s[0]
    else if s[0] < 0xE0 then Join(s[0] as int - 0xC0, s[1])
    else if s[0] < 0xF0 then Join(Join(s[0] as int - 0xE0, s[1]), s[2])
    else Join(Join(Join(s[0] as int - 0xF0, s[1]), s[2]), s[3])
  }

  lemma LeadingScalarEncodes(s: seq<byte>, c: int)
    requires s != [] && IsUtf8(s) && c == LeadingScalar(s)
    ensures 0 <= c && IsScalar(c) && EncodeScalar(c) <= s && IsUtf8(s[|EncodeScalar(c)|..])
  {
    if s[0] < 0x80 {
    } else if s[0] < 0xE0 {
      Split(s[0] as int - 0xC0, s[1]);
    } else if s[0] < 0xF0 {
      ThreeBytes(s[0], s[1], s[2], c);
    } else {
      FourBytes(s[0], s[1], s[2], s[3], c);
    }
  }

  lemma ThreeBytes(x: byte, y: byte, z: byte, c: int)
    requires 0xE0 <= x <= 0xEF && Tail(y) && Tail(z) && c == Join(Join(x as int - 0xE0, y), z)
    requires (x == 0xE0 ==> y >= 0xA0) && (x == 0xED ==> y < 0xA0)
    ensures 0x800 <= c < 0x1_0000 && IsScalar(c) && EncodeScalar(c) == [x, y, z]
  {
    Split(x as int - 0xE0, y);
    Split(Join(x as int - 0xE0, y), z);
    Halving(c);
  }

  lemma FourBytes(w: byte, x: byte, y: byte, z: byte, c: int)
    requires 0xF0 <= w <= 0xF4 && Tail(x) && Tail(y) && Tail(z)
    requires c == Join(Join(Join(w as int - 0xF0, x), y), z)
    requires (w == 0xF0 ==> x >= 0x90) && (w == 0xF4 ==> x < 0x90)
    ensures 0x1_0000 <= c < 0x11_0000 && EncodeScalar(c) == [w, x, y, z]
  {
    Split(w as int - 0xF0, x);
    Split(Join(w as int - 0xF0, x), y);
    Split(Join(Join(w as int - 0xF0, x), y), z);
    Halving(c);
  }

  lemma Halving(c: int)
    requires c >= 0
    ensures c / 0x1000 == c / 0x40 / 0x40 && c / 0x4_0000 == c / 0x40 / 0x40 / 0x40
  {
  }

  function Decode(s: seq<byte>): (cs: seq<nat>)
    requires IsUtf8(s)
    ensures AllScalars(cs) && Encode(cs) == s
  {
    if s == [] then []
    else
      var c := LeadingScalar(s);
      LeadingScalarEncodes(s, c);
      var rest := s[|EncodeScalar(c)|..];
      var cs := [c] + Decode(rest);
      assert cs[1..] == Decode(rest);
      cs
  }

  /** A byte sequence passes if and only if it is the encoding of some scalar values. */
  lemma IsUtf8Iff(s: seq<byte>)
    ensures IsUtf8(s) <==> exists cs :: AllScalars(cs) && Encode(cs) == s
  {
    if IsUtf8(s) {
      assert AllScalars(Decode(s)) && Encode(Decode(s)) == s;
    } else if cs :| AllScalars(cs) && Encode(cs) == s {
      EncodedIsUtf8(cs);
    }
  }
}
