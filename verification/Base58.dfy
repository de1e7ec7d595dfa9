/** Base58 text for byte strings. */
module Base58 {
  import opened Bits
  import opened Bytes
  import opened Scaled
  import opened Sequences

  // ----- the alphabet -----

  /** The digit for a character, 0xff for most others; the character zero counts as a digit of 58. */
  function DigitOf(c: byte): byte {
    if c == 0 then 0x3a
    else if 49 <= c <= 57 then c - 49
    else if 65 <= c <= 72 then c - 56
    else if 74 <= c <= 78 then c - 57
    else if 80 <= c <= 90 then c - 58
    else if 97 <= c <= 107 then c - 64
    else if 109 <= c <= 122 then c - 65
    else 0xff
  }

  function CharOf(d: nat): byte
    requires d < 58
  {
    if d < 9 then d + 49
    else if d < 17 then d + 56
    else if d < 22 then d + 57
    else if d < 33 then d + 58
    else if d < 44 then d + 64
    else d + 65
  }

  lemma AlphabetRoundTrip(d: nat)
    requires d < 58
    ensures DigitOf(CharOf(d)) == d && CharOf(d) != 0
  {
  }

  lemma AlphabetBack(c: byte)
    requires DigitOf(c) < 58
    ensures CharOf(DigitOf(c)) == c
  {
  }

  function CharsOf(ds: seq<nat>): (r: seq<byte>)
    requires Below(ds, 58)
    ensures |r| == |ds| && forall i :: 0 <= i < |ds| ==> r[i] == CharOf(ds[i])
  {
    seq(|ds|, i requires 0 <= i < |ds| => CharOf(ds[i]))
  }

  function DigitsOf(s: seq<byte>): (r: seq<nat>)
    ensures |r| == |s| && forall i :: 0 <= i < |s| ==> r[i] == DigitOf(s[i])
  {
    seq(|s|, i requires 0 <= i < |s| => DigitOf(s[i]))
  }

  // ----- numbers as digits -----

  ghost predicate Below(ds: seq<nat>, base: nat) {
    forall i :: 0 <= i < |ds| ==> ds[i] < base
  }

  /** Least significant digit first. */
  function Little(base: nat, ds: seq<nat>): nat {
    if ds == [] then 0 else ds[0] + base * Little(base, ds[1..])
  }

  /** Most significant digit first. */
  function Big(base: nat, ds: seq<nat>): nat {
    if ds == [] then 0 else base * Big(base, ds[..|ds| - 1]) + ds[|ds| - 1]
  }

  /** No zero at the most significant end. */
  predicate Trimmed(ds: seq<nat>) {
    ds != [] ==> ds[|ds| - 1] != 0
  }

  lemma {:induction false} LittleIsBig(base: nat, ds: seq<nat>)
    ensures Little(base, ds) == Big(base, Reversed(ds))
  {
    if ds != [] {
      LittleIsBig(base, ds[1..]);
      var r := Reversed(ds);
      assert r[..|r| - 1] == Reversed(ds[1..]);
    }
  }

  lemma {:induction false} TrimmedPositive(base: nat, ds: seq<nat>)
    requires Trimmed(ds) && ds != [] && base > 0
    ensures Little(base, ds) > 0
  {
    if |ds| > 1 {
      TrimmedPositive(base, ds[1..]);
      MulLe(1, Little(base, ds[1..]), base);
    }
  }

  /** A number has one trimmed row of digits. */
  lemma {:induction false} TrimmedUnique(base: nat, a: seq<nat>, b: seq<nat>)
    requires base > 1 && Below(a, base) && Below(b, base) && Trimmed(a) && Trimmed(b)
    requires Little(base, a) == Little(base, b)
    ensures a == b
  {
    if a == [] {
      if b != [] {
        TrimmedPositive(base, b);
      }
    } else if b == [] {
      TrimmedPositive(base, a);
    } else {
      SameParts(base, a[0], Little(base, a[1..]), b[0], Little(base, b[1..]));
      TrimmedUnique(base, a[1..], b[1..]);
      assert a == [a[0]] + a[1..] && b == [b[0]] + b[1..];
    }
  }

  lemma SameParts(base: int, x: int, p: int, y: int, q: int)
    requires 0 <= x < base && 0 <= y < base && x + base * p == y + base * q
    ensures x == y && p == q
  {
    Commute(base, p);
    Commute(base, q);
    Distribute(p, -q, base);
    Distribute(q, -q, base);
    OnlyZero(p - q, base);
  }

  function Zeros(k: nat): (r: seq<nat>)
    ensures |r| == k && forall i :: 0 <= i < k ==> r[i] == 0
  {
    seq(k, _ => 0)
  }

  lemma {:induction false} LeadingZeros(base: nat, k: nat, ds: seq<nat>)
    ensures Big(base, Zeros(k) + ds) == Big(base, ds)
    decreases |ds|, k
  {
    var z := Zeros(k) + ds;
    if ds != [] {
      LeadingZeros(base, k, ds[..|ds| - 1]);
      assert z[..|z| - 1] == Zeros(k) + ds[..|ds| - 1];
    } else if k > 0 {
      LeadingZeros(base, k - 1, []);
      assert z[..|z| - 1] == Zeros(k - 1) + [];
    } else {
      assert z == [];
    }
  }

  // ----- one step of the conversions -----

  /** Multiplies by 58 and adds a digit, in bytes. */
  function MulAdd58(ds: seq<nat>, carry: nat): seq<nat>
    decreases |ds|
  {
    if ds == [] then if carry != 0 then [carry] else []
    else [(ds[0] * 58 + carry) % 256] + MulAdd58(ds[1..], (ds[0] * 58 + carry) / 256)
  }

  function PushDigits(carry: nat): seq<nat> {
    if carry == 0 then [] else [carry % 58] + PushDigits(carry / 58)
  }

  /** Multiplies by 256 and adds a byte, in digits. */
  function MulAdd256(ds: seq<nat>, carry: nat): seq<nat>
    decreases |ds|
  {
    if ds == [] then PushDigits(carry)
    else [(ds[0] * 256 + carry) % 58] + MulAdd256(ds[1..], (ds[0] * 256 + carry) / 58)
  }

  lemma {:induction false} MulAdd58Means(ds: seq<nat>, carry: nat)
    requires Below(ds, 256) && Trimmed(ds) && carry <= 58
    ensures Little(256, MulAdd58(ds, carry)) == 58 * Little(256, ds) + carry
    ensures Below(MulAdd58(ds, carry), 256) && Trimmed(MulAdd58(ds, carry))
    ensures MulAdd58(ds, carry) == [] ==> ds == [] && carry == 0
    decreases |ds|
  {
    if ds != [] {
      var x := ds[0] * 58 + carry;
      var rest := MulAdd58(ds[1..], x / 256);
      MulAdd58Means(ds[1..], x / 256);
      assert MulAdd58(ds, carry)[1..] == rest;
    } else if carry != 0 {
      assert [carry][1..] == [];
    }
  }

  lemma {:induction false} PushDigitsMeans(carry: nat)
    ensures Little(58, PushDigits(carry)) == carry && Below(PushDigits(carry), 58) && Trimmed(PushDigits(carry))
    ensures PushDigits(carry) == [] <==> carry == 0
  {
    if carry != 0 {
      PushDigitsMeans(carry / 58);
      assert PushDigits(carry)[1..] == PushDigits(carry / 58);
    }
  }

  lemma {:induction false} MulAdd256Means(ds: seq<nat>, carry: nat)
    requires Below(ds, 58) && Trimmed(ds) && carry < 256
    ensures Little(58, MulAdd256(ds, carry)) == 256 * Little(58, ds) + carry
    ensures Below(MulAdd256(ds, carry), 58) && Trimmed(MulAdd256(ds, carry))
    ensures MulAdd256(ds, carry) == [] ==> ds == [] && carry == 0
    decreases |ds|
  {
    if ds == [] {
      PushDigitsMeans(carry);
    } else {
      var x := ds[0] * 256 + carry;
      var rest := MulAdd256(ds[1..], x / 58);
      MulAdd256Means(ds[1..], x / 58);
      assert MulAdd256(ds, carry) == [x % 58] + rest && MulAdd256(ds, carry)[1..] == rest;
    }
  }

  // ----- whole strings -----

  predicate Accepted(s: seq<byte>) {
    forall i :: 0 <= i < |s| ==> DigitOf(s[i]) < 128
  }

  function DecodeDigits(s: seq<byte>): seq<nat> {
    if s == [] then [] else MulAdd58(DecodeDigits(s[..|s| - 1]), DigitOf(s[|s| - 1]))
  }

  function EncodeDigits(bin: seq<byte>): seq<nat> {
    if bin == [] then [] else MulAdd256(EncodeDigits(bin[..|bin| - 1]), bin[|bin| - 1])
  }

  lemma {:induction false} DecodeMeans(s: seq<byte>)
    requires Accepted(s)
    ensures Little(256, DecodeDigits(s)) == Big(58, DigitsOf(s))
    ensures Below(DecodeDigits(s), 256) && Trimmed(DecodeDigits(s))
  {
    if s != [] {
      var n := |s| - 1;
      DecodeMeans(s[..n]);
      assert DigitOf(s[n]) <= 58;
      MulAdd58Means(DecodeDigits(s[..n]), DigitOf(s[n]));
      assert DigitsOf(s)[..n] == DigitsOf(s[..n]);
    }
  }

  lemma {:induction false} EncodeMeans(bin: seq<byte>)
    ensures Little(58, EncodeDigits(bin)) == Big(256, bin)
    ensures Below(EncodeDigits(bin), 58) && Trimmed(EncodeDigits(bin))
  {
    if bin != [] {
      var n := |bin| - 1;
      EncodeMeans(bin[..n]);
      MulAdd256Means(EncodeDigits(bin[..n]), bin[n]);
    }
  }

  /** How many times c stands at the front. */
  function Leading(c: byte, s: seq<byte>): (k: nat)
    ensures k <= |s| && (forall i :: 0 <= i < k ==> s[i] == c) && (k < |s| ==> s[k] != c)
  {
    if s == [] || s[0] != c then 0 else 1 + Leading(c, s[1..])
  }

  function Repeat(c: byte, k: nat): (r: seq<byte>)
    ensures |r| == k && forall i :: 0 <= i < k ==> r[i] == c
  {
    seq(k, _ => c)
  }

  function ToBytes(ds: seq<nat>): (r: seq<byte>)
    requires Below(ds, 256)
    ensures r == ds
  {
    seq(|ds|, i requires 0 <= i < |ds| => ds[i])
  }

  datatype Decoded = Refused | Decoded(bytes: seq<byte>)

  /** The bytes that a text stands for: a zero for every leading '1', then the number without leading zeros. */
  ghost function Decode(s: seq<byte>): Decoded {
    if !Accepted(s) then Refused
    else
      DecodeMeans(s);
      Decoded(Reversed(ToBytes(DecodeDigits(s)) + Repeat(0, Leading(49, s))))
  }

  ghost function Encode(bin: seq<byte>): seq<byte> {
    EncodeMeans(bin);
    Reversed(CharsOf(EncodeDigits(bin)) + Repeat(49, Leading(0, bin)))
  }

  lemma {:induction false} LeadingIs(c: byte, k: nat, rest: seq<byte>)
    requires rest != [] ==> rest[0] != c
    ensures Leading(c, Repeat(c, k) + rest) == k
  {
    var s := Repeat(c, k) + rest;
    if k > 0 {
      assert s[1..] == Repeat(c, k - 1) + rest;
      LeadingIs(c, k - 1, rest);
    } else {
      assert s == rest;
    }
  }

  lemma ReversedConcat<T>(a: seq<T>, b: seq<T>)
    ensures Reversed(a + b) == Reversed(b) + Reversed(a)
  {
  }

  lemma ReversedTwice<T>(a: seq<T>)
    ensures Reversed(Reversed(a)) == a
  {
  }

  lemma ReversedRepeat(c: byte, k: nat)
    ensures Reversed(Repeat(c, k)) == Repeat(c, k)
  {
  }

  lemma DigitsConcat(a: seq<byte>, b: seq<byte>)
    ensures DigitsOf(a + b) == DigitsOf(a) + DigitsOf(b)
  {
  }

  lemma DigitsOfOnes(k: nat)
    ensures DigitsOf(Repeat(49, k)) == Zeros(k)
  {
  }

  /** The characters of a row of digits, the other way round. */
  lemma CharsReversed(e: seq<nat>)
    requires Below(e, 58)
    ensures DigitsOf(Reversed(CharsOf(e))) == Reversed(e) && 0 !in Reversed(CharsOf(e))
    ensures e != [] && Trimmed(e) ==> Reversed(CharsOf(e))[0] != 49
  {
    var cs := Reversed(CharsOf(e));
    forall i | 0 <= i < |e|
      ensures DigitOf(cs[i]) == e[|e| - 1 - i] && cs[i] != 0
    {
      AlphabetRoundTrip(e[|e| - 1 - i]);
    }
  }

  /** A text, taken apart: its leading ones and the digits of the number. */
  lemma EncodeParts(bin: seq<byte>)
    ensures Below(EncodeDigits(bin), 58)
    ensures Encode(bin) == Repeat(49, Leading(0, bin)) + Reversed(CharsOf(EncodeDigits(bin)))
    ensures DigitsOf(Encode(bin)) == Zeros(Leading(0, bin)) + Reversed(EncodeDigits(bin))
    ensures Leading(49, Encode(bin)) == Leading(0, bin) && 0 !in Encode(bin)
  {
    EncodeMeans(bin);
    var e, k := EncodeDigits(bin), Leading(0, bin);
    ReversedConcat(CharsOf(e), Repeat(49, k));
    ReversedRepeat(49, k);
    CharsReversed(e);
    LeadingIs(49, k, Reversed(CharsOf(e)));
    DigitsConcat(Repeat(49, k), Reversed(CharsOf(e)));
    DigitsOfOnes(k);
  }

  lemma SmallDigitsAccepted(s: seq<byte>)
    requires Below(DigitsOf(s), 58)
    ensures Accepted(s) && InAlphabet(s)
  {
    forall i | 0 <= i < |s|
      ensures DigitOf(s[i]) < 58
    {
      assert DigitsOf(s)[i] < 58;
    }
  }

  /** Bytes, taken apart: their leading zeros and the bytes of the number. */
  lemma DecodeParts(s: seq<byte>)
    requires Accepted(s)
    ensures Below(DecodeDigits(s), 256)
    ensures Decode(s) == Decoded(Repeat(0, Leading(49, s)) + Reversed(ToBytes(DecodeDigits(s))))
    ensures Leading(0, Decode(s).bytes) == Leading(49, s)
  {
    DecodeMeans(s);
    var d, k := DecodeDigits(s), Leading(49, s);
    ReversedConcat(ToBytes(d), Repeat(0, k));
    ReversedRepeat(0, k);
    LeadingIs(0, k, Reversed(ToBytes(d)));
  }

  /** The trimmed digits of a number, from a row that may have zeros in front. */
  lemma DigitsFromBig(base: nat, k: nat, rest: seq<nat>, ds: seq<nat>)
    requires base > 1 && Below(rest, base) && (rest != [] ==> rest[0] != 0)
    requires Below(ds, base) && Trimmed(ds) && Little(base, ds) == Big(base, Zeros(k) + rest)
    ensures ds == Reversed(rest)
  {
    LeadingZeros(base, k, rest);
    ReversedTwice(rest);
    LittleIsBig(base, Reversed(rest));
    TrimmedUnique(base, ds, Reversed(rest));
  }

  lemma BigOfReversed(base: nat, k: nat, ds: seq<nat>)
    ensures Big(base, Zeros(k) + Reversed(ds)) == Little(base, ds)
  {
    LeadingZeros(base, k, Reversed(ds));
    LittleIsBig(base, ds);
  }

  /** The trimmed digits of a number, from a row with a zero for every leading c. */
  lemma DigitsBehind(base: nat, s: seq<byte>, digits: seq<nat>, c: byte, ds: seq<nat>)
    requires base > 1 && Below(digits, base) && Below(ds, base) && Trimmed(ds) && Little(base, ds) == Big(base, digits)
    requires |digits| == |s| && forall i :: 0 <= i < |s| ==> (digits[i] == 0 <==> s[i] == c)
    ensures ds == Reversed(digits[Leading(c, s)..])
  {
    var k := Leading(c, s);
    SplitLeading(s, digits, c);
    DigitsFromBig(base, k, digits[k..], ds);
  }

  lemma SplitLeading(s: seq<byte>, digits: seq<nat>, c: byte)
    requires |digits| == |s| && forall i :: 0 <= i < |s| ==> (digits[i] == 0 <==> s[i] == c)
    ensures digits == Zeros(Leading(c, s)) + digits[Leading(c, s)..]
    ensures Leading(c, s) < |s| ==> digits[Leading(c, s)] != 0
  {
  }

  /** An encoding is accepted, and stands for the same number. */
  lemma EncodeValue(bin: seq<byte>)
    ensures Accepted(Encode(bin)) && InAlphabet(Encode(bin))
    ensures Big(58, DigitsOf(Encode(bin))) == Big(256, bin)
  {
    EncodeParts(bin);
    EncodeMeans(bin);
    BigOfReversed(58, Leading(0, bin), EncodeDigits(bin));
    ZerosBelow(Leading(0, bin), EncodeDigits(bin), 58);
    SmallDigitsAccepted(Encode(bin));
  }

  lemma ZerosBelow(k: nat, ds: seq<nat>, base: nat)
    requires Below(ds, base) && base > 0
    ensures Below(Zeros(k) + Reversed(ds), base)
  {
  }

  /** The number in an encoding is that of the bytes behind the leading zeros. */
  lemma DecodesDigits(bin: seq<byte>)
    ensures DecodeDigits(Encode(bin)) == Reversed(bin[Leading(0, bin)..])
  {
    EncodeValue(bin);
    DecodeMeans(Encode(bin));
    DigitsBehind(256, bin, bin, 0, DecodeDigits(Encode(bin)));
  }

  lemma Reassemble(bin: seq<byte>, d: seq<nat>)
    requires Below(d, 256) && d == Reversed(bin[Leading(0, bin)..])
    ensures Repeat(0, Leading(0, bin)) + Reversed(ToBytes(d)) == bin
  {
    ReversedTwice(bin[Leading(0, bin)..]);
  }

  /** Decoding an encoding gives the bytes back. */
  lemma DecodeEncode(bin: seq<byte>)
    ensures Decode(Encode(bin)) == Decoded(bin)
  {
    EncodeParts(bin);
    EncodeValue(bin);
    DecodesDigits(bin);
    DecodeParts(Encode(bin));
    Reassemble(bin, DecodeDigits(Encode(bin)));
  }

  predicate InAlphabet(s: seq<byte>) {
    forall i :: 0 <= i < |s| ==> DigitOf(s[i]) < 58
  }

  /** In the alphabet, the digits tell the characters. */
  lemma SameDigits(s: seq<byte>, t: seq<byte>)
    requires InAlphabet(s) && InAlphabet(t) && DigitsOf(s) == DigitsOf(t)
    ensures s == t
  {
    forall i | 0 <= i < |s|
      ensures |s| == |t| && s[i] == t[i]
    {
      assert DigitsOf(s)[i] == DigitsOf(t)[i];
      AlphabetBack(s[i]);
      AlphabetBack(t[i]);
    }
  }

  lemma DecodedBytes(s: seq<byte>, bin: seq<byte>)
    requires Decode(s) == Decoded(bin)
    ensures Leading(0, bin) == Leading(49, s) && Big(256, bin) == Big(58, DigitsOf(s))
  {
    var d, k := DecodeDigits(s), Leading(49, s);
    DecodeParts(s);
    DecodeMeans(s);
    assert Zeros(k) + Reversed(d) == bin by {
      assert ToBytes(d) == d && Repeat(0, k) == Zeros(k);
    }
    BigOfReversed(256, k, d);
  }

  lemma EncodesDigits(s: seq<byte>, bin: seq<byte>)
    requires InAlphabet(s) && Decode(s) == Decoded(bin)
    ensures Leading(0, bin) == Leading(49, s) && EncodeDigits(bin) == Reversed(DigitsOf(s)[Leading(49, s)..])
  {
    DecodedBytes(s, bin);
    EncodeMeans(bin);
    OnlyOneIsZero(s);
    DigitsBehind(58, s, DigitsOf(s), 49, EncodeDigits(bin));
  }

  /** Encoding a decoding gives the text back, if it is written in the alphabet. */
  lemma EncodeDecode(s: seq<byte>)
    requires InAlphabet(s)
    ensures Decode(s).Decoded? && Encode(Decode(s).bytes) == s
  {
    var bin, k := Decode(s).bytes, Leading(49, s);
    EncodesDigits(s, bin);
    EncodeParts(bin);
    OnlyOneIsZero(s);
    SplitLeading(s, DigitsOf(s), 49);
    ReversedTwice(DigitsOf(s)[k..]);
    EncodeValue(bin);
    SameDigits(s, Encode(bin));
  }

  lemma OnlyOneIsZero(s: seq<byte>)
    ensures forall i :: 0 <= i < |s| ==> (DigitsOf(s)[i] == 0 <==> s[i] == 49)
  {
  }

  /** The text comes back exactly when it does not contain the character zero. */
  lemma ReencodeExact(s: seq<byte>)
    requires Decode(s).Decoded?
    ensures Encode(Decode(s).bytes) == s <==> 0 !in s
  {
    if 0 !in s {
      forall i | 0 <= i < |s|
        ensures DigitOf(s[i]) < 58
      {
        assert s[i] in s;
      }
      EncodeDecode(s);
    } else {
      EncodeParts(Decode(s).bytes);
    }
  }

  /** One zero character is accepted, as the byte 58, and comes back as something else. */
  lemma ZeroCharacterWitness()
    ensures Decode([0]) == Decoded([58]) && Encode([58]) != [0]
  {
    var s: seq<byte> := [0];
    assert s[..0] == [];
    assert DecodeDigits([]) == [] && DecodeDigits(s) == MulAdd58([], 58) == [58];
    DecodeParts(s);
    ReencodeExact(s);
  }

  // ----- the loops -----

  /** Text to bytes: every character multiplies the number so far by 58. */
  method ToBinary(s: seq<byte>) returns (r: Decoded)
    ensures r == Decode(s)
  {
    var ok, result := ToNumber(s);
    if !ok {
      return Refused;
    }
    var zeros := CopyLeading(49, 0, s);
    DecodeMeans(s);
    r := Decoded(Reversed(result + zeros));
  }

  method ToNumber(s: seq<byte>) returns (ok: bool, result: seq<byte>)
    ensures ok <==> Accepted(s)
    ensures ok ==> result == DecodeDigits(s)
  {
    ok, result := true, [];
    var i := 0;
    while i < |s|
      invariant ok && i <= |s| && Accepted(s[..i]) && result == DecodeDigits(s[..i])
    {
      assert s[..i + 1][..i] == s[..i];
      var carry := DigitOf(s[i]);
      if carry >= 128 {
        return false, result;
      }
      result := TimesPlus58(result, carry);
      i := i + 1;
    }
    assert s[..i] == s;
  }

  /** One byte to for every byte from at the front. */
  method CopyLeading(from: byte, to: byte, s: seq<byte>) returns (r: seq<byte>)
    ensures r == Repeat(to, Leading(from, s))
  {
    r := [];
    var i := 0;
    assert s[0..] == s;
    while i < |s| && s[i] == from
      invariant i <= |s| && r == Repeat(to, i) && i + Leading(from, s[i..]) == Leading(from, s)
    {
      assert s[i..][1..] == s[i + 1..];
      r := r + [to];
      i := i + 1;
    }
  }

  /** All intermediate values fit 16 bits, and the carries 8. */
  method TimesPlus58(ds: seq<byte>, c: nat) returns (result: seq<byte>)
    requires c <= 58
    ensures result == MulAdd58(ds, c)
  {
    result := ds;
    var carry: nat, i: nat := c, 0;
    assert ds[0..] == ds;
    while i < |result|
      invariant i <= |result| == |ds| && carry <= 58 && result[i..] == ds[i..]
      invariant result[..i] + MulAdd58(ds[i..], carry) == MulAdd58(ds, c)
    {
      assert result[i..][0] == ds[i..][0];
      var x: nat := ds[i] * 58 + carry;
      assert x < 0x1_0000 && x / 256 <= 58;
      Step58(result[..i], ds, i, carry);
      ghost var before := result;
      result := result[i := x % 256];
      carry := x / 256;
      assert result[..i + 1] == before[..i] + [x % 256];
      i := i + 1;
    }
    assert result[..i] == result;
    if carry != 0 {
      result := result + [carry];
    }
  }

  lemma Step58(done: seq<nat>, ds: seq<nat>, i: nat, carry: nat)
    requires i < |ds|
    ensures done + MulAdd58(ds[i..], carry)
         == done + [(ds[i] * 58 + carry) % 256] + MulAdd58(ds[i + 1..], (ds[i] * 58 + carry) / 256)
  {
    assert ds[i..][1..] == ds[i + 1..];
  }

  lemma Step256(done: seq<nat>, ds: seq<nat>, i: nat, carry: nat, digit: nat, carry': nat)
    requires i < |ds| && digit < 58 && ds[i] * 256 + carry == digit + 58 * carry'
    ensures done + MulAdd256(ds[i..], carry) == done + [digit] + MulAdd256(ds[i + 1..], carry')
  {
    assert ds[i..][1..] == ds[i + 1..];
  }

  /** Bytes to text: every byte multiplies the number so far by 256. */
  method ToBase58(bin: seq<byte>) returns (r: seq<byte>)
    ensures r == Encode(bin)
  {
    var result: seq<byte> := [];
    var i := 0;
    assert CharsOf([]) == [];
    while i < |bin|
      invariant i <= |bin| && Below(EncodeDigits(bin[..i]), 58) && result == CharsOf(EncodeDigits(bin[..i]))
    {
      assert bin[..i + 1][..i] == bin[..i];
      EncodeMeans(bin[..i]);
      EncodeMeans(bin[..i + 1]);
      result := TimesPlus256(result, EncodeDigits(bin[..i]), bin[i]);
      i := i + 1;
    }
    assert bin[..i] == bin;
    var ones := CopyLeading(0, 49, bin);
    r := Reversed(result + ones);
  }

  method TimesPlus256(chars: seq<byte>, ghost ds: seq<nat>, c: byte) returns (result: seq<byte>)
    requires Below(ds, 58) && chars == CharsOf(ds) && Below(MulAdd256(ds, c), 58)
    ensures result == CharsOf(MulAdd256(ds, c))
  {
    result := chars;
    var carry: nat, i: nat := c, 0;
    assert ds[0..] == ds;
    ghost var done: seq<nat> := [];
    while i < |result|
      invariant i <= |result| == |ds| && carry < 256 && result[i..] == chars[i..] && |done| == i
      invariant done + MulAdd256(ds[i..], carry) == MulAdd256(ds, c)
      invariant Below(done, 58) && result[..i] == CharsOf(done)
    {
      assert result[i..][0] == chars[i..][0];
      ghost var before := result;
      var next, carry', digit := NextChar(result[i], ds[i], carry);
      Step256(done, ds, i, carry, digit, carry');
      carry := carry';
      result := result[i := next];
      assert result[..i + 1] == before[..i] + [next];
      done := done + [digit];
      i := i + 1;
    }
    assert result[..i] == result && ds[i..] == [];
    result := PutDigits(result, done, carry, MulAdd256(ds, c));
  }

  /** One digit: the value fits 16 bits, and the carry 8. */
  method NextChar(c: byte, ghost d: nat, carry: nat) returns (next: byte, carry': nat, ghost digit: nat)
    requires d < 58 && c == CharOf(d) && carry < 256
    ensures digit < 58 && next == CharOf(digit) && d * 256 + carry == digit + 58 * carry' && carry' < 256
  {
    AlphabetRoundTrip(d);
    var x: nat := DigitOf(c) * 256 + carry;
    assert x < 0x1_0000;
    next, carry', digit := CharOf(x % 58), x / 58, x % 58;
  }

  /** The digits of the last carry. */
  method PutDigits(chars: seq<byte>, ghost ds: seq<nat>, c: nat, ghost whole: seq<nat>) returns (result: seq<byte>)
    requires Below(ds, 58) && chars == CharsOf(ds) && ds + PushDigits(c) == whole && Below(whole, 58)
    ensures result == CharsOf(whole)
  {
    result := chars;
    var carry := c;
    ghost var done := ds;
    while carry != 0
      invariant done + PushDigits(carry) == whole && Below(done, 58) && result == CharsOf(done)
    {
      assert done + PushDigits(carry) == done + [carry % 58] + PushDigits(carry / 58);
      result := result + [CharOf(carry % 58)];
      done := done + [carry % 58];
      carry := carry / 58;
    }
  }
}
