/** The alphabets of both texts, written out, and what the groups of base64url stand for. */
module Alphabets {
  import opened Bytes
  import Base58
  import Base64Url

  /** From an entry on, the table holds these letters. */
  ghost predicate Spells(table: seq<byte>, from: nat, letters: string) {
    from + |letters| <= |table| && forall i :: 0 <= i < |letters| ==> table[from + i] == letters[i] as int
  }

  lemma SpellsOn(table: seq<byte>, from: nat, a: string, b: string)
    requires Spells(table, from, a) && Spells(table, from + |a|, b)
    ensures Spells(table, from, a + b)
  {
    forall i | 0 <= i < |a + b|
      ensures table[from + i] == (a + b)[i] as int
    {
      if i >= |a| {
        assert table[from + |a| + (i - |a|)] == b[i - |a|] as int;
      }
    }
  }

  function Table58(): (r: seq<byte>)
    ensures |r| == 58 && forall i :: 0 <= i < 58 ==> r[i] == Base58.CharOf(i)
  {
    seq(58, i requires 0 <= i < 58 => Base58.CharOf(i))
  }

  /** Digits, upper case and lower case, without 0, I, O and l. */
  lemma Base58Alphabet()
    ensures Spells(Table58(), 0, "123456789" + "ABCDEFGH" + "JKLMN" + "PQRSTUVWXYZ" + "abcdefghijk" + "mnopqrstuvwxyz")
  {
    var t, d, u, v, w, l := Table58(), "123456789", "ABCDEFGH", "JKLMN", "PQRSTUVWXYZ", "abcdefghijk";
    assert Spells(t, 0, d) && Spells(t, 9, u) && Spells(t, 17, v) && Spells(t, 22, w) && Spells(t, 33, l);
    assert Spells(t, 44, "mnopqrstuvwxyz");
    SpellsOn(t, 0, d, u);
    SpellsOn(t, 0, d + u, v);
    SpellsOn(t, 0, d + u + v, w);
    SpellsOn(t, 0, d + u + v + w, l);
    SpellsOn(t, 0, d + u + v + w + l, "mnopqrstuvwxyz");
  }

  function Table64(): (r: seq<byte>)
    ensures |r| == 64 && forall i :: 0 <= i < 64 ==> r[i] == Base64Url.CharOf(i)
  {
    seq(64, i requires 0 <= i < 64 => Base64Url.CharOf(i))
  }

  /** Table 2 of RFC 4648. */
  lemma Base64UrlAlphabet()
    ensures Spells(Table64(), 0, "ABCDEFGHIJKLM" + "NOPQRSTUVWXYZ" + "abcdefghijklm" + "nopqrstuvwxyz" + "0123456789-_")
  {
    var t, a, b, c, d := Table64(), "ABCDEFGHIJKLM", "NOPQRSTUVWXYZ", "abcdefghijklm", "nopqrstuvwxyz";
    assert Spells(t, 0, a) && Spells(t, 13, b) && Spells(t, 26, c) && Spells(t, 39, d);
    assert Spells(t, 52, "0123456789-_");
    SpellsOn(t, 0, a, b);
    SpellsOn(t, 0, a + b, c);
    SpellsOn(t, 0, a + b + c, d);
    SpellsOn(t, 0, a + b + c + d, "0123456789-_");
  }

  /** Three bytes read as one number have the four values as their digits to the base 64. */
  lemma GroupIsNumber(x: byte, y: byte, z: byte)
    ensures var a, b := Base64Url.S0(x), Base64Url.S1(x, y);
            var c, d := Base64Url.S2(y, z), Base64Url.S3(z);
            (x as int * 256 + y) * 256 + z == ((a * 64 + b) * 64 + c) * 64 + d
  {
  }
}
