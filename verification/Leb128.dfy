/** Variable-length integers: seven bits a byte, the least significant first. */
module Leb128 {
  import opened Bytes
  import opened Sinks

  // ----- unsigned -----

  function EncodeU(v: nat): (r: seq<byte>)
    ensures r != []
  {
    if v < 128 then [v] else [v % 128 + 128] + EncodeU(v / 128)
  }

  datatype ReadU = NoU | ReadU(value: nat, next: nat)

  /** Reads from a position to the first byte without the continuation bit. */
  function DecodeU(s: seq<byte>, pos: nat): ReadU
    decreases |s| - pos
  {
    if pos >= |s| then NoU
    else if s[pos] < 128 then ReadU(s[pos], pos + 1)
    else
      match DecodeU(s, pos + 1)
      case NoU => NoU
      case ReadU(v, next) => ReadU((s[pos] as int) - 128 + 128 * v, next)
  }

  lemma {:induction false} DecodeEncodeU(s: seq<byte>, pos: nat, v: nat)
    requires Stands(s, pos, EncodeU(v))
    ensures DecodeU(s, pos) == ReadU(v, pos + |EncodeU(v)|)
    decreases v
  {
    StandsFirst(s, pos, EncodeU(v));
    if v >= 128 {
      StandsConcat(s, pos, [v % 128 + 128], EncodeU(v / 128));
      DecodeEncodeU(s, pos + 1, v / 128);
    }
  }

  // ----- signed -----

  function EncodeS(v: int): (r: seq<byte>)
    ensures r != []
    decreases if v >= 0 then v else -v
  {
    if -64 <= v < 64 then [v % 128] else [v % 128 + 128] + EncodeS(v / 128)
  }

  datatype ReadS = NoS | ReadS(value: int, next: nat)

  function DecodeS(s: seq<byte>, pos: nat): ReadS
    decreases |s| - pos
  {
    if pos >= |s| then NoS
    else if s[pos] < 64 then ReadS(s[pos], pos + 1)
    else if s[pos] < 128 then ReadS((s[pos] as int) - 128, pos + 1)
    else
      match DecodeS(s, pos + 1)
      case NoS => NoS
      case ReadS(v, next) => ReadS((s[pos] as int) - 128 + 128 * v, next)
  }

  lemma {:induction false} DecodeEncodeS(s: seq<byte>, pos: nat, v: int)
    requires Stands(s, pos, EncodeS(v))
    ensures DecodeS(s, pos) == ReadS(v, pos + |EncodeS(v)|)
    decreases if v >= 0 then v else -v
  {
    StandsFirst(s, pos, EncodeS(v));
    if !(-64 <= v < 64) {
      StandsConcat(s, pos, [v % 128 + 128], EncodeS(v / 128));
      DecodeEncodeS(s, pos + 1, v / 128);
    }
  }

  // ----- the writing loops -----

  method WriteU(s: Sink, v: nat)
    requires s.Valid()
    modifies s
    ensures s.Valid() && s.written == old(s.written) + EncodeU(v)
  {
    var val := v;
    while val >= 128
      invariant s.Valid() && s.written + EncodeU(val) == old(s.written) + EncodeU(v)
    {
      assert s.written + EncodeU(val) == s.written + [val % 128 + 128] + EncodeU(val / 128);
      s.Write(val % 128 + 128);
      val := val / 128;
    }
    s.Write(val);
  }

  method WriteS(s: Sink, v: int)
    requires s.Valid()
    modifies s
    ensures s.Valid() && s.written == old(s.written) + EncodeS(v)
  {
    var val := v;
    while !(-64 <= val < 64)
      invariant s.Valid() && s.written + EncodeS(val) == old(s.written) + EncodeS(v)
      decreases if val >= 0 then val else -val
    {
      assert s.written + EncodeS(val) == s.written + [val % 128 + 128] + EncodeS(val / 128);
      s.Write(val % 128 + 128);
      val := val / 128;
    }
    s.Write(val % 128);
  }
}
