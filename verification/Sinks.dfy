/** Where the bytes of a writer go. */
module Sinks {
  import opened Bytes

  /** Keeps the bytes, or only counts them when just their number is wanted. */
  class Sink {
    const counting: bool
    var size: nat
    var out: seq<byte>
    ghost var written: seq<byte>

    ghost predicate Valid()
      reads this
    {
      size == |written| && out == if counting then [] else written
    }

    constructor (counting: bool)
      ensures Valid() && written == [] && this.counting == counting
    {
      this.counting, size, out, written := counting, 0, [], [];
    }

    method Write(b: byte)
      requires Valid()
      modifies this
      ensures Valid() && written == old(written) + [b]
    {
      size := size + 1;
      if !counting {
        out := out + [b];
      }
      written := written + [b];
    }

    method WriteAll(bs: seq<byte>)
      requires Valid()
      modifies this
      ensures Valid() && written == old(written) + bs
    {
      var i := 0;
      while i < |bs|
        invariant i <= |bs| && Valid() && written == old(written) + bs[..i]
      {
        assert bs[..i + 1] == bs[..i] + [bs[i]];
        Write(bs[i]);
        i := i + 1;
      }
      assert bs[..i] == bs;
    }
  }
}
