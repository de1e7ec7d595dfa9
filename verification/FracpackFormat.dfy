/**
 The format in bytes, kind by kind, and what the reader lets through: whatever it accepts is a value of
 the type, and packing that value again gives a message for the same value.
 */
module FracpackFormat {
  import opened Bytes
  import Utf8
  import opened Fracpack
  import opened FracpackRoundTrip

  // ----- slots -----

  /** An empty vector, text or blob is a zero offset with no data, also inside an option. */
  lemma EmptyIsZeroOffset(ty: Ty, d: nat)
    requires Container(ty)
    ensures Slot(ty, EmptyContainer(ty), d) == [0, 0, 0, 0] && Heap(ty, EmptyContainer(ty)) == []
    ensures Slot(Opt(ty), VSome(EmptyContainer(ty)), d) == [0, 0, 0, 0]
    ensures Heap(Opt(ty), VSome(EmptyContainer(ty))) == []
    ensures HasType(ty, EmptyContainer(ty))
  {
    assert LittleEndian(0, 4) == [0, 0, 0, 0];
  }

  lemma NoneIsOne(ty: Ty, d: nat)
    ensures Slot(Opt(ty), VNone, d) == [1, 0, 0, 0] && Heap(Opt(ty), VNone) == []
  {
    assert LittleEndian(1, 4) == [1, 0, 0, 0];
  }

  /** Every other value of variable size is an offset to its data, and a value of fixed size stands in place. */
  lemma OthersArePointers(ty: Ty, v: Val, d: nat)
    requires HasType(ty, v)
    ensures ty.Opt? && v.VSome? && !(Container(ty.elem) && v.v == EmptyContainer(ty.elem)) ==>
              Slot(ty, v, d) == LittleEndian(d, 4) && Heap(ty, v) == Packed(ty.elem, v.v)
    ensures !ty.Opt? && Variable(ty) && !(Container(ty) && v == EmptyContainer(ty)) ==>
              Slot(ty, v, d) == LittleEndian(d, 4) && Heap(ty, v) == Packed(ty, v)
    ensures !Variable(ty) ==> Slot(ty, v, d) == Packed(ty, v) && Heap(ty, v) == []
  {
  }

  lemma ScalarBytes(size: nat, n: nat)
    ensures |Packed(Scalar(size), VInt(n))| == size
    ensures forall i :: 0 <= i < size ==> Packed(Scalar(size), VInt(n))[i] == n / Pow256(i) % 256
  {
    forall i | 0 <= i < size
      ensures Packed(Scalar(size), VInt(n))[i] == n / Pow256(i) % 256
    {
      LittleEndianByte(n, size, i);
    }
  }

  lemma BoolByte(n: nat)
    requires n < 2
    ensures HasType(Bool, VInt(n)) && Packed(Bool, VInt(n)) == [n]
  {
    assert LittleEndian(n, 1) == [n];
  }

  /** A pair: the size of its slots, both slots, and then the data, each slot holding the distance to its own. */
  lemma PairBytes(a: Ty, b: Ty, v: Val, w: Val, x: nat, y: nat)
    requires x == FixedSize(a) && y == FixedSize(b)
    ensures Packed(Tuple([a, b]), VList([v, w])) ==
              LittleEndian(x + y, 2) + (Slot(a, v, x + y) + Slot(b, w, y + |Heap(a, v)|)) + (Heap(a, v) + Heap(b, w))
  {
    var ty, vs := Tuple([a, b]), [v, w];
    assert Offset(ty, 0) == 0 && Offset(ty, 1) == x && Offset(ty, 2) == x + y;
    assert Slots(ty, vs, 2, |Heap(a, v)| + |Heap(b, w)|) == [] && Heaps(ty, vs, 2) == [];
    assert Slots(ty, vs, 1, y + |Heap(a, v)|) == Slot(b, w, y + |Heap(a, v)|);
    assert Heaps(ty, vs, 1) == Heap(b, w);
  }

  /** A number and an empty text: the text leaves nothing but a zero offset. */
  lemma NumberAndEmptyText(size: nat, n: nat, ty: Ty, empty: Val)
    requires ty == Text && empty == EmptyContainer(ty)
    ensures Packed(Tuple([Scalar(size), ty]), VList([VInt(n), empty])) ==
              LittleEndian(size + 4, 2) + LittleEndian(n, size) + [0, 0, 0, 0]
  {
    PairBytes(Scalar(size), ty, VInt(n), empty, size, 4);
    EmptyIsZeroOffset(ty, 4);
  }

  // ----- what the reader accepts -----

  lemma WholeElements(n: nat, size: nat)
    requires size != 0
    ensures Remainder(n, size) == 0 <==> n % size == 0
    ensures n % size == 0 ==> Quotient(n, size) * size == n
  {
    DivideIsQuotient(n, size);
    var q, r := n / size, n % size;
    assert n == size * q + r;
    assert size * q == q * size;
  }

  /** A vector is read if its size is there, is a whole number of elements, and ends below 2^32. */
  lemma VectorAccepted(size: nat, bytes: Number, h: Head)
    requires h == VecHeader(size, bytes)
    ensures h.Head? <==> bytes.Number? && size != 0 && bytes.n % size == 0 && bytes.next + bytes.n < U32
    ensures h.Head? ==> h.fixed == bytes.next && h.heap - h.fixed == bytes.n == h.count * size
  {
    if bytes.Number? && size != 0 {
      WholeElements(bytes.n, size);
    }
  }

  /** An array has no header: its data start behind its slots, which must end below 2^32. */
  lemma ArrayAccepted(elem: Ty, len: nat, src: seq<byte>, pos: nat, h: Head)
    requires h == ReadHeader(Array(elem, len), src, pos)
    ensures h.Head? <==> pos + len * FixedSize(elem) < U32
    ensures h.Head? ==> h == Head(len, pos, pos + len * FixedSize(elem))
  {
    TimesIsProduct(len, FixedSize(elem));
  }

  /** The header of an extensible group gives the size of its slots, which may be more than this reader knows. */
  lemma ExtensibleAccepted(ty: Ty, src: seq<byte>, pos: nat, h: Head)
    requires (ty.Tuple? || (ty.Struct? && ty.extensible)) && h == ReadHeader(ty, src, pos) && pos + 2 < U32
    ensures h.Head? <==> pos + 2 <= |src| && pos + 2 + FromLittleEndian(src[pos..pos + 2]) < U32
    ensures h.Head? ==>
              && h.fixed == pos + 2 && h.heap - h.fixed == FromLittleEndian(src[pos..pos + 2])
              && h.count == |ty.elems|
  {
    if pos + 2 <= |src| {
      FromLittleEndianBound(src[pos..pos + 2]);
      Pow256Values();
    }
  }

  ghost predicate TypedMember(ty: Ty, m: Member) {
    m.Member? ==> HasType(ty, m.v)
  }

  ghost predicate TypedUpTo(ty: Ty, vs: seq<Val>) {
    Fits(ty, |vs|) && forall i :: 0 <= i < |vs| ==> HasType(MemberTy(ty, i), vs[i])
  }

  lemma {:induction false} MembersTyped(ty: Ty, vs: seq<Val>, i: nat)
    requires TypedUpTo(ty, vs) && i <= |vs|
    ensures MembersHaveType(ty, vs, i)
    decreases |vs| - i
  {
    if i < |vs| {
      MembersTyped(ty, vs, i + 1);
    }
  }

  lemma {:induction false} FromLittleEndianBound(s: seq<byte>)
    ensures FromLittleEndian(s) < Pow256(|s|)
  {
    if s != [] {
      FromLittleEndianBound(s[1..]);
    }
  }

  lemma IntFits(src: seq<byte>, pos: nat, size: nat)
    ensures ReadInt(src, pos, size).Number? ==> ReadInt(src, pos, size).n < Pow256(size)
  {
    if pos + size <= |src| {
      FromLittleEndianBound(src[pos..pos + size]);
    }
  }

  /** Whatever the bytes are: if they unpack at all, they unpack to a value of the type. */
  lemma {:induction false} UnpackedHasType(ty: Ty, src: seq<byte>, pos: nat)
    ensures Unpack(ty, src, pos).Ok? ==> HasType(ty, Unpack(ty, src, pos).v)
    decreases ty, 1
  {
    if Group(ty) {
      var h := ReadHeader(ty, src, pos);
      if h.Head? {
        MembersUnpacked(ty, h.count, src, h.fixed, h.heap, []);
        var r := UnpackMembers(ty, h.count, src, h.fixed, h.heap, []);
        if r.Members? {
          MembersTyped(ty, r.vs, 0);
        }
      }
    } else if ty.Opt? {
      MemberUnpacked(ty, src, pos, Wrap32(pos + 4));
    } else if ty.Variant? {
      VariantUnpacked(ty, src, pos);
    } else {
      IntFits(src, pos, if ty.Scalar? then ty.size else 1);
    }
  }

  lemma {:induction false} VariantUnpacked(ty: Ty, src: seq<byte>, pos: nat)
    requires ty.Variant?
    ensures Unpack(ty, src, pos).Ok? ==> HasType(ty, Unpack(ty, src, pos).v)
    decreases ty, 0
  {
    var index := ReadInt(src, pos, 1);
    if index.Number? && index.n < |ty.alts| {
      var size := ReadInt(src, index.next, 4);
      if size.Number? {
        UnpackedHasType(ty.alts[index.n], src, size.next);
      }
    }
  }

  lemma {:induction false} MembersUnpacked(ty: Ty, n: nat, src: seq<byte>, fixed: nat, heap: nat, done: seq<Val>)
    requires Fits(ty, n) && |done| <= n && TypedUpTo(ty, done)
    ensures var r := UnpackMembers(ty, n, src, fixed, heap, done);
            r.Members? ==> |r.vs| == n && TypedUpTo(ty, r.vs)
    decreases ty, 0, n - |done|
  {
    if |done| < n {
      var m := MemberTy(ty, |done|);
      MemberUnpacked(m, src, fixed, heap);
      var r := EmbeddedUnpack(m, src, fixed, heap);
      if r.Member? {
        MembersUnpacked(ty, n, src, r.fixed, r.heap, done + [r.v]);
      }
    }
  }

  lemma {:induction false} MemberUnpacked(ty: Ty, src: seq<byte>, fixed: nat, heap: nat)
    ensures TypedMember(ty, EmbeddedUnpack(ty, src, fixed, heap))
    decreases ty, if ty.Opt? then 0 else 3
  {
    if ty.Opt? {
      PointerUnpacked(ty.elem, src, fixed, heap);
    } else if Variable(ty) {
      PointerUnpacked(ty, src, fixed, heap);
    } else {
      UnpackedHasType(ty, src, fixed);
    }
  }

  lemma {:induction false} PointerUnpacked(ty: Ty, src: seq<byte>, fixed: nat, heap: nat)
    ensures TypedMember(ty, EmbeddedVariableUnpack(ty, src, fixed, heap))
    decreases ty, 2
  {
    UnpackedHasType(ty, src, heap);
    if Container(ty) {
      EmptyIsZeroOffset(ty, 0);
    }
  }

  /** Packing what was read gives a message that reads back as the same value, whatever was read. */
  lemma Normalises(ty: Ty, src: seq<byte>, pos: nat, v: Val)
    requires WellFormed(ty) && Unpack(ty, src, pos).Ok? && v == Unpack(ty, src, pos).v && |Packed(ty, v)| < U32
    ensures Unpack(ty, Packed(ty, v), 0) == Ok(v, |Packed(ty, v)|)
  {
    UnpackedHasType(ty, src, pos);
    PackThenUnpack(ty, v, [], []);
    assert [] + Packed(ty, v) + [] == Packed(ty, v);
  }
}
