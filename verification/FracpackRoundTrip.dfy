/** Packing and then unpacking is the identity, for every value of every well-formed type. */
module FracpackRoundTrip {
  import opened Bytes
  import opened Fracpack

  // ----- sizes -----

  lemma {:induction false} OffsetUniform(ty: Ty, i: nat)
    requires Fits(ty, i) && (ty.Vec? || ty.Array?)
    ensures Offset(ty, i) == Times(i, FixedSize(ty.elem))
  {
    if i != 0 {
      OffsetUniform(ty, i - 1);
    }
  }

  /** A slot is as wide as its type says, whatever it points to. */
  lemma {:induction false} SlotSize(ty: Ty, v: Val, d: nat)
    requires HasType(ty, v)
    ensures |Slot(ty, v, d)| == FixedSize(ty)
    ensures !Variable(ty) ==> Heap(ty, v) == []
    decreases ty, 2
  {
    if !Variable(ty) {
      PackedSize(ty, v);
    }
  }

  lemma {:induction false} PackedSize(ty: Ty, v: Val)
    requires HasType(ty, v) && !Variable(ty)
    ensures |Packed(ty, v)| == FixedSize(ty)
    decreases ty, 1
  {
    if Group(ty) {
      SlotsSize(ty, v.vs, 0, Offset(ty, |v.vs|));
      if ty.Array? {
        OffsetUniform(ty, ty.len);
      }
    }
  }

  lemma {:induction false} SlotsSize(ty: Ty, vs: seq<Val>, i: nat, d: int)
    requires Fits(ty, |vs|) && i <= |vs| && MembersHaveType(ty, vs, i)
    ensures |Slots(ty, vs, i, d)| == Offset(ty, |vs|) - Offset(ty, i)
    ensures !Variable(ty) ==> Heaps(ty, vs, i) == []
    decreases ty, 0, |vs| - i
  {
    if i != |vs| {
      var m := MemberTy(ty, i);
      if ty.Struct? && !Variable(ty) {
        FixedAt(ty.elems, 0, i);
      }
      SlotSize(m, vs[i], if d < 0 then 0 else d);
      SlotsSize(ty, vs, i + 1, d - FixedSize(m) + |Heap(m, vs[i])|);
    }
  }

  // ----- reading back -----

  lemma ReadIntAt(src: seq<byte>, pos: nat, n: nat, size: nat)
    requires At(src, pos, LittleEndian(n, size))
    requires n < Pow256(size) && pos + size < U32
    ensures ReadInt(src, pos, size) == Number(n, pos + size)
  {
    LittleEndianRoundTrip(n, size);
    AtSlice(src, pos, LittleEndian(n, size));
  }

  lemma ReadBytesStep(src: seq<byte>, pos: nat, b: seq<byte>)
    requires ReadInt(src, pos, 4) == Number(|b|, pos + 4)
    requires At(src, pos + 4, b) && pos + 4 + |b| < U32
    ensures ReadBytes(src, pos) == Chunk(b, pos + 4 + |b|)
  {
    AtSlice(src, pos + 4, b);
  }

  lemma ReadBytesAt(src: seq<byte>, pos: nat, b: seq<byte>)
    requires At(src, pos, LittleEndian(|b|, 4) + b) && pos + 4 + |b| < U32
    ensures ReadBytes(src, pos) == Chunk(b, pos + 4 + |b|)
  {
    SizedAt(b, src, pos);
    ReadBytesStep(src, pos, b);
  }

  lemma VecHeaderStep(ty: Ty, n: nat, src: seq<byte>, pos: nat)
    requires ty.Vec? && FixedSize(ty.elem) != 0 && pos + 4 + Offset(ty, n) < U32
    requires ReadInt(src, pos, 4) == Number(Offset(ty, n), pos + 4)
    ensures ReadHeader(ty, src, pos) == Head(n, pos + 4, pos + 4 + Offset(ty, n))
  {
    OffsetUniform(ty, n);
    TimesDivides(n, FixedSize(ty.elem));
  }

  lemma TupleHeaderStep(ty: Ty, src: seq<byte>, pos: nat)
    requires ty.Tuple? || (ty.Struct? && ty.extensible)
    requires pos + 2 + Offset(ty, |ty.elems|) < U32
    requires ReadInt(src, pos, 2) == Number(Offset(ty, |ty.elems|), pos + 2)
    ensures ReadHeader(ty, src, pos) == Head(|ty.elems|, pos + 2, pos + 2 + Offset(ty, |ty.elems|))
  {
  }

  lemma PlainHeaderStep(ty: Ty, n: nat, src: seq<byte>, pos: nat)
    requires (ty.Array? && n == ty.len) || (ty.Struct? && !ty.extensible && n == |ty.elems|)
    requires pos + Offset(ty, n) < U32
    ensures ReadHeader(ty, src, pos) == Head(n, pos, pos + Offset(ty, n))
  {
    if ty.Array? {
      OffsetUniform(ty, n);
    }
  }

  lemma ReadHeaderAt(ty: Ty, n: nat, src: seq<byte>, pos: nat)
    requires WellFormed(ty) && HasArity(ty, n)
    requires At(src, pos, Header(ty, n)) && pos + |Header(ty, n)| + Offset(ty, n) < U32
    ensures ReadHeader(ty, src, pos)
         == var fixed := pos + |Header(ty, n)|;
            Head(n, fixed, fixed + Offset(ty, n))
  {
    Pow256Values();
    if ty.Vec? {
      ReadIntAt(src, pos, Offset(ty, n), 4);
      VecHeaderStep(ty, n, src, pos);
    } else if ty.Tuple? || (ty.Struct? && ty.extensible) {
      ReadIntAt(src, pos, Offset(ty, n), 2);
      TupleHeaderStep(ty, src, pos);
    } else {
      PlainHeaderStep(ty, n, src, pos);
    }
  }

  lemma VariantStep(ty: Ty, index: nat, v: Val, size: nat, src: seq<byte>, pos: nat)
    requires ty.Variant? && index < |ty.alts| && pos + 5 + size < U32
    requires ReadInt(src, pos, 1) == Number(index, pos + 1)
    requires ReadInt(src, pos + 1, 4) == Number(size, pos + 5)
    requires Unpack(ty.alts[index], src, pos + 5) == Ok(v, pos + 5 + size)
    ensures Unpack(ty, src, pos) == Ok(VAlt(index, v), pos + 5 + size)
  {
  }

  lemma SizedAt(body: seq<byte>, src: seq<byte>, pos: nat)
    requires pos + 4 + |body| < U32
    requires At(src, pos, LittleEndian(|body|, 4) + body)
    ensures ReadInt(src, pos, 4) == Number(|body|, pos + 4)
    ensures At(src, pos + 4, body)
  {
    Pow256Values();
    AtConcat(src, pos, LittleEndian(|body|, 4), body);
    ReadIntAt(src, pos, |body|, 4);
  }

  lemma VariantBytes(index: nat, sized: seq<byte>, src: seq<byte>, pos: nat)
    requires index < 256 && pos + 1 + |sized| < U32
    requires At(src, pos, LittleEndian(index, 1) + sized)
    ensures ReadInt(src, pos, 1) == Number(index, pos + 1)
    ensures At(src, pos + 1, sized)
  {
    Pow256Values();
    AtConcat(src, pos, LittleEndian(index, 1), sized);
    ReadIntAt(src, pos, index, 1);
  }

  lemma {:induction false} VariantAt(ty: Ty, index: nat, alt: Val, src: seq<byte>, pos: nat)
    requires ty.Variant? && WellFormed(ty) && HasType(ty, VAlt(index, alt))
    requires At(src, pos, Packed(ty, VAlt(index, alt))) && pos + |Packed(ty, VAlt(index, alt))| < U32
    ensures Unpack(ty, src, pos) == Ok(VAlt(index, alt), pos + |Packed(ty, VAlt(index, alt))|)
    decreases ty, 0
  {
    var body := Packed(ty.alts[index], alt);
    assert |Packed(ty, VAlt(index, alt))| == 5 + |body|;
    VariantBytes(index, LittleEndian(|body|, 4) + body, src, pos);
    SizedAt(body, src, pos + 1);
    WellFormedAt(ty.alts, 0, index);
    UnpackAt(ty.alts[index], alt, src, pos + 5);
    VariantStep(ty, index, alt, |body|, src, pos);
  }

  lemma ScalarAt(ty: Ty, n: nat, src: seq<byte>, pos: nat)
    requires WellFormed(ty) && HasType(ty, VInt(n)) && !Group(ty)
    requires At(src, pos, Packed(ty, VInt(n))) && pos + |Packed(ty, VInt(n))| < U32
    ensures Unpack(ty, src, pos) == Ok(VInt(n), pos + |Packed(ty, VInt(n))|)
  {
    Pow256Values();
    ReadIntAt(src, pos, n, if ty.Scalar? then ty.size else 1);
  }

  lemma OptionStep(ty: Ty, r: Member, src: seq<byte>, pos: nat)
    requires ty.Opt? && pos + 4 < U32 && r.Member?
    requires EmbeddedUnpack(ty, src, pos, pos + 4) == r
    ensures Unpack(ty, src, pos) == Ok(r.v, r.heap)
  {
  }

  lemma {:induction false} OptionAt(ty: Ty, v: Val, src: seq<byte>, pos: nat)
    requires WellFormed(ty) && HasType(ty, v) && ty.Opt?
    requires At(src, pos, Packed(ty, v)) && pos + |Packed(ty, v)| < U32
    ensures Unpack(ty, src, pos) == Ok(v, pos + |Packed(ty, v)|)
    decreases ty, 0, 1
  {
    AtConcat(src, pos, Slot(ty, v, 4), Heap(ty, v));
    EmbeddedUnpackAt(ty, v, src, pos, pos + 4);
    OptionStep(ty, Member(v, pos + 4, pos + 4 + |Heap(ty, v)|), src, pos);
  }

  /** Wherever the bytes of v stand, unpacking there returns v and stops right after them. */
  lemma {:induction false} UnpackAt(ty: Ty, v: Val, src: seq<byte>, pos: nat)
    requires WellFormed(ty) && HasType(ty, v)
    requires At(src, pos, Packed(ty, v)) && pos + |Packed(ty, v)| < U32
    ensures Unpack(ty, src, pos) == Ok(v, pos + |Packed(ty, v)|)
    decreases ty, 1
  {
    if Group(ty) {
      GroupAt(ty, v.vs, src, pos);
    } else {
      match v
      case VInt(n) => ScalarAt(ty, n, src, pos);
      case VBytes(b) => ReadBytesAt(src, pos, b);
      case VNone => OptionAt(ty, v, src, pos);
      case VSome(_) => OptionAt(ty, v, src, pos);
      case VAlt(index, alt) => VariantAt(ty, index, alt, src, pos);
    }
  }

  lemma GroupStep(ty: Ty, h: Head, r: Members, src: seq<byte>, pos: nat)
    requires Group(ty) && h.Head? && Fits(ty, h.count) && r.Members?
    requires ReadHeader(ty, src, pos) == h
    requires UnpackMembers(ty, h.count, src, h.fixed, h.heap, []) == r
    ensures Unpack(ty, src, pos) == Ok(VList(r.vs), r.heap)
  {
  }

  lemma GroupBytes(ty: Ty, vs: seq<Val>, src: seq<byte>, pos: nat, fixed: nat, heap: nat)
    requires HasType(ty, VList(vs))
    requires At(src, pos, Packed(ty, VList(vs))) && pos + |Packed(ty, VList(vs))| < U32
    requires fixed == pos + |Header(ty, |vs|)| && heap == fixed + Offset(ty, |vs|)
    ensures At(src, pos, Header(ty, |vs|)) && HasArity(ty, |vs|) && Fits(ty, |vs|)
    ensures Laid(ty, vs, 0, src, fixed, heap) && pos + |Packed(ty, VList(vs))| == heap + |Heaps(ty, vs, 0)|
  {
    PackedGroup(ty, vs);
    var d := Offset(ty, |vs|);
    ThreePieces(src, pos, Header(ty, |vs|), Slots(ty, vs, 0, d), Heaps(ty, vs, 0));
    LaidFirst(ty, vs, src, fixed, heap, d);
  }

  lemma LaidFirst(ty: Ty, vs: seq<Val>, src: seq<byte>, fixed: nat, heap: nat, d: nat)
    requires Fits(ty, |vs|) && MembersHaveType(ty, vs, 0) && d == Offset(ty, |vs|) && heap == fixed + d
    requires At(src, fixed, Slots(ty, vs, 0, d)) && At(src, heap, Heaps(ty, vs, 0)) && heap + |Heaps(ty, vs, 0)| < U32
    ensures Laid(ty, vs, 0, src, fixed, heap)
  {
    assert heap - fixed == d && Offset(ty, 0) == 0;
  }

  lemma PackedGroup(ty: Ty, vs: seq<Val>)
    requires HasType(ty, VList(vs))
    ensures HasArity(ty, |vs|) && Fits(ty, |vs|) && MembersHaveType(ty, vs, 0)
    ensures Packed(ty, VList(vs)) == Header(ty, |vs|) + Slots(ty, vs, 0, Offset(ty, |vs|)) + Heaps(ty, vs, 0)
    ensures |Slots(ty, vs, 0, Offset(ty, |vs|))| == Offset(ty, |vs|)
  {
    SlotsSize(ty, vs, 0, Offset(ty, |vs|));
  }

  lemma ThreePieces(src: seq<byte>, pos: nat, a: seq<byte>, b: seq<byte>, c: seq<byte>)
    requires At(src, pos, a + b + c)
    ensures At(src, pos, a) && At(src, pos + |a|, b) && At(src, pos + |a| + |b|, c)
    ensures pos + |a + b + c| == pos + |a| + |b| + |c|
  {
    AtConcat(src, pos, a + b, c);
    AtConcat(src, pos, a, b);
  }

  lemma {:induction false} LaidUnpack(ty: Ty, vs: seq<Val>, src: seq<byte>, pos: nat, fixed: nat, heap: nat)
    requires WellFormed(ty) && Fits(ty, |vs|) && fixed <= heap && Laid(ty, vs, 0, src, fixed, heap)
    requires ReadHeader(ty, src, pos) == Head(|vs|, fixed, heap)
    ensures Unpack(ty, src, pos) == Ok(VList(vs), heap + |Heaps(ty, vs, 0)|)
    decreases ty, 0, |vs| + 2
  {
    MembersAt(ty, vs, 0, src, fixed, heap);
    assert vs[..0] == [];
    GroupStep(ty, Head(|vs|, fixed, heap), UnpackMembers(ty, |vs|, src, fixed, heap, []), src, pos);
  }

  lemma {:induction false} GroupAt(ty: Ty, vs: seq<Val>, src: seq<byte>, pos: nat)
    requires WellFormed(ty) && HasType(ty, VList(vs))
    requires At(src, pos, Packed(ty, VList(vs))) && pos + |Packed(ty, VList(vs))| < U32
    ensures Unpack(ty, src, pos) == Ok(VList(vs), pos + |Packed(ty, VList(vs))|)
    decreases ty, 0, |vs| + 3
  {
    var fixed := pos + |Header(ty, |vs|)|;
    var heap := fixed + Offset(ty, |vs|);
    GroupBytes(ty, vs, src, pos, fixed, heap);
    ReadHeaderAt(ty, |vs|, src, pos);
    LaidUnpack(ty, vs, src, pos, fixed, heap);
  }

  lemma MembersStep(ty: Ty, vs: seq<Val>, i: nat, src: seq<byte>, fixed: nat, heap: nat, r: Member)
    requires Fits(ty, |vs|) && i < |vs| && r.Member? && r.v == vs[i]
    requires EmbeddedUnpack(MemberTy(ty, i), src, fixed, heap) == r
    ensures UnpackMembers(ty, |vs|, src, fixed, heap, vs[..i])
         == UnpackMembers(ty, |vs|, src, r.fixed, r.heap, vs[..i + 1])
  {
    assert vs[..i] + [r.v] == vs[..i + 1];
  }

  lemma {:induction false} WellFormedAt(elems: seq<Ty>, i: nat, k: nat)
    requires i <= k < |elems| && WellFormedFrom(elems, i)
    ensures WellFormed(elems[k])
    decreases k - i
  {
    if i < k {
      WellFormedAt(elems, i + 1, k);
    }
  }

  lemma MemberWellFormed(ty: Ty, i: nat)
    requires WellFormed(ty) && Fits(ty, i + 1)
    ensures WellFormed(MemberTy(ty, i))
  {
    if ty.Tuple? || ty.Struct? {
      WellFormedAt(ty.elems, 0, i);
    }
  }

  lemma {:induction false} FixedAt(elems: seq<Ty>, i: nat, k: nat)
    requires i <= k < |elems| && !VariableFrom(elems, i)
    ensures !Variable(elems[k])
    decreases k - i
  {
    if i < k {
      FixedAt(elems, i + 1, k);
    }
  }

  lemma SlotsSplit(ty: Ty, vs: seq<Val>, i: nat, src: seq<byte>, fixed: nat, heap: nat)
    requires Fits(ty, |vs|) && i < |vs| && MembersHaveType(ty, vs, i) && fixed <= heap
    requires At(src, fixed, Slots(ty, vs, i, heap - fixed)) && At(src, heap, Heaps(ty, vs, i))
    ensures At(src, fixed, Slot(MemberTy(ty, i), vs[i], heap - fixed))
    ensures At(src, heap, Heap(MemberTy(ty, i), vs[i]))
    ensures var m := MemberTy(ty, i);
            var h := heap + |Heap(m, vs[i])|;
            && At(src, fixed + FixedSize(m), Slots(ty, vs, i + 1, h - (fixed + FixedSize(m))))
            && At(src, h, Heaps(ty, vs, i + 1))
            && heap + |Heaps(ty, vs, i)| == h + |Heaps(ty, vs, i + 1)|
  {
    var m, d := MemberTy(ty, i), heap - fixed;
    var h := Heap(m, vs[i]);
    SlotSize(m, vs[i], d);
    AtConcat(src, fixed, Slot(m, vs[i], d), Slots(ty, vs, i + 1, d - FixedSize(m) + |h|));
    AtConcat(src, heap, h, Heaps(ty, vs, i + 1));
    assert d - FixedSize(m) + |h| == heap + |h| - (fixed + FixedSize(m));
  }

  /** The members from i on stand at the two cursors, and reading them stays within 32 bits. */
  ghost predicate Laid(ty: Ty, vs: seq<Val>, i: nat, src: seq<byte>, fixed: nat, heap: nat)
    requires Fits(ty, |vs|) && i <= |vs|
  {
    && MembersHaveType(ty, vs, i)
    && fixed + Offset(ty, |vs|) <= heap + Offset(ty, i)
    && At(src, fixed, Slots(ty, vs, i, heap - fixed))
    && At(src, heap, Heaps(ty, vs, i)) && heap + |Heaps(ty, vs, i)| < U32
  }

  lemma LaidNext(ty: Ty, vs: seq<Val>, i: nat, src: seq<byte>, fixed: nat, heap: nat)
    requires Fits(ty, |vs|) && i < |vs| && fixed <= heap && Laid(ty, vs, i, src, fixed, heap)
    ensures var m := MemberTy(ty, i);
            var h := heap + |Heap(m, vs[i])|;
            && fixed + FixedSize(m) <= heap
            && fixed + FixedSize(m) <= h
            && Laid(ty, vs, i + 1, src, fixed + FixedSize(m), h)
            && heap + |Heaps(ty, vs, i)| == h + |Heaps(ty, vs, i + 1)|
  {
    OffsetMonotone(ty, i + 1, |vs|);
    SlotsSplit(ty, vs, i, src, fixed, heap);
    assert Offset(ty, i + 1) == Offset(ty, i) + FixedSize(MemberTy(ty, i));
  }

  lemma {:induction false} MemberAt(ty: Ty, vs: seq<Val>, i: nat, src: seq<byte>, fixed: nat, heap: nat)
    returns (fixed': nat, heap': nat)
    requires WellFormed(ty) && Fits(ty, |vs|) && i < |vs| && fixed <= heap && Laid(ty, vs, i, src, fixed, heap)
    ensures EmbeddedUnpack(MemberTy(ty, i), src, fixed, heap) == Member(vs[i], fixed', heap')
    ensures fixed' <= heap' && Laid(ty, vs, i + 1, src, fixed', heap')
    ensures heap + |Heaps(ty, vs, i)| == heap' + |Heaps(ty, vs, i + 1)|
    decreases ty, 0, 0
  {
    fixed', heap' := fixed + FixedSize(MemberTy(ty, i)), heap + |Heap(MemberTy(ty, i), vs[i])|;
    LaidNext(ty, vs, i, src, fixed, heap);
    SlotsSplit(ty, vs, i, src, fixed, heap);
    MemberWellFormed(ty, i);
    EmbeddedUnpackAt(MemberTy(ty, i), vs[i], src, fixed, heap);
  }

  lemma {:induction false} MembersAt(ty: Ty, vs: seq<Val>, i: nat, src: seq<byte>, fixed: nat, heap: nat)
    requires WellFormed(ty) && Fits(ty, |vs|) && i <= |vs| && fixed <= heap && Laid(ty, vs, i, src, fixed, heap)
    ensures var r := UnpackMembers(ty, |vs|, src, fixed, heap, vs[..i]);
            r.Members? && r.vs == vs && r.heap == heap + |Heaps(ty, vs, i)|
    decreases ty, 0, 1 + |vs| - i
  {
    if i == |vs| {
      assert vs[..i] == vs;
    } else {
      var fixed', heap' := MemberAt(ty, vs, i, src, fixed, heap);
      MembersAt(ty, vs, i + 1, src, fixed', heap');
      MembersStep(ty, vs, i, src, fixed, heap, Member(vs[i], fixed', heap'));
    }
  }

  lemma {:induction false} OffsetMonotone(ty: Ty, i: nat, n: nat)
    requires Fits(ty, n) && i <= n
    ensures Offset(ty, i) <= Offset(ty, n)
    decreases n
  {
    if i < n {
      OffsetMonotone(ty, i, n - 1);
    }
  }

  lemma PointerStep(ty: Ty, v: Val, src: seq<byte>, fixed: nat, heap: nat, end: nat)
    requires fixed + 4 <= heap
    requires ReadInt(src, fixed, 4) == Number(heap - fixed, fixed + 4)
    requires Unpack(ty, src, heap) == Ok(v, end)
    ensures EmbeddedVariableUnpack(ty, src, fixed, heap) == Member(v, fixed + 4, end)
  {
  }

  lemma ZeroStep(ty: Ty, v: Val, src: seq<byte>, fixed: nat, heap: nat)
    requires ReadInt(src, fixed, 4) == Number(0, fixed + 4)
    requires HasType(ty, v) && IsEmptyContainer(ty, v)
    ensures EmbeddedVariableUnpack(ty, src, fixed, heap) == Member(v, fixed + 4, heap)
  {
  }

  lemma SomeStep(ty: Ty, r: Member, src: seq<byte>, fixed: nat, heap: nat, offset: nat)
    requires ty.Opt? && offset != 1 && r.Member?
    requires ReadInt(src, fixed, 4) == Number(offset, fixed + 4)
    requires EmbeddedVariableUnpack(ty.elem, src, fixed, heap) == r
    ensures EmbeddedUnpack(ty, src, fixed, heap) == Member(VSome(r.v), r.fixed, r.heap)
  {
  }

  lemma NoneStep(ty: Ty, src: seq<byte>, fixed: nat, heap: nat)
    requires ty.Opt?
    requires ReadInt(src, fixed, 4) == Number(1, fixed + 4)
    ensures EmbeddedUnpack(ty, src, fixed, heap) == Member(VNone, fixed + 4, heap)
  {
  }

  /** A pointed-to member of type ty, optional or not, is read through its slot. */
  lemma {:induction false} VariableUnpackAt(ty: Ty, v: Val, src: seq<byte>, fixed: nat, heap: nat)
    requires WellFormed(ty) && HasType(ty, v) && fixed + 4 <= heap
    requires At(src, fixed, LittleEndian(if IsEmptyContainer(ty, v) then 0 else heap - fixed, 4))
    requires IsEmptyContainer(ty, v) ==> heap < U32
    requires !IsEmptyContainer(ty, v) ==> At(src, heap, Packed(ty, v)) && heap + |Packed(ty, v)| < U32
    ensures EmbeddedVariableUnpack(ty, src, fixed, heap)
         == Member(v, fixed + 4, if IsEmptyContainer(ty, v) then heap else heap + |Packed(ty, v)|)
    ensures ReadInt(src, fixed, 4) == Number(if IsEmptyContainer(ty, v) then 0 else heap - fixed, fixed + 4)
    decreases ty, 2
  {
    Pow256Values();
    var empty := IsEmptyContainer(ty, v);
    ReadIntAt(src, fixed, if empty then 0 else heap - fixed, 4);
    if empty {
      ZeroStep(ty, v, src, fixed, heap);
    } else {
      UnpackAt(ty, v, src, heap);
      PointerStep(ty, v, src, fixed, heap, heap + |Packed(ty, v)|);
    }
  }

  lemma {:induction false} SomeAt(ty: Ty, v: Val, src: seq<byte>, fixed: nat, heap: nat)
    requires ty.Opt? && v.VSome? && WellFormed(ty) && HasType(ty, v) && heap - fixed >= 4
    requires At(src, fixed, Slot(ty, v, heap - fixed))
    requires At(src, heap, Heap(ty, v)) && heap + |Heap(ty, v)| < U32
    ensures EmbeddedUnpack(ty, src, fixed, heap) == Member(v, fixed + 4, heap + |Heap(ty, v)|)
    decreases ty.elem, 3
  {
    var offset := if IsEmptyContainer(ty.elem, v.v) then 0 else heap - fixed;
    VariableUnpackAt(ty.elem, v.v, src, fixed, heap);
    SomeStep(ty, Member(v.v, fixed + 4, heap + |Heap(ty, v)|), src, fixed, heap, offset);
  }

  lemma {:induction false} EmbeddedUnpackAt(ty: Ty, v: Val, src: seq<byte>, fixed: nat, heap: nat)
    requires WellFormed(ty) && HasType(ty, v)
    requires heap - fixed >= FixedSize(ty)
    requires At(src, fixed, Slot(ty, v, heap - fixed))
    requires At(src, heap, Heap(ty, v)) && heap + |Heap(ty, v)| < U32
    ensures EmbeddedUnpack(ty, src, fixed, heap)
         == Member(v, fixed + FixedSize(ty), heap + |Heap(ty, v)|)
    decreases ty, if ty.Opt? then 0 else 3, 0
  {
    if ty.Opt? {
      if v.VNone? {
        Pow256Values();
        ReadIntAt(src, fixed, 1, 4);
        NoneStep(ty, src, fixed, heap);
      } else {
        SomeAt(ty, v, src, fixed, heap);
      }
    } else if Variable(ty) {
      VariableUnpackAt(ty, v, src, fixed, heap);
    } else {
      PackedSize(ty, v);
      UnpackAt(ty, v, src, fixed);
    }
  }

  /**
   Packing at the end of any buffer and unpacking there returns the value, with the cursor exactly
   after the packed bytes, whatever precedes or follows them.
   */
  lemma PackThenUnpack(ty: Ty, v: Val, before: seq<byte>, after: seq<byte>)
    requires WellFormed(ty) && HasType(ty, v)
    requires |before| + |Packed(ty, v)| < U32
    ensures Unpack(ty, before + Packed(ty, v) + after, |before|) == Ok(v, |before + Packed(ty, v)|)
  {
    UnpackAt(ty, v, before + Packed(ty, v) + after, |before|);
  }

  /** Values of one type with the same bytes are the same value. */
  lemma PackedInjective(ty: Ty, v: Val, w: Val)
    requires WellFormed(ty) && HasType(ty, v) && HasType(ty, w)
    requires |Packed(ty, v)| < U32 && Packed(ty, v) == Packed(ty, w)
    ensures v == w
  {
    PackThenUnpack(ty, v, [], []);
    PackThenUnpack(ty, w, [], []);
  }
}
