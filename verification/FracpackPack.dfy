/**
 The packer as the code runs it: slots are written with placeholders first and overwritten once the
 position of the out-of-line data is known. It produces exactly the bytes of the format.
 */
module FracpackPack {
  import opened Bytes
  import opened Fracpack
  import opened FracpackRoundTrip

  /** The growing output of the packer. */
  class Buffer {
    var data: seq<byte>

    constructor ()
      ensures data == []
    {
      data := [];
    }

    method Extend(b: seq<byte>)
      modifies this
      ensures data == old(data) + b
    {
      data := data + b;
    }

    method Overwrite(pos: nat, b: seq<byte>)
      requires pos + |b| <= |data|
      modifies this
      ensures data == old(data[..pos]) + b + old(data[pos + |b|..])
    {
      data := data[..pos] + b + data[pos + |b|..];
    }
  }

  /** The packer writes an optional's payload out of line rather than through the payload's own slot. */
  predicate IsOptional(ty: Ty) {
    ty.Opt?
  }

  /** What the first pass leaves in a member's slot. */
  ghost function Placeholder(ty: Ty, v: Val): seq<byte> {
    if ty.Opt? then
      if IsOptional(ty.elem) || !Variable(ty.elem) || v.VNone? then LittleEndian(1, 4) else LittleEndian(0, 4)
    else if Variable(ty) then LittleEndian(0, 4)
    else Packed(ty, v)
  }

  ghost function Placeholders(ty: Ty, vs: seq<Val>, i: nat): seq<byte>
    requires Fits(ty, |vs|) && i <= |vs|
    decreases |vs| - i
  {
    if i == |vs| then [] else Placeholder(MemberTy(ty, i), vs[i]) + Placeholders(ty, vs, i + 1)
  }

  lemma PlaceholderSize(ty: Ty, v: Val)
    requires HasType(ty, v)
    ensures |Placeholder(ty, v)| == FixedSize(ty)
  {
    if !Variable(ty) {
      PackedSize(ty, v);
    }
  }

  lemma {:induction false} PlaceholdersSize(ty: Ty, vs: seq<Val>, i: nat)
    requires Fits(ty, |vs|) && i <= |vs| && MembersHaveType(ty, vs, i)
    ensures |Placeholders(ty, vs, i)| == Offset(ty, |vs|) - Offset(ty, i)
    decreases |vs| - i
  {
    if i != |vs| {
      PlaceholderSize(MemberTy(ty, i), vs[i]);
      PlaceholdersSize(ty, vs, i + 1);
    }
  }

  method EmbeddedFixedPack(ty: Ty, v: Val, dest: Buffer)
    requires WellFormed(ty) && HasType(ty, v)
    requires |dest.data| + |Placeholder(ty, v)| < U32
    modifies dest
    ensures dest.data == old(dest.data) + Placeholder(ty, v)
    decreases ty, if ty.Opt? then 0 else 2, 0
  {
    if ty.Opt? {
      if IsOptional(ty.elem) || !Variable(ty.elem) {
        dest.Extend(LittleEndian(1, 4));
      } else if v.VSome? {
        EmbeddedFixedPack(ty.elem, v.v, dest);
      } else {
        dest.Extend(LittleEndian(1, 4));
      }
    } else if Variable(ty) {
      dest.Extend(LittleEndian(0, 4));
    } else {
      Pack(ty, v, dest);
    }
  }

  /** Overwrites the placeholder that stands between a and c. */
  method EmbeddedFixedRepack(ty: Ty, v: Val, fixedPos: nat, heapPos: nat, dest: Buffer, ghost a: seq<byte>,
                             ghost c: seq<byte>)
    requires HasType(ty, v) && fixedPos <= heapPos < U32
    requires dest.data == a + Placeholder(ty, v) + c && |a| == fixedPos
    modifies dest
    ensures dest.data == a + Slot(ty, v, heapPos - fixedPos) + c
    decreases ty
  {
    if ty.Opt? {
      if v.VSome? {
        if IsOptional(ty.elem) || !Variable(ty.elem) {
          WritePointer(fixedPos, heapPos, dest, a, Placeholder(ty, v), c);
        } else {
          EmbeddedFixedRepack(ty.elem, v.v, fixedPos, heapPos, dest, a, c);
        }
      }
    } else if Variable(ty) && !IsEmptyContainer(ty, v) {
      WritePointer(fixedPos, heapPos, dest, a, Placeholder(ty, v), c);
    }
  }

  method WritePointer(fixedPos: nat, heapPos: nat, dest: Buffer, ghost a: seq<byte>, ghost p: seq<byte>,
                      ghost c: seq<byte>)
    requires fixedPos <= heapPos && |p| == 4 && dest.data == a + p + c && |a| == fixedPos
    modifies dest
    ensures dest.data == a + LittleEndian(heapPos - fixedPos, 4) + c
  {
    var pointer := LittleEndian(heapPos - fixedPos, 4);
    OverwriteMiddle(a, p, c, pointer);
    dest.Overwrite(fixedPos, pointer);
  }

  lemma OverwriteMiddle(a: seq<byte>, p: seq<byte>, c: seq<byte>, b: seq<byte>)
    requires |b| == |p|
    ensures var d := a + p + c;
            |a| + |b| <= |d| && d[..|a|] + b + d[|a| + |b|..] == a + b + c
  {
    var d := a + p + c;
    assert d[..|a|] == a && d[|a| + |b|..] == c;
  }

  method EmbeddedVariablePack(ty: Ty, v: Val, dest: Buffer)
    requires WellFormed(ty) && HasType(ty, v)
    requires |dest.data| + |Heap(ty, v)| < U32
    modifies dest
    ensures dest.data == old(dest.data) + Heap(ty, v)
    decreases ty, if ty.Opt? then 0 else 2, 0
  {
    if ty.Opt? {
      if v.VSome? {
        if !IsEmptyContainer(ty.elem, v.v) {
          Pack(ty.elem, v.v, dest);
        }
      }
    } else if Variable(ty) && !IsEmptyContainer(ty, v) {
      Pack(ty, v, dest);
    }
  }

  /** Packing appends the bytes of the format and leaves what was in the buffer alone. */
  method Pack(ty: Ty, v: Val, dest: Buffer)
    requires WellFormed(ty) && HasType(ty, v)
    requires |dest.data| + |Packed(ty, v)| < U32
    modifies dest
    ensures dest.data == old(dest.data) + Packed(ty, v)
    decreases ty, 1
  {
    match v
    case VInt(n) =>
      dest.Extend(LittleEndian(n, if ty.Scalar? then ty.size else 1));
    case VBytes(b) =>
      dest.Extend(LittleEndian(|b|, 4));
      dest.Extend(b);
    case VNone =>
      PackOption(ty, v, dest);
    case VSome(_) =>
      PackOption(ty, v, dest);
    case VAlt(index, alt) =>
      PackVariant(ty, index, alt, dest);
    case VList(vs) =>
      PackGroup(ty, vs, dest);
  }

  method PackOption(ty: Ty, v: Val, dest: Buffer)
    requires ty.Opt? && WellFormed(ty) && HasType(ty, v)
    requires |dest.data| + |Packed(ty, v)| < U32
    modifies dest
    ensures dest.data == old(dest.data) + Packed(ty, v)
    decreases ty, 0, 1
  {
    ghost var d := dest.data;
    PlaceholderSize(ty, v);
    Shift(d, Slot(ty, v, 4), Heap(ty, v));
    var fixedPos := |dest.data|;
    EmbeddedFixedPack(ty, v, dest);
    var heapPos := |dest.data|;
    assert dest.data == d + Placeholder(ty, v) + [];
    EmbeddedFixedRepack(ty, v, fixedPos, heapPos, dest, d, []);
    assert dest.data == d + Slot(ty, v, 4);
    EmbeddedVariablePack(ty, v, dest);
  }

  lemma PatchSize(d: seq<byte>, tag: seq<byte>, blank: seq<byte>, body: seq<byte>, size: seq<byte>)
    requires |blank| == |size|
    ensures var data, pos := d + tag + blank + body, |d + tag|;
            data[..pos] + size + data[pos + |size|..] == d + (tag + (size + body))
  {
    var data, pos := d + tag + blank + body, |d + tag|;
    assert data[..pos] == d + tag;
    assert data[pos + |size|..] == body;
  }

  /** The tag, room for the size, and the alternative; then the size is written into its place. */
  method PackVariant(ty: Ty, index: nat, alt: Val, dest: Buffer)
    requires ty.Variant? && WellFormed(ty) && HasType(ty, VAlt(index, alt))
    requires |dest.data| + |Packed(ty, VAlt(index, alt))| < U32
    modifies dest
    ensures dest.data == old(dest.data) + Packed(ty, VAlt(index, alt))
    decreases ty, 0, 1
  {
    ghost var d, body := dest.data, Packed(ty.alts[index], alt);
    ghost var tag := LittleEndian(index, 1);
    VariantBytes(ty, index, alt);
    WellFormedAt(ty.alts, 0, index);
    var sizePos := PutTag(index, dest);
    Pack(ty.alts[index], alt, dest);
    var size := |dest.data| - sizePos - 4;
    PatchSize(d, tag, LittleEndian(0, 4), body, LittleEndian(size, 4));
    dest.Overwrite(sizePos, LittleEndian(size, 4));
  }

  lemma VariantBytes(ty: Ty, index: nat, alt: Val)
    requires ty.Variant? && HasType(ty, VAlt(index, alt))
    ensures index < |ty.alts|
    ensures var body := Packed(ty.alts[index], alt);
            Packed(ty, VAlt(index, alt)) == LittleEndian(index, 1) + (LittleEndian(|body|, 4) + body)
  {
  }

  method PutTag(index: nat, dest: Buffer) returns (sizePos: nat)
    modifies dest
    ensures dest.data == old(dest.data) + LittleEndian(index, 1) + LittleEndian(0, 4)
    ensures sizePos == |old(dest.data) + LittleEndian(index, 1)| && sizePos + 4 == |dest.data|
  {
    dest.Extend(LittleEndian(index, 1));
    sizePos := |dest.data|;
    dest.Extend(LittleEndian(0, 4));
  }

  /**
   One step of the second pass: with the slot of member i settled and its data appended, the rest of
   the target is again slots to come, then the data so far, then the data to come.
   */
  lemma TargetStep(a: seq<byte>, slot: seq<byte>, slots: seq<byte>, b: seq<byte>, heap: seq<byte>, heaps: seq<byte>)
    ensures a + (slot + slots) + (b + (heap + heaps)) == (a + slot) + slots + ((b + heap) + heaps)
  {
  }

  method PackGroup(ty: Ty, vs: seq<Val>, dest: Buffer)
    requires WellFormed(ty) && HasType(ty, VList(vs))
    requires |dest.data| + |Packed(ty, VList(vs))| < U32
    modifies dest
    ensures dest.data == old(dest.data) + Packed(ty, VList(vs))
    decreases ty, 0, 4
  {
    ghost var d := dest.data;
    SlotsSize(ty, vs, 0, Offset(ty, |vs|));
    PackHeader(ty, |vs|, dest);
    PackMembers(ty, vs, dest);
    Reassociate(d, Header(ty, |vs|), Slots(ty, vs, 0, Offset(ty, |vs|)), Heaps(ty, vs, 0));
  }

  lemma Reassociate(d: seq<byte>, header: seq<byte>, slots: seq<byte>, heaps: seq<byte>)
    ensures (d + header) + slots + heaps == d + (header + slots + heaps)
  {
  }

  method PackHeader(ty: Ty, n: nat, dest: Buffer)
    requires HasArity(ty, n) && Fits(ty, n) && Offset(ty, n) < U32
    modifies dest
    ensures dest.data == old(dest.data) + Header(ty, n)
  {
    if ty.Vec? {
      OffsetUniform(ty, n);
      var numBytes := Wrap32(Times(n, FixedSize(ty.elem)));
      dest.Extend(LittleEndian(numBytes, 4));
    } else if ty.Tuple? || (ty.Struct? && ty.extensible) {
      var heap := Offset(ty, n);
      dest.Extend(LittleEndian(heap, 2));
    } else {
      assert dest.data + [] == dest.data;
    }
  }

  method PackMembers(ty: Ty, vs: seq<Val>, dest: Buffer)
    requires WellFormed(ty) && Fits(ty, |vs|) && MembersHaveType(ty, vs, 0)
    requires |dest.data| + Offset(ty, |vs|) + |Heaps(ty, vs, 0)| < U32
    modifies dest
    ensures dest.data == old(dest.data) + Slots(ty, vs, 0, Offset(ty, |vs|)) + Heaps(ty, vs, 0)
    decreases ty, 0, 3
  {
    var start := |dest.data|;
    ghost var d := dest.data;
    PlaceholdersSize(ty, vs, 0);
    PackFixed(ty, vs, dest);
    PackHeap(ty, vs, start, dest, d);
  }

  lemma Shift(a: seq<byte>, b: seq<byte>, c: seq<byte>)
    ensures a + (b + c) == (a + b) + c
  {
  }

  method PackFixed(ty: Ty, vs: seq<Val>, dest: Buffer)
    requires WellFormed(ty) && Fits(ty, |vs|) && MembersHaveType(ty, vs, 0)
    requires |dest.data| + |Placeholders(ty, vs, 0)| < U32
    modifies dest
    ensures dest.data == old(dest.data) + Placeholders(ty, vs, 0)
    decreases ty, 0, 1
  {
    ghost var target := dest.data + Placeholders(ty, vs, 0);
    var i := 0;
    while i < |vs|
      invariant 0 <= i <= |vs| && MembersHaveType(ty, vs, i)
      invariant target == dest.data + Placeholders(ty, vs, i)
      invariant |target| < U32
    {
      PackSlot(ty, vs, i, dest, target);
      i := i + 1;
    }
  }

  method PackSlot(ty: Ty, vs: seq<Val>, i: nat, dest: Buffer, ghost target: seq<byte>)
    requires WellFormed(ty) && Fits(ty, |vs|) && i < |vs| && MembersHaveType(ty, vs, i)
    requires target == dest.data + Placeholders(ty, vs, i) && |target| < U32
    modifies dest
    ensures MembersHaveType(ty, vs, i + 1) && target == dest.data + Placeholders(ty, vs, i + 1)
    decreases ty, 0, 0
  {
    MemberWellFormed(ty, i);
    Shift(dest.data, Placeholder(MemberTy(ty, i), vs[i]), Placeholders(ty, vs, i + 1));
    EmbeddedFixedPack(MemberTy(ty, i), vs[i], dest);
  }

  /** Where the second pass stands before member i: settled slots, placeholders, data so far. */
  ghost predicate Midway(ty: Ty, vs: seq<Val>, i: nat, data: seq<byte>, target: seq<byte>, a: seq<byte>, b: seq<byte>)
    requires Fits(ty, |vs|) && i <= |vs|
  {
    && data == a + Placeholders(ty, vs, i) + b
    && target == a + Slots(ty, vs, i, |Placeholders(ty, vs, i)| + |b|) + (b + Heaps(ty, vs, i))
    && |data| + |Heaps(ty, vs, i)| < U32
  }

  method PackHeap(ty: Ty, vs: seq<Val>, start: nat, dest: Buffer, ghost prefix: seq<byte>)
    requires WellFormed(ty) && Fits(ty, |vs|) && MembersHaveType(ty, vs, 0) && |prefix| == start
    requires dest.data == prefix + Placeholders(ty, vs, 0)
    requires |dest.data| + |Heaps(ty, vs, 0)| < U32
    modifies dest
    ensures dest.data == prefix + Slots(ty, vs, 0, Offset(ty, |vs|)) + Heaps(ty, vs, 0)
    decreases ty, 0, 2
  {
    ghost var target := prefix + Slots(ty, vs, 0, Offset(ty, |vs|)) + Heaps(ty, vs, 0);
    MidwayStart(ty, vs, dest.data, target, prefix);
    SettleSlots(ty, vs, start, dest, prefix, target);
  }

  method SettleSlots(ty: Ty, vs: seq<Val>, start: nat, dest: Buffer, ghost prefix: seq<byte>, ghost target: seq<byte>)
    requires WellFormed(ty) && Fits(ty, |vs|) && MembersHaveType(ty, vs, 0) && |prefix| == start
    requires Midway(ty, vs, 0, dest.data, target, prefix, [])
    modifies dest
    ensures dest.data == target
    decreases ty, 0, 1
  {
    ghost var a, b := prefix, [];
    var i, slotPos := 0, start;
    while i < |vs|
      invariant 0 <= i <= |vs| && MembersHaveType(ty, vs, i) && |a| == slotPos
      invariant Midway(ty, vs, i, dest.data, target, a, b)
    {
      slotPos, a, b := PackNext(ty, vs, i, slotPos, dest, target, a, b);
      i := i + 1;
    }
    MidwayEnd(ty, vs, dest.data, target, a, b);
  }

  lemma MidwayStart(ty: Ty, vs: seq<Val>, data: seq<byte>, target: seq<byte>, prefix: seq<byte>)
    requires Fits(ty, |vs|) && MembersHaveType(ty, vs, 0) && data == prefix + Placeholders(ty, vs, 0)
    requires target == prefix + Slots(ty, vs, 0, Offset(ty, |vs|)) + Heaps(ty, vs, 0)
    requires |data| + |Heaps(ty, vs, 0)| < U32
    ensures Midway(ty, vs, 0, data, target, prefix, [])
  {
    PlaceholdersSize(ty, vs, 0);
    assert [] + Heaps(ty, vs, 0) == Heaps(ty, vs, 0);
    assert data + [] == data;
  }

  lemma MidwayEnd(ty: Ty, vs: seq<Val>, data: seq<byte>, target: seq<byte>, a: seq<byte>, b: seq<byte>)
    requires Fits(ty, |vs|) && Midway(ty, vs, |vs|, data, target, a, b)
    ensures data == target
  {
    assert Placeholders(ty, vs, |vs|) == [] && Heaps(ty, vs, |vs|) == [];
  }

  method PackNext(ty: Ty, vs: seq<Val>, i: nat, slotPos: nat, dest: Buffer,
                  ghost target: seq<byte>, ghost a: seq<byte>, ghost b: seq<byte>)
    returns (next: nat, ghost a': seq<byte>, ghost b': seq<byte>)
    requires WellFormed(ty) && Fits(ty, |vs|) && i < |vs| && MembersHaveType(ty, vs, i) && |a| == slotPos
    requires Midway(ty, vs, i, dest.data, target, a, b)
    modifies dest
    ensures |a'| == next && MembersHaveType(ty, vs, i + 1) && Midway(ty, vs, i + 1, dest.data, target, a', b')
    decreases ty, 0, 0
  {
    var m := MemberTy(ty, i);
    ghost var rest := Placeholders(ty, vs, i + 1);
    a', b' := a + Slot(m, vs[i], |dest.data| - slotPos), b + Heap(m, vs[i]);
    MidwayStep(ty, vs, i, dest.data, target, a, b);
    MemberWellFormed(ty, i);
    PackMember(m, vs[i], slotPos, dest, a, rest, b);
    next := slotPos + FixedSize(m);
  }

  lemma AppendData(a: seq<byte>, slot: seq<byte>, rest: seq<byte>, b: seq<byte>, heap: seq<byte>)
    ensures a + slot + (rest + b) + heap == (a + slot) + rest + (b + heap)
  {
  }

  method PackMember(m: Ty, v: Val, slotPos: nat, dest: Buffer,
                    ghost a: seq<byte>, ghost rest: seq<byte>, ghost b: seq<byte>)
    requires WellFormed(m) && HasType(m, v) && |a| == slotPos
    requires dest.data == a + (Placeholder(m, v) + rest) + b
    requires |dest.data| + |Heap(m, v)| < U32
    modifies dest
    ensures dest.data == (a + Slot(m, v, old(|dest.data|) - slotPos)) + rest + (b + Heap(m, v))
    decreases m, 3
  {
    var heapPos := |dest.data|;
    ghost var slot := Slot(m, v, heapPos - slotPos);
    SettleSlot(m, v, slotPos, heapPos, dest, a, rest, b);
    PackData(m, v, dest, a, slot, rest, b);
  }

  method SettleSlot(m: Ty, v: Val, slotPos: nat, heapPos: nat, dest: Buffer,
                    ghost a: seq<byte>, ghost rest: seq<byte>, ghost b: seq<byte>)
    requires HasType(m, v) && |a| == slotPos && heapPos == |dest.data| < U32
    requires dest.data == a + (Placeholder(m, v) + rest) + b
    modifies dest
    ensures dest.data == a + Slot(m, v, heapPos - slotPos) + (rest + b) && |dest.data| == heapPos
  {
    PlaceholderSize(m, v);
    SlotSize(m, v, heapPos - slotPos);
    Regroup(a, Placeholder(m, v), rest, b);
    EmbeddedFixedRepack(m, v, slotPos, heapPos, dest, a, rest + b);
  }

  lemma Regroup(a: seq<byte>, p: seq<byte>, rest: seq<byte>, b: seq<byte>)
    ensures a + (p + rest) + b == a + p + (rest + b)
  {
  }

  method PackData(m: Ty, v: Val, dest: Buffer, ghost a: seq<byte>, ghost slot: seq<byte>, ghost rest: seq<byte>,
                  ghost b: seq<byte>)
    requires WellFormed(m) && HasType(m, v) && dest.data == a + slot + (rest + b) && |dest.data| + |Heap(m, v)| < U32
    modifies dest
    ensures dest.data == (a + slot) + rest + (b + Heap(m, v))
    decreases m, 2, 1
  {
    AppendData(a, slot, rest, b, Heap(m, v));
    EmbeddedVariablePack(m, v, dest);
  }

  lemma MidwayStep(ty: Ty, vs: seq<Val>, i: nat, data: seq<byte>, target: seq<byte>, a: seq<byte>, b: seq<byte>)
    requires Fits(ty, |vs|) && i < |vs| && MembersHaveType(ty, vs, i) && Midway(ty, vs, i, data, target, a, b)
    ensures var m, d := MemberTy(ty, i), |data| - |a|;
            && |Slot(m, vs[i], d)| == FixedSize(m) && |Placeholder(m, vs[i])| == FixedSize(m)
            && Midway(ty, vs, i + 1, (a + Slot(m, vs[i], d)) + Placeholders(ty, vs, i + 1) + (b + Heap(m, vs[i])),
                      target, a + Slot(m, vs[i], d), b + Heap(m, vs[i]))
  {
    var m, d := MemberTy(ty, i), |data| - |a|;
    var heap := Heap(m, vs[i]);
    SlotSize(m, vs[i], d);
    PlaceholderSize(m, vs[i]);
    assert d == |Placeholders(ty, vs, i)| + |b|;
    assert d - FixedSize(m) + |heap| == |Placeholders(ty, vs, i + 1)| + |b + heap|;
    TargetStep(a, Slot(m, vs[i], d), Slots(ty, vs, i + 1, d - FixedSize(m) + |heap|), b, heap, Heaps(ty, vs, i + 1));
  }
}
