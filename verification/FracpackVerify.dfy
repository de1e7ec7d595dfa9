/**
 Checking packed data without building a value. Whatever unpacks also passes the check, with the same
 cursor. The converse holds for some types and not for others; Exact says for which.
 */
module FracpackVerify {
  import opened Bytes
  import Utf8
  import opened Fracpack
  import opened FracpackRoundTrip

  datatype Checked = Valid(next: nat) | Invalid(error: Error)

  datatype CheckedMember = ValidMember(fixed: nat, heap: nat) | InvalidMember(error: Error)

  function Verify(ty: Ty, src: seq<byte>, pos: nat): Checked
    decreases ty, 1
  {
    if ty.Tuple? then VerifyTuple(ty, src, pos)
    else if Group(ty) then
      var h := ReadHeader(ty, src, pos);
      if h.BadHead? then Invalid(h.error)
      else
        var r := VerifyMembers(ty, h.count, src, h.fixed, h.heap, 0);
        if r.InvalidMember? then Invalid(r.error) else Valid(r.heap)
    else if ty.Opt? then
      var r := EmbeddedVerify(ty, src, pos, Wrap32(pos + 4));
      if r.InvalidMember? then Invalid(r.error) else Valid(r.heap)
    else if ty.Variant? then
      var index := ReadInt(src, pos, 1);
      var size := if index.Number? then ReadInt(src, index.next, 4) else NoNumber;
      if index.NoNumber? || size.NoNumber? then Invalid(ReadPastEnd)
      else
        var end := Wrap32(index.next + 4 + size.n);
        if index.n >= |ty.alts| then Valid(end)
        else
          var r := Verify(ty.alts[index.n], src, size.next);
          if r.Invalid? then r else if r.next != end then Invalid(BadSize) else r
    else VerifyLeaf(ty, src, pos)
  }

  /** A tuple's check unpacks its members. */
  function VerifyTuple(ty: Ty, src: seq<byte>, pos: nat): Checked
    requires ty.Tuple?
  {
    var h := ReadHeader(ty, src, pos);
    if h.BadHead? then Invalid(h.error)
    else
      var r := UnpackMembers(ty, h.count, src, h.fixed, h.heap, []);
      if r.BadMembers? then Invalid(r.error) else Valid(r.heap)
  }

  function VerifyLeaf(ty: Ty, src: seq<byte>, pos: nat): Checked
    requires ty.Scalar? || ty.Bool? || ty.Blob? || ty.Text?
  {
    if ty.Scalar? || ty.Bool? then
      if pos + FixedSize(ty) > |src| then Invalid(ReadPastEnd) else Valid(Wrap32(pos + FixedSize(ty)))
    else
      var r := ReadBytes(src, pos);
      if r.NoChunk? then Invalid(ReadPastEnd)
      else if ty.Text? && !Utf8.IsUtf8(r.b) then Invalid(BadUTF8)
      else Valid(r.next)
  }

  function VerifyMembers(ty: Ty, n: nat, src: seq<byte>, fixed: nat, heap: nat, i: nat): CheckedMember
    requires Fits(ty, n) && i <= n
    decreases ty, 0, n - i
  {
    if i == n then ValidMember(fixed, heap)
    else
      var r := EmbeddedVerify(MemberTy(ty, i), src, fixed, heap);
      if r.InvalidMember? then r else VerifyMembers(ty, n, src, r.fixed, r.heap, i + 1)
  }

  function EmbeddedVerify(ty: Ty, src: seq<byte>, fixed: nat, heap: nat): CheckedMember
    decreases ty, if ty.Opt? then 0 else 3
  {
    if ty.Opt? then
      var offset := ReadInt(src, fixed, 4);
      if offset.NoNumber? then InvalidMember(ReadPastEnd)
      else if offset.n == 1 then ValidMember(offset.next, heap)
      else EmbeddedVariableVerify(ty.elem, src, fixed, heap)
    else if Variable(ty) then EmbeddedVariableVerify(ty, src, fixed, heap)
    else
      var r := Verify(ty, src, fixed);
      if r.Invalid? then InvalidMember(r.error) else ValidMember(r.next, heap)
  }

  /** A zero offset is accepted without asking whether the type has an empty value. */
  function EmbeddedVariableVerify(ty: Ty, src: seq<byte>, fixed: nat, heap: nat): CheckedMember
    decreases ty, 2
  {
    var offset := ReadInt(src, fixed, 4);
    if offset.NoNumber? then InvalidMember(ReadPastEnd)
    else if offset.n == 0 then ValidMember(offset.next, heap)
    else if heap != fixed + offset.n then InvalidMember(BadOffset)
    else
      var r := Verify(ty, src, heap);
      if r.Invalid? then InvalidMember(r.error) else ValidMember(offset.next, r.next)
  }

  // ----- what unpacks is valid -----

  /** A check agrees with a read: it passes with the read's cursor, or the read failed. */
  ghost predicate Covers(c: Checked, u: Unpacked) {
    u.Ok? ==> c == Valid(u.next)
  }

  ghost predicate CoversMember(c: CheckedMember, m: Member) {
    m.Member? ==> c == ValidMember(m.fixed, m.heap)
  }

  lemma {:induction false} UnpackImpliesVerify(ty: Ty, src: seq<byte>, pos: nat)
    ensures Covers(Verify(ty, src, pos), Unpack(ty, src, pos))
    decreases ty, 1
  {
    if ty.Tuple? {
    } else if Group(ty) {
      var h := ReadHeader(ty, src, pos);
      if h.Head? {
        MembersImplyVerify(ty, h.count, src, h.fixed, h.heap, []);
      }
    } else if ty.Opt? {
      MemberImpliesVerify(ty, src, pos, Wrap32(pos + 4));
    } else if ty.Variant? {
      var index := ReadInt(src, pos, 1);
      if index.Number? && index.n < |ty.alts| {
        var size := ReadInt(src, index.next, 4);
        if size.Number? {
          UnpackImpliesVerify(ty.alts[index.n], src, size.next);
        }
      }
    }
  }

  lemma {:induction false} MembersImplyVerify(ty: Ty, n: nat, src: seq<byte>, fixed: nat, heap: nat, done: seq<Val>)
    requires Fits(ty, n) && |done| <= n
    ensures var r := UnpackMembers(ty, n, src, fixed, heap, done);
            r.Members? ==> VerifyMembers(ty, n, src, fixed, heap, |done|) == ValidMember(r.fixed, r.heap)
    decreases ty, 0, n - |done|
  {
    if |done| < n {
      MemberImpliesVerify(MemberTy(ty, |done|), src, fixed, heap);
      var r := EmbeddedUnpack(MemberTy(ty, |done|), src, fixed, heap);
      if r.Member? {
        MembersImplyVerify(ty, n, src, r.fixed, r.heap, done + [r.v]);
      }
    }
  }

  lemma {:induction false} MemberImpliesVerify(ty: Ty, src: seq<byte>, fixed: nat, heap: nat)
    ensures CoversMember(EmbeddedVerify(ty, src, fixed, heap), EmbeddedUnpack(ty, src, fixed, heap))
    decreases ty, if ty.Opt? then 0 else 3
  {
    if ty.Opt? {
      VariableImpliesVerify(ty.elem, src, fixed, heap);
    } else if Variable(ty) {
      VariableImpliesVerify(ty, src, fixed, heap);
    } else {
      UnpackImpliesVerify(ty, src, fixed);
    }
  }

  lemma {:induction false} VariableImpliesVerify(ty: Ty, src: seq<byte>, fixed: nat, heap: nat)
    ensures CoversMember(EmbeddedVariableVerify(ty, src, fixed, heap), EmbeddedVariableUnpack(ty, src, fixed, heap))
    decreases ty, 2
  {
    UnpackImpliesVerify(ty, src, heap);
  }

  // ----- when the check is exact -----

  /** Types for which passing the check means that unpacking succeeds. */
  predicate Exact(ty: Ty)
    decreases ty, 0
  {
    match ty
    case Opt(elem) => Container(elem) && Exact(elem)
    case Vec(elem) => ExactSlot(elem)
    case Array(elem, len) => len == 0 || ExactSlot(elem)
    case Struct(elems, _) => ExactSlotsFrom(elems, 0)
    case Variant(_) => false
    case _ => true
  }

  predicate ExactSlot(ty: Ty)
    decreases ty, 1
  {
    if ty.Opt? then Container(ty.elem) && Exact(ty.elem)
    else !Variable(ty) || (Container(ty) && Exact(ty))
  }

  predicate ExactSlotsFrom(elems: seq<Ty>, i: nat)
    decreases elems, if i <= |elems| then |elems| - i else 0
  {
    i < |elems| ==> ExactSlot(elems[i]) && ExactSlotsFrom(elems, i + 1)
  }

  lemma {:induction false} ExactSlotAt(elems: seq<Ty>, i: nat, k: nat)
    requires i <= k < |elems| && ExactSlotsFrom(elems, i)
    ensures ExactSlot(elems[k])
    decreases k - i
  {
    if i < k {
      ExactSlotAt(elems, i + 1, k);
    }
  }

  /** Types without out-of-line data are exact. */
  lemma {:induction false} FixedIsExact(ty: Ty)
    requires !Variable(ty)
    ensures Exact(ty)
    decreases ty, 1
  {
    if ty.Struct? {
      FixedIsExactFrom(ty.elems, 0);
    }
  }

  lemma {:induction false} FixedIsExactFrom(elems: seq<Ty>, i: nat)
    requires !VariableFrom(elems, i)
    ensures ExactSlotsFrom(elems, i)
    decreases elems, if i <= |elems| then |elems| - i else 0
  {
    if i < |elems| {
      FixedIsExactFrom(elems, i + 1);
    }
  }

  lemma ExactMember(ty: Ty, n: nat, i: nat)
    requires Exact(ty) && Group(ty) && !ty.Tuple? && HasArity(ty, n) && i < n
    ensures ExactSlot(MemberTy(ty, i))
  {
    if ty.Struct? {
      ExactSlotAt(ty.elems, 0, i);
    }
  }

  lemma {:induction false} VerifyImpliesUnpack(ty: Ty, src: seq<byte>, pos: nat)
    requires Exact(ty) && Verify(ty, src, pos).Valid?
    ensures Unpack(ty, src, pos).Ok?
    decreases ty, 1
  {
    if ty.Tuple? {
    } else if Group(ty) {
      var h := ReadHeader(ty, src, pos);
      MembersVerified(ty, h.count, src, h.fixed, h.heap, []);
    } else if ty.Opt? {
      MemberVerified(ty, src, pos, Wrap32(pos + 4));
    }
  }

  lemma {:induction false} MembersVerified(ty: Ty, n: nat, src: seq<byte>, fixed: nat, heap: nat, done: seq<Val>)
    requires Exact(ty) && Group(ty) && !ty.Tuple? && HasArity(ty, n) && |done| <= n
    requires VerifyMembers(ty, n, src, fixed, heap, |done|).ValidMember?
    ensures UnpackMembers(ty, n, src, fixed, heap, done).Members?
    decreases ty, 0, n - |done|
  {
    if |done| < n {
      var m := MemberTy(ty, |done|);
      ExactMember(ty, n, |done|);
      MemberVerified(m, src, fixed, heap);
      MemberImpliesVerify(m, src, fixed, heap);
      var r := EmbeddedUnpack(m, src, fixed, heap);
      MembersVerified(ty, n, src, r.fixed, r.heap, done + [r.v]);
    }
  }

  lemma {:induction false} MemberVerified(ty: Ty, src: seq<byte>, fixed: nat, heap: nat)
    requires ExactSlot(ty) && EmbeddedVerify(ty, src, fixed, heap).ValidMember?
    ensures EmbeddedUnpack(ty, src, fixed, heap).Member?
    decreases ty, if ty.Opt? then 0 else 3
  {
    if ty.Opt? {
      var offset := ReadInt(src, fixed, 4);
      if offset.n != 1 {
        VariableVerified(ty.elem, src, fixed, heap);
      }
    } else if Variable(ty) {
      VariableVerified(ty, src, fixed, heap);
    } else {
      FixedIsExact(ty);
      VerifyImpliesUnpack(ty, src, fixed);
    }
  }

  lemma {:induction false} VariableVerified(ty: Ty, src: seq<byte>, fixed: nat, heap: nat)
    requires Container(ty) && Exact(ty) && EmbeddedVariableVerify(ty, src, fixed, heap).ValidMember?
    ensures EmbeddedVariableUnpack(ty, src, fixed, heap).Member?
    decreases ty, 2
  {
    if ReadInt(src, fixed, 4).n != 0 {
      VerifyImpliesUnpack(ty, src, heap);
    }
  }

  // ----- inexact types have a message that passes the check and does not unpack -----

  function FirstInexact(elems: seq<Ty>, i: nat): (k: nat)
    requires !ExactSlotsFrom(elems, i)
    ensures i <= k < |elems| && !ExactSlot(elems[k])
    decreases |elems| - i
  {
    if !ExactSlot(elems[i]) then i else FirstInexact(elems, i + 1)
  }

  function ZeroBytes(n: nat): (s: seq<byte>)
    ensures |s| == n && forall i :: 0 <= i < n ==> s[i] == 0
  {
    seq(n, _ => 0)
  }

  /** How many members the offending group has, and which one offends. */
  function WitnessArity(ty: Ty): nat
    requires Group(ty)
  {
    match ty
    case Vec(_) => 1
    case Array(_, len) => len
    case Tuple(elems) => |elems|
    case Struct(elems, _) => |elems|
  }

  function Offender(ty: Ty): (k: nat)
    requires Group(ty) && !Exact(ty)
    ensures k < WitnessArity(ty) && HasArity(ty, WitnessArity(ty)) && !ExactSlot(MemberTy(ty, k))
  {
    if ty.Struct? then FirstInexact(ty.elems, 0) else 0
  }

  /** The type that a pointer in a slot of type ty leads to. */
  function Pointee(ty: Ty): Ty {
    if ty.Opt? then ty.elem else ty
  }

  /** Out-of-line data of the offending slot: none when a zero offset already offends. */
  function WitnessHeap(slot: Ty): seq<byte>
    requires !ExactSlot(slot)
    decreases slot, if slot.Opt? then 0 else 2
  {
    if slot.Opt? then
      if Container(slot.elem) then Witness(slot.elem) else []
    else if Container(slot) then Witness(slot) else []
  }

  function WitnessSlot(slot: Ty, d: nat): (s: seq<byte>)
    ensures |s| == 4
  {
    LittleEndian(if Container(Pointee(slot)) then d else 0, 4)
  }

  /** Bytes that pass the check for ty and do not unpack. */
  function Witness(ty: Ty): seq<byte>
    requires !Exact(ty)
    decreases ty, 1
  {
    if Group(ty) then
      var n, k := WitnessArity(ty), Offender(ty);
      var size, before := Offset(ty, n), Offset(ty, k);
      var d := if size >= before then size - before else 0;
      var rest := if size >= before + 4 then size - before - 4 else 0;
      Header(ty, n) + (ZeroBytes(before) + (WitnessSlot(MemberTy(ty, k), d)
      + (ZeroBytes(rest) + WitnessHeap(MemberTy(ty, k)))))
    else if ty.Opt? then WitnessSlot(ty, 4) + WitnessHeap(ty)
    else LittleEndian(if ty.Variant? then |ty.alts| else 0, 1) + LittleEndian(0, 4)
  }

  ghost predicate ZeroAt(src: seq<byte>, pos: nat, n: nat) {
    pos + n <= |src| && forall i :: pos <= i < pos + n ==> src[i] == 0
  }

  lemma ZerosAt(src: seq<byte>, pos: nat, n: nat)
    requires At(src, pos, ZeroBytes(n))
    ensures ZeroAt(src, pos, n)
  {
    forall i | pos <= i < pos + n ensures src[i] == 0 {
      assert ZeroBytes(n)[i - pos] == src[pos + (i - pos)];
    }
  }

  lemma ReadZero(src: seq<byte>, pos: nat)
    requires ZeroAt(src, pos, 4) && pos + 4 < U32
    ensures ReadInt(src, pos, 4) == Number(0, pos + 4)
  {
    LittleEndianRoundTrip(0, 4);
    assert src[pos..pos + 4] == LittleEndian(0, 4);
  }

  /** Data of fixed size passes the check wherever it fits. */
  lemma {:induction false} FixedVerifies(ty: Ty, src: seq<byte>, pos: nat)
    requires WellFormed(ty) && !Variable(ty) && pos + FixedSize(ty) <= |src| && pos + FixedSize(ty) < U32
    ensures Verify(ty, src, pos) == Valid(pos + FixedSize(ty))
    decreases ty, 1
  {
    if Group(ty) {
      var n := WitnessArity(ty);
      if ty.Array? {
        OffsetUniform(ty, n);
      }
      PlainHeaderStep(ty, n, src, pos);
      FixedMembersVerify(ty, n, src, pos, pos + Offset(ty, n), 0);
    }
  }

  lemma {:induction false} FixedMembersVerify(ty: Ty, n: nat, src: seq<byte>, pos: nat, heap: nat, i: nat)
    requires WellFormed(ty) && !Variable(ty) && Fits(ty, n) && i <= n
    requires pos + Offset(ty, n) <= |src| && pos + Offset(ty, n) < U32
    ensures VerifyMembers(ty, n, src, pos + Offset(ty, i), heap, i) == ValidMember(pos + Offset(ty, n), heap)
    decreases ty, 0, n - i
  {
    if i < n {
      var m := MemberTy(ty, i);
      MemberWellFormed(ty, i);
      if ty.Struct? {
        FixedAt(ty.elems, 0, i);
      }
      OffsetMonotone(ty, i + 1, n);
      assert Offset(ty, i + 1) == Offset(ty, i) + FixedSize(m);
      FixedVerifies(m, src, pos + Offset(ty, i));
      FixedMembersVerify(ty, n, src, pos, heap, i + 1);
    }
  }

  /** A slot of zeros passes the check and consumes no out-of-line data. */
  lemma ZeroSlotVerifies(ty: Ty, src: seq<byte>, fixed: nat, heap: nat)
    requires WellFormed(ty) && ZeroAt(src, fixed, FixedSize(ty)) && fixed + FixedSize(ty) < U32
    ensures EmbeddedVerify(ty, src, fixed, heap) == ValidMember(fixed + FixedSize(ty), heap)
  {
    if Variable(ty) {
      ReadZero(src, fixed);
    } else {
      FixedVerifies(ty, src, fixed);
    }
  }

  ghost predicate ZeroSlots(ty: Ty, n: nat, src: seq<byte>, base: nat, i: nat, j: nat)
    requires Fits(ty, n) && i <= j <= n
  {
    Offset(ty, i) <= Offset(ty, j) && ZeroAt(src, base + Offset(ty, i), Offset(ty, j) - Offset(ty, i))
  }

  lemma ZeroSlotsSplit(ty: Ty, n: nat, src: seq<byte>, base: nat, i: nat, j: nat)
    requires Fits(ty, n) && i < j <= n && ZeroSlots(ty, n, src, base, i, j)
    ensures ZeroAt(src, base + Offset(ty, i), FixedSize(MemberTy(ty, i)))
    ensures Offset(ty, i + 1) == Offset(ty, i) + FixedSize(MemberTy(ty, i)) <= Offset(ty, j)
    ensures ZeroSlots(ty, n, src, base, i + 1, j)
  {
    OffsetMonotone(ty, i + 1, j);
  }

  lemma {:induction false} ZeroSlotsVerify(ty: Ty, n: nat, src: seq<byte>, base: nat, heap: nat, i: nat, j: nat)
    requires WellFormed(ty) && Fits(ty, n) && i <= j <= n
    requires ZeroSlots(ty, n, src, base, i, j) && base + Offset(ty, j) < U32
    ensures VerifyMembers(ty, n, src, base + Offset(ty, i), heap, i)
         == VerifyMembers(ty, n, src, base + Offset(ty, j), heap, j)
    decreases j - i
  {
    if i < j {
      ZeroSlotsSplit(ty, n, src, base, i, j);
      MemberWellFormed(ty, i);
      ZeroSlotVerifies(MemberTy(ty, i), src, base + Offset(ty, i), heap);
      ZeroSlotsVerify(ty, n, src, base, heap, i + 1, j);
    }
  }

  lemma UnpackMembersStep(ty: Ty, n: nat, src: seq<byte>, fixed: nat, heap: nat, done: seq<Val>)
    requires Fits(ty, n) && |done| < n && UnpackMembers(ty, n, src, fixed, heap, done).Members?
    ensures var r := EmbeddedUnpack(MemberTy(ty, |done|), src, fixed, heap);
            r.Member? && UnpackMembers(ty, n, src, r.fixed, r.heap, done + [r.v]).Members?
  {
  }

  lemma ZeroSlotUnpacks(ty: Ty, src: seq<byte>, fixed: nat, heap: nat, r: Member)
    requires WellFormed(ty) && ZeroAt(src, fixed, FixedSize(ty)) && fixed + FixedSize(ty) < U32
    requires EmbeddedUnpack(ty, src, fixed, heap) == r && r.Member?
    ensures r.fixed == fixed + FixedSize(ty) && r.heap == heap
  {
    ZeroSlotVerifies(ty, src, fixed, heap);
    MemberImpliesVerify(ty, src, fixed, heap);
  }

  lemma ZeroSlotPassed(ty: Ty, n: nat, k: nat, src: seq<byte>, base: nat, heap: nat, done: seq<Val>) returns (v: Val)
    requires WellFormed(ty) && Fits(ty, n) && |done| < k < n
    requires ZeroSlots(ty, n, src, base, |done|, k) && base + Offset(ty, k) < U32
    requires UnpackMembers(ty, n, src, base + Offset(ty, |done|), heap, done).Members?
    ensures ZeroSlots(ty, n, src, base, |done| + 1, k)
    ensures UnpackMembers(ty, n, src, base + Offset(ty, |done| + 1), heap, done + [v]).Members?
  {
    var i, fixed := |done|, base + Offset(ty, |done|);
    UnpackMembersStep(ty, n, src, fixed, heap, done);
    ZeroSlotsSplit(ty, n, src, base, i, k);
    MemberWellFormed(ty, i);
    var r := EmbeddedUnpack(MemberTy(ty, i), src, fixed, heap);
    ZeroSlotUnpacks(MemberTy(ty, i), src, fixed, heap, r);
    v := r.v;
  }

  /** If a group unpacks, so does member k behind a run of zero slots. */
  lemma {:induction false} UnpackReaches(ty: Ty, n: nat, k: nat, src: seq<byte>, base: nat, heap: nat, done: seq<Val>)
    requires WellFormed(ty) && Fits(ty, n) && |done| <= k < n
    requires ZeroSlots(ty, n, src, base, |done|, k) && base + Offset(ty, k) < U32
    requires UnpackMembers(ty, n, src, base + Offset(ty, |done|), heap, done).Members?
    ensures EmbeddedUnpack(MemberTy(ty, k), src, base + Offset(ty, k), heap).Member?
    decreases k - |done|
  {
    if |done| < k {
      var v := ZeroSlotPassed(ty, n, k, src, base, heap, done);
      UnpackReaches(ty, n, k, src, base, heap, done + [v]);
    } else {
      UnpackMembersStep(ty, n, src, base + Offset(ty, k), heap, done);
    }
  }

  lemma {:induction false} OffenderAt(slot: Ty, src: seq<byte>, fixed: nat, heap: nat)
    requires WellFormed(slot) && !ExactSlot(slot) && fixed + 4 <= heap
    requires At(src, fixed, WitnessSlot(slot, heap - fixed))
    requires At(src, heap, WitnessHeap(slot)) && heap + |WitnessHeap(slot)| < U32
    ensures EmbeddedVerify(slot, src, fixed, heap) == ValidMember(fixed + 4, heap + |WitnessHeap(slot)|)
    ensures EmbeddedUnpack(slot, src, fixed, heap).BadMember?
    decreases slot, if slot.Opt? then 0 else 2, 0
  {
    Pow256Values();
    var t := Pointee(slot);
    ReadIntAt(src, fixed, if Container(t) then heap - fixed else 0, 4);
    if Container(t) {
      WitnessAt(t, src, heap);
    }
  }

  lemma FivePieces(src: seq<byte>, pos: nat, header: seq<byte>, before: nat, slot: seq<byte>, rest: nat,
                   heap: seq<byte>,
                   base: nat, p: nat, h: nat)
    requires At(src, pos, header + (ZeroBytes(before) + (slot + (ZeroBytes(rest) + heap))))
    requires base == pos + |header| && p == base + before && h == p + |slot| + rest
    ensures At(src, pos, header) && ZeroAt(src, base, before) && At(src, p, slot) && ZeroAt(src, p + |slot|, rest)
    ensures At(src, h, heap)
    ensures pos + |header + (ZeroBytes(before) + (slot + (ZeroBytes(rest) + heap)))| == h + |heap|
  {
    AtConcat(src, pos, header, ZeroBytes(before) + (slot + (ZeroBytes(rest) + heap)));
    AtConcat(src, base, ZeroBytes(before), slot + (ZeroBytes(rest) + heap));
    AtConcat(src, p, slot, ZeroBytes(rest) + heap);
    AtConcat(src, p + |slot|, ZeroBytes(rest), heap);
    ZerosAt(src, base, before);
    ZerosAt(src, p + |slot|, rest);
  }

  /** The offender's slot is at p, its data at heap, and every other slot of the group is zero. */
  ghost predicate Offending(ty: Ty, n: nat, k: nat, src: seq<byte>, base: nat, p: nat, heap: nat)
    requires Fits(ty, n) && k < n && !ExactSlot(MemberTy(ty, k))
  {
    && p == base + Offset(ty, k) && p + 4 == base + Offset(ty, k + 1) && heap == base + Offset(ty, n) && p + 4 <= heap
    && ZeroSlots(ty, n, src, base, 0, k) && ZeroSlots(ty, n, src, base, k + 1, n)
    && At(src, p, WitnessSlot(MemberTy(ty, k), heap - p))
    && At(src, heap, WitnessHeap(MemberTy(ty, k))) && heap + |WitnessHeap(MemberTy(ty, k))| < U32
  }

  lemma OffenderOffsets(ty: Ty)
    requires Group(ty) && !Exact(ty)
    ensures var n, k := WitnessArity(ty), Offender(ty);
            Offset(ty, k + 1) == Offset(ty, k) + 4 <= Offset(ty, n)
  {
    OffsetMonotone(ty, Offender(ty) + 1, WitnessArity(ty));
  }

  lemma GroupWitnessBytes(ty: Ty, src: seq<byte>, pos: nat, n: nat, k: nat, base: nat, p: nat, heap: nat)
    requires WellFormed(ty) && Group(ty) && !Exact(ty) && At(src, pos, Witness(ty)) && pos + |Witness(ty)| < U32
    requires n == WitnessArity(ty) && k == Offender(ty)
    requires base == pos + |Header(ty, n)| && p == base + Offset(ty, k) && heap == base + Offset(ty, n)
    ensures At(src, pos, Header(ty, n)) && Offending(ty, n, k, src, base, p, heap)
    ensures pos + |Witness(ty)| == heap + |WitnessHeap(MemberTy(ty, k))|
  {
    OffenderOffsets(ty);
    var before, d := Offset(ty, k), Offset(ty, n) - Offset(ty, k);
    WitnessGroup(ty, n, k, d);
    var slot, data := WitnessSlot(MemberTy(ty, k), d), WitnessHeap(MemberTy(ty, k));
    FivePieces(src, pos, Header(ty, n), before, slot, d - 4, data, base, p, heap);
    OffenderLaid(ty, n, k, src, base, p, heap, d);
  }

  lemma WitnessGroup(ty: Ty, n: nat, k: nat, d: nat)
    requires Group(ty) && !Exact(ty) && n == WitnessArity(ty) && k == Offender(ty)
    requires Fits(ty, n) && k < n && d == Offset(ty, n) - Offset(ty, k) && d >= 4
    ensures !ExactSlot(MemberTy(ty, k)) && |WitnessSlot(MemberTy(ty, k), d)| == 4
    ensures Witness(ty) == Header(ty, n) + (ZeroBytes(Offset(ty, k)) + (WitnessSlot(MemberTy(ty, k), d)
                           + (ZeroBytes(d - 4) + WitnessHeap(MemberTy(ty, k)))))
  {
  }

  lemma OffenderLaid(ty: Ty, n: nat, k: nat, src: seq<byte>, base: nat, p: nat, heap: nat, d: nat)
    requires Fits(ty, n) && k < n && !ExactSlot(MemberTy(ty, k))
    requires Offset(ty, k + 1) == Offset(ty, k) + 4 <= Offset(ty, n)
    requires p == base + Offset(ty, k) && heap == base + Offset(ty, n) && d == Offset(ty, n) - Offset(ty, k)
    requires ZeroAt(src, base, Offset(ty, k)) && At(src, p, WitnessSlot(MemberTy(ty, k), d))
    requires ZeroAt(src, p + 4, d - 4)
    requires At(src, heap, WitnessHeap(MemberTy(ty, k))) && heap + |WitnessHeap(MemberTy(ty, k))| < U32
    ensures Offending(ty, n, k, src, base, p, heap)
  {
    assert heap - p == d && Offset(ty, 0) == 0;
    assert p + 4 == base + Offset(ty, k + 1) && d - 4 == Offset(ty, n) - Offset(ty, k + 1);
  }

  lemma VerifyMembersStep(ty: Ty, n: nat, src: seq<byte>, fixed: nat, heap: nat, i: nat, r: CheckedMember)
    requires Fits(ty, n) && i < n && r.ValidMember?
    requires EmbeddedVerify(MemberTy(ty, i), src, fixed, heap) == r
    ensures VerifyMembers(ty, n, src, fixed, heap, i) == VerifyMembers(ty, n, src, r.fixed, r.heap, i + 1)
  {
  }

  lemma OffendersPass(ty: Ty, n: nat, k: nat, src: seq<byte>, base: nat, heap: nat, end: nat)
    requires WellFormed(ty) && Fits(ty, n) && k < n && base + Offset(ty, n) < U32
    requires ZeroSlots(ty, n, src, base, 0, k) && ZeroSlots(ty, n, src, base, k + 1, n)
    requires Offset(ty, k) <= Offset(ty, n)
    requires EmbeddedVerify(MemberTy(ty, k), src, base + Offset(ty, k), heap)
          == ValidMember(base + Offset(ty, k + 1), end)
    ensures VerifyMembers(ty, n, src, base, heap, 0) == ValidMember(base + Offset(ty, n), end)
  {
    var p, q, r := base + Offset(ty, k), base + Offset(ty, k + 1), base + Offset(ty, n);
    assert VerifyMembers(ty, n, src, base, heap, 0) == VerifyMembers(ty, n, src, p, heap, k) by {
      ZeroSlotsVerify(ty, n, src, base, heap, 0, k);
    }
    assert VerifyMembers(ty, n, src, p, heap, k) == VerifyMembers(ty, n, src, q, end, k + 1) by {
      VerifyMembersStep(ty, n, src, p, heap, k, ValidMember(q, end));
    }
    assert VerifyMembers(ty, n, src, q, end, k + 1) == VerifyMembers(ty, n, src, r, end, n) by {
      ZeroSlotsVerify(ty, n, src, base, end, k + 1, n);
    }
  }

  /** With the offender in place, the members pass the check and do not unpack. */
  lemma OffendingMembers(ty: Ty, n: nat, k: nat, src: seq<byte>, base: nat, heap: nat, end: nat)
    requires WellFormed(ty) && Fits(ty, n) && k < n && base + Offset(ty, n) < U32
    requires ZeroSlots(ty, n, src, base, 0, k) && ZeroSlots(ty, n, src, base, k + 1, n)
    requires Offset(ty, k) <= Offset(ty, n)
    requires EmbeddedVerify(MemberTy(ty, k), src, base + Offset(ty, k), heap)
          == ValidMember(base + Offset(ty, k + 1), end)
    requires EmbeddedUnpack(MemberTy(ty, k), src, base + Offset(ty, k), heap).BadMember?
    ensures VerifyMembers(ty, n, src, base, heap, 0) == ValidMember(base + Offset(ty, n), end)
    ensures UnpackMembers(ty, n, src, base, heap, []).BadMembers?
  {
    OffendersPass(ty, n, k, src, base, heap, end);
    if UnpackMembers(ty, n, src, base, heap, []).Members? {
      UnpackReaches(ty, n, k, src, base, heap, []);
    }
  }

  lemma GroupWitnessStep(ty: Ty, h: Head, src: seq<byte>, pos: nat, fixed: nat, end: nat)
    requires Group(ty) && !ty.Tuple? && ReadHeader(ty, src, pos) == h && h.Head?
    requires VerifyMembers(ty, h.count, src, h.fixed, h.heap, 0) == ValidMember(fixed, end)
    requires UnpackMembers(ty, h.count, src, h.fixed, h.heap, []).BadMembers?
    ensures Verify(ty, src, pos) == Valid(end) && Unpack(ty, src, pos).Err?
  {
  }

  lemma {:induction false} GroupOffends(ty: Ty, n: nat, k: nat, src: seq<byte>, pos: nat, base: nat, p: nat, heap: nat)
    requires WellFormed(ty) && HasArity(ty, n) && !ty.Tuple? && k < n && !ExactSlot(MemberTy(ty, k))
    requires ReadHeader(ty, src, pos) == Head(n, base, heap)
    requires Offending(ty, n, k, src, base, p, heap)
    ensures Verify(ty, src, pos) == Valid(heap + |WitnessHeap(MemberTy(ty, k))|)
    ensures Unpack(ty, src, pos).Err?
    decreases ty, 0, 0
  {
    var end := heap + |WitnessHeap(MemberTy(ty, k))|;
    MemberWellFormed(ty, k);
    OffenderAt(MemberTy(ty, k), src, p, heap);
    OffendingMembers(ty, n, k, src, base, heap, end);
    GroupWitnessStep(ty, Head(n, base, heap), src, pos, heap, end);
  }

  /** A tag that names no alternative passes the check. */
  lemma VariantWitnessStep(ty: Ty, src: seq<byte>, pos: nat)
    requires ty.Variant? && pos + 5 < U32
    requires ReadInt(src, pos, 1) == Number(|ty.alts|, pos + 1)
    requires ReadInt(src, pos + 1, 4) == Number(0, pos + 5)
    ensures Verify(ty, src, pos) == Valid(pos + 5) && Unpack(ty, src, pos).Err?
  {
  }

  lemma OptionWitnessStep(ty: Ty, src: seq<byte>, pos: nat, end: nat)
    requires ty.Opt? && pos + 4 < U32
    requires EmbeddedVerify(ty, src, pos, pos + 4) == ValidMember(pos + 4, end)
    requires EmbeddedUnpack(ty, src, pos, pos + 4).BadMember?
    ensures Verify(ty, src, pos) == Valid(end) && Unpack(ty, src, pos).Err?
  {
  }

  lemma {:induction false} GroupWitnessAt(ty: Ty, src: seq<byte>, pos: nat)
    requires WellFormed(ty) && Group(ty) && !Exact(ty)
    requires At(src, pos, Witness(ty)) && pos + |Witness(ty)| < U32
    ensures Verify(ty, src, pos) == Valid(pos + |Witness(ty)|) && Unpack(ty, src, pos).Err?
    decreases ty, 0, 1
  {
    var n, k := WitnessArity(ty), Offender(ty);
    var base := pos + |Header(ty, n)|;
    var p, heap := base + Offset(ty, k), base + Offset(ty, n);
    GroupWitnessBytes(ty, src, pos, n, k, base, p, heap);
    assert ReadHeader(ty, src, pos) == Head(n, base, heap) by {
      ReadHeaderAt(ty, n, src, pos);
    }
    GroupOffends(ty, n, k, src, pos, base, p, heap);
  }

  lemma {:induction false} OptionWitnessAt(ty: Ty, src: seq<byte>, pos: nat)
    requires WellFormed(ty) && ty.Opt? && !Exact(ty)
    requires At(src, pos, Witness(ty)) && pos + |Witness(ty)| < U32
    ensures Verify(ty, src, pos) == Valid(pos + |Witness(ty)|) && Unpack(ty, src, pos).Err?
    decreases ty, 0, 1
  {
    AtConcat(src, pos, WitnessSlot(ty, 4), WitnessHeap(ty));
    OffenderAt(ty, src, pos, pos + 4);
    OptionWitnessStep(ty, src, pos, pos + |Witness(ty)|);
  }

  lemma VariantWitnessAt(ty: Ty, src: seq<byte>, pos: nat)
    requires WellFormed(ty) && ty.Variant?
    requires At(src, pos, Witness(ty)) && pos + |Witness(ty)| < U32
    ensures Verify(ty, src, pos) == Valid(pos + |Witness(ty)|) && Unpack(ty, src, pos).Err?
  {
    Pow256Values();
    AtConcat(src, pos, LittleEndian(|ty.alts|, 1), LittleEndian(0, 4));
    ReadIntAt(src, pos, |ty.alts|, 1);
    ReadIntAt(src, pos + 1, 0, 4);
    VariantWitnessStep(ty, src, pos);
  }

  /** Wherever they stand, the witness bytes of an inexact type pass the check and do not unpack. */
  lemma {:induction false} WitnessAt(ty: Ty, src: seq<byte>, pos: nat)
    requires WellFormed(ty) && !Exact(ty)
    requires At(src, pos, Witness(ty)) && pos + |Witness(ty)| < U32
    ensures Verify(ty, src, pos) == Valid(pos + |Witness(ty)|) && Unpack(ty, src, pos).Err?
    decreases ty, 1
  {
    if Group(ty) {
      GroupWitnessAt(ty, src, pos);
    } else if ty.Opt? {
      OptionWitnessAt(ty, src, pos);
    } else {
      VariantWitnessAt(ty, src, pos);
    }
  }

  /**
   The check is as strong as unpacking for exactly the types that Exact accepts: for those, data that
   passes unpacks; for any other, some data passes and does not unpack.
   */
  lemma VerifyIsExactIff(ty: Ty)
    requires WellFormed(ty) && (Exact(ty) || |Witness(ty)| < U32)
    ensures Exact(ty) <==> forall src, pos :: Verify(ty, src, pos).Valid? ==> Unpack(ty, src, pos).Ok?
  {
    if Exact(ty) {
      forall src, pos | Verify(ty, src, pos).Valid? ensures Unpack(ty, src, pos).Ok? {
        VerifyImpliesUnpack(ty, src, pos);
      }
    } else {
      WitnessAt(ty, Witness(ty), 0);
    }
  }
}
