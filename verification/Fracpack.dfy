/**
 The fracpack format: the types that can be packed, the meaning of the format as a function
 from values to bytes, and the reader as a function from bytes to values.
 */
module Fracpack {
  import opened Bytes
  import Utf8

  // ----- the type universe -----

  /** Signed integers and floats travel as their bit pattern, so a scalar is known by its width. */
  datatype Ty =
    | Scalar(size: nat)
    | Bool
    | Blob
    | Text
    | Opt(elem: Ty)
    | Vec(elem: Ty)
    | Array(elem: Ty, len: nat)
    | Tuple(elems: seq<Ty>)
    | Struct(elems: seq<Ty>, extensible: bool)
    | Variant(alts: seq<Ty>)

  datatype Val =
    | VInt(n: nat)
    | VBytes(b: seq<byte>)
    | VNone
    | VSome(v: Val)
    | VList(vs: seq<Val>)
    | VAlt(index: nat, alt: Val)

  /** Types whose value is a run of members: slots first, then the data the slots point to. */
  predicate Group(ty: Ty) {
    ty.Vec? || ty.Array? || ty.Tuple? || ty.Struct?
  }

  /** A group of this type can have n members (a vector can have any number). */
  predicate Fits(ty: Ty, n: nat) {
    && Group(ty)
    && (ty.Array? ==> n <= ty.len)
    && (ty.Tuple? || ty.Struct? ==> n <= |ty.elems|)
  }

  function MemberTy(ty: Ty, i: nat): (r: Ty)
    requires Fits(ty, i + 1)
    ensures r < ty
  {
    if ty.Vec? || ty.Array? then ty.elem else ty.elems[i]
  }

  predicate Variable(ty: Ty)
    decreases ty
  {
    match ty
    case Scalar(_) => false
    case Bool => false
    case Array(elem, _) => Variable(elem)
    case Struct(elems, extensible) => extensible || VariableFrom(elems, 0)
    case _ => true
  }

  /** Some member type at index i or later is variable-size. */
  predicate VariableFrom(elems: seq<Ty>, i: nat)
    decreases elems, if i <= |elems| then |elems| - i else 0
  {
    i < |elems| && (Variable(elems[i]) || VariableFrom(elems, i + 1))
  }

  /** Bytes that a member of this type occupies in its group's fixed part. */
  function FixedSize(ty: Ty): nat
    decreases ty, 1
  {
    match ty
    case Scalar(size) => size
    case Bool => 1
    case Array(elem, len) => if Variable(elem) then 4 else Times(len, FixedSize(elem))
    case Struct(elems, _) => if Variable(ty) then 4 else Offset(ty, |elems|)
    case _ => 4
  }

  /** Where the i-th member's slot starts within the fixed part. */
  function Offset(ty: Ty, i: nat): nat
    requires Fits(ty, i)
    decreases ty, 0, i
  {
    if i == 0 then 0 else Offset(ty, i - 1) + FixedSize(MemberTy(ty, i - 1))
  }

  /** Types whose empty value is written as a zero offset. */
  predicate Container(ty: Ty) {
    ty.Blob? || ty.Text? || ty.Vec?
  }

  predicate IsEmptyContainer(ty: Ty, v: Val) {
    match v
    case VBytes(b) => (ty.Blob? || ty.Text?) && b == []
    case VList(vs) => ty.Vec? && vs == []
    case _ => false
  }

  // ----- well-formed types, values of a type -----

  /** What the packer asserts of a type, plus the element width that the vector reader divides by. */
  predicate WellFormed(ty: Ty)
    decreases ty
  {
    match ty
    case Scalar(size) => size in {1, 2, 4, 8}
    case Opt(elem) => WellFormed(elem)
    case Vec(elem) => WellFormed(elem) && FixedSize(elem) != 0
    case Array(elem, _) => WellFormed(elem)
    case Tuple(elems) => WellFormedFrom(elems, 0) && Offset(ty, |elems|) < U16
    case Struct(elems, _) => WellFormedFrom(elems, 0) && Offset(ty, |elems|) < U16
    case Variant(alts) => WellFormedFrom(alts, 0) && |alts| < 256
    case _ => true
  }

  predicate WellFormedFrom(elems: seq<Ty>, i: nat)
    decreases elems, if i <= |elems| then |elems| - i else 0
  {
    i < |elems| ==> WellFormed(elems[i]) && WellFormedFrom(elems, i + 1)
  }

  ghost predicate HasType(ty: Ty, v: Val)
    decreases ty, 1
  {
    match v
    case VInt(n) => (ty.Bool? && n < 2) || (ty.Scalar? && n < Pow256(ty.size))
    case VBytes(b) => ty.Blob? || (ty.Text? && Utf8.IsUtf8(b))
    case VNone => ty.Opt?
    case VSome(w) => ty.Opt? && HasType(ty.elem, w)
    case VAlt(index, alt) => ty.Variant? && index < |ty.alts| && HasType(ty.alts[index], alt)
    case VList(vs) => HasArity(ty, |vs|) && MembersHaveType(ty, vs, 0)
  }

  /** A complete group of this type has n members. */
  predicate HasArity(ty: Ty, n: nat) {
    ty.Vec? || (ty.Array? && n == ty.len) || ((ty.Tuple? || ty.Struct?) && n == |ty.elems|)
  }

  ghost predicate MembersHaveType(ty: Ty, vs: seq<Val>, i: nat)
    requires Fits(ty, |vs|) && i <= |vs|
    decreases ty, 0, |vs| - i
  {
    i < |vs| ==> HasType(MemberTy(ty, i), vs[i]) && MembersHaveType(ty, vs, i + 1)
  }

  // ----- the format: bytes of a value -----

  /** Bytes of v packed on its own. They do not depend on where they are placed. */
  function Packed(ty: Ty, v: Val): seq<byte>
    decreases ty, 1
  {
    match v
    case VInt(n) => LittleEndian(n, if ty.Scalar? then ty.size else 1)
    case VBytes(b) => LittleEndian(|b|, 4) + b
    case VNone => if ty.Opt? then Slot(ty, v, 4) + Heap(ty, v) else []
    case VSome(_) => if ty.Opt? then Slot(ty, v, 4) + Heap(ty, v) else []
    case VAlt(index, alt) =>
      if ty.Variant? && index < |ty.alts| then
        var body := Packed(ty.alts[index], alt);
        LittleEndian(index, 1) + (LittleEndian(|body|, 4) + body)
      else []
    case VList(vs) =>
      if Fits(ty, |vs|) then
        Header(ty, |vs|) + Slots(ty, vs, 0, Offset(ty, |vs|)) + Heaps(ty, vs, 0)
      else []
  }

  function Header(ty: Ty, n: nat): seq<byte>
    requires Fits(ty, n)
  {
    match ty
    case Vec(_) => LittleEndian(Offset(ty, n), 4)
    case Tuple(_) => LittleEndian(Offset(ty, n), 2)
    case Struct(_, extensible) => if extensible then LittleEndian(Offset(ty, n), 2) else []
    case _ => []
  }

  /** The slot of a member whose out-of-line data starts d bytes after the slot does. */
  function Slot(ty: Ty, v: Val, d: nat): seq<byte>
    decreases ty, if ty.Opt? then 0 else 2
  {
    if ty.Opt? then
      if v.VNone? then LittleEndian(1, 4)
      else if v.VSome? && IsEmptyContainer(ty.elem, v.v) then LittleEndian(0, 4)
      else LittleEndian(d, 4)
    else if Variable(ty) then
      if IsEmptyContainer(ty, v) then LittleEndian(0, 4) else LittleEndian(d, 4)
    else Packed(ty, v)
  }

  /** The out-of-line data of a member. */
  function Heap(ty: Ty, v: Val): seq<byte>
    decreases ty, if ty.Opt? then 0 else 2
  {
    if ty.Opt? then
      if v.VSome? && !IsEmptyContainer(ty.elem, v.v) then Packed(ty.elem, v.v) else []
    else if Variable(ty) && !IsEmptyContainer(ty, v) then Packed(ty, v)
    else []
  }

  /** Slots of members i and on; the first out-of-line datum is d bytes after slot i. */
  function Slots(ty: Ty, vs: seq<Val>, i: nat, d: int): seq<byte>
    requires Fits(ty, |vs|) && i <= |vs|
    decreases ty, 0, |vs| - i
  {
    if i == |vs| then []
    else
      var m := MemberTy(ty, i);
      Slot(m, vs[i], if d < 0 then 0 else d) + Slots(ty, vs, i + 1, d - FixedSize(m) + |Heap(m, vs[i])|)
  }

  function Heaps(ty: Ty, vs: seq<Val>, i: nat): seq<byte>
    requires Fits(ty, |vs|) && i <= |vs|
    decreases ty, 0, |vs| - i
  {
    if i == |vs| then [] else Heap(MemberTy(ty, i), vs[i]) + Heaps(ty, vs, i + 1)
  }

  // ----- the reader -----

  datatype Error = ReadPastEnd | BadOffset | BadSize | BadUTF8 | BadEnumIndex | DivideByZero

  /** An unsigned integer and the cursor after it; reading can only fail by running past the end. */
  datatype Number = Number(n: nat, next: nat) | NoNumber

  datatype Chunk = Chunk(b: seq<byte>, next: nat) | NoChunk

  /** Start of a group: how many members to read, and the cursors into slots and out-of-line data. */
  datatype Head = Head(count: nat, fixed: nat, heap: nat) | BadHead(error: Error)

  datatype Unpacked = Ok(v: Val, next: nat) | Err(error: Error)

  datatype Member = Member(v: Val, fixed: nat, heap: nat) | BadMember(error: Error)

  datatype Members = Members(vs: seq<Val>, fixed: nat, heap: nat) | BadMembers(error: Error)

  function ReadInt(src: seq<byte>, pos: nat, size: nat): Number {
    if pos + size <= |src| then Number(FromLittleEndian(src[pos..pos + size]), Wrap32(pos + size)) else NoNumber
  }

  function ReadBytes(src: seq<byte>, pos: nat): Chunk {
    var len := ReadInt(src, pos, 4);
    if len.NoNumber? then NoChunk
    else
      var end := Wrap32(len.next + len.n);
      if len.next <= end <= |src| then Chunk(src[len.next..end], end) else NoChunk
  }

  function ReadHeader(ty: Ty, src: seq<byte>, pos: nat): (h: Head)
    requires Group(ty)
    ensures h.Head? ==> Fits(ty, h.count) && HasArity(ty, h.count)
  {
    if ty.Vec? then VecHeader(FixedSize(ty.elem), ReadInt(src, pos, 4))
    else if ty.Array? then ArrayHeader(FixedSize(ty.elem), ty.len, pos)
    else if ty.Tuple? || ty.extensible then StructHeader(|ty.elems|, ReadInt(src, pos, 2))
    else StructHeader(|ty.elems|, Number(Offset(ty, |ty.elems|), pos))
  }

  function VecHeader(size: nat, bytes: Number): Head {
    if bytes.NoNumber? then BadHead(ReadPastEnd)
    else if size == 0 then BadHead(DivideByZero)
    else if Remainder(bytes.n, size) != 0 then BadHead(BadSize)
    else if bytes.next + bytes.n >= U32 then BadHead(ReadPastEnd)
    else Head(Quotient(bytes.n, size), bytes.next, bytes.next + bytes.n)
  }

  function ArrayHeader(size: nat, len: nat, pos: nat): Head {
    if pos + Times(len, size) >= U32 then BadHead(ReadPastEnd) else Head(len, pos, pos + Times(len, size))
  }

  function StructHeader(count: nat, bytes: Number): Head {
    if bytes.NoNumber? then BadHead(ReadPastEnd)
    else
      var heap := Wrap32(bytes.next + bytes.n);
      if heap < bytes.next then BadHead(BadOffset) else Head(count, bytes.next, heap)
  }

  function Unpack(ty: Ty, src: seq<byte>, pos: nat): Unpacked
    decreases ty, 1
  {
    if Group(ty) then
      var h := ReadHeader(ty, src, pos);
      if h.BadHead? then Err(h.error)
      else
        var r := UnpackMembers(ty, h.count, src, h.fixed, h.heap, []);
        if r.BadMembers? then Err(r.error) else Ok(VList(r.vs), r.heap)
    else if ty.Opt? then
      var r := EmbeddedUnpack(ty, src, pos, Wrap32(pos + 4));
      if r.BadMember? then Err(r.error) else Ok(r.v, r.heap)
    else if ty.Variant? then
      var index := ReadInt(src, pos, 1);
      var size := if index.Number? then ReadInt(src, index.next, 4) else NoNumber;
      if index.NoNumber? || size.NoNumber? then Err(ReadPastEnd)
      else if index.n >= |ty.alts| then Err(BadEnumIndex)
      else
        var r := Unpack(ty.alts[index.n], src, size.next);
        if r.Err? then r
        else if r.next != Wrap32(index.next + 4 + size.n) then Err(BadSize)
        else Ok(VAlt(index.n, r.v), r.next)
    else UnpackLeaf(ty, src, pos)
  }

  function UnpackLeaf(ty: Ty, src: seq<byte>, pos: nat): Unpacked
    requires ty.Scalar? || ty.Bool? || ty.Blob? || ty.Text?
  {
    if ty.Scalar? then
      var r := ReadInt(src, pos, ty.size);
      if r.NoNumber? then Err(ReadPastEnd) else Ok(VInt(r.n), r.next)
    else if ty.Bool? then
      var r := ReadInt(src, pos, 1);
      if r.NoNumber? then Err(ReadPastEnd) else Ok(VInt(if r.n != 0 then 1 else 0), r.next)
    else
      var r := ReadBytes(src, pos);
      if r.NoChunk? then Err(ReadPastEnd)
      else if ty.Text? && !Utf8.IsUtf8(r.b) then Err(BadUTF8)
      else Ok(VBytes(r.b), r.next)
  }

  /** Reads the remaining members of a group of n, after the ones in done. */
  function UnpackMembers(ty: Ty, n: nat, src: seq<byte>, fixed: nat, heap: nat, done: seq<Val>): Members
    requires Fits(ty, n) && |done| <= n
    decreases ty, 0, n - |done|
  {
    if |done| == n then Members(done, fixed, heap)
    else
      var r := EmbeddedUnpack(MemberTy(ty, |done|), src, fixed, heap);
      if r.BadMember? then BadMembers(r.error)
      else UnpackMembers(ty, n, src, r.fixed, r.heap, done + [r.v])
  }

  function EmbeddedUnpack(ty: Ty, src: seq<byte>, fixed: nat, heap: nat): Member
    decreases ty, if ty.Opt? then 0 else 3
  {
    if ty.Opt? then
      var offset := ReadInt(src, fixed, 4);
      if offset.NoNumber? then BadMember(ReadPastEnd)
      else if offset.n == 1 then Member(VNone, offset.next, heap)
      else
        var r := EmbeddedVariableUnpack(ty.elem, src, fixed, heap);
        if r.BadMember? then r else Member(VSome(r.v), r.fixed, r.heap)
    else if Variable(ty) then EmbeddedVariableUnpack(ty, src, fixed, heap)
    else
      var r := Unpack(ty, src, fixed);
      if r.Err? then BadMember(r.error) else Member(r.v, r.next, heap)
  }

  function EmbeddedVariableUnpack(ty: Ty, src: seq<byte>, fixed: nat, heap: nat): Member
    decreases ty, 2
  {
    var offset := ReadInt(src, fixed, 4);
    if offset.NoNumber? then BadMember(ReadPastEnd)
    else if offset.n == 0 then
      if Container(ty) then Member(EmptyContainer(ty), offset.next, heap) else BadMember(BadOffset)
    else if heap != fixed + offset.n then BadMember(BadOffset)
    else
      var r := Unpack(ty, src, heap);
      if r.Err? then BadMember(r.error) else Member(r.v, offset.next, r.next)
  }

  function EmptyContainer(ty: Ty): Val {
    if ty.Vec? then VList([]) else VBytes([])
  }
}
