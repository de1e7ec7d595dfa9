/** The reading and checking loops over the members of a list, array, tuple or struct. */
module FracpackRead {
  import opened Bytes
  import opened Fracpack
  import opened FracpackRoundTrip
  import opened FracpackVerify

  /** Advances the fixed and the heap position member by member, and stops at the first error. */
  method ReadMembers(ty: Ty, n: nat, src: seq<byte>, fixed0: nat, heap0: nat) returns (r: Members)
    requires Fits(ty, n)
    ensures r == UnpackMembers(ty, n, src, fixed0, heap0, [])
  {
    var vs: seq<Val>, fixed, heap := [], fixed0, heap0;
    while |vs| < n
      invariant |vs| <= n
      invariant UnpackMembers(ty, n, src, fixed, heap, vs) == UnpackMembers(ty, n, src, fixed0, heap0, [])
    {
      var m := EmbeddedUnpack(MemberTy(ty, |vs|), src, fixed, heap);
      if m.BadMember? {
        return BadMembers(m.error);
      }
      vs, fixed, heap := vs + [m.v], m.fixed, m.heap;
    }
    r := Members(vs, fixed, heap);
  }

  method CheckMembers(ty: Ty, n: nat, src: seq<byte>, fixed0: nat, heap0: nat) returns (r: CheckedMember)
    requires Fits(ty, n)
    ensures r == VerifyMembers(ty, n, src, fixed0, heap0, 0)
  {
    var i, fixed, heap := 0, fixed0, heap0;
    while i < n
      invariant i <= n && VerifyMembers(ty, n, src, fixed, heap, i) == VerifyMembers(ty, n, src, fixed0, heap0, 0)
    {
      var m := EmbeddedVerify(MemberTy(ty, i), src, fixed, heap);
      if m.InvalidMember? {
        return m;
      }
      i, fixed, heap := i + 1, m.fixed, m.heap;
    }
    r := ValidMember(fixed, heap);
  }

  /** Reads a list, array, tuple or struct; whatever was packed there comes back. */
  method ReadGroup(ty: Ty, src: seq<byte>, pos: nat) returns (r: Unpacked)
    requires Group(ty)
    ensures r == Unpack(ty, src, pos)
    ensures WellFormed(ty) ==>
              forall vs :: PackedAt(ty, vs, src, pos) ==> r == Ok(VList(vs), pos + |Packed(ty, VList(vs))|)
  {
    if WellFormed(ty) {
      forall vs | PackedAt(ty, vs, src, pos)
        ensures Unpack(ty, src, pos) == Ok(VList(vs), pos + |Packed(ty, VList(vs))|)
      {
        UnpackAt(ty, VList(vs), src, pos);
      }
    }
    var h := ReadHeader(ty, src, pos);
    if h.BadHead? {
      return Err(h.error);
    }
    var members := ReadMembers(ty, h.count, src, h.fixed, h.heap);
    r := if members.BadMembers? then Err(members.error) else Ok(VList(members.vs), members.heap);
  }

  /** The bytes of these members stand there, within 32 bits. */
  ghost predicate PackedAt(ty: Ty, vs: seq<Val>, src: seq<byte>, pos: nat) {
    HasType(ty, VList(vs)) && At(src, pos, Packed(ty, VList(vs))) && pos + |Packed(ty, VList(vs))| < U32
  }

  /** Checks one: passes whatever reads, and nothing else if the type is exact. */
  method CheckGroup(ty: Ty, src: seq<byte>, pos: nat) returns (c: Checked)
    requires Group(ty)
    ensures c == Verify(ty, src, pos) && Covers(c, Unpack(ty, src, pos))
    ensures Exact(ty) ==> (c.Valid? <==> Unpack(ty, src, pos).Ok?)
  {
    UnpackImpliesVerify(ty, src, pos);
    if Exact(ty) && Verify(ty, src, pos).Valid? {
      VerifyImpliesUnpack(ty, src, pos);
    }
    if ty.Tuple? {
      var r := ReadGroup(ty, src, pos);
      return if r.Err? then Invalid(r.error) else Valid(r.next);
    }
    var h := ReadHeader(ty, src, pos);
    if h.BadHead? {
      return Invalid(h.error);
    }
    var members := CheckMembers(ty, h.count, src, h.fixed, h.heap);
    c := if members.InvalidMember? then Invalid(members.error) else Valid(members.heap);
  }
}
