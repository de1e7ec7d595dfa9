/** The compiled layouts are those of the packed format. */
module SchemaFormat {
  import opened Bytes
  import opened SchemaModel
  import opened SchemaDfs
  import Format = Fracpack

  // ----- which packed type a schema type stands for -----

  /** The fewest whole bytes that hold this many bits; a single bit is a boolean. */
  predicate HoldsBits(ty: Format.Ty, bits: nat) {
    || (ty.Scalar? && bits + 7 < U32 && bits <= 8 * ty.size < bits + 8)
    || (ty.Bool? && bits == 1)
  }

  ghost predicate RendersAll(g: Schema, vs: seq<nat>, tys: seq<Format.Ty>, depth: nat)
    decreases depth, 1
  {
    |vs| == |tys| && forall i :: 0 <= i < |vs| ==> Renders(g, vs[i], tys[i], depth)
  }

  /**
   ty is the packed form of type v. Objects and tuples can grow, structs cannot; what a list, an option or a
   variant holds is out of line and has no part in the layout.
   */
  ghost predicate Renders(g: Schema, v: nat, ty: Format.Ty, depth: nat)
    decreases depth, 0
  {
    depth > 0 && v < |g| && match g[v]
    case Int(bits) => HoldsBits(ty, bits)
    case Float(exp, mantissa) => HoldsBits(ty, exp + mantissa)
    case Option(_) => ty.Opt?
    case List(_) => Format.Container(ty)
    case Variant(_) => ty.Variant?
    case FracPack(_) => ty.Blob?
    case Custom(e) => Renders(g, e, ty, depth - 1)
    case Array(e, len) => ty.Array? && ty.len == len && Renders(g, e, ty.elem, depth - 1)
    case Struct(ms) => ty.Struct? && !ty.extensible && RendersAll(g, ms, ty.elems, depth - 1)
    case Object(ms) => ty.Struct? && ty.extensible && RendersAll(g, ms, ty.elems, depth - 1)
    case Tuple(ms) => (ty.Tuple? || (ty.Struct? && ty.extensible)) && RendersAll(g, ms, ty.elems, depth - 1)
  }

  // ----- what the format says of a layout -----

  predicate Members(ty: Format.Ty) {
    ty.Struct? || ty.Tuple?
  }

  predicate KindMatches(kind: Kind, ty: Format.Ty) {
    match kind
    case Scalar => ty.Scalar? || ty.Bool?
    case StructKind => ty.Struct? && !ty.extensible
    case ObjectKind => ty.Tuple? || (ty.Struct? && ty.extensible)
    case Container => Format.Container(ty)
    case ArrayKind => ty.Array?
    case VariantKind => ty.Variant?
    case Optional => ty.Opt?
    case Nested => ty.Blob?
  }

  /** Offsets and sizes are those of the format, kept in 32 bits. */
  ghost predicate Agrees(c: Compiled, ty: Format.Ty) {
    && KindMatches(c.kind, ty)
    && c.variable == Format.Variable(ty)
    && (!Format.Variable(ty) ==> c.size == Wrap32(Format.FixedSize(ty)))
    && (ty.Opt? ==> c.children != [])
    && (ty.Array? ==> c.size == Wrap32(ty.len * Format.FixedSize(ty.elem)) && |c.children| == 1 &&
                      c.children[0].offset == 0 && c.children[0].optional == ty.elem.Opt?)
    && (Members(ty) ==> |c.children| == |ty.elems| && c.size == Wrap32(Format.Offset(ty, |ty.elems|)))
    && (Members(ty) ==> MembersPlaced(c.children, ty))
  }

  ghost predicate MembersPlaced(members: seq<Member>, ty: Format.Ty)
    requires Members(ty) && |members| <= |ty.elems|
  {
    forall i :: 0 <= i < |members| ==> MemberPlaced(members[i], ty, i)
  }

  ghost predicate MemberPlaced(m: Member, ty: Format.Ty, i: nat)
    requires Members(ty) && i < |ty.elems|
  {
    m.offset == Wrap32(Format.Offset(ty, i)) <= 65535 && m.optional == ty.elems[i].Opt?
  }

  /** Member i would start beyond what 16 bits can say. */
  ghost predicate Beyond(ty: Format.Ty, i: nat)
    requires Members(ty) && i < |ty.elems|
  {
    Wrap32(Format.Offset(ty, i)) > 65535
  }

  ghost predicate AgreeAll(cs: seq<Compiled>, tys: seq<Format.Ty>) {
    |cs| == |tys| && forall i :: 0 <= i < |cs| ==> Agrees(cs[i], tys[i])
  }

  lemma WrapSum(a: nat, x: nat, y: nat)
    requires Wrap32(x) == Wrap32(y)
    ensures Wrap32(Wrap32(a) + x) == Wrap32(a + y)
  {
    var p, q, r := a / 0x1_0000_0000, x / 0x1_0000_0000, y / 0x1_0000_0000;
    assert a + y == 0x1_0000_0000 * (p + r - q) + (Wrap32(a) + x);
    WrapShift(Wrap32(a) + x, p + r - q);
  }

  lemma WrapProduct(a: nat, n: nat)
    ensures Wrap32(Wrap32(a) * n) == Wrap32(a * n)
  {
    var q, r := a / 0x1_0000_0000, a % 0x1_0000_0000;
    assert a == 0x1_0000_0000 * q + r;
    assert a * n == 0x1_0000_0000 * (q * n) + r * n by {
      assert (0x1_0000_0000 * q + r) * n == 0x1_0000_0000 * (q * n) + r * n;
    }
    WrapShift(r * n, q * n);
  }

  lemma WrapShift(x: int, k: int)
    ensures Wrap32(0x1_0000_0000 * k + x) == Wrap32(x)
  {
  }

  /** The slot that a member takes: its own bytes, or a pointer. */
  lemma SlotWidth(m: Compiled, ty: Format.Ty)
    requires Agrees(m, ty)
    ensures var optional := m.kind == Optional && m.children != [];
            && optional == ty.Opt?
            && Wrap32(if optional || m.variable then 4 else m.size) == Wrap32(Format.FixedSize(ty))
  {
    if Format.Variable(ty) {
      PointerWidth(ty);
    }
  }

  lemma PointerWidth(ty: Format.Ty)
    requires Format.Variable(ty)
    ensures Format.FixedSize(ty) == 4
  {
  }

  lemma AddMemberFormat(part: Part, c: nat, m: Compiled, ty: Format.Ty, i: nat)
    requires part.Part? && Members(ty) && i < |ty.elems| && Agrees(m, ty.elems[i])
    requires part.size == Wrap32(Format.Offset(ty, i))
    ensures var r := AddMember(part, c, m);
            r.Part? ==>
              && r.size == Wrap32(Format.Offset(ty, i + 1))
              && r.variable == (part.variable || Format.Variable(ty.elems[i]))
              && |r.members| == |part.members| + 1 && r.members[..|part.members|] == part.members
              && MemberPlaced(r.members[|part.members|], ty, i)
  {
    SlotWidth(m, ty.elems[i]);
    var width := if (m.kind == Optional && m.children != []) || m.variable then 4 else m.size;
    WrapSum(Format.Offset(ty, i), width, Format.FixedSize(ty.elems[i]));
    assert Format.Offset(ty, i + 1) == Format.Offset(ty, i) + Format.FixedSize(Format.MemberTy(ty, i));
  }

  lemma {:induction false} AddMembersFormat(part: Part, ms: seq<nat>, cs: seq<Compiled>, ty: Format.Ty, i: nat)
    requires Members(ty) && |ms| == |cs| == |ty.elems| && i <= |ms| && AgreeAll(cs, ty.elems)
    requires part.Part? && part.size == Wrap32(Format.Offset(ty, i)) && |part.members| == i
    requires MembersPlaced(part.members, ty)
    ensures var r := AddMembers(part, ms[i..], cs[i..]);
            r.Part? ==>
              && r.size == Wrap32(Format.Offset(ty, |ms|))
              && r.variable == (part.variable || Format.VariableFrom(ty.elems, i))
              && |r.members| == |ms| && MembersPlaced(r.members, ty)
    ensures AddMembers(part, ms[i..], cs[i..]).TooLarge? ==> exists j :: i <= j < |ms| && Beyond(ty, j)
    decreases |ms| - i
  {
    if i < |ms| {
      AddMemberFormat(part, ms[i], cs[i], ty, i);
      var next := AddMember(part, ms[i], cs[i]);
      assert ms[i..][1..] == ms[i + 1..] && cs[i..][1..] == cs[i + 1..];
      if next.Part? {
        forall j | 0 <= j < i + 1
          ensures MemberPlaced(next.members[j], ty, j)
        {
          if j < i {
            assert next.members[j] == next.members[..i][j];
          }
        }
        AddMembersFormat(next, ms, cs, ty, i + 1);
      } else {
        assert Beyond(ty, i);
      }
    }
  }

  /** A group is too large exactly if one of its members would start beyond 16 bits. */
  lemma GroupTooLargeIff(variable: bool, ms: seq<nat>, cs: seq<Compiled>, ty: Format.Ty)
    requires Members(ty) && |ms| == |cs| == |ty.elems| && AgreeAll(cs, ty.elems)
    ensures AddMembers(Part(0, variable, []), ms, cs).TooLarge? <==> exists j :: 0 <= j < |ms| && Beyond(ty, j)
  {
    var r := AddMembers(Part(0, variable, []), ms, cs);
    assert ms[0..] == ms && cs[0..] == cs;
    AddMembersFormat(Part(0, variable, []), ms, cs, ty, 0);
    if r.Part? {
      forall j | 0 <= j < |ms|
        ensures !Beyond(ty, j)
      {
        assert MemberPlaced(r.members[j], ty, j);
      }
    }
  }

  lemma GroupFormat(kind: Kind, variable: bool, ms: seq<nat>, cs: seq<Compiled>, ty: Format.Ty, c: Compiled)
    requires Members(ty) && |ms| == |cs| == |ty.elems| && AgreeAll(cs, ty.elems) && KindMatches(kind, ty)
    requires variable == (ty.Tuple? || ty.extensible)
    requires FromPart(kind, AddMembers(Part(0, variable, []), ms, cs)) == Laid(c)
    ensures Agrees(c, ty)
  {
    assert ms[0..] == ms && cs[0..] == cs;
    AddMembersFormat(Part(0, variable, []), ms, cs, ty, 0);
  }

  lemma ArrayFormat(e: nat, len: nat, cs: seq<Compiled>, ty: Format.Ty, c: Compiled)
    requires ty.Array? && ty.len == len && |cs| == 1 && Agrees(cs[0], ty.elem)
    requires Finish(Array(e, len), cs) == Laid(c)
    ensures Agrees(c, ty)
  {
    var part := AddMember(Part(0, false, []), e, cs[0]);
    assert AddMembers(Part(0, false, []), [e], cs) == part by {
      assert [e][1..] == [] && cs[1..] == [];
    }
    SlotWidth(cs[0], ty.elem);
    WrapProduct(part.size, len);
    WrapProduct(Format.FixedSize(ty.elem), len);
    TimesIsProduct(len, Format.FixedSize(ty.elem));
  }

  lemma {:induction false} LayoutsEach(g: Schema, vs: seq<nat>, depth: nat, i: nat)
    requires LayoutsOf(g, vs, depth).Layouts? && i < |vs|
    ensures |LayoutsOf(g, vs, depth).layouts| == |vs|
    ensures Layout(g, vs[i], depth) == Laid(LayoutsOf(g, vs, depth).layouts[i])
    decreases |vs|
  {
    if |vs| > 1 {
      LayoutsEach(g, vs[1..], depth, if i > 0 then i - 1 else 0);
    }
  }

  lemma TerminalFormat(g: Schema, v: nat, ty: Format.Ty, d: nat)
    requires Renders(g, v, ty, d) && Terminal(g[v])
    ensures Agrees(TerminalLayout(g[v]), ty)
  {
  }

  ghost predicate ChildrenAgree(t: Type, cs: seq<Compiled>, ty: Format.Ty) {
    match t
    case Array(_, _) => ty.Array? && |cs| == 1 && Agrees(cs[0], ty.elem)
    case Custom(_) => |cs| == 1 && Agrees(cs[0], ty)
    case FracPack(_) => true
    case _ => Members(ty) && AgreeAll(cs, ty.elems)
  }

  lemma FinishFormat(g: Schema, v: nat, cs: seq<Compiled>, c: Compiled, ty: Format.Ty, d: nat)
    requires Renders(g, v, ty, d) && !Terminal(g[v]) && |cs| == |Strong(g[v])| && ChildrenAgree(g[v], cs, ty)
    requires Finish(g[v], cs) == Laid(c)
    ensures Agrees(c, ty)
  {
    match g[v]
    case FracPack(_) =>
    case Custom(_) =>
    case Array(e, len) => ArrayFormat(e, len, cs, ty, c);
    case Struct(ms) => GroupFormat(StructKind, false, ms, cs, ty, c);
    case Object(ms) => GroupFormat(ObjectKind, true, ms, cs, ty, c);
    case Tuple(ms) => GroupFormat(ObjectKind, true, ms, cs, ty, c);
  }

  /** Whatever is laid out agrees with the packed type it stands for. */
  lemma {:induction false} LayoutIsFormat(g: Schema, v: nat, depth: nat, c: Compiled, ty: Format.Ty, d: nat)
    requires Layout(g, v, depth) == Laid(c) && Renders(g, v, ty, d)
    ensures Agrees(c, ty)
    decreases depth, 0
  {
    if Terminal(g[v]) {
      TerminalFormat(g, v, ty, d);
    } else {
      var cs := LayoutsOf(g, Strong(g[v]), depth - 1).layouts;
      ChildrenFormat(g, v, depth - 1, cs, ty, d);
      FinishFormat(g, v, cs, c, ty, d);
    }
  }

  lemma {:induction false} ChildrenFormat(g: Schema, v: nat, depth: nat, cs: seq<Compiled>, ty: Format.Ty, d: nat)
    requires Renders(g, v, ty, d) && !Terminal(g[v])
    requires LayoutsOf(g, Strong(g[v]), depth) == Layouts(cs) && |cs| == |Strong(g[v])|
    ensures ChildrenAgree(g[v], cs, ty)
    decreases depth, 2
  {
    if g[v].Array? || g[v].Custom? {
      LayoutsEach(g, Strong(g[v]), depth, 0);
      LayoutIsFormat(g, g[v].elem, depth, cs[0], if g[v].Array? then ty.elem else ty, d - 1);
    } else if !g[v].FracPack? {
      MembersAgree(g, Strong(g[v]), depth, cs, ty.elems, d - 1);
    }
  }

  lemma {:induction false} MembersAgree(g: Schema, ms: seq<nat>, depth: nat, cs: seq<Compiled>, tys: seq<Format.Ty>,
                                        d: nat)
    requires LayoutsOf(g, ms, depth) == Layouts(cs) && |cs| == |ms| && RendersAll(g, ms, tys, d)
    ensures AgreeAll(cs, tys)
    decreases depth, 1
  {
    forall i | 0 <= i < |ms|
      ensures Agrees(cs[i], tys[i])
    {
      LayoutsEach(g, ms, depth, i);
      LayoutIsFormat(g, ms[i], depth, cs[i], tys[i], d);
    }
  }

  /** The same of every type that was compiled. */
  lemma CompiledIsFormat(g: Schema, roots: seq<nat>, types: map<nat, Entry>, v: nat, ty: Format.Ty, d: nat)
    requires AllLaid(g, roots, types) && Reachable(g, roots, v) && Renders(g, v, ty, d)
    ensures v in types && types[v].Done? && Agrees(types[v].compiled, ty)
  {
    assert v in types;
    var c := types[v].compiled;
    var depth: nat :| Layout(g, v, depth) == Laid(c);
    LayoutIsFormat(g, v, depth, c, ty, d);
  }

  /** Member i stands where the format puts it, if and only if that is below 2^32. */
  lemma OffsetExactIff(c: Compiled, ty: Format.Ty, i: nat)
    requires Agrees(c, ty) && Members(ty) && i < |ty.elems|
    ensures c.children[i].offset == Format.Offset(ty, i) <==> Format.Offset(ty, i) < U32
  {
    assert MemberPlaced(c.children[i], ty, i);
  }

  lemma SizeExactIff(c: Compiled, ty: Format.Ty)
    requires Agrees(c, ty) && !Format.Variable(ty)
    ensures c.size == Format.FixedSize(ty) <==> Format.FixedSize(ty) < U32
  {
  }

  /** 2^32 bytes in place are laid out as none: the byte behind them gets offset 0. */
  lemma HugeArrayWraps(g: Schema, len: nat)
    requires len == U32 && g == [SchemaModel.Struct([1, 2]), SchemaModel.Array(2, len), Int(8)]
    ensures Layout(g, 0, 3).Laid? && Layout(g, 0, 3).compiled.children[1] == Member(0, false, 2)
  {
    var one := Compiled(Kind.Scalar, false, 1, []);
    assert Layout(g, 2, 1) == Laid(one) && Layout(g, 2, 2) == Laid(one);
    LayoutsAre(g, [2], 1, [one]);
    var run := Compiled(ArrayKind, false, 0, [Member(0, false, 2)]);
    assert Layout(g, 1, 2) == Laid(run) by {
      assert [2][1..] == [] && [one][1..] == [];
      assert AddMembers(Part(0, false, []), [2], [one]) == Part(1, false, [Member(0, false, 2)]);
    }
    LayoutsAre(g, [1, 2], 2, [run, one]);
    var part := AddMember(Part(0, false, []), 1, run);
    assert part == Part(0, false, [Member(0, false, 1)]);
    assert [1, 2][1..] == [2] && [run, one][1..] == [one] && [2][1..] == [] && [one][1..] == [];
    assert AddMembers(part, [2], [one]) == AddMember(part, 2, one);
  }

  // ----- every laid-out type stands for a packed type -----

  predicate UsualWidths(g: Schema) {
    forall v :: 0 <= v < |g| ==>
      (g[v].Int? ==> g[v].bits + 7 < U32) && (g[v].Float? ==> g[v].exp + g[v].mantissa + 7 < U32)
  }

  ghost function TyOf(g: Schema, v: nat, depth: nat): Format.Ty
    decreases depth, 0
  {
    if depth == 0 || v >= |g| then Format.Bool
    else match g[v]
      case Int(bits) => Format.Scalar((bits + 7) / 8)
      case Float(exp, mantissa) => Format.Scalar((exp + mantissa + 7) / 8)
      case Option(_) => Format.Opt(Format.Bool)
      case List(_) => Format.Vec(Format.Bool)
      case Variant(_) => Format.Variant([])
      case FracPack(_) => Format.Blob
      case Custom(e) => TyOf(g, e, depth - 1)
      case Array(e, len) => Format.Array(TyOf(g, e, depth - 1), len)
      case Struct(ms) => Format.Struct(TysOf(g, ms, depth - 1), false)
      case Object(ms) => Format.Struct(TysOf(g, ms, depth - 1), true)
      case Tuple(ms) => Format.Tuple(TysOf(g, ms, depth - 1))
  }

  ghost function TysOf(g: Schema, vs: seq<nat>, depth: nat): (r: seq<Format.Ty>)
    ensures |r| == |vs| && forall i :: 0 <= i < |vs| ==> r[i] == TyOf(g, vs[i], depth)
    decreases depth, 1, |vs|
  {
    if vs == [] then [] else [TyOf(g, vs[0], depth)] + TysOf(g, vs[1..], depth)
  }

  lemma {:induction false} LaidOutRenders(g: Schema, v: nat, depth: nat)
    requires UsualWidths(g) && Layout(g, v, depth).Laid?
    ensures Renders(g, v, TyOf(g, v, depth), depth)
    decreases depth
  {
    if !Terminal(g[v]) {
      forall i | 0 <= i < |Strong(g[v])|
        ensures Renders(g, Strong(g[v])[i], TyOf(g, Strong(g[v])[i], depth - 1), depth - 1)
      {
        LayoutsEach(g, Strong(g[v]), depth - 1, i);
        LaidOutRenders(g, Strong(g[v])[i], depth - 1);
      }
      RenderStep(g, v, depth);
    }
  }

  lemma RenderStep(g: Schema, v: nat, depth: nat)
    requires depth > 0 && v < |g| && !Terminal(g[v])
    requires forall i :: 0 <= i < |Strong(g[v])| ==>
               Renders(g, Strong(g[v])[i], TyOf(g, Strong(g[v])[i], depth - 1), depth - 1)
    ensures Renders(g, v, TyOf(g, v, depth), depth)
  {
    var ms := Strong(g[v]);
    if g[v].Array? || g[v].Custom? {
      assert Renders(g, ms[0], TyOf(g, ms[0], depth - 1), depth - 1);
    } else if !g[v].FracPack? {
      var tys := TysOf(g, ms, depth - 1);
      assert RendersAll(g, ms, tys, depth - 1) by {
        forall i | 0 <= i < |ms|
          ensures Renders(g, ms[i], tys[i], depth - 1)
        {
        }
      }
    }
  }

  // ----- what members refer to -----

  /** Type v is an option of e, perhaps under custom names. */
  ghost predicate Wraps(g: Schema, v: nat, e: nat, depth: nat)
    decreases depth
  {
    depth > 0 && v < |g| && (g[v] == Option(e) || (g[v].Custom? && Wraps(g, g[v].elem, e, depth - 1)))
  }

  /** A member refers to its type, and an optional one to the type inside the option. */
  ghost predicate Refers(g: Schema, c: nat, m: Member, depth: nat) {
    && (m.optional ==> Wraps(g, c, m.target, depth))
    && (!m.optional ==> m.target == c && forall e :: !Wraps(g, c, e, depth))
  }

  lemma {:induction false} OptionLayout(g: Schema, v: nat, depth: nat, c: Compiled)
    requires Layout(g, v, depth) == Laid(c)
    ensures c.kind == Optional ==> |c.children| == 1 && Wraps(g, v, c.children[0].target, depth)
    ensures c.kind != Optional ==> forall e :: !Wraps(g, v, e, depth)
    decreases depth
  {
    if g[v].Custom? {
      var e := g[v].elem;
      LayoutsEach(g, [e], depth - 1, 0);
      OptionLayout(g, e, depth - 1, c);
    } else if g[v].Array? {
      var cs := LayoutsOf(g, Strong(g[v]), depth - 1).layouts;
      assert Finish(g[v], cs) == Laid(c);
    }
  }

  lemma {:induction false} AddedMembersRefer(g: Schema, part: Part, ms: seq<nat>, cs: seq<Compiled>, depth: nat, i: nat)
    requires |ms| == |cs| && i <= |ms| && forall k :: 0 <= k < |ms| ==> Layout(g, ms[k], depth) == Laid(cs[k])
    requires part.Part? && |part.members| == i && forall k :: 0 <= k < i ==> Refers(g, ms[k], part.members[k], depth)
    ensures var r := AddMembers(part, ms[i..], cs[i..]);
            r.Part? ==> |r.members| == |ms| && forall k :: 0 <= k < |ms| ==> Refers(g, ms[k], r.members[k], depth)
    decreases |ms| - i
  {
    if i < |ms| {
      OptionLayout(g, ms[i], depth, cs[i]);
      var next := AddMember(part, ms[i], cs[i]);
      assert ms[i..][1..] == ms[i + 1..] && cs[i..][1..] == cs[i + 1..];
      if next.Part? {
        assert Refers(g, ms[i], next.members[i], depth);
        AddedMembersRefer(g, next, ms, cs, depth, i + 1);
      }
    }
  }

  /** Member for member, a group's layout refers to the types that its members have. */
  lemma MembersRefer(g: Schema, v: nat, depth: nat, c: Compiled, ms: seq<nat>)
    requires Layout(g, v, depth) == Laid(c) && ms == Strong(g[v])
    requires g[v].Object? || g[v].Struct? || g[v].Tuple?
    ensures |c.children| == |ms| && forall k :: 0 <= k < |ms| ==> Refers(g, ms[k], c.children[k], depth - 1)
  {
    var cs := LayoutsOf(g, ms, depth - 1).layouts;
    forall k | 0 <= k < |ms|
      ensures Layout(g, ms[k], depth - 1) == Laid(cs[k])
    {
      LayoutsEach(g, ms, depth - 1, k);
    }
    assert ms[0..] == ms && cs[0..] == cs;
    AddedMembersRefer(g, Part(0, !g[v].Struct?, []), ms, cs, depth - 1, 0);
  }

  // ----- which references make a type contain itself -----

  /** A type that refers to itself has no finite layout, unless through a list, an option or a variant. */
  lemma SelfReference(g: Schema, v: nat)
    requires v < |g|
    ensures g[v].Object? || g[v].Struct? || g[v].Tuple? ==> (v in g[v].members ==> HasCycle(g, [v]))
    ensures g[v].Array? || g[v].FracPack? || g[v].Custom? ==> (g[v].elem == v ==> HasCycle(g, [v]))
    ensures g[v].Option? || g[v].List? || g[v].Variant? || g[v].Int? || g[v].Float? ==> !Needs(g, v, v)
  {
    ReachableRoot(g, [v], v);
    if v in Strong(g[v]) {
      NeedsChild(g, v, v);
    }
    if Terminal(g[v]) {
      forall p | |p| >= 2 && p[0] == v
        ensures !StrongPath(g, p)
      {
        assert p[0 + 1] !in Strong(g[p[0]]);
      }
    }
  }
}
