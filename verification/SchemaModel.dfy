/** Schemas as graphs of types, and the plain recursive definition of their layouts. */
module SchemaModel {
  import opened Bytes

  /** Types refer to others by number, aliases already followed. */
  datatype Type =
    | Object(members: seq<nat>)
    | Struct(members: seq<nat>)
    | Tuple(members: seq<nat>)
    | Int(bits: nat)
    | Float(exp: nat, mantissa: nat)
    | Array(elem: nat, len: nat)
    | Option(elem: nat)
    | List(elem: nat)
    | FracPack(elem: nat)
    | Variant(members: seq<nat>)
    | Custom(elem: nat)

  type Schema = seq<Type>

  /** The types that must be laid out before this one. */
  function Strong(t: Type): seq<nat> {
    match t
    case Object(ms) => ms
    case Struct(ms) => ms
    case Tuple(ms) => ms
    case Array(e, _) => [e]
    case FracPack(e) => [e]
    case Custom(e) => [e]
    case _ => []
  }

  /** The types that are only referred to. */
  function Weak(t: Type): seq<nat> {
    match t
    case Option(e) => [e]
    case List(e) => [e]
    case Variant(ms) => ms
    case _ => []
  }

  /** Lists, options, variants and scalars are laid out without looking at their children. */
  predicate Terminal(t: Type) {
    t.Int? || t.Float? || t.Option? || t.List? || t.Variant?
  }

  ghost predicate Closed(g: Schema) {
    forall v, c :: 0 <= v < |g| && (c in Strong(g[v]) || c in Weak(g[v])) ==> c < |g|
  }

  // ----- paths -----

  ghost predicate StrongPath(g: Schema, p: seq<nat>) {
    |p| >= 2 && (forall i :: 0 <= i < |p| - 1 ==> p[i] < |g| && p[i + 1] in Strong(g[p[i]]))
  }

  /** u needs w, directly or not. */
  ghost predicate Needs(g: Schema, u: nat, w: nat) {
    exists p :: StrongPath(g, p) && p[0] == u && p[|p| - 1] == w
  }

  lemma NeedsChild(g: Schema, u: nat, c: nat)
    requires u < |g| && c in Strong(g[u])
    ensures Needs(g, u, c)
  {
    var p := [u, c];
    assert StrongPath(g, p);
  }

  lemma NeedsStep(g: Schema, u: nat, v: nat, c: nat)
    requires Needs(g, u, v) && v < |g| && c in Strong(g[v])
    ensures Needs(g, u, c)
  {
    var p :| StrongPath(g, p) && p[0] == u && p[|p| - 1] == v;
    var q := p + [c];
    forall i | 0 <= i < |q| - 1
      ensures q[i] < |g| && q[i + 1] in Strong(g[q[i]])
    {
      if i < |p| - 1 {
        assert q[i] == p[i] && q[i + 1] == p[i + 1];
      }
    }
    assert StrongPath(g, q);
  }

  /** A path of edges of either kind that starts at a root. */
  ghost predicate RootPath(g: Schema, roots: seq<nat>, p: seq<nat>) {
    |p| >= 1 && p[0] in roots &&
    (forall i :: 0 <= i < |p| - 1 ==> p[i] < |g| && (p[i + 1] in Strong(g[p[i]]) || p[i + 1] in Weak(g[p[i]])))
  }

  ghost predicate Reachable(g: Schema, roots: seq<nat>, v: nat) {
    exists p :: RootPath(g, roots, p) && p[|p| - 1] == v
  }

  lemma ReachableRoot(g: Schema, roots: seq<nat>, v: nat)
    requires v in roots
    ensures Reachable(g, roots, v)
  {
    assert RootPath(g, roots, [v]) && [v][|[v]| - 1] == v;
  }

  lemma ReachableChild(g: Schema, roots: seq<nat>, v: nat, c: nat)
    requires Reachable(g, roots, v) && v < |g| && (c in Strong(g[v]) || c in Weak(g[v]))
    ensures Reachable(g, roots, c)
  {
    var p :| RootPath(g, roots, p) && p[|p| - 1] == v;
    var q := p + [c];
    forall i | 0 <= i < |q| - 1
      ensures q[i] < |g| && (q[i + 1] in Strong(g[q[i]]) || q[i + 1] in Weak(g[q[i]]))
    {
      if i < |p| - 1 {
        assert q[i] == p[i] && q[i + 1] == p[i + 1];
      }
    }
    assert RootPath(g, roots, q);
  }

  // ----- layouts -----

  datatype Kind = Scalar | StructKind | ObjectKind | Container | ArrayKind | VariantKind | Optional | Nested

  /** A member at its offset in the fixed part; an optional member refers to the type inside the option. */
  datatype Member = Member(offset: nat, optional: bool, target: nat)

  datatype Compiled = Compiled(kind: Kind, variable: bool, size: nat, children: seq<Member>)

  /** The fixed part so far; too large once a member would start beyond 16 bits. */
  datatype Part = TooLarge | Part(size: nat, variable: bool, members: seq<Member>)

  /** Adds the member c, laid out as m, to the fixed part. Options are stored in place of a pointer. */
  function AddMember(part: Part, c: nat, m: Compiled): Part
    requires part.Part?
  {
    if part.size > 65535 then TooLarge
    else
      var optional := m.kind == Optional && m.children != [];
      var target := if optional then m.children[0].target else c;
      Part(Wrap32(part.size + (if optional || m.variable then 4 else m.size)), part.variable || m.variable,
           part.members + [Member(part.size, optional, target)])
  }

  /** The members one after the other, given the layouts of their types. */
  function AddMembers(part: Part, members: seq<nat>, layouts: seq<Compiled>): Part
    requires |members| == |layouts|
    decreases |members|
  {
    if part.TooLarge? || members == [] then part
    else AddMembers(AddMember(part, members[0], layouts[0]), members[1..], layouts[1..])
  }

  datatype Laid = NotLaid | Oversized | Laid(compiled: Compiled)

  function FromPart(kind: Kind, part: Part): Laid {
    if part.TooLarge? then Oversized else Laid(Compiled(kind, part.variable, part.size, part.members))
  }

  function Plain(kind: Kind, targets: seq<nat>): Compiled {
    Compiled(kind, true, 0, seq(|targets|, i requires 0 <= i < |targets| => Member(0, false, targets[i])))
  }

  /** The layout of a type that needs no other, and of one from those of the needed types. */
  function TerminalLayout(t: Type): Compiled
    requires Terminal(t)
  {
    match t
    case Int(bits) => Compiled(Scalar, false, Wrap32(bits + 7) / 8, [])
    case Float(exp, mantissa) => Compiled(Scalar, false, Wrap32(exp + mantissa + 7) / 8, [])
    case Option(e) => Plain(Optional, [e])
    case List(e) => Plain(Container, [e])
    case Variant(ms) => Plain(VariantKind, ms)
  }

  function Finish(t: Type, layouts: seq<Compiled>): Laid
    requires !Terminal(t) && |layouts| == |Strong(t)|
  {
    match t
    case Object(ms) => FromPart(ObjectKind, AddMembers(Part(0, true, []), ms, layouts))
    case Struct(ms) => FromPart(StructKind, AddMembers(Part(0, false, []), ms, layouts))
    case Tuple(ms) => FromPart(ObjectKind, AddMembers(Part(0, true, []), ms, layouts))
    case Array(e, len) => Repeat(FromPart(ArrayKind, AddMembers(Part(0, false, []), [e], layouts)), len)
    case FracPack(e) => Laid(Plain(Nested, [e]))
    case Custom(e) => Laid(layouts[0])
  }

  function Repeat(l: Laid, len: nat): Laid {
    if l.Laid? then Laid(l.compiled.(size := Wrap32(l.compiled.size * len))) else l
  }

  datatype Layouts = Missing | Layouts(layouts: seq<Compiled>)

  /** Plain recursion over the needed types, to a given depth. */
  ghost function Layout(g: Schema, v: nat, depth: nat): Laid
    decreases depth, 0
  {
    if depth == 0 || v >= |g| then NotLaid
    else if Terminal(g[v]) then Laid(TerminalLayout(g[v]))
    else
      var needed := LayoutsOf(g, Strong(g[v]), depth - 1);
      if needed.Missing? || |needed.layouts| != |Strong(g[v])| then NotLaid else Finish(g[v], needed.layouts)
  }

  ghost function LayoutsOf(g: Schema, vs: seq<nat>, depth: nat): Layouts
    decreases depth, 1, |vs|
  {
    if vs == [] then Layouts([])
    else
      var first, rest := Layout(g, vs[0], depth), LayoutsOf(g, vs[1..], depth);
      if first.Laid? && rest.Layouts? then Layouts([first.compiled] + rest.layouts) else Missing
  }

  lemma {:induction false} LayoutsAre(g: Schema, vs: seq<nat>, depth: nat, cs: seq<Compiled>)
    requires |cs| == |vs| && forall i :: 0 <= i < |vs| ==> Layout(g, vs[i], depth) == Laid(cs[i])
    ensures LayoutsOf(g, vs, depth) == Layouts(cs)
    decreases |vs|
  {
    if vs != [] {
      LayoutsAre(g, vs[1..], depth, cs[1..]);
      assert cs == [cs[0]] + cs[1..];
    }
  }

  lemma {:induction false} LayoutsStable(g: Schema, vs: seq<nat>, d: nat, d': nat)
    requires d <= d' && LayoutsOf(g, vs, d).Layouts?
    ensures LayoutsOf(g, vs, d') == LayoutsOf(g, vs, d)
    decreases d, 1, |vs|
  {
    if vs != [] {
      LayoutStable(g, vs[0], d, d');
      LayoutsStable(g, vs[1..], d, d');
    }
  }

  /** Going deeper does not change a layout that is found. */
  lemma {:induction false} LayoutStable(g: Schema, v: nat, d: nat, d': nat)
    requires d <= d' && Layout(g, v, d).Laid?
    ensures Layout(g, v, d') == Layout(g, v, d)
    decreases d, 0
  {
    if !Terminal(g[v]) {
      LayoutsStable(g, Strong(g[v]), d - 1, d' - 1);
    }
  }
}
