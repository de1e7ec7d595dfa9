/** Where the parameters and locals of a jitted function lie, relative to its frame pointer. */
module FrameLayout {

  /** Vectors take 16 bytes, everything else 8. */
  function Size(wide: bool): nat {
    if wide then 16 else 8
  }

  function Sizes(ws: seq<bool>): nat {
    if ws == [] then 0 else Sizes(ws[..|ws| - 1]) + Size(ws[|ws| - 1])
  }

  lemma {:induction false} SizesConcat(a: seq<bool>, b: seq<bool>)
    ensures Sizes(a + b) == Sizes(a) + Sizes(b)
  {
    if b == [] {
      assert a + b == a;
    } else {
      assert (a + b)[..|a + b| - 1] == a + b[..|b| - 1];
      SizesConcat(a, b[..|b| - 1]);
    }
  }

  // ----- parameters -----

  /** Parameters lie above the frame pointer, the last one lowest. */
  function ParamOffset(ws: seq<bool>, i: nat): nat
    requires i < |ws|
  {
    16 + Sizes(ws[i + 1..])
  }

  datatype Params = TooManyParams | Params(offsets: seq<nat>)

  method LayParams(ws: seq<bool>) returns (r: Params)
    ensures r.Params? ==>
              |r.offsets| == |ws| && forall i :: 0 <= i < |ws| ==> r.offsets[i] == ParamOffset(ws, i) <= 0x7fff_ffff
    ensures r == TooManyParams <==> exists i :: 0 <= i < |ws| && ParamOffset(ws, i) > 0x7fff_ffff
  {
    var current := 16;
    var offsets := seq(|ws|, _ => 0);
    var i := 0;
    while i < |ws|
      invariant i <= |ws| == |offsets| && current == 16 + Sizes(ws[|ws| - i..])
      invariant forall k :: |ws| - i <= k < |ws| ==> offsets[k] == ParamOffset(ws, k) <= 0x7fff_ffff
    {
      var k := |ws| - i - 1;
      assert ws[k + 1..] == ws[|ws| - i..];
      assert ParamOffset(ws, k) == current;
      if current > 0x7fff_ffff {
        return TooManyParams;
      }
      offsets := offsets[k := current];
      assert ws[k..] == [ws[k]] + ws[k + 1..];
      SizesConcat([ws[k]], ws[k + 1..]);
      assert Sizes([ws[k]]) == Size(ws[k]) by {
        assert [ws[k]][..0] == [];
      }
      current := current + Size(ws[k]);
      i := i + 1;
    }
    r := Params(offsets);
  }

  // ----- locals -----

  datatype Entry = Entry(count: nat, wide: bool)

  datatype Group = Group(end: nat, endOffset: int, elemSize: nat)

  /** Locals, and their bytes, in the first k entries. */
  function Total(es: seq<Entry>, k: nat): nat
    requires k <= |es|
  {
    if k == 0 then 0 else Total(es, k - 1) + es[k - 1].count
  }

  function Bytes(es: seq<Entry>, k: nat): nat
    requires k <= |es|
  {
    if k == 0 then 0 else Bytes(es, k - 1) + es[k - 1].count * Size(es[k - 1].wide)
  }

  datatype Offset = UnknownLocal | Offset(value: int)

  /** Goes through the locals one by one, each below the one before: j of the entry k are done, below bytes in all. */
  function Walk(es: seq<Entry>, k: nat, j: nat, index: nat, below: nat): Offset
    requires k < |es| ==> j <= es[k].count
    decreases |es| - k, if k < |es| then es[k].count - j else 0
  {
    if k >= |es| then UnknownLocal
    else if j == es[k].count then Walk(es, k + 1, 0, index, below)
    else if index == 0 then Offset(-(below + Size(es[k].wide)))
    else Walk(es, k, j + 1, index - 1, below + Size(es[k].wide))
  }

  /** The offset of a local, counting through all of them. */
  function LocalOffset(es: seq<Entry>, index: nat): Offset {
    Walk(es, 0, 0, index, 0)
  }

  /** The group for an entry: how many locals there are up to it, and how far down they reach. */
  function GroupOf(es: seq<Entry>, k: nat): Group
    requires k < |es|
  {
    Group(Total(es, k + 1), -(Bytes(es, k + 1) as int), Size(es[k].wide))
  }

  ghost predicate DescribesUpto(es: seq<Entry>, gs: seq<Group>, i: nat) {
    i <= |es| && |gs| == i && forall k :: 0 <= k < i ==> gs[k] == GroupOf(es, k)
  }

  ghost predicate Describes(es: seq<Entry>, gs: seq<Group>) {
    DescribesUpto(es, gs, |es|)
  }

  lemma {:induction false} Ascending(es: seq<Entry>, i: nat, j: nat)
    requires i <= j <= |es|
    ensures Total(es, i) <= Total(es, j) && Bytes(es, i) <= Bytes(es, j)
    decreases j
  {
    if i < j {
      Ascending(es, i, j - 1);
    }
  }

  lemma {:induction false} EightBytesEach(es: seq<Entry>, k: nat)
    requires k <= |es|
    ensures 8 * Total(es, k) <= Bytes(es, k)
  {
    if k > 0 {
      EightBytesEach(es, k - 1);
    }
  }

  datatype Locals = TooManyLocals | Locals(groups: seq<Group>)

  /** Fails just when the locals need more than 2^31 bytes; until then, nothing overflows 32 bits. */
  method LayLocals(es: seq<Entry>) returns (r: Locals)
    ensures r.Locals? <==> Bytes(es, |es|) <= 0x8000_0000
    ensures r.Locals? ==> Describes(es, r.groups)
  {
    var gs: seq<Group> := [];
    var offset, frameOffset: int, i := 0, 0, 0;
    while i < |es|
      invariant i <= |es| && offset == Total(es, i) && frameOffset == -(Bytes(es, i) as int)
      invariant -0x8000_0000 <= frameOffset && offset < 0x1_0000_0000 && DescribesUpto(es, gs, i)
    {
      Ascending(es, i + 1, |es|);
      EightBytesEach(es, i + 1);
      var size := es[i].count * Size(es[i].wide);
      if -0x8000_0000 + size > frameOffset {
        return TooManyLocals;
      }
      offset := offset + es[i].count;
      frameOffset := frameOffset - size;
      gs := gs + [Group(offset, frameOffset, Size(es[i].wide))];
      i := i + 1;
    }
    r := Locals(gs);
  }

  /** The group a local is in, found by its end. */
  method FindGroup(gs: seq<Group>, index: nat) returns (p: nat)
    requires forall i, j :: 0 <= i < j < |gs| ==> gs[i].end <= gs[j].end
    ensures p <= |gs| && (forall k :: 0 <= k < p ==> gs[k].end <= index)
    ensures (forall k :: p <= k < |gs| ==> index < gs[k].end)
  {
    p := 0;
    var n := |gs|;
    while n > 0
      invariant 0 <= n && p + n <= |gs|
      invariant forall k :: 0 <= k < p ==> gs[k].end <= index
      invariant forall k :: p + n <= k < |gs| ==> index < gs[k].end
    {
      var half := n / 2;
      if gs[p + half].end <= index {
        p, n := p + half + 1, n - half - 1;
      } else {
        n := half;
      }
    }
  }

  /** Looking a local up in the groups gives what counting through all locals gives. */
  method GetFrameOffset(ghost es: seq<Entry>, gs: seq<Group>, index: nat) returns (r: Offset)
    requires Describes(es, gs)
    ensures r == LocalOffset(es, index)
  {
    forall i, j | 0 <= i < j < |gs|
      ensures gs[i].end <= gs[j].end
    {
      Ascending(es, i + 1, j + 1);
    }
    var p := FindGroup(gs, index);
    assert p > 0 ==> gs[p - 1] == GroupOf(es, p - 1);
    assert p < |es| ==> gs[p] == GroupOf(es, p);
    WalkToGroup(es, 0, p, index);
    if p == |gs| {
      return UnknownLocal;
    }
    WalkInGroup(es, p, 0, index - Total(es, p), Bytes(es, p));
    r := Offset(gs[p].endOffset + (gs[p].end - index - 1) * gs[p].elemSize);
  }

  /** The walk passes over the entries before a local's own. */
  lemma {:induction false} WalkToGroup(es: seq<Entry>, k: nat, p: nat, index: nat)
    requires k <= p <= |es| && Total(es, p) <= index
    ensures Total(es, k) <= index
    ensures Walk(es, k, 0, index - Total(es, k), Bytes(es, k)) == Walk(es, p, 0, index - Total(es, p), Bytes(es, p))
    decreases p - k
  {
    Ascending(es, k, p);
    if k < p {
      Ascending(es, k + 1, p);
      WalkOver(es, k, 0, index - Total(es, k), Bytes(es, k));
      WalkToGroup(es, k + 1, p, index);
    }
  }

  lemma {:induction false} WalkOver(es: seq<Entry>, k: nat, j: nat, index: nat, below: nat)
    requires k < |es| && j <= es[k].count && index >= es[k].count - j
    ensures Walk(es, k, j, index, below)
         == Walk(es, k + 1, 0, index - (es[k].count - j), below + (es[k].count - j) * Size(es[k].wide))
    decreases es[k].count - j
  {
    if j < es[k].count {
      WalkOver(es, k, j + 1, index - 1, below + Size(es[k].wide));
    }
  }

  lemma {:induction false} WalkInGroup(es: seq<Entry>, k: nat, j: nat, index: nat, below: nat)
    requires k < |es| && j + index < es[k].count
    ensures Walk(es, k, j, index, below) == Offset(-(below + (index + 1) * Size(es[k].wide)))
    decreases index
  {
    if index > 0 {
      WalkInGroup(es, k, j + 1, index - 1, below + Size(es[k].wide));
    }
  }

  /** No two slots overlap: parameters lie above 16, locals below zero, and each kind is disjoint. */
  lemma ParamsDisjoint(ps: seq<bool>, i: nat, j: nat)
    requires i < j < |ps|
    ensures 16 <= ParamOffset(ps, j) && ParamOffset(ps, j) + Size(ps[j]) <= ParamOffset(ps, i)
  {
    var tail := ps[i + 1..];
    assert tail[..j - i - 1] + ps[j..] == tail;
    SizesConcat(tail[..j - i - 1], ps[j..]);
    assert [ps[j]] + ps[j + 1..] == ps[j..];
    SizesConcat([ps[j]], ps[j + 1..]);
    assert [ps[j]][..0] == [];
  }

  /** The next local lies right below, and the first right below the frame pointer. */
  lemma {:induction false} LocalsDisjoint(es: seq<Entry>, k: nat, j: nat, index: nat, index': nat, below: nat)
    requires (k < |es| ==> j <= es[k].count) && index < index'
    ensures var a, b := Walk(es, k, j, index, below), Walk(es, k, j, index', below);
            (a.Offset? ==> a.value + 8 <= -(below as int)) &&
            (b.Offset? ==> a.Offset? && b.value + WidthAt(es, k, j, index') <= a.value)
    decreases |es| - k, if k < |es| then es[k].count - j else 0
  {
    if k < |es| {
      if j == es[k].count {
        LocalsDisjoint(es, k + 1, 0, index, index', below);
      } else if index > 0 {
        LocalsDisjoint(es, k, j + 1, index - 1, index' - 1, below + Size(es[k].wide));
      } else {
        Lower(es, k, j + 1, index' - 1, below + Size(es[k].wide));
      }
    }
  }

  /** The size of the local that the walk finds. */
  function WidthAt(es: seq<Entry>, k: nat, j: nat, index: nat): nat
    requires k < |es| ==> j <= es[k].count
    decreases |es| - k, if k < |es| then es[k].count - j else 0
  {
    if k >= |es| then 0
    else if j == es[k].count then WidthAt(es, k + 1, 0, index)
    else if index == 0 then Size(es[k].wide)
    else WidthAt(es, k, j + 1, index - 1)
  }

  lemma {:induction false} Lower(es: seq<Entry>, k: nat, j: nat, index: nat, below: nat)
    requires k < |es| ==> j <= es[k].count
    ensures var b := Walk(es, k, j, index, below);
            b.Offset? ==> b.value + WidthAt(es, k, j, index) <= -(below as int)
    decreases |es| - k, if k < |es| then es[k].count - j else 0
  {
    if k < |es| {
      if j == es[k].count {
        Lower(es, k + 1, 0, index, below);
      } else if index > 0 {
        Lower(es, k, j + 1, index - 1, below + Size(es[k].wide));
      }
    }
  }

  /** No local lies lower than all of them together reach. */
  lemma {:induction false} Lowest(es: seq<Entry>, k: nat, j: nat, index: nat, below: nat)
    requires k <= |es| && (k < |es| ==> j <= es[k].count && below == Bytes(es, k) + j * Size(es[k].wide))
    ensures var b := Walk(es, k, j, index, below);
            b.Offset? ==> -(Bytes(es, |es|) as int) <= b.value
    decreases |es| - k, if k < |es| then es[k].count - j else 0
  {
    if k < |es| {
      if j == es[k].count {
        Lowest(es, k + 1, 0, index, below);
      } else if index > 0 {
        Lowest(es, k, j + 1, index - 1, below + Size(es[k].wide));
      } else {
        Ascending(es, k + 1, |es|);
        RoomForOne(es[k].count, j, Size(es[k].wide));
      }
    }
  }

  lemma RoomForOne(count: nat, j: nat, size: nat)
    requires j < count
    ensures (j + 1) * size <= count * size && (j + 1) * size == j * size + size
  {
  }

  // ----- whole frames -----

  datatype Slot = NoSlot | Slot(offset: int, size: nat)

  /** Parameters come first, then the locals. */
  function FrameSlot(ps: seq<bool>, es: seq<Entry>, i: nat): Slot {
    if i < |ps| then Slot(ParamOffset(ps, i), Size(ps[i]))
    else
      match LocalOffset(es, i - |ps|)
      case UnknownLocal => NoSlot
      case Offset(v) => Slot(v, WidthAt(es, 0, 0, i - |ps|))
  }

  // ----- the frame in numbers -----

  /** The locals one by one, from local j of entry k on: which of them are vectors. */
  function Expanded(es: seq<Entry>, k: nat, j: nat): seq<bool>
    requires k < |es| ==> j <= es[k].count
    decreases |es| - k, if k < |es| then es[k].count - j else 0
  {
    if k >= |es| then []
    else if j == es[k].count then Expanded(es, k + 1, 0)
    else [es[k].wide] + Expanded(es, k, j + 1)
  }

  /** Bytes of this many slots of 16 for a vector and 8 for anything else. */
  function Room(ws: seq<bool>): nat {
    if ws == [] then 0 else (if ws[0] then 16 else 8) + Room(ws[1..])
  }

  lemma {:induction false} RoomIsSizes(ws: seq<bool>)
    ensures Room(ws) == Sizes(ws)
  {
    if ws != [] {
      RoomIsSizes(ws[1..]);
      SizesConcat([ws[0]], ws[1..]);
      assert [ws[0]] + ws[1..] == ws;
      assert [ws[0]][..0] == [];
    }
  }

  lemma {:induction false} WalkInNumbers(es: seq<Entry>, k: nat, j: nat, index: nat, below: nat)
    requires k < |es| ==> j <= es[k].count
    ensures var ws, r := Expanded(es, k, j), Walk(es, k, j, index, below);
            && (r.Offset? <==> index < |ws|)
            && (index < |ws| ==> r.value == -(below + Room(ws[..index + 1])))
            && (index < |ws| ==> WidthAt(es, k, j, index) == if ws[index] then 16 else 8)
    decreases |es| - k, if k < |es| then es[k].count - j else 0
  {
    if k < |es| {
      if j == es[k].count {
        WalkInNumbers(es, k + 1, 0, index, below);
      } else {
        var ws := Expanded(es, k, j);
        assert ws[1..] == Expanded(es, k, j + 1);
        if index > 0 {
          WalkInNumbers(es, k, j + 1, index - 1, below + Size(es[k].wide));
          assert index < |ws| ==> ws[..index + 1][1..] == ws[1..][..index];
        } else {
          assert ws[..1][1..] == [];
        }
      }
    }
  }

  /**
   Slot by slot: parameter i has the later parameters between itself and offset 16, local i lies below
   zero by its own room and that of the locals before it, and beyond the locals there is nothing.
   */
  lemma FrameInNumbers(ps: seq<bool>, es: seq<Entry>, i: nat, ls: seq<bool>)
    requires ls == Expanded(es, 0, 0)
    ensures i < |ps| ==> FrameSlot(ps, es, i) == Slot(16 + Room(ps[i + 1..]), if ps[i] then 16 else 8)
    ensures |ps| <= i < |ps| + |ls| ==>
              FrameSlot(ps, es, i) == Slot(-(Room(ls[..i - |ps| + 1]) as int), if ls[i - |ps|] then 16 else 8)
    ensures i >= |ps| + |ls| ==> FrameSlot(ps, es, i) == NoSlot
  {
    if i < |ps| {
      RoomIsSizes(ps[i + 1..]);
    } else {
      WalkInNumbers(es, 0, 0, i - |ps|, 0);
    }
  }

  /** Exactly what the two layouts accept. */
  ghost predicate Representable(ps: seq<bool>, es: seq<Entry>) {
    (forall i :: 0 <= i < |ps| ==> ParamOffset(ps, i) <= 0x7fff_ffff) && Bytes(es, |es|) <= 0x8000_0000
  }

  /** A later slot lies wholly below an earlier one, parameter or local, and all offsets are signed 32-bit numbers. */
  lemma FrameDisjoint(ps: seq<bool>, es: seq<Entry>, i: nat, j: nat)
    requires Representable(ps, es) && i < j && FrameSlot(ps, es, j).Slot?
    ensures var a, b := FrameSlot(ps, es, i), FrameSlot(ps, es, j);
            a.Slot? && b.offset + b.size <= a.offset && -0x8000_0000 <= b.offset && a.offset <= 0x7fff_ffff
  {
    if j < |ps| {
      ParamsDisjoint(ps, i, j);
    } else {
      Lowest(es, 0, 0, j - |ps|, 0);
      Lower(es, 0, 0, j - |ps|, 0);
      if i >= |ps| {
        LocalsDisjoint(es, 0, 0, i - |ps|, j - |ps|, 0);
      }
    }
  }

  /** Looking an index up in a laid-out frame finds its slot. */
  method FrameOffset(ghost ps: seq<bool>, offsets: seq<nat>, ghost es: seq<Entry>, gs: seq<Group>,
                     i: nat) returns (r: Offset)
    requires |offsets| == |ps| && (forall k :: 0 <= k < |ps| ==> offsets[k] == ParamOffset(ps, k)) && Describes(es, gs)
    ensures r.Offset? <==> FrameSlot(ps, es, i).Slot?
    ensures r.Offset? ==> r.value == FrameSlot(ps, es, i).offset
  {
    if i < |offsets| {
      r := Offset(offsets[i]);
    } else {
      r := GetFrameOffset(es, gs, i - |offsets|);
    }
  }
}
