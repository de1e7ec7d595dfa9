/** The variables of a frame, where a debugger finds them. */
module DwarfFrame {
  import opened DwarfMachine
  import opened FrameLayout

  /** The translation's table of offsets is that of the frame's slots. */
  ghost predicate FromFrame(layout: Layout, ps: seq<bool>, es: seq<Entry>) {
    forall i :: 0 <= i < |layout.locals| ==>
      FrameSlot(ps, es, i).Slot? && layout.locals[i] == FrameSlot(ps, es, i).offset
  }

  /** The frame lies inside the address space. */
  predicate InSpace(frame: nat) {
    0x8000_0000 <= frame < 0x1_0000_0000_0000_0000 - 0x8000_0000
  }

  lemma NoWrap(frame: nat, offset: int)
    requires InSpace(frame) && -0x8000_0000 <= offset <= 0x7fff_ffff
    ensures Wrap(true, frame + offset) == frame + offset
  {
  }

  /** The storage that translated expressions give for two variables of a frame never overlaps. */
  lemma VariablesApart(env: Env, ps: seq<bool>, es: seq<Entry>, i: nat, j: nat)
    requires FromFrame(env.layout, ps, es) && Representable(ps, es) && InSpace(env.frame)
    requires i < j < |env.layout.locals|
    ensures Storage(env, 0, j) + FrameSlot(ps, es, j).size <= Storage(env, 0, i)
  {
    FrameDisjoint(ps, es, i, j);
    NoWrap(env.frame, env.layout.locals[i]);
    NoWrap(env.frame, env.layout.locals[j]);
  }
}
