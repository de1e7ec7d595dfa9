/** A translated expression computes on the native machine what the original computes on the narrow one. */
module DwarfSimulation {
  import opened Scaled
  import opened DwarfMachine
  import opened DwarfTranslate
  import Bits

  // ----- the inserted sequences -----

  /** The sign extension of a 32-bit word, as a 64-bit one. */
  function Ext(x: nat): nat {
    if x < 0x8000_0000 then x else x + 0xffff_ffff_0000_0000
  }

  /** All entries are 32-bit words. */
  ghost predicate Words(s: seq<nat>) {
    forall i :: 0 <= i < |s| ==> s[i] < 0x1_0000_0000
  }

  lemma Run2(env: Env, a: Op, b: Op, st: State)
    ensures Run(true, env, [a, b], st) == Step(true, env, b, Step(true, env, a, st))
  {
    assert [a, b] == [a] + [b];
    RunCons(true, env, a, [b], st);
    RunOne(true, env, b, Step(true, env, a, st));
  }

  /** Pushing a constant and combining with it. */
  lemma RunWith(env: Env, form: Form, v: nat, b: Binary, x: nat, rest: seq<nat>, r: nat)
    requires v < 0x1_0000_0000 && Calculate(true, b, x, v) == r
    ensures Run(true, env, [Const(form, v), Op.Binary(b)], Stack([x] + rest)) == Stack([r] + rest)
  {
    Run2(env, Const(form, v), Op.Binary(b), Stack([x] + rest));
    var s := [v] + ([x] + rest);
    assert s[2..] == rest;
  }

  lemma MaskWord(x: nat)
    ensures Bits.And(x, 0xffff_ffff) == x % 0x1_0000_0000
  {
    Bits.MaskIsRemainder(x, 32);
    Pow2Values();
  }

  lemma RunTruncate(env: Env, x: nat, rest: seq<nat>)
    ensures Run(true, env, TRUNCATE, Stack([x] + rest)) == Stack([x % 0x1_0000_0000] + rest)
  {
    MaskWord(x);
    RunWith(env, Const4u, 0xffff_ffff, And, x, rest, x % 0x1_0000_0000);
  }

  lemma RunExtend(env: Env, x: nat, rest: seq<nat>)
    requires x < 0x1_0000_0000
    ensures Run(true, env, EXTEND, Stack([x] + rest)) == Stack([Ext(x)] + rest)
  {
    var y := x * 0x1_0000_0000;
    assert Pow2(32) == 0x1_0000_0000 by {
      Pow2Values();
    }
    RunWith(env, Const1u, 32, Shl, x, rest, y);
    RunWith(env, Const1u, 32, Shra, y, rest, Ext(x));
    assert EXTEND == [Const(Const1u, 32), Op.Binary(Shl)] + [Const(Const1u, 32), Op.Binary(Shra)];
    RunAppend(true, env, [Const(Const1u, 32), Op.Binary(Shl)], [Const(Const1u, 32), Op.Binary(Shra)],
              Stack([x] + rest));
  }

  lemma RunSwap(env: Env, a: nat, b: nat, rest: seq<nat>)
    ensures Run(true, env, SWAP, Stack([a] + ([b] + rest))) == Stack([b] + ([a] + rest))
  {
    RunOne(true, env, Op.Move(Swap), Stack([a] + ([b] + rest)));
    var s := [a] + ([b] + rest);
    assert s[2..] == rest;
    assert [b, a] + rest == [b] + ([a] + rest);
  }

  lemma RunExtend2(env: Env, a: nat, b: nat, rest: seq<nat>)
    requires a < 0x1_0000_0000 && b < 0x1_0000_0000
    ensures Run(true, env, Extend2(), Stack([b] + ([a] + rest))) == Stack([Ext(b)] + ([Ext(a)] + rest))
  {
    RunAppend(true, env, EXTEND, SWAP + (EXTEND + SWAP), Stack([b] + ([a] + rest)));
    RunExtend(env, b, [a] + rest);
    RunAppend(true, env, SWAP, EXTEND + SWAP, Stack([Ext(b)] + ([a] + rest)));
    RunSwap(env, Ext(b), a, rest);
    RunAppend(true, env, EXTEND, SWAP, Stack([a] + ([Ext(b)] + rest)));
    RunExtend(env, a, [Ext(b)] + rest);
    RunSwap(env, Ext(a), Ext(b), rest);
  }

  lemma RunBreg(env: Env, offset: int, b: Binary, x: nat, rest: seq<nat>, r: nat)
    requires Calculate(true, b, x, Wrap(true, env.base + offset)) == r
    ensures Run(true, env, [Breg(4, offset), Op.Binary(b)], Stack([x] + rest)) == Stack([r] + rest)
  {
    Run2(env, Breg(4, offset), Op.Binary(b), Stack([x] + rest));
    var s := [Wrap(true, env.base + offset)] + ([x] + rest);
    assert s[2..] == rest;
  }

  lemma RunAdjust(env: Env, x: nat, rest: seq<nat>)
    requires Valid(env) && x < 0x1_0000_0000
    ensures Run(true, env, ADJUST, Stack([x] + rest)) == Stack([env.base + x] + rest)
  {
    RunBreg(env, 0, Plus, x, rest, env.base + x);
  }

  lemma RunUnadjust(env: Env, x: nat, rest: seq<nat>)
    requires Valid(env)
    ensures Run(true, env, UNADJUST, Stack([x] + rest)) == Stack([Wrap(true, x - env.base)] + rest)
  {
    RunBreg(env, 0, Minus, x, rest, Wrap(true, x - env.base));
  }

  // ----- arithmetic -----

  lemma SignedExt(x: nat)
    requires x < 0x1_0000_0000
    ensures Signed(true, Ext(x)) == Signed(false, x) && Ext(x) < 0x1_0000_0000_0000_0000
  {
  }

  lemma WrapTwice(x: int)
    ensures Wrap(true, x) % 0x1_0000_0000 == Wrap(false, x)
  {
  }

  /** When the remainder of the sign-extended words is that of the words themselves. */
  predicate ModAgrees(a: nat, b: nat) {
    a < 0x8000_0000 || b >= 0x8000_0000 || (b != 0 && 0xffff_ffff_0000_0000 % b == 0)
  }

  /** Extending both operands with their signs leaves the remainder alone exactly when ModAgrees holds. */
  lemma ModRemainder(a: nat, b: nat)
    requires a < 0x1_0000_0000 && 0 < b < 0x1_0000_0000
    ensures (Ext(a) % Ext(b)) % 0x1_0000_0000 == a % b <==> ModAgrees(a, b)
  {
    if a < 0x8000_0000 {
      if b >= 0x8000_0000 {
        Bits.RemainderIs(a, b, 0, a);
        Bits.RemainderIs(a, Ext(b), 0, a);
      }
    } else if b >= 0x8000_0000 {
      if a >= b {
        Bits.RemainderIs(a, b, 1, a - b);
        Bits.RemainderIs(Ext(a), Ext(b), 1, a - b);
      } else {
        Bits.RemainderIs(a, b, 0, a);
        Bits.RemainderIs(Ext(a), Ext(b), 0, Ext(a));
      }
    } else {
      AddMod(a, 0xffff_ffff_0000_0000, b);
    }
  }

  /** Adding d does not change a remainder just when d has none. */
  lemma AddMod(a: nat, d: nat, b: nat)
    requires b > 0
    ensures 0 <= (a + d) % b < b
    ensures (a + d) % b == a % b <==> d % b == 0
  {
    var qa, ra, qd, rd := a / b, a % b, d / b, d % b;
    Bits.DivMod(a, b);
    Bits.DivMod(d, b);
    Distribute(qa, qd, b);
    Distribute(qa + qd, 1, b);
    if ra + rd < b {
      Bits.RemainderIs(a + d, b, qa + qd, ra + rd);
    } else {
      Bits.RemainderIs(a + d, b, qa + qd + 1, ra + rd - b);
    }
  }

  // ----- one operation -----

  lemma RunBinary(env: Env, op: Binary, a: nat, b: nat, rest: seq<nat>, r: nat)
    requires Calculate(true, op, a, b) == r
    ensures Run(true, env, [Op.Binary(op)], Stack([b] + ([a] + rest))) == Stack([r] + rest)
  {
    RunOne(true, env, Op.Binary(op), Stack([b] + ([a] + rest)));
    var s := [b] + ([a] + rest);
    assert s[2..] == rest;
  }

  lemma RunBinaryTruncated(env: Env, op: Binary, a: nat, b: nat, rest: seq<nat>, r: nat)
    requires Calculate(true, op, a, b) >= 0 && Calculate(true, op, a, b) % 0x1_0000_0000 == r
    ensures Run(true, env, [Op.Binary(op)] + TRUNCATE, Stack([b] + ([a] + rest))) == Stack([r] + rest)
  {
    var c := Calculate(true, op, a, b);
    RunAppend(true, env, [Op.Binary(op)], TRUNCATE, Stack([b] + ([a] + rest)));
    RunBinary(env, op, a, b, rest, c);
    RunTruncate(env, c, rest);
  }

  /**
   Section 2.5.1.4 of DWARF Version 4 makes the modulo operation unsigned, but the translation extends its
   operands with their signs: what it leaves is right exactly when ModAgrees holds.
   */
  lemma ModExact(env: Env, a: nat, b: nat, rest: seq<nat>)
    requires a < 0x1_0000_0000 && 0 < b < 0x1_0000_0000
    ensures Run(true, env, EmitBinary(Mod), Stack([b] + ([a] + rest))) == Stack([a % b] + rest) <==> ModAgrees(a, b)
  {
    var r := (Ext(a) % Ext(b)) % 0x1_0000_0000;
    RunAppend(true, env, Extend2(), [Op.Binary(Mod)] + TRUNCATE, Stack([b] + ([a] + rest)));
    RunExtend2(env, a, b, rest);
    RunBinaryTruncated(env, Mod, Ext(a), Ext(b), rest, r);
    ModRemainder(a, b);
    assert ([r] + rest)[0] == r && ([a % b] + rest)[0] == a % b;
  }

  /** 2^31 modulo 7 is 2, and the translation leaves something else. */
  lemma ModWitness(env: Env, rest: seq<nat>)
    ensures StepStack(false, env, Op.Binary(Mod), [7] + ([0x8000_0000] + rest)) == Stack([2] + rest)
    ensures Run(true, env, EmitBinary(Mod), Stack([7] + ([0x8000_0000] + rest))) != Stack([2] + rest)
  {
    var s := [7] + ([0x8000_0000] + rest);
    assert s[2..] == rest;
    ModExact(env, 0x8000_0000, 7, rest);
  }

  /** The operations that may run as they are, on words. */
  predicate Plain(op: Binary) {
    op == And || op == Or || op == Xor || op == Shr || op == Eq || op == Ne
  }

  lemma PlainAgrees(op: Binary, a: nat, b: nat)
    requires Plain(op) && a < 0x1_0000_0000 && b < 0x1_0000_0000
    ensures Calculate(true, op, a, b) == Calculate(false, op, a, b)
    ensures 0 <= Calculate(false, op, a, b) < 0x1_0000_0000
  {
    if op == Shr {
      Shrinks(a, Pow2(b));
    } else if op == And || op == Or || op == Xor {
      WordBits(a, b);
    }
  }

  lemma WordBits(a: nat, b: nat)
    requires a < 0x1_0000_0000 && b < 0x1_0000_0000
    ensures Bits.And(a, b) < 0x1_0000_0000 && Bits.Or(a, b) < 0x1_0000_0000 && Bits.Xor(a, b) < 0x1_0000_0000
  {
    Pow2Values();
    Bits.Fits(a, b, 32);
  }

  lemma Shrinks(a: nat, p: nat)
    requires p >= 1
    ensures 0 <= a / p <= a
  {
    var q := a / p;
    assert a == p * q + a % p;
    if q >= 0 {
      MulLe(1, p, q);
      Commute(p, q);
    }
  }

  predicate Wrapped(op: Binary) {
    op == Minus || op == Mul || op == Plus || op == Shl
  }

  lemma WrappedAgrees(op: Binary, a: nat, b: nat)
    requires Wrapped(op)
    ensures Calculate(true, op, a, b) >= 0 && Calculate(true, op, a, b) % 0x1_0000_0000 == Calculate(false, op, a, b)
  {
    WrapTwice(a - b);
    WrapTwice(a + b);
    WrapTwice(a * b);
    WrapTwice(a * Pow2(b));
  }

  lemma DivModAgrees(op: Binary, a: nat, b: nat)
    requires (op == Div || op == Mod) && a < 0x1_0000_0000 && b < 0x1_0000_0000
    requires Calculate(false, op, a, b) >= 0 && (op == Mod ==> ModAgrees(a, b))
    ensures Calculate(true, op, Ext(a), Ext(b)) >= 0
    ensures Calculate(true, op, Ext(a), Ext(b)) % 0x1_0000_0000 == Calculate(false, op, a, b) < 0x1_0000_0000
  {
    SignedExt(a);
    SignedExt(b);
    if op == Div {
      WrapTwice(Quotient(Signed(false, a), Signed(false, b)));
    } else {
      ModRemainder(a, b);
      Bits.RemainderBelow(Ext(a), Ext(b));
      Bits.RemainderBelow(a, b);
    }
  }

  lemma ShraAgrees(a: nat, b: nat)
    requires a < 0x1_0000_0000
    ensures Calculate(true, Shra, Ext(a), b) >= 0
    ensures Calculate(true, Shra, Ext(a), b) % 0x1_0000_0000 == Calculate(false, Shra, a, b)
  {
    SignedExt(a);
    WrapTwice(Signed(false, a) / Pow2(b));
  }

  predicate Comparison(op: Binary) {
    op == Le || op == Ge || op == Lt || op == Gt
  }

  lemma ComparisonAgrees(op: Binary, a: nat, b: nat)
    requires Comparison(op) && a < 0x1_0000_0000 && b < 0x1_0000_0000
    ensures Calculate(true, op, Ext(a), Ext(b)) == Calculate(false, op, a, b)
    ensures 0 <= Calculate(false, op, a, b) <= 1
  {
    SignedExt(a);
    SignedExt(b);
  }

  /** Every binary operation, on words: the emitted sequence pushes the narrow machine's result. */
  lemma BinarySimulates(env: Env, op: Binary, a: nat, b: nat, rest: seq<nat>, r: int)
    requires a < 0x1_0000_0000 && b < 0x1_0000_0000
    requires r == Calculate(false, op, a, b) && r >= 0 && (op == Mod ==> ModAgrees(a, b))
    ensures r < 0x1_0000_0000
    ensures Run(true, env, EmitBinary(op), Stack([b] + ([a] + rest))) == Stack([r] + rest)
  {
    var st := Stack([b] + ([a] + rest));
    if Plain(op) {
      PlainAgrees(op, a, b);
      RunBinary(env, op, a, b, rest, r);
    } else if Wrapped(op) {
      WrappedAgrees(op, a, b);
      RunBinaryTruncated(env, op, a, b, rest, r);
    } else if op == Div || op == Mod {
      DivModAgrees(op, a, b);
      RunAppend(true, env, Extend2(), [Op.Binary(op)] + TRUNCATE, st);
      RunExtend2(env, a, b, rest);
      RunBinaryTruncated(env, op, Ext(a), Ext(b), rest, r);
    } else if op == Shra {
      ShraAgrees(a, b);
      ShraSimulates(env, a, b, rest, r);
    } else {
      ComparisonAgrees(op, a, b);
      RunAppend(true, env, Extend2(), [Op.Binary(op)], st);
      RunExtend2(env, a, b, rest);
      RunBinary(env, op, Ext(a), Ext(b), rest, r);
    }
  }

  lemma ShraSimulates(env: Env, a: nat, b: nat, rest: seq<nat>, r: nat)
    requires a < 0x1_0000_0000 && Calculate(true, Shra, Ext(a), b) >= 0
    requires Calculate(true, Shra, Ext(a), b) % 0x1_0000_0000 == r
    ensures Run(true, env, EmitBinary(Shra), Stack([b] + ([a] + rest))) == Stack([r] + rest)
  {
    var last := [Op.Binary(Shra)] + TRUNCATE;
    RunAppend(true, env, SWAP, EXTEND + (SWAP + last), Stack([b] + ([a] + rest)));
    RunSwap(env, b, a, rest);
    RunAppend(true, env, EXTEND, SWAP + last, Stack([a] + ([b] + rest)));
    RunExtend(env, a, [b] + rest);
    RunAppend(true, env, SWAP, last, Stack([Ext(a)] + ([b] + rest)));
    RunSwap(env, Ext(a), b, rest);
    RunBinaryTruncated(env, Shra, Ext(a), b, rest, r);
  }

  lemma RunUnary(env: Env, op: Unary, a: nat, rest: seq<nat>)
    ensures Run(true, env, [Op.Unary(op)] + TRUNCATE, Stack([a] + rest))
         == Stack([Single(true, op, a) % 0x1_0000_0000] + rest)
  {
    RunAppend(true, env, [Op.Unary(op)], TRUNCATE, Stack([a] + rest));
    RunOne(true, env, Op.Unary(op), Stack([a] + rest));
    assert ([a] + rest)[1..] == rest;
    RunTruncate(env, Single(true, op, a), rest);
  }

  lemma UnaryAgrees(op: Unary, a: nat)
    requires a < 0x1_0000_0000
    ensures Single(true, op, if op == Abs then Ext(a) else a) % 0x1_0000_0000 == Single(false, op, a)
  {
    match op
    case Abs =>
      SignedExt(a);
      WrapTwice(if Signed(false, a) < 0 then -Signed(false, a) else Signed(false, a));
    case Neg =>
      WrapTwice(0 - a);
    case Not =>
      WrapTwice(-1 - a);
  }

  lemma UnarySimulates(env: Env, op: Unary, a: nat, rest: seq<nat>)
    requires a < 0x1_0000_0000
    ensures Run(true, env, EmitUnary(op), Stack([a] + rest)) == Stack([Single(false, op, a)] + rest)
  {
    UnaryAgrees(op, a);
    if op == Abs {
      RunAppend(true, env, EXTEND, [Op.Unary(op)] + TRUNCATE, Stack([a] + rest));
      RunExtend(env, a, rest);
      RunUnary(env, op, Ext(a), rest);
    } else {
      RunUnary(env, op, a, rest);
    }
  }

  lemma PlusUconstSimulates(env: Env, u: nat, a: nat, rest: seq<nat>)
    ensures Run(true, env, [PlusUconst(u)] + TRUNCATE, Stack([a] + rest)) == Stack([Wrap(false, a + u)] + rest)
  {
    RunAppend(true, env, [PlusUconst(u)], TRUNCATE, Stack([a] + rest));
    RunOne(true, env, PlusUconst(u), Stack([a] + rest));
    assert ([a] + rest)[1..] == rest;
    RunTruncate(env, Wrap(true, a + u), rest);
    WrapTwice(a + u);
  }

  /** Where the frame base plus the offset does not leave the 32-bit range. */
  predicate FbregAgrees(env: Env, offset: int) {
    0 <= env.frameBase + offset < 0x1_0000_0000
  }

  /** The rebased frame address is not truncated, so it is right exactly when it does not wrap. */
  lemma FbregExact(env: Env, offset: int, s: seq<nat>)
    requires Valid(env) && ValidOp(Fbreg(offset))
    ensures Run(true, env, [Fbreg(offset)] + UNADJUST, Stack(s)) == StepStack(false, env, Fbreg(offset), s)
       <==> FbregAgrees(env, offset)
  {
    var x := Wrap(true, env.base + env.frameBase + offset);
    RunAppend(true, env, [Fbreg(offset)], UNADJUST, Stack(s));
    RunOne(true, env, Fbreg(offset), Stack(s));
    RunUnadjust(env, x, s);
    FbregWrap(env.base, env.frameBase + offset);
    var y, z := Wrap(true, x - env.base), Wrap(false, env.frameBase + offset);
    assert ([y] + s)[0] == y && ([z] + s)[0] == z;
  }

  /** One byte below a frame base of zero. */
  lemma FbregWitness(env: Env, s: seq<nat>)
    requires Valid(env) && env.frameBase == 0
    ensures Run(true, env, [Fbreg(-1)] + UNADJUST, Stack(s)) != StepStack(false, env, Fbreg(-1), s)
  {
    FbregExact(env, -1, s);
  }

  lemma FbregWrap(base: nat, x: int)
    requires -0x8000_0000_0000_0000 <= x < 0x8000_0001_0000_0000
    ensures Wrap(true, Wrap(true, base + x) - base) == Wrap(true, x)
    ensures Wrap(true, x) == Wrap(false, x) <==> 0 <= x < 0x1_0000_0000
  {
  }

  lemma {:induction false} LoadFits(env: Env, a: int, n: nat, k: nat)
    requires k == 8 * n
    ensures Load(env, a, n) < Pow2(k)
    decreases n
  {
    if n > 0 {
      LoadFits(env, a + 1, n - 1, k - 8);
      Pow2Add(8, k - 8);
      assert Pow2(8) == 256;
    }
  }

  lemma LoadWord(env: Env, a: int, n: nat)
    requires n <= 4
    ensures Load(env, a, n) < 0x1_0000_0000
  {
    LoadFits(env, a, n, 8 * n);
    PowersUpTo32(8 * n);
  }

  lemma {:induction false} PowersUpTo32(k: nat)
    requires k <= 32
    ensures Pow2(k) <= 0x1_0000_0000
    decreases 32 - k
  {
    if k < 32 {
      PowersUpTo32(k + 1);
    } else {
      Pow2Values();
    }
  }

  lemma FetchSimulates(env: Env, n: nat, x: nat, rest: seq<nat>)
    requires Valid(env) && x < 0x1_0000_0000 && 1 <= n <= 4
    ensures Run(true, env, ADJUST + [DerefSize(n)], Stack([x] + rest)) == Fetch(false, env, n, [x] + rest)
    ensures Fetch(false, env, n, [x] + rest) == Stack([Load(env, env.base + x, n)] + rest)
    ensures Load(env, env.base + x, n) < 0x1_0000_0000
  {
    RunAppend(true, env, ADJUST, [DerefSize(n)], Stack([x] + rest));
    RunAdjust(env, x, rest);
    RunOne(true, env, DerefSize(n), Stack([env.base + x] + rest));
    assert ([env.base + x] + rest)[1..] == rest && ([x] + rest)[1..] == rest;
    LoadWord(env, env.base + x, n);
  }
}
