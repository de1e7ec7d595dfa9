/** A copy of a function computes what the function computes. */
module LinkBehaviour {
  import opened LinkModel

  ghost predicate SameLocals(m: map<nat, nat>, a: map<nat, Value>, b: map<nat, Value>) {
    forall l :: l in m ==> Get(a, l) == Get(b, m[l])
  }

  ghost predicate SameConf(r: Renaming, c: Conf, c': Conf) {
    c'.stack == c.stack && c'.world == c.world && SameLocals(r.locals, c.locals, c'.locals)
  }

  /** The same end, up to the names of locals and of the block that a branch goes to. */
  ghost predicate SameOutcome(r: Renaming, ls: Labels, o: Outcome, o': Outcome) {
    match o
    case OutOfFuel => o' == o
    case Trap => o' == o
    case Next(c) => o'.Next? && SameConf(r, c, o'.conf)
    case Branch(t, c) => o'.Branch? && Copies(ls, t, o'.target) && SameConf(r, c, o'.conf)
    case Returned(c) => o'.Returned? && SameConf(r, c, o'.conf)
  }

  lemma SetLocal(m: map<nat, nat>, a: map<nat, Value>, b: map<nat, Value>, l: nat, v: Value)
    requires SameLocals(m, a, b) && Injective(m) && l in m
    ensures SameLocals(m, a[l := v], b[m[l] := v])
  {
  }

  /** Everything the copy relation says about two lists of functions and a renaming. */
  ghost predicate Linked(fs: Funcs, fs': Funcs, r: Renaming, ls: Labels) {
    Consistent(fs, fs', r.pairs) && Injective(r.locals) && Faithful(ls)
  }

  lemma LeaveSame(r: Renaming, ls: Labels, id: nat, id': nat, outs: nat, below: seq<Value>, o: Outcome, o': Outcome)
    requires Fresh(ls, id, id') && SameOutcome(r, Label(id, id', ls), o, o')
    ensures SameOutcome(r, ls, Leave(id, outs, below, o), Leave(id', outs, below, o'))
  {
    if o.Branch? {
      if Copies(ls, o.target, o'.target) {
        FreshApart(ls, id, id', o.target, o'.target);
      }
    }
  }

  lemma {:induction false} BodySame(fs: Funcs, fs': Funcs, k: Machine, r: Renaming, ls: Labels, b: Body, b': Body,
                                    c: Conf, c': Conf, fuel: nat)
    requires Linked(fs, fs', r, ls) && CopyBody(r, ls, b, b') && SameConf(r, c, c')
    ensures SameOutcome(r, ls, RunBody(fs, k, b, c, fuel), RunBody(fs', k, b', c', fuel))
    decreases fuel, b, 0
  {
    if b.Cons? {
      InstrSame(fs, fs', k, r, ls, b.head, b'.head, c, c', fuel);
      var o, o' := Run(fs, k, b.head, c, fuel), Run(fs', k, b'.head, c', fuel);
      if o.Next? {
        BodySame(fs, fs', k, r, ls, b.tail, b'.tail, o.conf, o'.conf, fuel);
      }
    }
  }

  lemma {:induction false} BlockSame(fs: Funcs, fs': Funcs, k: Machine, r: Renaming, ls: Labels, id: nat, id': nat,
                                     ins: nat, outs: nat, b: Body, b': Body, c: Conf, c': Conf, fuel: nat)
    requires Linked(fs, fs', r, ls) && Fresh(ls, id, id') && CopyBody(r, Label(id, id', ls), b, b')
    requires SameConf(r, c, c')
    ensures SameOutcome(r, ls, RunBlock(fs, k, id, ins, outs, b, c, fuel),
                        RunBlock(fs', k, id', ins, outs, b', c', fuel))
    decreases fuel, b, 1
  {
    var n := |c.stack| - ins;
    if n >= 0 {
      var d, d' := c.(stack := c.stack[n..]), c'.(stack := c'.stack[n..]);
      BodySame(fs, fs', k, r, Label(id, id', ls), b, b', d, d', fuel);
      LeaveSame(r, ls, id, id', outs, c.stack[..n], RunBody(fs, k, b, d, fuel), RunBody(fs', k, b', d', fuel));
    }
  }

  lemma {:induction false} LoopSame(fs: Funcs, fs': Funcs, k: Machine, r: Renaming, ls: Labels, id: nat, id': nat,
                                    ins: nat, outs: nat, b: Body, b': Body, c: Conf, c': Conf, fuel: nat)
    requires Linked(fs, fs', r, ls) && Fresh(ls, id, id') && CopyBody(r, Label(id, id', ls), b, b')
    requires SameConf(r, c, c')
    ensures SameOutcome(r, ls, RunLoop(fs, k, id, ins, outs, b, c, fuel), RunLoop(fs', k, id', ins, outs, b', c', fuel))
    decreases fuel, b, 1
  {
    var n := |c.stack| - ins;
    if n >= 0 {
      var d, d' := c.(stack := c.stack[n..]), c'.(stack := c'.stack[n..]);
      BodySame(fs, fs', k, r, Label(id, id', ls), b, b', d, d', fuel);
      var o, o' := RunBody(fs, k, b, d, fuel), RunBody(fs', k, b', d', fuel);
      if o.Branch? {
        if Copies(ls, o.target, o'.target) {
          FreshApart(ls, id, id', o.target, o'.target);
        } else if |o.conf.stack| >= ins && fuel > 0 {
          var m := |o.conf.stack| - ins;
          LoopSame(fs, fs', k, r, ls, id, id', ins, outs, b, b', o.conf.(stack := c.stack[..n] + o.conf.stack[m..]),
                   o'.conf.(stack := c.stack[..n] + o.conf.stack[m..]), fuel - 1);
        }
      }
    }
  }

  lemma {:induction false} InstrSame(fs: Funcs, fs': Funcs, k: Machine, r: Renaming, ls: Labels, i: Instr, i': Instr,
                                     c: Conf, c': Conf, fuel: nat)
    requires Linked(fs, fs', r, ls) && CopyInstr(r, ls, i, i') && SameConf(r, c, c')
    ensures SameOutcome(r, ls, Run(fs, k, i, c, fuel), Run(fs', k, i', c', fuel))
    decreases fuel, i
  {
    match i
    case Call(f) =>
      if fuel > 0 {
        InvokeSame(fs, fs', k, r, ls, f, i'.func, c, c', fuel - 1);
      }
    case Block(id, ins, outs, body) =>
      BlockSame(fs, fs', k, r, ls, id, i'.id, ins, outs, body, i'.body, c, c', fuel);
    case Loop(id, ins, outs, body) =>
      LoopSame(fs, fs', k, r, ls, id, i'.id, ins, outs, body, i'.body, c, c', fuel);
    case IfElse(id, ins, outs, body, other, alternative) =>
      if c.stack != [] {
        BlockSame(fs, fs', k, r, ls, id, i'.id, ins, outs, body, i'.body, Pop(c), Pop(c'), fuel);
        BlockSame(fs, fs', k, r, ls, other, i'.other, ins, outs, alternative, i'.alternative, Pop(c), Pop(c'), fuel);
      }
    case LocalSet(l) =>
      if c.stack != [] {
        SetLocal(r.locals, c.locals, c'.locals, l, Top(c));
      }
    case LocalTee(l) =>
      if c.stack != [] {
        SetLocal(r.locals, c.locals, c'.locals, l, Top(c));
      }
    case _ =>
  }

  lemma {:induction false} InvokeSame(fs: Funcs, fs': Funcs, k: Machine, r: Renaming, ls: Labels, f: nat, f': nat,
                                      c: Conf, c': Conf, fuel: nat)
    requires Linked(fs, fs', r, ls) && (f, f') in r.pairs && SameConf(r, c, c')
    ensures SameOutcome(r, ls, Invoke(fs, k, f, c, fuel), Invoke(fs', k, f', c', fuel))
    decreases fuel, 2
  {
    assert (f, f').0 < |fs| && (f, f').1 < |fs'| && IsCopy(fs[(f, f').0], fs'[(f, f').1], r.pairs);
    var n := |c.stack| - |fs[f].ty.params|;
    if n >= 0 {
      ApplySame(fs, fs', k, r.pairs, f, f', c.stack[n..], c.world, fuel);
    }
  }

  lemma {:induction false} BindSame(m: map<nat, nat>, args: seq<nat>, args': seq<nat>, vs: seq<Value>)
    requires Injective(m) && CopyArgs(m, args, args') && |args| <= |vs|
    ensures SameLocals(m, Bind(args, vs), Bind(args', vs))
  {
    if args != [] {
      var n := |args| - 1;
      BindSame(m, args[..n], args'[..n], vs);
      SetLocal(m, Bind(args[..n], vs), Bind(args'[..n], vs), args[n], vs[n]);
    } else {
      assert args' == [];
    }
  }

  lemma ResultsSame(r: Renaming, entry: nat, entry': nat, n: nat, o: Outcome, o': Outcome)
    requires SameOutcome(r, Label(entry, entry', NoLabels), o, o')
    ensures AnswerOf(Results(o, entry, n)) == AnswerOf(Results(o', entry', n))
  {
    if o.Branch? {
      assert !Copies(NoLabels, o.target, o'.target);
    }
  }

  lemma CopyKeepsType(r: Renaming, f: Func, f': Func)
    requires CopyFunc(r, f, f')
    ensures f'.ty == f.ty && f'.Local? == f.Local?
  {
    if f.Import? {
      assert f' == f;
    }
  }

  /** A copy returns what the function returns, for every machine, all arguments and every amount of fuel. */
  lemma {:induction false} ApplySame(fs: Funcs, fs': Funcs, k: Machine, pairs: set<(nat, nat)>, f: nat, f': nat,
                                     vs: seq<Value>, w: World, fuel: nat)
    requires Consistent(fs, fs', pairs) && (f, f') in pairs
    ensures f < |fs| && f' < |fs'| && fs'[f'].ty == fs[f].ty
    ensures Apply(fs, k, f, vs, w, fuel) == Apply(fs', k, f', vs, w, fuel)
    decreases fuel, 1
  {
    assert (f, f').0 < |fs| && (f, f').1 < |fs'| && IsCopy(fs[(f, f').0], fs'[(f, f').1], pairs);
    var locals :| CopyFunc(Renaming(locals, pairs), fs[f], fs'[f']);
    var r := Renaming(locals, pairs);
    CopyKeepsType(r, fs[f], fs'[f']);
    if fs[f].Local? && |fs[f].args| <= |vs| && fuel > 0 {
      var ls := Label(fs[f].entry, fs'[f'].entry, NoLabels);
      BindSame(locals, fs[f].args, fs'[f'].args, vs);
      var c, c' := Conf([], Bind(fs[f].args, vs), w), Conf([], Bind(fs'[f'].args, vs), w);
      BodySame(fs, fs', k, r, ls, fs[f].body, fs'[f'].body, c, c', fuel - 1);
      ResultsSame(r, fs[f].entry, fs'[f'].entry, |fs[f].ty.results|, RunBody(fs, k, fs[f].body, c, fuel - 1),
                  RunBody(fs', k, fs'[f'].body, c', fuel - 1));
    }
  }
}
