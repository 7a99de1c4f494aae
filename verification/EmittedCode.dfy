/** What each piece of emitted code does when it runs, in terms of the expressions of its operands. */
module EmittedCode {
  import opened BitVectors
  import opened Expressions
  import opened Builders
  import opened FlatShadow
  import opened Programs
  import opened Concolic
  import opened ShortCircuit
  import opened Computations
  import opened Symbolizer
  import opened Instrumented

  // ----- Statement sequences -----

  lemma ExecSnoc(inp: Input, l: Local, stmts: seq<Stmt>, st: Stmt, y: Sym)
    requires y.frames != []
    ensures ExecStmts(inp, l, stmts + [st], y) == ExecStmt(inp, l, st, ExecStmts(inp, l, stmts, y))
  {
    assert (stmts + [st])[..|stmts|] == stmts;
  }

  lemma {:induction false} ExecStmtsAppend(inp: Input, l: Local, a: seq<Stmt>, b: seq<Stmt>, y: Sym)
    requires y.frames != []
    ensures ExecStmts(inp, l, a + b, y) == ExecStmts(inp, l, b, ExecStmts(inp, l, a, y))
  {
    hide ExecStmt;
    if b == [] {
      assert a + b == a;
    } else {
      var k := |b| - 1;
      ExecStmtsAppend(inp, l, a, b[..k], y);
      assert a + b == (a + b[..k]) + [b[k]];
      ExecSnoc(inp, l, a + b[..k], b[k], y);
    }
  }

  function RunItems(inp: Input, l: Local, items: seq<Item>, y: Sym): (y': Sym)
    requires y.frames != [] && Lowerable(items)
    ensures y'.frames != []
  {
    ExecStmts(inp, l, LowerItems(items), y)
  }

  lemma RunItemsAppend(inp: Input, l: Local, a: seq<Item>, b: seq<Item>, y: Sym)
    requires y.frames != [] && Lowerable(a) && Lowerable(b)
    ensures Lowerable(a + b)
    ensures RunItems(inp, l, a + b, y) == RunItems(inp, l, b, RunItems(inp, l, a, y))
  {
    hide ExecStmts, LowerItem, LowerableItem;
    assert LowerItems(a + b) == LowerItems(a) + LowerItems(b);
    ExecStmtsAppend(inp, l, LowerItems(a), LowerItems(b), y);
  }

  lemma RunOneItem(inp: Input, l: Local, item: Item, y: Sym)
    requires y.frames != [] && LowerableItem(item)
    ensures Lowerable([item]) && RunItems(inp, l, [item], y) == ExecStmt(inp, l, LowerItem(item), y)
  {
    hide ExecStmt, LowerItem, LowerableItem;
    assert LowerItems([item]) == [LowerItem(item)];
    assert ExecStmts(inp, l, [], y) == y;
    ExecSnoc(inp, l, [], LowerItem(item), y);
    assert [] + [LowerItem(item)] == [LowerItem(item)];
  }

  lemma RunNoItems(inp: Input, l: Local, y: Sym)
    requires y.frames != []
    ensures Lowerable([]) && RunItems(inp, l, [], y) == y
  {
  }

  /** A short-circuited computation runs the naive rule. */
  lemma RunComp(inp: Input, l: Local, c: Computation, dst: Option<Reg>, y: Sym)
    requires y.frames != [] && WellFormed(c)
    ensures Lowerable([Comp(c, dst)])
    ensures var es := y.frames[0];
      RunItems(inp, l, [Comp(c, dst)], y)
      == WithTop(y, if dst.Some? then SetExpr(es, dst.value, NaiveResult(c, l.regs, es, y.path)) else es)
         .(path := NaivePath(c, l.regs, es, y.path))
  {
    hide WellFormed, NaiveResult, NaivePath, Lower, ExecCode;
    RunOneItem(inp, l, Comp(c, dst), y);
    LowerCorrect(c, dst, l.regs, y.frames[0], y.path);
  }

  // ----- Pinning -----

  function PinnedPath(regs: Regs, v: Operand, e: Option<Expr>, path: Path): Path {
    match (ValueOf(regs, v), e)
    case (Some(x), Some(z)) => path + [Constraint(CmpExpr(Eq, z, Lift(x)), true)]
    case _ => path
  }

  lemma AlternativeArgs(em: ExprMap, o: Operand, regs: Regs, es: Exprs, e: Expr)
    requires NoTemps(em) && ViewOf(em, es, o) == Some(e)
    ensures ArgValues(AlternativeComp(em, o), regs, es, 2) == [CmpExpr(Eq, e, LiftValue(regs, o))]
  {
    hide LiftValue;
    var c := AlternativeComp(em, o);
    assert FindInput(c, 1, 1, 0) == Some(0);
    assert FindInput(c, 1, 1, 1) == None;
    assert FindInput(c, 1, 2, 0) == None;
    assert ArgValue(c, regs, es, 1, 0) == Some(e);
    assert CallValue(c, regs, es, 0) == Some(LiftValue(regs, o));
    assert ArgValue(c, regs, es, 1, 1) == Some(LiftValue(regs, o));
    assert ArgValues(c, regs, es, 1) == [e, LiftValue(regs, o)];
    assert CallValue(c, regs, es, 1) == Some(CmpExpr(Eq, e, LiftValue(regs, o)));
    assert ArgValue(c, regs, es, 2, 0) == Some(CmpExpr(Eq, e, LiftValue(regs, o)));
  }

  lemma AlternativeRun(inp: Input, l: Local, em: ExprMap, o: Operand, y: Sym)
    requires y.frames != [] && NoTemps(em) && HasValue(l.regs, o)
    ensures Lowerable(AlternativeItems(em, o))
    ensures RunItems(inp, l, AlternativeItems(em, o), y)
         == y.(path := PinnedPath(l.regs, o, ViewOf(em, y.frames[0], o), y.path))
  {
    hide LiftValue, WellFormed, Ordered, NaiveResult, ArgValues, RunItems, Lowerable;
    var es, c := y.frames[0], AlternativeComp(em, o);
    if GetExpr(em, o).None? {
      RunNoItems(inp, l, y);
    } else {
      AlternativeWellFormed(em, o);
      RunComp(inp, l, c, None, y);
      AlternativeConcrete(em, o, es);
      if ViewOf(em, es, o).Some? {
        NaiveIs(c, l.regs, es, y.path);
        AlternativeArgs(em, o, l.regs, es, ViewOf(em, es, o).value);
        AlternativePath(em, o, l.regs, es, y.path);
        assert LiftValue(l.regs, o) == Lift(ValueOf(l.regs, o).value) by { LiftValueIs(l.regs, o); }
      }
      assert WithTop(y, es) == y;
    }
  }

  lemma LiftValueIs(regs: Regs, o: Operand)
    requires HasValue(regs, o)
    ensures LiftValue(regs, o) == Lift(ValueOf(regs, o).value)
  {
  }

  lemma AlternativeConcrete(em: ExprMap, o: Operand, es: Exprs)
    requires WellFormed(AlternativeComp(em, o)) && NoTemps(em)
    ensures AllConcrete(AlternativeComp(em, o), es, 1) <==> ViewOf(em, es, o).None?
  {
    var c := AlternativeComp(em, o);
    assert InputExpr(c, es, 0) == ViewOf(em, es, o);
  }

  lemma AlternativePath(em: ExprMap, o: Operand, regs: Regs, es: Exprs, path: Path)
    ensures var c := AlternativeComp(em, o);
      PathAfter(c, regs, es, 3, path) == path + [Constraint(ArgValues(c, regs, es, 2)[0], true)]
  {
    hide LiftValue, ArgValues;
    var c := AlternativeComp(em, o);
    assert Pow2(1) == 2;
    assert Address(regs, TRUE_IMM) == 1;
    assert PathAfter(c, regs, es, 1, path) == path;
    assert PathAfter(c, regs, es, 2, path) == path;
  }

  // ----- Conditions -----

  lemma PushRun(inp: Input, l: Local, em: ExprMap, cond: Operand, y: Sym)
    requires y.frames != [] && NoTemps(em)
    ensures Lowerable(PushItems(em, cond))
    ensures RunItems(inp, l, PushItems(em, cond), y)
         == y.(path := Push(y.path, ViewOf(em, y.frames[0], cond), Address(l.regs, cond) == 1))
  {
    hide LiftValue, WellFormed, Ordered, NaiveResult, ArgValues, RunItems, Lowerable, Address;
    var es, c := y.frames[0], PushComp(em, cond);
    if GetExpr(em, cond).None? {
      RunNoItems(inp, l, y);
    } else {
      PushWellFormed(em, cond);
      RunComp(inp, l, c, None, y);
      EmptyIsOrdered();
      var args := [Symbolic(cond)];
      AppendConcrete(em, EMPTY_COMPUTATION, PushConstraint(cond), args, es);
      assert args[0].Symbolic?;
      if ViewOf(em, es, cond).Some? {
        NaiveIs(c, l.regs, es, y.path);
        AppendValue(em, EMPTY_COMPUTATION, PushConstraint(cond), args, l.regs, es);
        assert PathAfter(c, l.regs, es, 0, y.path) == y.path;
        assert c.calls[0] == RtCall(PushConstraint(cond), [ArgOperand(em, args[0])]);
      }
      assert WithTop(y, es) == y;
    }
  }

  lemma EmptyIsOrdered()
    ensures Ordered(EMPTY_COMPUTATION)
    ensures forall es :: OldConcrete(EMPTY_COMPUTATION, es)
  {
  }

  // ----- Operations -----

  function ViewsOf(em: ExprMap, es: Exprs, os: seq<Operand>): (r: seq<Option<Expr>>)
    ensures |r| == |os|
  {
    seq(|os|, k requires 0 <= k < |os| => ViewOf(em, es, os[k]))
  }

  lemma {:induction false} ValuesOfAt(regs: Regs, os: seq<Operand>, k: nat)
    requires ValuesOf(regs, os).Some? && k < |os|
    ensures |ValuesOf(regs, os).value| == |os|
    ensures ValueOf(regs, os[k]) == Some(ValuesOf(regs, os).value[k])
  {
    if k > 0 {
      ValuesOfAt(regs, os[1..], k - 1);
    } else if |os| > 1 {
      ValuesOfAt(regs, os[1..], 0);
    }
  }

  lemma OpRun(inp: Input, l: Local, lay: Layout, em: ExprMap, op: Op, args: seq<Operand>, dst: Reg, y: Sym)
    requires y.frames != [] && NoTemps(em) && ValidOp(op) && args != []
    requires ValuesOf(l.regs, args).Some? && |ValuesOf(l.regs, args).value| == |args|
    ensures Lowerable([Comp(OpComp(lay, em, op, args), Some(dst))])
    ensures RunItems(inp, l, [Comp(OpComp(lay, em, op, args), Some(dst))], y)
         == WithTop(y, SetExpr(y.frames[0], dst,
                               OpExpr(RtOf(lay, op), ValuesOf(l.regs, args).value, ViewsOf(em, y.frames[0], args))))
  {
    hide LiftValue, WellFormed, Ordered, NaiveResult, NaivePath, ArgValues, RunItems, Lowerable, Apply, RtOf, Lift;
    var es, c, sargs := y.frames[0], OpComp(lay, em, op, args), SymbolicArgs(args);
    var callee, vs := Build(RtOf(lay, op)), ValuesOf(l.regs, args).value;
    OpWellFormed(lay, em, op, args);
    RunComp(inp, l, c, Some(dst), y);
    EmptyIsOrdered();
    AppendConcrete(em, EMPTY_COMPUTATION, callee, sargs, es);
    assert AllConcrete(c, es, |c.inputs|) <==> AllNull(ViewsOf(em, es, args)) by {
      forall k | 0 <= k < |args|
        ensures sargs[k].Symbolic? && ViewOf(em, es, sargs[k].o) == ViewsOf(em, es, args)[k]
      {
      }
    }
    OpPath(lay, em, op, args, l.regs, es, y.path);
    if !AllConcrete(c, es, |c.inputs|) {
      NaiveIs(c, l.regs, es, y.path);
      AppendValue(em, EMPTY_COMPUTATION, callee, sargs, l.regs, es);
      forall k | 0 <= k < |args|
        ensures ArgMeaning(em, EMPTY_COMPUTATION, l.regs, es, sargs[k]) == LiftedAll(vs, ViewsOf(em, es, args))[k]
      {
        ValuesOfAt(l.regs, args, k);
        LiftValueIs(l.regs, args[k]);
      }
      assert ArgMeanings(em, EMPTY_COMPUTATION, l.regs, es, sargs) == LiftedAll(vs, ViewsOf(em, es, args));
      assert CallValue(c, l.regs, es, 0) == Some(Apply(RtOf(lay, op), ArgValues(c, l.regs, es, 0)));
    } else {
      NaiveConcrete(c, l.regs, es, y.path);
    }
  }

  lemma NaiveConcrete(c: Computation, regs: Regs, es: Exprs, path: Path)
    requires WellFormed(c) && AllConcrete(c, es, |c.inputs|)
    ensures NaiveResult(c, regs, es, path) == None && NaivePath(c, regs, es, path) == path
  {
  }

  lemma OpPath(lay: Layout, em: ExprMap, op: Op, args: seq<Operand>, regs: Regs, es: Exprs, path: Path)
    requires ValidOp(op) && WellFormed(OpComp(lay, em, op, args)) && Ordered(OpComp(lay, em, op, args))
    ensures NaivePath(OpComp(lay, em, op, args), regs, es, path) == path
  {
    hide WellFormed, Ordered;
    var c := OpComp(lay, em, op, args);
    NaiveIs(c, regs, es, path);
    BuildsKeepPath(c, regs, es, 1, path);
    if AllConcrete(c, es, |c.inputs|) {
      NaiveConcrete(c, regs, es, path);
    }
  }

  predicate OnlyBuilds(c: Computation) {
    forall j | 0 <= j < |c.calls| :: c.calls[j].callee.Build?
  }

  lemma {:induction false} BuildsKeepPath(c: Computation, regs: Regs, es: Exprs, n: nat, path: Path)
    requires n <= |c.calls| && OnlyBuilds(c)
    ensures PathAfter(c, regs, es, n, path) == path
  {
    hide ArgValues;
    if n > 0 {
      BuildsKeepPath(c, regs, es, n - 1, path);
    }
  }

  // ----- Address computations -----

  /** An operand on lifted inputs, through the compile-time map. */
  function LiftedView(em: ExprMap, regs: Regs, es: Exprs, o: Operand): Expr {
    match ViewOf(em, es, o)
    case Some(e) => e
    case None => LiftValue(regs, o)
  }

  function ViewStepExpr(lay: Layout, em: ExprMap, regs: Regs, es: Exprs, step: GepStep, current: Expr): Expr
    requires lay.ptrBits > 0
  {
    match step
    case Field(_, offset) => BinExpr(Add, PtrConst(lay, offset), current)
    case Element(index, indexBits, size) =>
      if IsZeroIndex(step) then current
      else BinExpr(Add, ElementExpr(lay, LiftedView(em, regs, es, index), indexBits, size), current)
  }

  function ViewFold(lay: Layout, em: ExprMap, regs: Regs, es: Exprs, base: Operand, steps: seq<GepStep>, n: nat): Expr
    requires lay.ptrBits > 0 && n <= |steps|
  {
    if n == 0 then LiftedView(em, regs, es, base)
    else ViewStepExpr(lay, em, regs, es, steps[n - 1], ViewFold(lay, em, regs, es, base, steps, n - 1))
  }

  lemma AppendBuild(em: ExprMap, c: Computation, fn: RtFn, args: seq<Arg>, regs: Regs, es: Exprs)
    requires Ordered(c) && NoTemps(em)
    requires forall i | 0 <= i < |args| :: args[i].Earlier? ==> args[i].k < |c.calls|
    ensures var c' := AppendCall(em, c, Build(fn), args);
      && |c'.calls| == |c.calls| + 1 && Ordered(c')
      && CallValue(c', regs, es, |c.calls|) == Some(Apply(fn, ArgMeanings(em, c, regs, es, args)))
      && (OnlyBuilds(c) ==> OnlyBuilds(c'))
  {
    hide Ordered, Apply, ArgMeanings, ArgInputs, ArgValues;
    AppendValue(em, c, Build(fn), args, regs, es);
    AppendCallOrdered(em, c, Build(fn), args);
  }

  /** The meaning of an argument does not change when calls are appended. */
  lemma MeaningKept(em: ExprMap, c: Computation, callee: Callee, args: seq<Arg>, regs: Regs, es: Exprs, a: Arg)
    requires a.Earlier? ==> a.k < |c.calls|
    ensures ArgMeaning(em, AppendCall(em, c, callee, args), regs, es, a) == ArgMeaning(em, c, regs, es, a)
  {
    hide LiftValue;
    if a.Earlier? {
      AppendKeepsValue(em, c, callee, args, regs, es, a.k);
    }
  }

  lemma PtrImmMeaning(lay: Layout, em: ExprMap, c: Computation, regs: Regs, es: Exprs, n: nat)
    requires lay.ptrBits > 0
    ensures ArgMeaning(em, c, regs, es, Symbolic(PtrImm(lay, n))) == PtrConst(lay, n)
  {
    hide Lift;
  }

  lemma TwoMeanings(em: ExprMap, c: Computation, regs: Regs, es: Exprs, a: Arg, b: Arg)
    ensures ArgMeanings(em, c, regs, es, [a, b]) == [ArgMeaning(em, c, regs, es, a), ArgMeaning(em, c, regs, es, b)]
  {
    hide ArgMeaning;
  }

  lemma OneMeaning(em: ExprMap, c: Computation, regs: Regs, es: Exprs, a: Arg)
    ensures ArgMeanings(em, c, regs, es, [a]) == [ArgMeaning(em, c, regs, es, a)]
  {
    hide ArgMeaning;
  }

  lemma LastMeaning(em: ExprMap, c: Computation, regs: Regs, es: Exprs, e: Expr)
    requires |c.calls| > 0 && CallValue(c, regs, es, |c.calls| - 1) == Some(e)
    ensures ArgMeaning(em, c, regs, es, Earlier(|c.calls| - 1)) == e
  {
    hide CallValue;
  }

  /** Scaling an index appends calls whose last result is the element's offset. */
  lemma ScaleMeaning(lay: Layout, em: ExprMap, regs: Regs, es: Exprs, step: GepStep, g: GepState)
    requires lay.ptrBits > 0 && NoTemps(em) && GepStateOk(g) && OnlyBuilds(g.c)
    requires step.Element? && !IsZeroIndex(step)
    ensures var c := Scaled(lay, em, step, g);
      && Ordered(c) && OnlyBuilds(c) && |c.calls| > |g.c.calls|
      && ArgMeaning(em, c, regs, es, Earlier(|c.calls| - 1))
         == ElementExpr(lay, LiftedView(em, regs, es, step.index), step.indexBits, step.size)
      && ArgMeaning(em, c, regs, es, g.current) == ArgMeaning(em, g.c, regs, es, g.current)
  {
    hide Ordered, AppendCall, ArgMeanings, CallValue, PtrImm, PtrConst, OnlyBuilds, LiftValue;
    var index, mul := Symbolic(step.index), Build(RtBin(Mul));
    var size := Symbolic(PtrImm(lay, step.size));
    var w := (lay.ptrBits - step.indexBits) % 256;
    assert ArgMeaning(em, g.c, regs, es, index) == LiftedView(em, regs, es, step.index);
    if step.indexBits != lay.ptrBits {
      AppendBuild(em, g.c, RtZExt(w), [index], regs, es);
      OneMeaning(em, g.c, regs, es, index);
      var wide := AppendCall(em, g.c, Build(RtZExt(w)), [index]);
      LastMeaning(em, wide, regs, es, ZeroExtend(w, LiftedView(em, regs, es, step.index)));
      MeaningKept(em, g.c, Build(RtZExt(w)), [index], regs, es, g.current);
      var args := [Earlier(|g.c.calls|), size];
      AppendBuild(em, wide, RtBin(Mul), args, regs, es);
      TwoMeanings(em, wide, regs, es, Earlier(|g.c.calls|), size);
      PtrImmMeaning(lay, em, wide, regs, es, step.size);
      MeaningKept(em, wide, mul, args, regs, es, g.current);
      LastMeaning(em, AppendCall(em, wide, mul, args), regs, es,
                  ElementExpr(lay, LiftedView(em, regs, es, step.index), step.indexBits, step.size));
    } else {
      AppendBuild(em, g.c, RtBin(Mul), [index, size], regs, es);
      TwoMeanings(em, g.c, regs, es, index, size);
      PtrImmMeaning(lay, em, g.c, regs, es, step.size);
      MeaningKept(em, g.c, mul, [index, size], regs, es, g.current);
      LastMeaning(em, AppendCall(em, g.c, mul, [index, size]), regs, es,
                  ElementExpr(lay, LiftedView(em, regs, es, step.index), step.indexBits, step.size));
    }
  }

  function Scaled(lay: Layout, em: ExprMap, step: GepStep, g: GepState): Computation
    requires lay.ptrBits > 0 && step.Element?
  {
    if step.indexBits != lay.ptrBits then
      AppendCall(em, AppendCall(em, g.c, Build(RtZExt((lay.ptrBits - step.indexBits) % 256)), [Symbolic(step.index)]),
                 Build(RtBin(Mul)), [Earlier(|g.c.calls|), Symbolic(PtrImm(lay, step.size))])
    else AppendCall(em, g.c, Build(RtBin(Mul)), [Symbolic(step.index), Symbolic(PtrImm(lay, step.size))])
  }

  lemma GepStepMeaning(lay: Layout, em: ExprMap, regs: Regs, es: Exprs, step: GepStep, g: GepState)
    requires lay.ptrBits > 0 && NoTemps(em) && GepStateOk(g) && OnlyBuilds(g.c)
    ensures var h := GepStepComp(lay, em, step, g);
      && OnlyBuilds(h.c)
      && ArgMeaning(em, h.c, regs, es, h.current)
         == ViewStepExpr(lay, em, regs, es, step, ArgMeaning(em, g.c, regs, es, g.current))
  {
    hide Ordered, AppendCall, ArgMeanings, CallValue, PtrImm, PtrConst, OnlyBuilds, LiftValue, ElementExpr;
    match step
    case Field(_, offset) =>
      var args := [Symbolic(PtrImm(lay, offset)), g.current];
      AppendBuild(em, g.c, RtBin(Add), args, regs, es);
      TwoMeanings(em, g.c, regs, es, args[0], args[1]);
      PtrImmMeaning(lay, em, g.c, regs, es, offset);
      LastMeaning(em, AppendCall(em, g.c, Build(RtBin(Add)), args), regs, es,
                  ViewStepExpr(lay, em, regs, es, step, ArgMeaning(em, g.c, regs, es, g.current)));
    case Element(_, _, _) =>
      if !IsZeroIndex(step) {
        ScaleMeaning(lay, em, regs, es, step, g);
        var c := Scaled(lay, em, step, g);
        var args := [Earlier(|c.calls| - 1), g.current];
        AppendBuild(em, c, RtBin(Add), args, regs, es);
        TwoMeanings(em, c, regs, es, args[0], args[1]);
        LastMeaning(em, AppendCall(em, c, Build(RtBin(Add)), args), regs, es,
                    ViewStepExpr(lay, em, regs, es, step, ArgMeaning(em, g.c, regs, es, g.current)));
      }
  }

  lemma {:induction false} GepStepsMeaning(lay: Layout, em: ExprMap, regs: Regs, es: Exprs, base: Operand,
                                           steps: seq<GepStep>, n: nat)
    requires lay.ptrBits > 0 && NoTemps(em) && n <= |steps|
    ensures var g := GepSteps(lay, em, base, steps, n);
      OnlyBuilds(g.c) && ArgMeaning(em, g.c, regs, es, g.current) == ViewFold(lay, em, regs, es, base, steps, n)
  {
    hide GepStepComp, ViewStepExpr, LiftValue, Ordered;
    if n > 0 {
      GepStepsMeaning(lay, em, regs, es, base, steps, n - 1);
      GepStepsOk(lay, em, base, steps, n - 1);
      GepStepMeaning(lay, em, regs, es, steps[n - 1], GepSteps(lay, em, base, steps, n - 1));
    }
  }

  /** All inputs of the address computation are null when the indices so far, and the base if it has
      been used, are. */
  predicate StepsConcrete(em: ExprMap, es: Exprs, steps: seq<GepStep>, n: nat)
    requires n <= |steps|
  {
    forall k | 0 <= k < n && steps[k].Element? && !IsZeroIndex(steps[k]) :: ViewOf(em, es, steps[k].index).None?
  }

  lemma AppendOldConcrete(em: ExprMap, c: Computation, callee: Callee, args: seq<Arg>, es: Exprs)
    requires Ordered(c) && NoTemps(em) && Ordered(AppendCall(em, c, callee, args))
    requires WellFormed(AppendCall(em, c, callee, args))
    ensures OldConcrete(AppendCall(em, c, callee, args), es)
       <==> OldConcrete(c, es) && forall i | 0 <= i < |args| && args[i].Symbolic? :: ViewOf(em, es, args[i].o).None?
  {
    hide ArgInputs, Ordered, WellFormed, AppendCall;
    var c' := AppendCall(em, c, callee, args);
    AppendConcrete(em, c, callee, args, es);
    OldIsAll(c', es);
  }

  lemma OldIsAll(c: Computation, es: Exprs)
    requires Ordered(c) && WellFormed(c)
    ensures OldConcrete(c, es) <==> AllConcrete(c, es, |c.inputs|)
  {
    forall k | 0 <= k < |c.inputs|
      ensures InputExpr(c, es, k) == EvalOp(OperandAt(c.calls, c.inputs[k]), map[], es)
    {
    }
  }

  lemma TwoConcrete(em: ExprMap, c: Computation, fn: RtFn, a: Arg, b: Arg, es: Exprs)
    requires Ordered(c) && NoTemps(em)
    requires (a.Earlier? ==> a.k < |c.calls|) && (b.Earlier? ==> b.k < |c.calls|)
    requires c.inputs != [] || a.Symbolic? || b.Symbolic?
    ensures Ordered(AppendCall(em, c, Build(fn), [a, b]))
    ensures AppendCall(em, c, Build(fn), [a, b]).inputs != []
    ensures OldConcrete(AppendCall(em, c, Build(fn), [a, b]), es)
       <==> OldConcrete(c, es)
            && (a.Symbolic? ==> ViewOf(em, es, a.o).None?) && (b.Symbolic? ==> ViewOf(em, es, b.o).None?)
  {
    hide Ordered, WellFormed;
    var args := [a, b];
    AppendCallOrdered(em, c, Build(fn), args);
    InputsNonEmpty(em, c, Build(fn), args);
    OrderedIsWellFormed(AppendCall(em, c, Build(fn), args));
    AppendOldConcrete(em, c, Build(fn), args, es);
    assert args[0] == a && args[1] == b;
  }

  lemma InputsNonEmpty(em: ExprMap, c: Computation, callee: Callee, args: seq<Arg>)
    requires Ordered(c)
    requires c.inputs != [] || exists i :: 0 <= i < |args| && args[i].Symbolic?
    ensures AppendCall(em, c, callee, args).inputs != []
  {
    if c.inputs == [] {
      var i :| 0 <= i < |args| && args[i].Symbolic?;
      var k := FindNewIndex(em, c, callee, args, |args|, i);
    }
  }

  lemma PtrImmConcrete(lay: Layout, em: ExprMap, es: Exprs, n: nat)
    requires lay.ptrBits > 0
    ensures ViewOf(em, es, PtrImm(lay, n)).None?
  {
  }

  lemma ScaledConcrete(lay: Layout, em: ExprMap, es: Exprs, step: GepStep, g: GepState)
    requires lay.ptrBits > 0 && NoTemps(em) && GepStateOk(g)
    requires step.Element? && !IsZeroIndex(step)
    ensures var c := Scaled(lay, em, step, g);
      && Ordered(c) && c.inputs != [] && |c.calls| > |g.c.calls|
      && (OldConcrete(c, es) <==> OldConcrete(g.c, es) && ViewOf(em, es, step.index).None?)
  {
    hide Ordered, WellFormed, AppendCall, PtrImm, OldConcrete;
    var index, size := Symbolic(step.index), Symbolic(PtrImm(lay, step.size));
    PtrImmConcrete(lay, em, es, step.size);
    if step.indexBits != lay.ptrBits {
      var fn := RtZExt((lay.ptrBits - step.indexBits) % 256);
      var args := [index];
      assert args[0].Symbolic?;
      AppendCallOrdered(em, g.c, Build(fn), args);
      InputsNonEmpty(em, g.c, Build(fn), args);
      AppendGrows(em, g.c, Build(fn), args);
      var wide := AppendCall(em, g.c, Build(fn), args);
      OrderedIsWellFormed(wide);
      AppendOldConcrete(em, g.c, Build(fn), args, es);
      assert OldConcrete(wide, es) <==> OldConcrete(g.c, es) && ViewOf(em, es, step.index).None?;
      AppendGrows(em, wide, Build(RtBin(Mul)), [Earlier(|g.c.calls|), size]);
      TwoConcrete(em, wide, RtBin(Mul), Earlier(|g.c.calls|), size, es);
    } else {
      AppendGrows(em, g.c, Build(RtBin(Mul)), [index, size]);
      TwoConcrete(em, g.c, RtBin(Mul), index, size, es);
    }
  }

  lemma {:induction false} GepStepsConcrete(lay: Layout, em: ExprMap, es: Exprs, base: Operand, steps: seq<GepStep>,
                                            n: nat)
    requires lay.ptrBits > 0 && NoTemps(em) && n <= |steps|
    ensures var g := GepSteps(lay, em, base, steps, n);
      && GepStateOk(g)
      && (g.current.Symbolic? ==> g.current == Symbolic(base))
      && (OldConcrete(g.c, es)
          <==> StepsConcrete(em, es, steps, n) && (g.current.Earlier? ==> ViewOf(em, es, base).None?))
  {
    hide GepStepComp, Ordered, ViewOf, OldConcrete, IsZeroIndex;
    GepStepsOk(lay, em, base, steps, n);
    if n == 0 {
      EmptyIsOrdered();
    } else {
      var g, step := GepSteps(lay, em, base, steps, n - 1), steps[n - 1];
      GepStepsConcrete(lay, em, es, base, steps, n - 1);
      GepStepConcrete(lay, em, es, base, step, g);
      assert StepsConcrete(em, es, steps, n)
          == (StepsConcrete(em, es, steps, n - 1)
              && (step.Element? && !IsZeroIndex(step) ==> ViewOf(em, es, step.index).None?));
    }
  }

  lemma GepStepConcrete(lay: Layout, em: ExprMap, es: Exprs, base: Operand, step: GepStep, g: GepState)
    requires lay.ptrBits > 0 && NoTemps(em) && GepStateOk(g)
    requires g.current.Symbolic? ==> g.current == Symbolic(base)
    ensures var h := GepStepComp(lay, em, step, g);
      && Ordered(h.c)
      && (step.Element? && IsZeroIndex(step) ==> h == g)
      && (!(step.Element? && IsZeroIndex(step)) ==> h.current.Earlier?)
      && (!(step.Element? && IsZeroIndex(step)) ==>
            OldConcrete(h.c, es) == (OldConcrete(g.c, es) && (step.Element? ==> ViewOf(em, es, step.index).None?)
                                     && (g.current.Symbolic? ==> ViewOf(em, es, base).None?)))
  {
    hide Ordered, WellFormed, AppendCall, PtrImm, OldConcrete, ViewOf;
    match step
    case Field(_, offset) =>
      PtrImmConcrete(lay, em, es, offset);
      TwoConcrete(em, g.c, RtBin(Add), Symbolic(PtrImm(lay, offset)), g.current, es);
    case Element(_, _, _) =>
      if !IsZeroIndex(step) {
        ScaledConcrete(lay, em, es, step, g);
        var c := Scaled(lay, em, step, g);
        TwoConcrete(em, c, RtBin(Add), Earlier(|c.calls| - 1), g.current, es);
      }
  }

  lemma GepRun(inp: Input, l: Local, lay: Layout, em: ExprMap, base: Operand, steps: seq<GepStep>, dst: Reg, y: Sym)
    requires y.frames != [] && lay.ptrBits > 0 && NoTemps(em) && !AllZero(steps)
    ensures Lowerable([Comp(GepComp(lay, em, base, steps), Some(dst))])
    ensures var es := y.frames[0];
      RunItems(inp, l, [Comp(GepComp(lay, em, base, steps), Some(dst))], y)
      == WithTop(y, SetExpr(es, dst,
           if StepsConcrete(em, es, steps, |steps|) && ViewOf(em, es, base).None? then None
           else Some(ViewFold(lay, em, l.regs, es, base, steps, |steps|))))
  {
    hide Ordered, WellFormed, RunItems, Lowerable, NaiveResult, NaivePath, ViewFold, GepSteps, OldConcrete, LiftValue,
         CallValue, OnlyBuilds, ViewOf, StepsConcrete;
    var es, n := y.frames[0], |steps|;
    var g := GepSteps(lay, em, base, steps, n);
    var c := g.c;
    GepWellFormed(lay, em, base, steps);
    RunComp(inp, l, c, Some(dst), y);
    GepStepsConcrete(lay, em, es, base, steps, n);
    OldIsAll(c, es);
    GepStepsMeaning(lay, em, l.regs, es, base, steps, n);
    assert c.calls != [] by { WellFormedNonEmpty(c); }
    GepCurrentIsLast(lay, em, base, steps, n);
    NaiveIs(c, l.regs, es, y.path);
    BuildsKeepPath(c, l.regs, es, |c.calls|, y.path);
    if AllConcrete(c, es, |c.inputs|) {
      NaiveConcrete(c, l.regs, es, y.path);
    } else {
      BuildValue(c, l.regs, es, |c.calls| - 1);
    }
  }

  lemma WellFormedNonEmpty(c: Computation)
    requires WellFormed(c)
    ensures c.calls != []
  {
  }

  lemma BuildValue(c: Computation, regs: Regs, es: Exprs, j: nat)
    requires OnlyBuilds(c) && j < |c.calls|
    ensures CallValue(c, regs, es, j).Some?
  {
  }

  lemma {:induction false} GepCurrentIsLast(lay: Layout, em: ExprMap, base: Operand, steps: seq<GepStep>, n: nat)
    requires lay.ptrBits > 0 && n <= |steps|
    ensures var g := GepSteps(lay, em, base, steps, n);
      g.c.calls != [] ==> g.current == Earlier(|g.c.calls| - 1)
  {
    if n > 0 {
      GepCurrentIsLast(lay, em, base, steps, n - 1);
    }
  }

  // ----- Parameters -----

  lemma {:induction false} ParamsRun(inp: Input, l: Local, em: ExprMap, args: seq<Operand>, n: nat, y: Sym)
    requires y.frames != [] && n <= |args|
    ensures Lowerable(ParamItems(em, args, n))
    ensures RunItems(inp, l, ParamItems(em, args, n), y)
         == y.(params := SetParams(y.params, ViewsOf(em, y.frames[0], args)[..n]))
  {
    hide RunItems, Lowerable, ViewOf;
    if n == 0 {
      RunNoItems(inp, l, y);
    } else {
      ParamsRun(inp, l, em, args, n - 1, y);
      var last := SetParam(n - 1, GetExprOrNull(em, args[n - 1]));
      var y' := RunItems(inp, l, ParamItems(em, args, n - 1), y);
      RunOneItem(inp, l, last, y');
      RunItemsAppend(inp, l, ParamItems(em, args, n - 1), [last], y);
      var views := ViewsOf(em, y.frames[0], args);
      assert views[..n][..n - 1] == views[..n - 1];
      assert views[n - 1] == OpValue(GetExprOrNull(em, args[n - 1]), y.frames[0])
          by { ViewIsValue(em, y.frames[0], args[n - 1]); }
    }
  }

  lemma ViewIsValue(em: ExprMap, es: Exprs, o: Operand)
    ensures ViewOf(em, es, o) == OpValue(GetExprOrNull(em, o), es)
  {
  }
}
