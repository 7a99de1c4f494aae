/** The emitted code of each node computes what the rule prescribes for the expressions that it sees, for every
    program in SSA form, for every input. */
module Refinement {
  import opened BitVectors
  import opened Expressions
  import opened Builders
  import opened FlatShadow
  import opened Programs
  import opened Concolic
  import opened ShortCircuit
  import opened Computations
  import opened Symbolizer
  import opened Visibility
  import opened Instrumented
  import opened PassFacts
  import opened EmittedCode
  import opened SsaForm
  import opened Replay
  import opened Runs

  /** Seen through a compile-time map, the symbolic registers hold these expressions. */
  ghost predicate Agree(em: ExprMap, avail: set<Reg>, es1: Exprs, es0: Exprs) {
    forall r | r in avail :: ViewOf(em, es1, Var(r)) == Lookup(es0, r)
  }

  predicate AllValid(avail: set<Reg>, os: seq<Operand>) {
    forall j | 0 <= j < |os| :: ValidAt(avail, os[j])
  }

  lemma ViewAgrees(em: ExprMap, avail: set<Reg>, es1: Exprs, es0: Exprs, o: Operand)
    requires Agree(em, avail, es1, es0) && ValidAt(avail, o)
    ensures ViewOf(em, es1, o) == ExprOf(es0, o)
  {
  }

  lemma ViewsAgree(em: ExprMap, avail: set<Reg>, es1: Exprs, es0: Exprs, os: seq<Operand>)
    requires Agree(em, avail, es1, es0) && AllValid(avail, os)
    ensures ViewsOf(em, es1, os) == ExprsOf(es0, os)
  {
    hide Agree, ViewOf, ExprOf;
    forall j | 0 <= j < |os|
      ensures ViewsOf(em, es1, os)[j] == ExprsOf(es0, os)[j]
    {
      assert ValidAt(avail, os[j]);
      ViewAgrees(em, avail, es1, es0, os[j]);
    }
  }

  ghost predicate OnlySets(es: Exprs, es': Exprs, r: Reg) {
    forall q: Reg | q != r :: Lookup(es', q) == Lookup(es, q)
  }

  /** Defining a register keeps agreement on all values that do not share it. */
  lemma SetAgrees(em: ExprMap, avail: set<Reg>, es1: Exprs, es1': Exprs, es0: Exprs, r: Reg, e: Option<Expr>)
    requires Agree(em, avail, es1, es0) && NoTemps(em)
    requires OnlySets(es1, es1', r) && ViewOf(em, es1', Var(r)) == e
    ensures Agree(em, After(em, avail, {r}), es1', SetExpr(es0, r, e))
  {
    var es0' := SetExpr(es0, r, e);
    forall q | q in After(em, avail, {r})
      ensures ViewOf(em, es1', Var(q)) == Lookup(es0', q)
    {
      if q != r {
        assert ViewOf(em, es1, Var(q)) == Lookup(es0, q);
        assert Lookup(es0', q) == Lookup(es0, q);
      }
    }
  }

  lemma NothingSet(em: ExprMap, avail: set<Reg>)
    ensures After(em, avail, {}) == avail
  {
  }

  lemma OnlySetsSame(es: Exprs, r: Reg)
    ensures OnlySets(es, es, r)
  {
  }

  lemma OnlySetsOne(es: Exprs, r: Reg, e: Option<Expr>)
    ensures OnlySets(es, SetExpr(es, r, e), r)
  {
  }

  // ----- Address computations -----

  lemma LiftedAgrees(em: ExprMap, avail: set<Reg>, es1: Exprs, es0: Exprs, regs: Regs, o: Operand)
    requires Agree(em, avail, es1, es0) && ValidAt(avail, o) && HasValue(regs, o)
    ensures LiftedView(em, regs, es1, o) == LiftedOperand(regs, es0, o)
  {
    hide Agree;
    ViewAgrees(em, avail, es1, es0, o);
  }

  lemma {:induction false} IndexHasValue(regs: Regs, steps: seq<GepStep>, n: nat)
    requires StepsOffset(regs, steps).Some? && n < |steps| && steps[n].Element?
    ensures HasValue(regs, steps[n].index)
  {
    if n > 0 {
      IndexHasValue(regs, steps[1..], n - 1);
    }
  }

  /** The fold over the indices, from the front. */
  lemma {:induction false} FoldAgrees(lay: Layout, em: ExprMap, avail: set<Reg>, es1: Exprs, es0: Exprs, regs: Regs,
                                      base: Operand, steps: seq<GepStep>, n: nat)
    requires lay.ptrBits > 0 && n <= |steps|
    requires Agree(em, avail, es1, es0) && AllValid(avail, [base] + IndexOperands(steps))
    requires HasValue(regs, base) && StepsOffset(regs, steps).Some?
    ensures GepFold(lay, regs, es0, steps, LiftedOperand(regs, es0, base))
         == GepFold(lay, regs, es0, steps[n..], ViewFold(lay, em, regs, es1, base, steps, n))
  {
    hide Agree, AllValid, LiftedOperand, LiftedView, ElementExpr, ViewStepExpr, GepStepExpr, StepsOffset,
         IndexOperands;
    if n == 0 {
      assert steps[0..] == steps;
      assert ValidAt(avail, ([base] + IndexOperands(steps))[0]) by { FirstValid(avail, base, IndexOperands(steps)); }
      LiftedAgrees(em, avail, es1, es0, regs, base);
    } else {
      FoldAgrees(lay, em, avail, es1, es0, regs, base, steps, n - 1);
      assert steps[n - 1..][1..] == steps[n..];
      var current := ViewFold(lay, em, regs, es1, base, steps, n - 1);
      StepAgrees(lay, em, avail, es1, es0, regs, base, steps, n - 1, current);
    }
  }

  lemma FirstValid(avail: set<Reg>, o: Operand, os: seq<Operand>)
    requires AllValid(avail, [o] + os)
    ensures ValidAt(avail, o)
  {
    assert ValidAt(avail, ([o] + os)[0]);
  }

  lemma {:induction false} IndexValid(avail: set<Reg>, base: Operand, steps: seq<GepStep>, n: nat)
    requires AllValid(avail, [base] + IndexOperands(steps)) && n < |steps| && steps[n].Element?
    ensures ValidAt(avail, steps[n].index)
  {
    hide ValidAt, IndexOperands;
    var j := IndexOperandAt(steps, n);
    assert ([base] + IndexOperands(steps))[j + 1] == steps[n].index;
  }

  lemma {:induction false} StepAgrees(lay: Layout, em: ExprMap, avail: set<Reg>, es1: Exprs, es0: Exprs, regs: Regs,
                   base: Operand, steps: seq<GepStep>, n: nat, current: Expr)
    requires lay.ptrBits > 0 && n < |steps|
    requires Agree(em, avail, es1, es0) && AllValid(avail, [base] + IndexOperands(steps))
    requires StepsOffset(regs, steps).Some?
    ensures ViewStepExpr(lay, em, regs, es1, steps[n], current) == GepStepExpr(lay, regs, es0, steps[n], current)
  {
    hide Agree, LiftedOperand, LiftedView, ElementExpr, IsZeroIndex, IndexOperands, PtrConst, StepsOffset, ValidAt;
    if steps[n].Element? {
      IndexHasValue(regs, steps, n);
      IndexValid(avail, base, steps, n);
      LiftedAgrees(em, avail, es1, es0, regs, steps[n].index);
    }
  }

  lemma {:induction false} FoldWhole(lay: Layout, em: ExprMap, avail: set<Reg>, es1: Exprs, es0: Exprs, regs: Regs,
                  base: Operand, steps: seq<GepStep>)
    requires lay.ptrBits > 0
    requires Agree(em, avail, es1, es0) && AllValid(avail, [base] + IndexOperands(steps))
    requires HasValue(regs, base) && StepsOffset(regs, steps).Some?
    ensures ViewFold(lay, em, regs, es1, base, steps, |steps|)
      == GepFold(lay, regs, es0, steps, LiftedOperand(regs, es0, base))
  {
    hide Agree, AllValid, LiftedOperand, ViewFold, StepsOffset, IndexOperands;
    FoldAgrees(lay, em, avail, es1, es0, regs, base, steps, |steps|);
    assert steps[|steps|..] == [];
  }

  /** The operand at position `j` of the indices belongs to some step. */
  lemma {:induction false} StepOfOperand(steps: seq<GepStep>, j: nat) returns (k: nat)
    requires j < |IndexOperands(steps)|
    ensures k < |steps| && steps[k].Element? && steps[k].index == IndexOperands(steps)[j]
  {
    var head := |IndexOperands(steps)| - |IndexOperands(steps[1..])|;
    if j < head {
      k := 0;
    } else {
      k := StepOfOperand(steps[1..], j - head);
      k := k + 1;
    }
  }

  lemma {:induction false} IndicesNull(em: ExprMap, es: Exprs, steps: seq<GepStep>)
    requires StepsConcrete(em, es, steps, |steps|)
    ensures AllNull(ViewsOf(em, es, IndexOperands(steps)))
  {
    hide ViewOf, IndexOperands;
    forall j | 0 <= j < |IndexOperands(steps)|
      ensures ViewOf(em, es, IndexOperands(steps)[j]).None?
    {
      var k := StepOfOperand(steps, j);
      ZeroViewsNull(em, es, steps[k]);
    }
  }

  lemma {:induction false} NullIndices(em: ExprMap, es: Exprs, steps: seq<GepStep>)
    requires AllNull(ViewsOf(em, es, IndexOperands(steps)))
    ensures StepsConcrete(em, es, steps, |steps|)
  {
    hide ViewOf, IndexOperands, IsZeroIndex, AllNull, ViewsOf;
    forall k: nat | k < |steps| && steps[k].Element? && !IsZeroIndex(steps[k])
      ensures ViewOf(em, es, steps[k].index).None?
    {
      NullIndex(em, es, steps, k);
    }
  }

  lemma {:induction false} NullIndex(em: ExprMap, es: Exprs, steps: seq<GepStep>, k: nat)
    requires AllNull(ViewsOf(em, es, IndexOperands(steps))) && k < |steps| && steps[k].Element?
    ensures ViewOf(em, es, steps[k].index).None?
  {
    hide *;
    var j := IndexOperandAt(steps, k);
    NullView(em, es, IndexOperands(steps), j);
  }

  lemma NullView(em: ExprMap, es: Exprs, os: seq<Operand>, j: nat)
    requires AllNull(ViewsOf(em, es, os)) && j < |os|
    ensures ViewOf(em, es, os[j]).None?
  {
    hide ViewOf;
    assert ViewsOf(em, es, os)[j] == ViewOf(em, es, os[j]);
  }

  lemma AllNullCons(em: ExprMap, es: Exprs, o: Operand, os: seq<Operand>)
    ensures AllNull(ViewsOf(em, es, [o] + os)) <==> ViewOf(em, es, o).None? && AllNull(ViewsOf(em, es, os))
  {
    hide ViewOf;
    assert ViewsOf(em, es, [o] + os) == [ViewOf(em, es, o)] + ViewsOf(em, es, os);
    var a, b := ViewOf(em, es, o), ViewsOf(em, es, os);
    assert ([a] + b)[0] == a;
    if AllNull([a] + b) {
      forall j | 0 <= j < |b|
        ensures b[j] == None
      {
        assert ([a] + b)[j + 1] == b[j];
      }
    }
  }

  lemma {:induction false} ConcreteStepsAgree(em: ExprMap, avail: set<Reg>, es1: Exprs, es0: Exprs, base: Operand,
                                              steps: seq<GepStep>)
    requires Agree(em, avail, es1, es0) && AllValid(avail, [base] + IndexOperands(steps))
    ensures (StepsConcrete(em, es1, steps, |steps|) && ViewOf(em, es1, base).None?)
         == AllNull(ExprsOf(es0, [base] + IndexOperands(steps)))
  {
    hide Agree, ViewOf, AllValid, AllNull, IndexOperands, StepsConcrete, ViewsOf;
    ViewsAgree(em, avail, es1, es0, [base] + IndexOperands(steps));
    AllNullCons(em, es1, base, IndexOperands(steps));
    if StepsConcrete(em, es1, steps, |steps|) {
      IndicesNull(em, es1, steps);
    }
    if AllNull(ViewsOf(em, es1, IndexOperands(steps))) {
      NullIndices(em, es1, steps);
    }
  }

  lemma ZeroViewsNull(em: ExprMap, es: Exprs, step: GepStep)
    requires step.Element?
    ensures IsZeroIndex(step) ==> ViewOf(em, es, step.index).None?
  {
  }

  // ----- Instructions -----

  ghost predicate Ready(em: ExprMap, avail: set<Reg>, y: Sym, es0: Exprs) {
    y.frames != [] && NoTemps(em) && Agree(em, avail, y.frames[0], es0)
  }

  function Beside(y: Sym, es0: Exprs): SymLocal {
    LocalSym(y, es0)
  }

  /** The expression of a value for which the visitor records `op`. */
  function RecordedExpr(op: Option<SymOperand>, es: Exprs): Option<Expr> {
    match op
    case Some(x) => EvalOp(x, map[], es)
    case None => None
  }

  /** What the code emitted for an instruction does, given the map known when it was visited: in all
      but the frame what the rule says, and there it leaves the rule's expression of the result where
      the visitor records it. */
  ghost predicate Effect(em: ExprMap, i: Instr, y: Sym, y': Sym, s: SymLocal) {
    && y.frames != [] && y'.frames != []
    && y' == WithTop(y, y'.frames[0]).(shadow := s.shadow, offset := s.offset, path := s.path)
    && match Target(i)
       case Some(r) =>
         && OnlySets(y.frames[0], y'.frames[0], r)
         && RecordedExpr(Recorded(em, InstrNode(i)), y'.frames[0]) == Lookup(s.exprs, r)
       case None => y'.frames[0] == y.frames[0]
  }

  /** The final map says where. */
  predicate RecordedIn(final: ExprMap, em: ExprMap, node: Node) {
    Defines(node).Some? ==> GetExpr(final, Var(Defines(node).value)) == Recorded(em, node)
  }

  lemma EffectAgrees(final: ExprMap, avail: set<Reg>, em: ExprMap, i: Instr, y: Sym, y': Sym, s: SymLocal, es0: Exprs)
    requires y.frames != [] && NoTemps(final) && Agree(final, avail, y.frames[0], es0)
    requires Effect(em, i, y, y', s) && RecordedIn(final, em, InstrNode(i))
    ensures Agree(final, After(final, avail, DefSet(InstrNode(i))), y'.frames[0], Assigned(es0, i, s.exprs))
  {
    hide Agree, After, Recorded, ViewOf, OnlySets;
    match Target(i)
    case Some(r) =>
      assert ViewOf(final, y'.frames[0], Var(r)) == RecordedExpr(Recorded(em, InstrNode(i)), y'.frames[0]) by {
        BaseView(final, y'.frames[0], Var(r));
      }
      SetAgrees(final, avail, y.frames[0], y'.frames[0], es0, r, Lookup(s.exprs, r));
    case None =>
      NothingSet(final, avail);
  }

  lemma NoneSymbolicViews(em: ExprMap, es: Exprs, os: seq<Operand>)
    requires NoneSymbolic(em, os)
    ensures AllNull(ViewsOf(em, es, os))
  {
  }

  lemma ComputeSim(lay: Layout, inp: Input, em: ExprMap, avail: set<Reg>, i: Instr, l: Local, y: Sym, es0: Exprs)
    requires lay.ptrBits > 0 && i.Compute? && Ready(em, avail, y, es0)
    requires AllValid(avail, Operands(InstrNode(i)))
    requires Exec(lay, inp, i, l).Some?
    ensures Lowerable(InstrItems(lay, em, i))
    ensures Effect(em, i, y, RunItems(inp, l, InstrItems(lay, em, i), y), SymExec(lay, inp, i, l, Beside(y, es0)))
  {
    hide Agree, AllValid, RunItems, Lowerable, OpComp, ViewOf, ComputeExpr, OnlySets, NoneSymbolic, OpResult;
    var Compute(dst, op, args) := i;
    var es1, e := y.frames[0], ComputeExpr(lay, op, args, l.regs, es0);
    ComputeMeaning(lay, em, avail, op, args, l.regs, es1, es0);
    if NoneSymbolic(em, args) {
      RunNoItems(inp, l, y);
      OnlySetsSame(es1, dst);
    } else {
      OpRun(inp, l, lay, em, op, args, dst, y);
      OnlySetsOne(es1, dst, e);
    }
  }

  /** The expressions of the arguments, seen through the map, give the rule's expression. */
  lemma ComputeMeaning(lay: Layout, em: ExprMap, avail: set<Reg>, op: Op, args: seq<Operand>, regs: Regs, es1: Exprs,
                       es0: Exprs)
    requires Agree(em, avail, es1, es0) && AllValid(avail, args)
    requires ValuesOf(regs, args).Some? && OpResult(lay, op, ValuesOf(regs, args).value).Some?
    ensures ValidOp(op) && |ValuesOf(regs, args).value| == |args|
    ensures ComputeExpr(lay, op, args, regs, es0)
      == OpExpr(RtOf(lay, op), ValuesOf(regs, args).value, ViewsOf(em, es1, args))
    ensures NoneSymbolic(em, args) ==> ComputeExpr(lay, op, args, regs, es0) == None
    ensures NoneSymbolic(em, args) || args != []
  {
    hide Agree, AllValid, ViewOf, OpResult, Apply, RtOf, Lift, NoneSymbolic, ValuesOf;
    DefinedOpIsValid(lay, op, ValuesOf(regs, args).value);
    ViewsAgree(em, avail, es1, es0, args);
    ArgumentCount(regs, args);
    if NoneSymbolic(em, args) {
      NoneSymbolicViews(em, es1, args);
    } else {
      assert args != [] by { SymbolicSomewhere(em, args); }
    }
  }

  lemma SymbolicSomewhere(em: ExprMap, os: seq<Operand>)
    requires !NoneSymbolic(em, os)
    ensures os != []
  {
  }

  /** Without emitted code the address shares the base's register, or has no expression. */
  lemma GepWithoutCode(lay: Layout, em: ExprMap, avail: set<Reg>, i: Instr, l: Local, es1: Exprs, es0: Exprs)
    requires lay.ptrBits > 0 && i.Gep? && Agree(em, avail, es1, es0)
    requires AllValid(avail, Operands(InstrNode(i)))
    requires NoneSymbolic(em, [i.base] + IndexOperands(i.steps)) || AllZero(i.steps)
    ensures RecordedExpr(Recorded(em, InstrNode(i)), es1) == GepExpr(lay, l.regs, es0, i.base, i.steps)
  {
    hide Agree, AllValid, ViewOf, GepFold, AllZero, LiftedOperand, NoneSymbolic,
         IndexOperands, AllNull, ViewsOf;
    var Gep(dst, base, steps) := i;
    var os := [base] + IndexOperands(steps);
    ViewsAgree(em, avail, es1, es0, os);
    FirstValid(avail, base, IndexOperands(steps));
    ViewAgrees(em, avail, es1, es0, base);
    BaseView(em, es1, base);
    if NoneSymbolic(em, os) {
      NoneSymbolicViews(em, es1, os);
      AllNullCons(em, es1, base, IndexOperands(steps));
    }
  }

  lemma GepCode(lay: Layout, inp: Input, em: ExprMap, avail: set<Reg>, i: Instr, l: Local, y: Sym, es0: Exprs)
    requires lay.ptrBits > 0 && i.Gep? && Ready(em, avail, y, es0)
    requires AllValid(avail, Operands(InstrNode(i)))
    requires Exec(lay, inp, i, l).Some? && !AllZero(i.steps)
    ensures Lowerable([Comp(GepComp(lay, em, i.base, i.steps), Some(i.dst))])
    ensures RunItems(inp, l, [Comp(GepComp(lay, em, i.base, i.steps), Some(i.dst))], y)
         == WithTop(y, SetExpr(y.frames[0], i.dst, GepExpr(lay, l.regs, es0, i.base, i.steps)))
  {
    hide Agree, AllValid, RunItems, Lowerable, GepComp, StepsOffset, ViewOf, GepFold, ViewFold, StepsConcrete,
         AllZero,
         LiftedOperand, IndexOperands, AllNull, ViewsOf;
    var Gep(dst, base, steps) := i;
    GepRun(inp, l, lay, em, base, steps, dst, y);
    FoldWhole(lay, em, avail, y.frames[0], es0, l.regs, base, steps);
    ConcreteStepsAgree(em, avail, y.frames[0], es0, base, steps);
  }

  lemma GepSim(lay: Layout, inp: Input, em: ExprMap, avail: set<Reg>, i: Instr, l: Local, y: Sym, es0: Exprs)
    requires lay.ptrBits > 0 && i.Gep? && Ready(em, avail, y, es0)
    requires AllValid(avail, Operands(InstrNode(i)))
    requires Exec(lay, inp, i, l).Some?
    ensures Lowerable(InstrItems(lay, em, i))
    ensures Effect(em, i, y, RunItems(inp, l, InstrItems(lay, em, i), y), SymExec(lay, inp, i, l, Beside(y, es0)))
  {
    hide Agree, AllValid, RunItems, Lowerable, GepComp, ViewOf, GepExpr, AllZero, OnlySets,
         NoneSymbolic, IndexOperands,
         Exec;
    var Gep(dst, base, steps) := i;
    var es1, e := y.frames[0], GepExpr(lay, l.regs, es0, base, steps);
    if NoneSymbolic(em, [base] + IndexOperands(steps)) || AllZero(steps) {
      RunNoItems(inp, l, y);
      GepWithoutCode(lay, em, avail, i, l, es1, es0);
      OnlySetsSame(es1, dst);
    } else {
      GepCode(lay, inp, em, avail, i, l, y, es0);
      OnlySetsOne(es1, dst, e);
    }
  }

  lemma BaseView(em: ExprMap, es: Exprs, o: Operand)
    ensures ViewOf(em, es, o) == match GetExpr(em, o)
      case Some(op) => EvalOp(op, map[], es)
      case None => None
  {
  }

  lemma CopySim(lay: Layout, inp: Input, em: ExprMap, avail: set<Reg>, i: Instr, l: Local, y: Sym, es0: Exprs)
    requires lay.ptrBits > 0 && i.Copy? && Ready(em, avail, y, es0)
    requires AllValid(avail, Operands(InstrNode(i)))
    ensures Lowerable(InstrItems(lay, em, i))
    ensures Effect(em, i, y, RunItems(inp, l, InstrItems(lay, em, i), y), SymExec(lay, inp, i, l, Beside(y, es0)))
  {
    hide Agree, RunItems, Lowerable, ViewOf;
    var es1 := y.frames[0];
    assert ValidAt(avail, Operands(InstrNode(i))[0]);
    ViewAgrees(em, avail, es1, es0, i.src);
    RunNoItems(inp, l, y);
    BaseView(em, es1, i.src);
    OnlySetsSame(es1, i.dst);
  }

  lemma SelectSim(lay: Layout, inp: Input, em: ExprMap, avail: set<Reg>, i: Instr, l: Local, y: Sym, es0: Exprs)
    requires lay.ptrBits > 0 && i.Select? && Ready(em, avail, y, es0)
    requires AllValid(avail, Operands(InstrNode(i)))
    ensures Lowerable(InstrItems(lay, em, i))
    ensures Effect(em, i, y, RunItems(inp, l, InstrItems(lay, em, i), y), SymExec(lay, inp, i, l, Beside(y, es0)))
  {
    hide Agree, RunItems, Lowerable, ViewOf, PushItems, Push, Address;
    var es1 := y.frames[0];
    assert ValidAt(avail, Operands(InstrNode(i))[0]);
    ViewAgrees(em, avail, es1, es0, i.cond);
    PushRun(inp, l, em, i.cond, y);
    OnlySetsSame(es1, i.dst);
  }

  // ----- Instructions on memory -----

  /** Pins an address or length; nothing else changes. */
  lemma PinSim(inp: Input, em: ExprMap, avail: set<Reg>, o: Operand, l: Local, y: Sym, es0: Exprs)
    requires Ready(em, avail, y, es0) && ValidAt(avail, o) && HasValue(l.regs, o)
    ensures Lowerable(AlternativeItems(em, o))
    ensures RunItems(inp, l, AlternativeItems(em, o), y) == y.(path := TryAlternative(l.regs, es0, o, y.path))
  {
    hide Agree, RunItems, Lowerable, ViewOf, AlternativeItems;
    ViewAgrees(em, avail, y.frames[0], es0, o);
    AlternativeRun(inp, l, em, o, y);
  }

  lemma PinThen(inp: Input, em: ExprMap, avail: set<Reg>, before: seq<Item>, o: Operand, l: Local, y: Sym, es0: Exprs,
                path: Path)
    requires Ready(em, avail, y, es0) && ValidAt(avail, o) && HasValue(l.regs, o)
    requires Lowerable(before) && RunItems(inp, l, before, y) == y.(path := path)
    ensures Lowerable(before + AlternativeItems(em, o))
    ensures RunItems(inp, l, before + AlternativeItems(em, o), y) == y.(path := TryAlternative(l.regs, es0, o, path))
  {
    hide Agree, RunItems, Lowerable, AlternativeItems, TryAlternative;
    PinSim(inp, em, avail, o, l, y.(path := path), es0);
    RunItemsAppend(inp, l, before, AlternativeItems(em, o), y);
  }

  lemma ThenItem(inp: Input, before: seq<Item>, item: Item, l: Local, y: Sym, path: Path)
    requires y.frames != [] && !item.Comp?
    requires Lowerable(before) && RunItems(inp, l, before, y) == y.(path := path)
    ensures Lowerable(before + [item])
    ensures RunItems(inp, l, before + [item], y) == ExecItem(inp, l, item, y.(path := path))
  {
    hide RunItems, Lowerable, ExecItem;
    RunOneItem(inp, l, item, y.(path := path));
    RunItemsAppend(inp, l, before, [item], y);
  }

  lemma LoadSim(lay: Layout, inp: Input, em: ExprMap, avail: set<Reg>, i: Instr, l: Local, y: Sym, es0: Exprs)
    requires lay.ptrBits > 0 && i.Load? && Ready(em, avail, y, es0)
    requires AllValid(avail, Operands(InstrNode(i)))
    requires Exec(lay, inp, i, l).Some?
    ensures Lowerable(InstrItems(lay, em, i))
    ensures Effect(em, i, y, RunItems(inp, l, InstrItems(lay, em, i), y), SymExec(lay, inp, i, l, Beside(y, es0)))
  {
    hide Agree, RunItems, Lowerable, ViewOf, AlternativeItems, TryAlternative, Address, LoadResult, OnlySets,
         ReadShadow, InAddressSpace;
    var Load(dst, bits, scalar, addr) := i;
    var es1, size, le := y.frames[0], StoreSize(bits), IsLittleEndian(lay, scalar);
    assert ValidAt(avail, Operands(InstrNode(i))[0]);
    PinSim(inp, em, avail, addr, l, y, es0);
    var path := TryAlternative(l.regs, es0, addr, y.path);
    ThenItem(inp, AlternativeItems(em, addr), ReadMem(dst, addr, size, le), l, y, path);
    var e := ReadShadow(y.shadow, l.mem, Address(l.regs, addr), size, le);
    OnlySetsOne(es1, dst, e);
  }

  lemma StoreSim(lay: Layout, inp: Input, em: ExprMap, avail: set<Reg>, i: Instr, l: Local, y: Sym, es0: Exprs)
    requires lay.ptrBits > 0 && i.Store? && Ready(em, avail, y, es0)
    requires AllValid(avail, Operands(InstrNode(i)))
    requires Exec(lay, inp, i, l).Some?
    ensures Lowerable(InstrItems(lay, em, i))
    ensures Effect(em, i, y, RunItems(inp, l, InstrItems(lay, em, i), y), SymExec(lay, inp, i, l, Beside(y, es0)))
  {
    hide Agree, RunItems, Lowerable, ViewOf, AlternativeItems, TryAlternative, Address, WriteShadow,
         InAddressSpace, StoreBytes;
    var Store(val, bits, _, addr) := i;
    assert ValidAt(avail, Operands(InstrNode(i))[0]) && ValidAt(avail, Operands(InstrNode(i))[1]);
    ViewAgrees(em, avail, y.frames[0], es0, val);
    ViewIsValue(em, y.frames[0], val);
    PinSim(inp, em, avail, addr, l, y, es0);
    ThenItem(inp, AlternativeItems(em, addr), WriteMem(addr, StoreSize(bits), GetExprOrNull(em, val), lay.littleEndian),
             l, y, TryAlternative(l.regs, es0, addr, y.path));
  }

  lemma TransferSim(lay: Layout, inp: Input, em: ExprMap, avail: set<Reg>, dest: Operand, src: Operand, len: Operand,
                    l: Local, y: Sym, es0: Exprs)
    requires Ready(em, avail, y, es0)
    requires ValidAt(avail, dest) && ValidAt(avail, src) && ValidAt(avail, len)
    requires HasValue(l.regs, dest) && HasValue(l.regs, src) && HasValue(l.regs, len)
    ensures Lowerable(TransferItems(em, dest, src, len))
    ensures var s := SymTransfer(dest, src, len, l, Beside(y, es0));
      RunItems(inp, l, TransferItems(em, dest, src, len), y) == y.(shadow := s.shadow, path := s.path)
  {
    hide Agree, RunItems, Lowerable, ViewOf, AlternativeItems, TryAlternative, Address, CopyShadow;
    var a, b := AlternativeItems(em, dest), AlternativeItems(em, src);
    var path1 := TryAlternative(l.regs, es0, dest, y.path);
    var path2 := TryAlternative(l.regs, es0, src, path1);
    PinSim(inp, em, avail, dest, l, y, es0);
    PinThen(inp, em, avail, a, src, l, y, es0, path1);
    PinThen(inp, em, avail, a + b, len, l, y, es0, path2);
    ThenItem(inp, a + b + AlternativeItems(em, len), CopyMem(dest, src, len), l, y,
             TryAlternative(l.regs, es0, len, path2));
  }

  lemma MoveSim(lay: Layout, inp: Input, em: ExprMap, avail: set<Reg>, i: Instr, l: Local, y: Sym, es0: Exprs)
    requires lay.ptrBits > 0 && (i.MemCpy? || i.MemMove?) && Ready(em, avail, y, es0)
    requires AllValid(avail, Operands(InstrNode(i)))
    requires Exec(lay, inp, i, l).Some?
    ensures Lowerable(InstrItems(lay, em, i))
    ensures Effect(em, i, y, RunItems(inp, l, InstrItems(lay, em, i), y), SymExec(lay, inp, i, l, Beside(y, es0)))
  {
    hide Agree, RunItems, Lowerable, ViewOf, TransferItems, CopyShadow, TryAlternative, InAddressSpace, StoreBytes,
         Bytes, Ready;
    var os := Operands(InstrNode(i));
    assert ValidAt(avail, os[0]) && ValidAt(avail, os[1]) && ValidAt(avail, os[2]);
    TransferSim(lay, inp, em, avail, os[0], os[1], os[2], l, y, es0);
  }

  lemma FillSim(lay: Layout, inp: Input, em: ExprMap, avail: set<Reg>, i: Instr, l: Local, y: Sym, es0: Exprs)
    requires lay.ptrBits > 0 && i.MemSet? && Ready(em, avail, y, es0)
    requires AllValid(avail, Operands(InstrNode(i)))
    requires Exec(lay, inp, i, l).Some?
    ensures Lowerable(InstrItems(lay, em, i))
    ensures Effect(em, i, y, RunItems(inp, l, InstrItems(lay, em, i), y), SymExec(lay, inp, i, l, Beside(y, es0)))
  {
    hide Agree, RunItems, Lowerable, ViewOf, AlternativeItems, TryAlternative, Address, FillShadow,
         InAddressSpace, StoreBytes;
    var MemSet(dest, val, len) := i;
    var os, a := Operands(InstrNode(i)), AlternativeItems(em, dest);
    assert ValidAt(avail, os[0]) && ValidAt(avail, os[1]) && ValidAt(avail, os[2]);
    ViewAgrees(em, avail, y.frames[0], es0, val);
    ViewIsValue(em, y.frames[0], val);
    var path1 := TryAlternative(l.regs, es0, dest, y.path);
    PinSim(inp, em, avail, dest, l, y, es0);
    PinThen(inp, em, avail, a, len, l, y, es0, path1);
    ThenItem(inp, a + AlternativeItems(em, len), FillMem(dest, GetExprOrNull(em, val), len), l, y,
             TryAlternative(l.regs, es0, len, path1));
  }

  lemma ReadInputSim(lay: Layout, inp: Input, em: ExprMap, avail: set<Reg>, i: Instr, l: Local, y: Sym, es0: Exprs)
    requires lay.ptrBits > 0 && i.ReadInput? && Ready(em, avail, y, es0)
    requires AllValid(avail, Operands(InstrNode(i)))
    requires Exec(lay, inp, i, l).Some?
    ensures Lowerable(InstrItems(lay, em, i))
    ensures Effect(em, i, y, RunItems(inp, l, InstrItems(lay, em, i), y), SymExec(lay, inp, i, l, Beside(y, es0)))
  {
    hide Agree, RunItems, Lowerable, ViewOf, AlternativeItems, TryAlternative, Address,
         WriteInput, InAddressSpace,
         StoreBytes;
    var ReadInput(dst, buf, len) := i;
    var es1, os, a := y.frames[0], Operands(InstrNode(i)), AlternativeItems(em, buf);
    assert ValidAt(avail, os[0]) && ValidAt(avail, os[1]);
    var path1 := TryAlternative(l.regs, es0, buf, y.path);
    PinSim(inp, em, avail, buf, l, y, es0);
    PinThen(inp, em, avail, a, len, l, y, es0, path1);
    ThenItem(inp, a + AlternativeItems(em, len), ReadFile(dst, buf, len), l, y,
             TryAlternative(l.regs, es0, len, path1));
    OnlySetsOne(es1, dst, None);
  }

  /** The code emitted beside any instruction other than a call does what the rule says for `es0`, the
      expressions that it sees. */
  lemma InstrSim(lay: Layout, inp: Input, em: ExprMap, avail: set<Reg>, i: Instr, l: Local, y: Sym, es0: Exprs)
    requires lay.ptrBits > 0 && !i.Call? && Ready(em, avail, y, es0)
    requires AllValid(avail, Operands(InstrNode(i)))
    requires Exec(lay, inp, i, l).Some?
    ensures Lowerable(InstrItems(lay, em, i))
    ensures Effect(em, i, y, RunItems(inp, l, InstrItems(lay, em, i), y), SymExec(lay, inp, i, l, Beside(y, es0)))
  {
    hide Ready, Effect, AllValid, RunItems, Lowerable, InstrItems, Exec, SymExec;
    match i
    case Compute(_, _, _) => ComputeSim(lay, inp, em, avail, i, l, y, es0);
    case Gep(_, _, _) => GepSim(lay, inp, em, avail, i, l, y, es0);
    case Copy(_, _, _) => CopySim(lay, inp, em, avail, i, l, y, es0);
    case Select(_, _, _, _) => SelectSim(lay, inp, em, avail, i, l, y, es0);
    case Load(_, _, _, _) => LoadSim(lay, inp, em, avail, i, l, y, es0);
    case Store(_, _, _, _) => StoreSim(lay, inp, em, avail, i, l, y, es0);
    case MemCpy(_, _, _) => MoveSim(lay, inp, em, avail, i, l, y, es0);
    case MemMove(_, _, _) => MoveSim(lay, inp, em, avail, i, l, y, es0);
    case MemSet(_, _, _) => FillSim(lay, inp, em, avail, i, l, y, es0);
    case ReadInput(_, _, _) => ReadInputSim(lay, inp, em, avail, i, l, y, es0);
  }

  // ----- Phi nodes -----

  predicate DistinctPhis(phis: seq<Phi>) {
    forall a, b | 0 <= a < b < |phis| :: phis[a].dst != phis[b].dst
  }

  lemma {:induction false} RunPhisOther(sp: map<Reg, SymPhi>, phis: seq<Phi>, from: nat, before: Exprs, news: Exprs,
                                        q: Reg)
    requires forall j | 0 <= j < |phis| :: phis[j].dst != q
    ensures Lookup(RunPhis(sp, phis, from, before, news), q) == Lookup(news, q)
  {
    if phis != [] {
      RunPhisOther(sp, phis[..|phis| - 1], from, before, news, q);
    }
  }

  lemma {:induction false} RunPhisAt(sp: map<Reg, SymPhi>, phis: seq<Phi>, from: nat, before: Exprs, news: Exprs,
                                     j: nat)
    requires DistinctPhis(phis) && j < |phis|
    ensures var r := phis[j].dst;
      Lookup(RunPhis(sp, phis, from, before, news), r)
      == if r in sp && from in sp[r] then OpValue(sp[r][from], before) else Lookup(news, r)
  {
    hide OpValue;
    var k := |phis| - 1;
    if j == k {
      RunPhisOther(sp, phis[..k], from, before, news, phis[j].dst);
    } else {
      RunPhisAt(sp, phis[..k], from, before, news, j);
    }
  }

  lemma {:induction false} SymPhisOther(phis: seq<Phi>, from: nat, before: Exprs, news: Exprs, q: Reg)
    requires forall j | 0 <= j < |phis| :: phis[j].dst != q
    ensures Lookup(SymPhis(phis, from, before, news), q) == Lookup(news, q)
  {
    if phis != [] {
      SymPhisOther(phis[..|phis| - 1], from, before, news, q);
    }
  }

  lemma {:induction false} SymPhisAt(phis: seq<Phi>, from: nat, before: Exprs, news: Exprs, j: nat)
    requires DistinctPhis(phis) && j < |phis| && from in phis[j].incoming
    ensures Lookup(SymPhis(phis, from, before, news), phis[j].dst) == ExprOf(before, phis[j].incoming[from])
  {
    hide ExprOf;
    var k := |phis| - 1;
    if j < k {
      SymPhisAt(phis[..k], from, before, news, j);
    }
  }

  lemma {:induction false} PhiValuesIncoming(phis: seq<Phi>, from: nat, regs: Regs, j: nat)
    requires PhiValues(phis, from, regs).Some? && j < |phis|
    ensures from in phis[j].incoming
  {
    if j < |phis| - 1 {
      PhiValuesIncoming(phis[..|phis| - 1], from, regs, j);
    }
  }

  lemma BlockPhisDistinct(f: Function, b: nat)
    requires SingleAssignment(f) && b < |f.blocks|
    ensures DistinctPhis(f.blocks[b].phis)
  {
    var phis := f.blocks[b].phis;
    forall i, j | 0 <= i < j < |phis|
      ensures phis[i].dst != phis[j].dst
    {
      PhiNodeAt(f, b, i);
      PhiNodeAt(f, b, j);
      assert Defines(Nodes(f)[PhiIndex(f.blocks, b, i)]) == Some(phis[i].dst);
    }
  }

  lemma PhiDefsAre(b: Block, j: nat)
    requires j < |b.phis|
    ensures b.phis[j].dst in PhiDefs(b)
  {
    hide NodeDefs;
    SiteInDefs(b, |b.phis|, j, b.phis[j].dst);
  }

  lemma PhiOf(b: Block, r: Reg) returns (j: nat)
    requires r in PhiDefs(b)
    ensures j < |b.phis| && b.phis[j].dst == r
  {
    hide NodeDefs;
    j := FindSite(b, |b.phis|, r);
  }

  /** A symbolic phi node yields the expression of the incoming value that was chosen; if it was
      erased, that value has none. */
  lemma PhiSim(f: Function, isMain: bool, path: seq<nat>, target: nat, es1: Exprs, es0: Exprs, j: nat)
    requires Ssa(f) && IsPath(f, path)
    requires target < |f.blocks| && IsSuccessor(f.blocks[Last(path)].term, target) && j < |f.blocks[target].phis|
    requires Agree(FinalMap(f, isMain), AvailAt(f, FinalMap(f, isMain), path, |f.blocks[Last(path)].instrs|), es1, es0)
    requires Last(path) in f.blocks[target].phis[j].incoming
    ensures var phis, from := f.blocks[target].phis, Last(path);
      ViewOf(FinalMap(f, isMain), RunPhis(FinalPhis(f, isMain), phis, from, es1, es1), Var(phis[j].dst))
      == Lookup(SymPhis(phis, from, es0, es0), phis[j].dst)
  {
    hide FinalMap, ErasedPhis, FinalPhis, Agree, AvailAt, IsSuccessor, SingleAssignment, RunPhis,
         SymPhis, ExprOf;
    var em, phis, from := FinalMap(f, isMain), f.blocks[target].phis, Last(path);
    var o := phis[j].incoming[from];
    IncomingUpToDate(f, isMain, path, target, j);
    ViewAgrees(em, AvailAt(f, em, path, |f.blocks[from].instrs|), es1, es0, o);
    PhiNodeAt(f, target, j);
    PhiThroughFinalMap(f, isMain, PhiIndex(f.blocks, target, j));
    BlockPhisDistinct(f, target);
    RunPhisAt(FinalPhis(f, isMain), phis, from, es1, es1, j);
    SymPhisAt(phis, from, es0, es0, j);
  }

  lemma {:induction false} PhisSim(f: Function, isMain: bool, path: seq<nat>, target: nat, es1: Exprs, es0: Exprs,
                                   regs: Regs)
    requires Ssa(f) && IsPath(f, path)
    requires target < |f.blocks| && IsSuccessor(f.blocks[Last(path)].term, target)
    requires Agree(FinalMap(f, isMain), AvailAt(f, FinalMap(f, isMain), path, |f.blocks[Last(path)].instrs|), es1, es0)
    requires PhiValues(f.blocks[target].phis, Last(path), regs).Some?
    ensures IsPath(f, path + [target]) && Last(path + [target]) == target
    ensures var phis, from := f.blocks[target].phis, Last(path);
      Agree(FinalMap(f, isMain), AvailAt(f, FinalMap(f, isMain), path + [target], 0),
            RunPhis(FinalPhis(f, isMain), phis, from, es1, es1), SymPhis(phis, from, es0, es0))
  {
    hide FinalMap, FinalPhis, Ssa, IsSuccessor, RunPhis, SymPhis, PhiValues, Agree;
    var em, b, from := FinalMap(f, isMain), f.blocks[target], Last(path);
    var avail := AvailAt(f, em, path, |f.blocks[from].instrs|);
    assert (path + [target])[..|path|] == path;
    var es1', es0' := RunPhis(FinalPhis(f, isMain), b.phis, from, es1, es1), SymPhis(b.phis, from, es0, es0);
    forall r | r in After(em, avail, PhiDefs(b))
      ensures ViewOf(em, es1', Var(r)) == Lookup(es0', r)
    {
      if r in PhiDefs(b) {
        var j := PhiOf(b, r);
        PhiValuesIncoming(b.phis, from, regs, j);
        PhiSim(f, isMain, path, target, es1, es0, j);
      } else {
        OtherSim(f, isMain, path, target, es1, es0, r);
      }
    }
    AgreeFrom(em, After(em, avail, PhiDefs(b)), es1', es0');
  }

  lemma AgreeFrom(em: ExprMap, avail: set<Reg>, es1: Exprs, es0: Exprs)
    requires forall r | r in avail :: ViewOf(em, es1, Var(r)) == Lookup(es0, r)
    ensures Agree(em, avail, es1, es0)
  {
  }

  lemma OtherSim(f: Function, isMain: bool, path: seq<nat>, target: nat, es1: Exprs, es0: Exprs, r: Reg)
    requires InBlocks(f, path) && path != [] && target < |f.blocks|
    requires Agree(FinalMap(f, isMain), AvailAt(f, FinalMap(f, isMain), path, |f.blocks[Last(path)].instrs|), es1, es0)
    requires var em, avail := FinalMap(f, isMain), AvailAt(f, FinalMap(f, isMain), path, |f.blocks[Last(path)].instrs|);
      r in Kill(em, avail, PhiDefs(f.blocks[target]))
    ensures var phis, from := f.blocks[target].phis, Last(path);
      ViewOf(FinalMap(f, isMain), RunPhis(FinalPhis(f, isMain), phis, from, es1, es1), Var(r))
      == Lookup(SymPhis(phis, from, es0, es0), r)
  {
    hide FinalMap, FinalPhis, AvailAt, RunPhis, SymPhis, PhiDefs;
    var em, b, from := FinalMap(f, isMain), f.blocks[target], Last(path);
    forall j | 0 <= j < |b.phis|
      ensures b.phis[j].dst in PhiDefs(b)
    {
      PhiDefsAre(b, j);
    }
    assert NoTemps(em) by { FinalHasNoTemps(f, isMain); }
    SymPhisOther(b.phis, from, es0, es0, r);
    if Root(em, r).Some? {
      RunPhisOther(FinalPhis(f, isMain), b.phis, from, es1, es1, Root(em, r).value);
    }
  }

  // ----- Terminators -----

  lemma TermSim(lay: Layout, inp: Input, em: ExprMap, avail: set<Reg>, t: Term, l: Local, y: Sym, es0: Exprs)
    requires lay.ptrBits > 0 && !t.Return? && Ready(em, avail, y, es0)
    requires AllValid(avail, Operands(TermNode(t))) && Successor(l.regs, t).Some?
    ensures Lowerable(Items(lay, em, TermNode(t)))
    ensures RunItems(inp, l, Items(lay, em, TermNode(t)), y) == y.(path := TermPath(l.regs, es0, t, y.path))
  {
    hide Agree, RunItems, Lowerable, ViewOf, PushItems, Address, SwitchPath, ExprOf, ExecItem;
    if t.Jump? {
      RunNoItems(inp, l, y);
    } else {
      assert ValidAt(avail, Operands(TermNode(t))[0]);
      ViewAgrees(em, avail, y.frames[0], es0, t.cond);
      if t.Branch? {
        PushRun(inp, l, em, t.cond, y);
      } else {
        BaseView(em, y.frames[0], t.cond);
        if GetExpr(em, t.cond).None? {
          RunNoItems(inp, l, y);
        } else {
          SwitchRun(inp, l, em, t, y);
        }
      }
    }
  }

  lemma SwitchRun(inp: Input, l: Local, em: ExprMap, t: Term, y: Sym)
    requires y.frames != [] && t.Switch? && HasValue(l.regs, t.cond)
    ensures Lowerable([SwitchPush(GetExprOrNull(em, t.cond), t.cond, t.cases)])
    ensures RunItems(inp, l, [SwitchPush(GetExprOrNull(em, t.cond), t.cond, t.cases)], y)
         == y.(path := match ViewOf(em, y.frames[0], t.cond)
                       case Some(e) => SwitchPath(t.cases, ValueOf(l.regs, t.cond).value, e, y.path)
                       case None => y.path)
  {
    hide RunItems, Lowerable, SwitchPath;
    RunOneItem(inp, l, SwitchPush(GetExprOrNull(em, t.cond), t.cond, t.cases), y);
    ViewIsValue(em, y.frames[0], t.cond);
  }

  lemma SuccessorIsSuccessor(regs: Regs, t: Term)
    ensures var s := Successor(regs, t); s.Some? ==> IsSuccessor(t, s.value)
  {
    if t.Switch? && Successor(regs, t).Some? {
      CaseTargetListed(t.cases, ValueOf(regs, t.cond).value, t.default);
    }
  }

  lemma {:induction false} CaseTargetListed(cases: seq<(Value, nat)>, v: Value, default: nat)
    ensures var t := CaseTarget(cases, v, default);
      t == default || exists c :: c in cases && c.1 == t
  {
    if cases != [] && cases[0].0 != v {
      CaseTargetListed(cases[1..], v, default);
    }
  }
}
