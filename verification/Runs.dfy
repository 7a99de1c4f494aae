/** The two theorems about whole runs. */
module Runs {
  import opened BitVectors
  import opened Expressions
  import opened Builders
  import opened FlatShadow
  import opened Programs
  import opened Concolic
  import opened Faithfulness
  import opened ShortCircuit
  import opened Computations
  import opened Symbolizer
  import opened Visibility
  import opened Replay

  /** The state after `n` steps. */
  function Run(p: Program, inp: Input, m: Machine, n: nat): Option<Machine> {
    if n == 0 then Some(m) else
    match Run(p, inp, m, n - 1)
    case None => None
    case Some(x) => Step(p, inp, x)
  }

  /** The symbolic state after `n` steps. */
  function SymRun(sight: Sight, p: Program, inp: Input, m: Machine, y: Sym, n: nat): Sym
    requires p.layout.ptrBits > 0
  {
    if n == 0 then y else
    var y' := SymRun(sight, p, inp, m, y, n - 1);
    match Run(p, inp, m, n - 1)
    case None => y'
    case Some(x) => SightStep(sight, p, inp, x, y')
  }

  /** The program before its first step: main's arguments and the memory image are given, and
      nothing is symbolic. */
  function Start(p: Program, args: Regs, mem: Memory): Machine {
    Machine([Frame(p.main, 0, 0, args, None)], mem, 0)
  }

  const BLANK := Sym([map[]], map[], 0, [], map[], None)

  /** The symbolic state of the innermost frame as the emitted code sees it. */
  function AsSeen(sight: Sight, p: Program, m: Machine, y: Sym): SymLocal {
    LocalSym(y, Visible(sight, p, m, y))
  }

  ghost predicate FaithfulRun(sight: Sight, p: Program, inp: Input, m: Machine, y: Sym, n: nat)
    requires p.layout.ptrBits > 0
  {
    forall k | 0 <= k < n ::
      Run(p, inp, m, k).Some? ==>
        StepFaithfulAt(p, Run(p, inp, m, k).value,
                       AsSeen(sight, p, Run(p, inp, m, k).value, SymRun(sight, p, inp, m, y, k)))
  }

  /** No expression that a replay needs is dropped: all operands with expressions are seen, select
      instructions pick concrete operands, and main is only called with concrete arguments. */
  predicate Lossless(sight: Sight, p: Program, m: Machine, y: Sym) {
    SeesAll(sight, p, m, y) && KeepsAll(p, m, y)
  }

  predicate KeepsAll(p: Program, m: Machine, y: Sym) {
    !AtInstr(p, m) || y.frames == [] ||
    match InstrAt(p, m)
    case Select(_, cond, a, b) =>
      !HasValue(m.frames[0].regs, cond) || ExprOf(y.frames[0], Chosen(m.frames[0].regs, cond, a, b)).None?
    case Call(_, callee, args) => callee != p.main || AllNull(ExprsOf(y.frames[0], args))
    case _ => true
  }

  ghost predicate LosslessRun(sight: Sight, p: Program, inp: Input, m: Machine, y: Sym, n: nat)
    requires p.layout.ptrBits > 0
  {
    forall k | 0 <= k < n ::
      Run(p, inp, m, k).Some? ==> Lossless(sight, p, Run(p, inp, m, k).value, SymRun(sight, p, inp, m, y, k))
  }

  // ----- One rule or two -----

  /** At every step, every operand that has an expression is seen. */
  ghost predicate SeeingRun(sight: Sight, p: Program, inp: Input, m: Machine, y: Sym, n: nat)
    requires p.layout.ptrBits > 0
  {
    forall k | 0 <= k < n ::
      Run(p, inp, m, k).Some? ==> SeesAll(InLayoutOrder, p, Run(p, inp, m, k).value, SymRun(sight, p, inp, m, y, k))
  }

  /** Then it makes no difference that the pass visits blocks in layout order. */
  lemma {:induction false} SeeingRunsCoincide(sight: Sight, p: Program, inp: Input, m: Machine, y: Sym, n: nat)
    requires p.layout.ptrBits > 0 && SeeingRun(sight, p, inp, m, y, n)
    ensures SymRun(InLayoutOrder, p, inp, m, y, n) == SymRun(Everything, p, inp, m, y, n)
  {
    hide SightStep, Step, SeesAll;
    if n > 0 {
      SeeingRunsCoincide(sight, p, inp, m, y, n - 1);
      if Run(p, inp, m, n - 1).Some? {
        SeesAllSteps(p, inp, Run(p, inp, m, n - 1).value, SymRun(sight, p, inp, m, y, n - 1));
      }
    }
  }

  // ----- The constraints of a run hold in it -----

  lemma TransferPathHolds(rc: Regs, es: Exprs, inp: Input, a: Operand, b: Operand, c: Operand, path: Path)
    requires RegsRelated(rc, es, rc, inp) && PathHolds(path, inp)
    requires HasValue(rc, a) && HasValue(rc, b) && HasValue(rc, c)
    requires ValueOf(rc, a).value.bits <= 64 && ValueOf(rc, b).value.bits <= 64 && ValueOf(rc, c).value.bits <= 64
    ensures PathHolds(TryAlternative(rc, es, c, TryAlternative(rc, es, b, TryAlternative(rc, es, a, path))), inp)
  {
    hide RegsRelated, PathHolds, TryAlternative;
    var path1 := TryAlternative(rc, es, a, path);
    TryAlternativePins(rc, es, rc, inp, a, path);
    TryAlternativePins(rc, es, rc, inp, b, path1);
    TryAlternativePins(rc, es, rc, inp, c, TryAlternative(rc, es, b, path1));
  }

  lemma InstrPathHolds(lay: Layout, inp: Input, i: Instr, c: Local, y: SymLocal)
    requires ValidLayout(lay)
    requires LocalRelated(c, y, c, inp) && PathHolds(y.path, inp)
    requires Exec(lay, inp, i, c).Some?
    ensures PathHolds(SymExec(lay, inp, i, c, y).path, inp)
  {
    hide RegsRelated, PathHolds, TryAlternative, MemRelated, Push, ExecCompute, ExecGep, InAddressSpace;
    match i
    case Load(_, _, _, addr) => TryAlternativePins(c.regs, y.exprs, c.regs, inp, addr, y.path);
    case Store(_, _, _, addr) => TryAlternativePins(c.regs, y.exprs, c.regs, inp, addr, y.path);
    case MemCpy(dest, src, len) => TransferPathHolds(c.regs, y.exprs, inp, dest, src, len, y.path);
    case MemMove(dest, src, len) => TransferPathHolds(c.regs, y.exprs, inp, dest, src, len, y.path);
    case MemSet(dest, _, len) =>
      TryAlternativePins(c.regs, y.exprs, c.regs, inp, dest, y.path);
      TryAlternativePins(c.regs, y.exprs, c.regs, inp, len, TryAlternative(c.regs, y.exprs, dest, y.path));
    case ReadInput(_, buf, len) =>
      TryAlternativePins(c.regs, y.exprs, c.regs, inp, buf, y.path);
      TryAlternativePins(c.regs, y.exprs, c.regs, inp, len, TryAlternative(c.regs, y.exprs, buf, y.path));
    case Select(_, cond, _, _) => ConditionPins(c.regs, y.exprs, c.regs, inp, cond, y.path);
    case _ =>
  }

  lemma TermPathHolds(rc: Regs, es: Exprs, inp: Input, term: Term, path: Path)
    requires RegsRelated(rc, es, rc, inp) && PathHolds(path, inp)
    requires Successor(rc, term).Some? && TermFaithful(rc, es, term)
    ensures PathHolds(TermPath(rc, es, term, path), inp)
  {
    hide RegsRelated, PathHolds, Push;
    match term
    case Branch(cond, _, _) => ConditionPins(rc, es, rc, inp, cond, path);
    case Switch(cond, cases, _) =>
      OperandRelated(rc, es, rc, inp, cond);
      if ExprOf(es, cond).Some? && cases != [] {
        var v := ValueOf(rc, cond).value;
        SwitchPins(cases, v, ExprOf(es, cond).value, v, inp, path);
      }
    case _ =>
  }

  lemma StepPathHolds(p: Program, inp: Input, m: Machine, y: Sym, seen: Exprs)
    requires ValidLayout(p.layout)
    requires Related(m, y, m, inp) && PathHolds(y.path, inp)
    requires Step(p, inp, m).Some? && RegsRelated(m.frames[0].regs, seen, m.frames[0].regs, inp)
    requires StepFaithfulAt(p, m, LocalSym(y, seen))
    ensures PathHolds(SymStep(p, inp, m, y, seen).path, inp)
  {
    hide PathHolds, Exec, SymExec, StepCall, StepReturn, TermPath, TermFaithful, InstrFaithful, Successor,
         RegsRelated;
    TopRelated(m, y, m, inp);
    if AtInstr(p, m) {
      var i := InstrAt(p, m);
      if !i.Call? {
        SeenLocalRelated(m, y, seen, m, inp);
        InstrPathHolds(p.layout, inp, i, LocalOf(m), LocalSym(y, seen));
      }
    } else {
      var fr, term := m.frames[0], BlockAt(p, m).term;
      if term.Return? {
        ReturnKeepsPath(y, seen, fr.returnTo, term.result);
      } else {
        TermPathHolds(fr.regs, seen, inp, term, y.path);
      }
    }
  }

  lemma StartRelated(p: Program, args: Regs, mem: Memory, inp: Input)
    ensures Related(Start(p, args, mem), BLANK, Start(p, args, mem), inp)
    ensures PathHolds(BLANK.path, inp)
  {
  }

  lemma StepsAtCode(p: Program, inp: Input, m: Machine)
    requires Step(p, inp, m).Some?
    ensures AtCode(p, m)
  {
  }

  lemma NothingLostInOneRun(p: Program, m: Machine)
    ensures NothingLost(p, m, m)
  {
  }

  /** Within one run, dropping expressions is harmless. */
  lemma FewerRelated(sight: Sight, p: Program, m: Machine, y: Sym, inp: Input)
    requires Related(m, y, m, inp) && AtCode(p, m)
    ensures RegsRelated(m.frames[0].regs, Visible(sight, p, m, y), m.frames[0].regs, inp)
  {
    hide MemRelated, Denotes, MissedAt;
    TopRelated(m, y, m, inp);
    var regs, es, seen := m.frames[0].regs, y.frames[0], Visible(sight, p, m, y);
    forall r | r in regs
      ensures RegRelated(regs[r], Lookup(seen, r), regs[r], inp)
    {
      assert RegRelated(regs[r], Lookup(es, r), regs[r], inp);
    }
  }

  /** Soundness, for every program, input and number of steps: as long as the instructions are
      faithful, every expression evaluates to the value or byte beside it, and the path
      constraints hold. */
  lemma {:induction false} Soundness(sight: Sight, p: Program, inp: Input, args: Regs, mem: Memory, n: nat)
    requires ValidLayout(p.layout)
    requires Run(p, inp, Start(p, args, mem), n).Some?
    requires FaithfulRun(sight, p, inp, Start(p, args, mem), BLANK, n)
    ensures var m, y := Run(p, inp, Start(p, args, mem), n).value, SymRun(sight, p, inp, Start(p, args, mem), BLANK, n);
      Related(m, y, m, inp) && PathHolds(y.path, inp)
  {
    hide Related, PathHolds, Step, SymStep, StepFaithfulAt, Start, Visible, NothingLost, LocalSym;
    var m0 := Start(p, args, mem);
    if n == 0 {
      StartRelated(p, args, mem, inp);
    } else {
      Soundness(sight, p, inp, args, mem, n - 1);
      var m, y := Run(p, inp, m0, n - 1).value, SymRun(sight, p, inp, m0, BLANK, n - 1);
      var m' := Run(p, inp, m0, n).value;
      var seen := Visible(sight, p, m, y);
      assert StepFaithfulAt(p, m, LocalSym(y, seen));
      StepsAtCode(p, inp, m);
      FewerRelated(sight, p, m, y, inp);
      StepPathHolds(p, inp, m, y, seen);
      NothingLostInOneRun(p, m);
      StepRelated(p, inp, inp, m, y, seen, m, m', m');
    }
  }

  // ----- Replay -----

  lemma TryAlternativeExtends(regs: Regs, es: Exprs, o: Operand, path: Path)
    ensures path <= TryAlternative(regs, es, o, path)
  {
  }

  lemma {:induction false} SwitchExtends(cases: seq<(Value, nat)>, v: Value, e: Expr, path: Path)
    ensures path <= SwitchPath(cases, v, e, path)
  {
    hide Lift;
    if cases != [] {
      SwitchExtends(cases[1..], v, e, path + [Constraint(CmpExpr(Eq, e, Lift(cases[0].0)), v == cases[0].0)]);
    }
  }

  lemma InstrExtendsPath(lay: Layout, inp: Input, i: Instr, c: Local, y: SymLocal)
    requires ValidLayout(lay)
    ensures y.path <= SymExec(lay, inp, i, c, y).path
  {
    hide TryAlternative;
    match i
    case Load(_, _, _, addr) => TryAlternativeExtends(c.regs, y.exprs, addr, y.path);
    case Store(_, _, _, addr) => TryAlternativeExtends(c.regs, y.exprs, addr, y.path);
    case MemCpy(dest, src, len) => TransferExtendsPath(c.regs, y.exprs, dest, src, len, y.path);
    case MemMove(dest, src, len) => TransferExtendsPath(c.regs, y.exprs, dest, src, len, y.path);
    case MemSet(dest, _, len) =>
      TryAlternativeExtends(c.regs, y.exprs, dest, y.path);
      TryAlternativeExtends(c.regs, y.exprs, len, TryAlternative(c.regs, y.exprs, dest, y.path));
    case ReadInput(_, buf, len) =>
      TryAlternativeExtends(c.regs, y.exprs, buf, y.path);
      TryAlternativeExtends(c.regs, y.exprs, len, TryAlternative(c.regs, y.exprs, buf, y.path));
    case _ =>
  }

  lemma TransferExtendsPath(regs: Regs, es: Exprs, a: Operand, b: Operand, c: Operand, path: Path)
    ensures path <= TryAlternative(regs, es, c, TryAlternative(regs, es, b, TryAlternative(regs, es, a, path)))
  {
    hide TryAlternative;
    var path1 := TryAlternative(regs, es, a, path);
    TryAlternativeExtends(regs, es, a, path);
    TryAlternativeExtends(regs, es, b, path1);
    TryAlternativeExtends(regs, es, c, TryAlternative(regs, es, b, path1));
  }

  /** Path constraints are never retracted. */
  lemma StepExtendsPath(p: Program, inp: Input, m: Machine, y: Sym, seen: Exprs)
    requires ValidLayout(p.layout)
    ensures y.path <= SymStep(p, inp, m, y, seen).path
  {
    hide SymExec, Lift, SwitchPath;
    if AtCode(p, m) && y.frames != [] {
      if AtInstr(p, m) {
        InstrExtendsPath(p.layout, inp, InstrAt(p, m), LocalOf(m), LocalSym(y, seen));
      } else {
        var fr, term := m.frames[0], BlockAt(p, m).term;
        if term.Return? {
          ReturnKeepsPath(y, seen, fr.returnTo, term.result);
        } else {
          TermExtendsPath(fr.regs, seen, term, y.path);
        }
      }
    }
  }

  lemma TermExtendsPath(regs: Regs, es: Exprs, term: Term, path: Path)
    ensures path <= TermPath(regs, es, term, path)
  {
    hide Lift, SwitchPath;
    if term.Switch? && HasValue(regs, term.cond) && ExprOf(es, term.cond).Some? {
      SwitchExtends(term.cases, ValueOf(regs, term.cond).value, ExprOf(es, term.cond).value, path);
    }
  }

  lemma PrefixHolds(path: Path, longer: Path, inp: Input)
    requires path <= longer && PathHolds(longer, inp)
    ensures PathHolds(path, inp)
  {
    hide Holds;
    forall i | 0 <= i < |path|
      ensures Holds(path[i], inp)
    {
      assert longer[i] == path[i];
    }
  }

  lemma {:induction false} RunExtendsPath(sight: Sight, p: Program, inp: Input, m: Machine, y: Sym, k: nat, n: nat)
    requires ValidLayout(p.layout) && k <= n
    ensures SymRun(sight, p, inp, m, y, k).path <= SymRun(sight, p, inp, m, y, n).path
  {
    hide SymStep, Step;
    if k < n {
      RunExtendsPath(sight, p, inp, m, y, k, n - 1);
      if Run(p, inp, m, n - 1).Some? {
        var x, y' := Run(p, inp, m, n - 1).value, SymRun(sight, p, inp, m, y, n - 1);
        StepExtendsPath(p, inp, x, y', Visible(sight, p, x, y'));
      }
    }
  }

  lemma LosslessLosesNothing(sight: Sight, p: Program, m: Machine, y: Sym, d: Machine, inp: Input)
    requires Related(m, y, d, inp) && Lossless(sight, p, m, y)
    ensures NothingLost(p, m, d)
    ensures m.frames != [] ==>
      d.frames != [] && RegsRelated(m.frames[0].regs, Visible(sight, p, m, y), d.frames[0].regs, inp)
  {
    hide RegRelated, MemRelated, Visible;
    if m.frames != [] {
      TopRelated(m, y, d, inp);
    }
    if AtInstr(p, m) {
      var rc, es, rd := m.frames[0].regs, y.frames[0], d.frames[0].regs;
      match InstrAt(p, m)
      case Select(_, cond, a, b) =>
        if HasValue(rc, cond) {
          ConcreteOperandSame(rc, es, rd, inp, Chosen(rc, cond, a, b));
        }
      case Call(_, callee, args) =>
        if callee == p.main {
          ConcreteOperandsSame(rc, es, rd, inp, args);
        }
      case _ =>
    }
  }

  lemma ConcreteOperandSame(rc: Regs, es: Exprs, rd: Regs, inp: Input, o: Operand)
    requires RegsRelated(rc, es, rd, inp) && ExprOf(es, o).None?
    ensures ValueOf(rc, o) == ValueOf(rd, o)
  {
    OperandRelated(rc, es, rd, inp, o);
  }

  lemma {:induction false} ConcreteOperandsSame(rc: Regs, es: Exprs, rd: Regs, inp: Input, os: seq<Operand>)
    requires RegsRelated(rc, es, rd, inp) && AllNull(ExprsOf(es, os))
    ensures ValuesOf(rc, os) == ValuesOf(rd, os)
  {
    hide RegsRelated, ExprOf;
    if os != [] {
      assert ExprsOf(es, os)[0] == None;
      ConcreteOperandSame(rc, es, rd, inp, os[0]);
      assert ExprsOf(es, os)[1..] == ExprsOf(es, os[1..]);
      ConcreteOperandsSame(rc, es, rd, inp, os[1..]);
    }
  }

  /** The other run can do step number `n` and the emitted code stands for it. */
  ghost predicate Continues(sight: Sight, p: Program, inpC: Input, inp: Input, m0: Machine, n: nat)
    requires p.layout.ptrBits > 0
  {
    Run(p, inp, m0, n + 1).Some?
    && Run(p, inpC, m0, n).Some?
    && StepFaithfulAt(p, Run(p, inp, m0, n).value,
                      AsSeen(sight, p, Run(p, inpC, m0, n).value, SymRun(sight, p, inpC, m0, BLANK, n)))
  }

  ghost predicate Replayed(sight: Sight, p: Program, inpC: Input, inp: Input, m0: Machine, n: nat)
    requires p.layout.ptrBits > 0
  {
    && Run(p, inpC, m0, n).Some? && Run(p, inp, m0, n).Some?
    && Related(Run(p, inpC, m0, n).value, SymRun(sight, p, inpC, m0, BLANK, n), Run(p, inp, m0, n).value, inp)
  }

  /** Replay, for every program, run and number of steps: another input of the same length that
      satisfies the path constraints of the run goes through the same frames, blocks and
      instructions, with every value the evaluation of its expression, until it traps or meets an
      instruction that the emitted code does not stand for. */
  lemma {:induction false} ReplayRun(sight: Sight, p: Program, inpC: Input, inp: Input, args: Regs, mem: Memory, n: nat)
    requires ValidLayout(p.layout) && |inpC| == |inp|
    requires Run(p, inpC, Start(p, args, mem), n).Some?
    requires LosslessRun(sight, p, inpC, Start(p, args, mem), BLANK, n)
    requires PathHolds(SymRun(sight, p, inpC, Start(p, args, mem), BLANK, n).path, inp)
    ensures var m0 := Start(p, args, mem);
      || Replayed(sight, p, inpC, inp, m0, n)
      || exists k :: 0 <= k < n && Replayed(sight, p, inpC, inp, m0, k) && !Continues(sight, p, inpC, inp, m0, k)
  {
    hide Related, PathHolds, Step, SymStep, StepFaithfulAt, Start, Lossless, Visible, NothingLost, LocalSym;
    var m0 := Start(p, args, mem);
    if n == 0 {
      StartRelated(p, args, mem, inp);
      assert Replayed(sight, p, inpC, inp, m0, 0);
    } else {
      var y, y' := SymRun(sight, p, inpC, m0, BLANK, n - 1), SymRun(sight, p, inpC, m0, BLANK, n);
      RunExtendsPath(sight, p, inpC, m0, BLANK, n - 1, n);
      PrefixHolds(y.path, y'.path, inp);
      ReplayRun(sight, p, inpC, inp, args, mem, n - 1);
      if Replayed(sight, p, inpC, inp, m0, n - 1) && Continues(sight, p, inpC, inp, m0, n - 1) {
        var m, d := Run(p, inpC, m0, n - 1).value, Run(p, inp, m0, n - 1).value;
        assert Lossless(sight, p, m, y);
        LosslessLosesNothing(sight, p, m, y, d, inp);
        StepsAtCode(p, inpC, m);
        StepRelated(p, inpC, inp, m, y, Visible(sight, p, m, y), d, Run(p, inpC, m0, n).value,
                    Run(p, inp, m0, n).value);
      }
    }
  }

  /** An input that satisfies the constraints before a branch and the negation of its condition
      reaches the same branch and leaves it through the other side. */
  lemma Diverges(sight: Sight, p: Program, inpC: Input, inp: Input, args: Regs, mem: Memory, n: nat)
    requires ValidLayout(p.layout)
    requires Replayed(sight, p, inpC, inp, Start(p, args, mem), n)
    requires var m0 := Start(p, args, mem);
      var m, y := Run(p, inpC, m0, n).value, SymRun(sight, p, inpC, m0, BLANK, n);
      && AtCode(p, m) && !AtInstr(p, m) && BlockAt(p, m).term.Branch? && y.frames != []
      && Successor(m.frames[0].regs, BlockAt(p, m).term).Some?
      && ExprOf(y.frames[0], BlockAt(p, m).term.cond).Some?
      && Eval(ExprOf(y.frames[0], BlockAt(p, m).term.cond).value, inp)
          != Number(m.frames[0].regs, BlockAt(p, m).term.cond)
    ensures var m, d := Run(p, inpC, Start(p, args, mem), n).value, Run(p, inp, Start(p, args, mem), n).value;
      var term := BlockAt(p, m).term;
      && AtCode(p, d) && !AtInstr(p, d) && BlockAt(p, d).term == term
      && Successor(d.frames[0].regs, term)
         == Some(if Number(m.frames[0].regs, term.cond) == 1 then term.ifFalse else term.ifTrue)
  {
    hide MemRelated, Eval, SortOf, Start;
    var m0 := Start(p, args, mem);
    var m, y, d := Run(p, inpC, m0, n).value, SymRun(sight, p, inpC, m0, BLANK, n), Run(p, inp, m0, n).value;
    TopRelated(m, y, d, inp);
    OperandRelated(m.frames[0].regs, y.frames[0], d.frames[0].regs, inp, BlockAt(p, m).term.cond);
    assert Pow2(1) == 2;
  }
}
