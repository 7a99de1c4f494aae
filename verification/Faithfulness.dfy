/** When the rule of module `Concolic` is right for one instruction.

    `mc` and `md`, `rc` and `rd` and so on are the two sides of a replay: the run that built the
    expressions, and a run of the same program on another input under which they are evaluated.
    With both sides equal the same lemmas speak about the run itself. */
module Faithfulness {
  import opened BitVectors
  import opened Expressions
  import opened Builders
  import opened FlatShadow
  import opened Programs
  import opened Concolic

  // ----- Path constraints -----

  predicate Holds(c: Constraint, inp: Input) {
    SortOf(c.cond).BoolSort? && Eval(c.cond, inp) == AsNat(c.taken)
  }

  predicate PathHolds(path: Path, inp: Input) {
    forall i | 0 <= i < |path| :: Holds(path[i], inp)
  }

  lemma PathHoldsSnoc(path: Path, c: Constraint, inp: Input)
    ensures PathHolds(path + [c], inp) <==> PathHolds(path, inp) && Holds(c, inp)
  {
    hide Holds;
    var longer := path + [c];
    if PathHolds(longer, inp) {
      assert longer[|path|] == c;
      forall i | 0 <= i < |path|
        ensures Holds(path[i], inp)
      {
        assert longer[i] == path[i];
      }
    }
  }

  // ----- Related registers -----

  /** A value with an expression evaluates to the replayed value; one without is unchanged. */
  ghost predicate RegRelated(c: Value, e: Option<Expr>, d: Value, inp: Input) {
    && c.bits == d.bits
    && match e
       case Some(x) => Denotes(x, inp, d)
       case None => c == d
  }

  ghost predicate RegsRelated(rc: Regs, es: Exprs, rd: Regs, inp: Input) {
    && rc.Keys == rd.Keys
    && forall r | r in rc :: RegRelated(rc[r], Lookup(es, r), rd[r], inp)
  }

  ghost predicate LocalRelated(c: Local, y: SymLocal, d: Local, inp: Input) {
    && RegsRelated(c.regs, y.exprs, d.regs, inp)
    && MemRelated(y.shadow, c.mem, d.mem, inp)
    && c.pos == d.pos == y.offset
  }

  ghost predicate AllRelated(vs: seq<Value>, es: seq<Option<Expr>>, ws: seq<Value>, inp: Input) {
    && |vs| == |es| == |ws|
    && forall i | 0 <= i < |vs| :: RegRelated(vs[i], es[i], ws[i], inp)
  }

  lemma OperandRelated(rc: Regs, es: Exprs, rd: Regs, inp: Input, o: Operand)
    requires RegsRelated(rc, es, rd, inp)
    ensures HasValue(rc, o) <==> HasValue(rd, o)
    ensures HasValue(rc, o) ==> RegRelated(ValueOf(rc, o).value, ExprOf(es, o), ValueOf(rd, o).value, inp)
  {
  }

  lemma {:induction false} OperandsRelated(rc: Regs, es: Exprs, rd: Regs, inp: Input, os: seq<Operand>)
    requires RegsRelated(rc, es, rd, inp)
    ensures ValuesOf(rc, os).Some? <==> ValuesOf(rd, os).Some?
    ensures ValuesOf(rc, os).Some? ==>
      AllRelated(ValuesOf(rc, os).value, ExprsOf(es, os), ValuesOf(rd, os).value, inp)
  {
    if os != [] {
      hide RegRelated, ExprOf;
      OperandRelated(rc, es, rd, inp, os[0]);
      OperandsRelated(rc, es, rd, inp, os[1..]);
      assert ExprsOf(es, os)[1..] == ExprsOf(es, os[1..]);
      if ValuesOf(rc, os).Some? {
        var vs, ws := ValuesOf(rc, os).value, ValuesOf(rd, os).value;
        forall i | 0 <= i < |vs|
          ensures RegRelated(vs[i], ExprsOf(es, os)[i], ws[i], inp)
        {
          if i > 0 {
            assert ExprsOf(es, os)[i] == ExprsOf(es, os[1..])[i - 1];
          }
        }
      }
    }
  }

  lemma WriteRelated(rc: Regs, es: Exprs, rd: Regs, inp: Input, r: Reg, c: Value, e: Option<Expr>, d: Value)
    requires RegsRelated(rc, es, rd, inp)
    requires RegRelated(c, e, d, inp)
    ensures RegsRelated(rc[r := c], SetExpr(es, r, e), rd[r := d], inp)
  {
    hide RegRelated;
    forall q | q in rc[r := c]
      ensures RegRelated(rc[r := c][q], Lookup(SetExpr(es, r, e), q), rd[r := d][q], inp)
    {
      if q != r {
        assert RegRelated(rc[q], Lookup(es, q), rd[q], inp);
      }
    }
  }

  lemma LiftedDenotes(c: Value, e: Option<Expr>, d: Value, inp: Input)
    requires RegRelated(c, e, d, inp)
    requires e.Some? || Liftable(c)
    ensures Denotes(Lifted(c, e), inp, d)
  {
    hide Eval, SortOf;
    LiftDenotesIff(c, inp);
  }

  // ----- Pinning addresses and lengths -----

  /** `tryAlternative` pins exactly the inputs under which the operand keeps its value. */
  lemma TryAlternativePins(rc: Regs, es: Exprs, rd: Regs, inp: Input, o: Operand, path: Path)
    requires RegsRelated(rc, es, rd, inp)
    requires HasValue(rc, o) && ValueOf(rc, o).value.bits <= 64
    ensures PathHolds(TryAlternative(rc, es, o, path), inp)
       <==> PathHolds(path, inp) && ValueOf(rd, o) == ValueOf(rc, o)
  {
    hide Eval, SortOf, Lift, Holds, PathHolds;
    OperandRelated(rc, es, rd, inp, o);
    match ExprOf(es, o)
    case None =>
    case Some(e) =>
      var c, d := ValueOf(rc, o).value, ValueOf(rd, o).value;
      LiftDenotesIff(c, inp);
      EqualityHoldsIff(e, Lift(c), inp, d, c, true);
      PathHoldsSnoc(path, Constraint(CmpExpr(Eq, e, Lift(c)), true), inp);
  }

  lemma EqualityHoldsIff(x: Expr, z: Expr, inp: Input, a: Value, b: Value, taken: bool)
    requires a.bits == b.bits && Denotes(x, inp, a) && Denotes(z, inp, b)
    ensures Holds(Constraint(CmpExpr(Eq, x, z), taken), inp) <==> ((a == b) == taken)
  {
    assert Width(SortOf(x)) == a.bits;
    assert SortOf(CmpExpr(Eq, x, z)) == BoolSort;
    assert Eval(CmpExpr(Eq, x, z), inp) == AsNat(a.n == b.n);
  }

  // ----- Computations -----

  lemma ResultBits(lay: Layout, op: Op, vs: seq<Value>, ws: seq<Value>)
    requires OpResult(lay, op, vs).Some? && OpResult(lay, op, ws).Some?
    ensures OpResult(lay, op, vs).value.bits == OpResult(lay, op, ws).value.bits
  {
  }

  /** The operation is one whose run-time call is right, and its concrete inputs can be lifted. */
  predicate ComputeFaithful(op: Op, vs: seq<Value>, es: seq<Option<Expr>>)
    requires |vs| == |es|
  {
    AllNull(es) ||
    (WellTyped(op, vs) && Faithful(op, vs) && forall i | 0 <= i < |vs| :: es[i].Some? || Liftable(vs[i]))
  }

  lemma ComputeRelated(lay: Layout, op: Op, vs: seq<Value>, es: seq<Option<Expr>>, ws: seq<Value>, inp: Input)
    requires OpResult(lay, op, vs).Some? && OpResult(lay, op, ws).Some?
    requires AllRelated(vs, es, ws, inp)
    requires ComputeFaithful(op, ws, es)
    ensures RegRelated(OpResult(lay, op, vs).value, OpExpr(RtOf(lay, op), vs, es), OpResult(lay, op, ws).value, inp)
  {
    hide Eval, SortOf, Lift, Apply, RtOf, OpResult, Faithful;
    ResultBits(lay, op, vs, ws);
    if AllNull(es) {
      forall i | 0 <= i < |vs|
        ensures vs[i] == ws[i]
      {
        assert RegRelated(vs[i], es[i], ws[i], inp);
      }
      assert vs == ws;
    } else {
      forall i | 0 <= i < |vs|
        ensures Denotes(LiftedAll(vs, es)[i], inp, ws[i])
      {
        assert RegRelated(vs[i], es[i], ws[i], inp);
        LiftedDenotes(vs[i], es[i], ws[i], inp);
      }
      OperationDenotesIff(lay, op, LiftedAll(vs, es), inp, ws);
    }
  }

  // ----- Address computations -----

  /** When multiplying the zero-extended index gives the right offset. */
  predicate IndexFaithful(lay: Layout, indexBits: nat, size: nat, n: nat) {
    && 1 < indexBits <= lay.ptrBits
    && (indexBits == lay.ptrBits || !Negative(indexBits, n) || Wrap(lay.ptrBits, Pow2(indexBits) * size) == 0)
  }

  lemma PtrConstDenotes(lay: Layout, n: nat, inp: Input)
    requires ValidLayout(lay)
    ensures SortOf(PtrConst(lay, n)) == BitVec(lay.ptrBits)
    ensures Eval(PtrConst(lay, n), inp) == Wrap(lay.ptrBits, n)
  {
    hide Lift, Eval, SortOf, Wrap;
    LiftDenotesIff(MakeValue(lay.ptrBits, n), inp);
  }

  lemma BinEval(op: BinOp, x: Expr, z: Expr, w: nat, inp: Input)
    requires w > 0 && SortOf(x) == SortOf(z) == BitVec(w)
    ensures SortOf(BinExpr(op, x, z)) == BitVec(w)
    ensures Eval(BinExpr(op, x, z), inp) == SmtBin(op, w, Eval(x, inp), Eval(z, inp))
  {
  }

  lemma ElementArithmetic(w: nat, indexBits: nat, size: nat, n: nat)
    requires 0 < indexBits && n < Pow2(indexBits)
    ensures Wrap(w, n * Wrap(w, size)) == Wrap(w, Signed(indexBits, n) * size)
       <==> indexBits == w || !Negative(indexBits, n) || Wrap(w, Pow2(indexBits) * size) == 0
  {
    hide Wrap, Pow2;
    WrapMul(w, size, n);
    assert n * Wrap(w, size) == Wrap(w, size) * n && size * n == n * size;
    if Negative(indexBits, n) {
      var p := Pow2(indexBits);
      assert (n - p) * size == n * size - p * size;
      if indexBits == w {
        WrapMultiple(w, n * size, 0 - size);
        assert n * size + (0 - size) * p == n * size - p * size;
      } else {
        WrapEqualIff(w, n * size, p * size);
      }
    }
  }

  /** The expression for an element's offset is right exactly for faithful indices: those of
      pointer width, the narrower ones that are not negative, and those where it happens not to matter. */
  lemma {:induction false} ElementDenotesIff(lay: Layout, e: Expr, indexBits: nat, size: nat, inp: Input, v: Value)
    requires ValidLayout(lay)
    requires v.bits == indexBits && Denotes(e, inp, v)
    ensures Denotes(ElementExpr(lay, e, indexBits, size), inp,
                    Word(lay.ptrBits, Wrap(lay.ptrBits, Signed(indexBits, v.n) * size)))
       <==> IndexFaithful(lay, indexBits, size, v.n)
  {
    hide Wrap, Pow2, Eval, SortOf, Signed, ElementExpr;
    if 1 < indexBits <= lay.ptrBits {
      ElementEval(lay, e, indexBits, size, inp, v);
      ElementArithmetic(lay.ptrBits, indexBits, size, v.n);
    } else {
      NoSortForOddIndices(lay, e, indexBits, size);
    }
  }

  lemma ElementEval(lay: Layout, e: Expr, indexBits: nat, size: nat, inp: Input, v: Value)
    requires ValidLayout(lay) && 1 < indexBits <= lay.ptrBits
    requires v.bits == indexBits && Denotes(e, inp, v)
    ensures SortOf(ElementExpr(lay, e, indexBits, size)) == BitVec(lay.ptrBits)
    ensures Eval(ElementExpr(lay, e, indexBits, size), inp) == Wrap(lay.ptrBits, v.n * Wrap(lay.ptrBits, size))
  {
    hide PtrConst, Wrap, Pow2, Eval, SmtBin;
    var w := lay.ptrBits;
    PtrConstDenotes(lay, size, inp);
    var wide := if indexBits == w then e else ZeroExtend(w - indexBits, e);
    assert SortOf(wide) == BitVec(w) && Eval(wide, inp) == v.n by { WidenEval(e, indexBits, w, inp, v); }
    BinEval(Mul, wide, PtrConst(lay, size), w, inp);
    MulWraps(w, v.n, Wrap(w, size));
  }

  lemma MulWraps(w: nat, a: nat, b: nat)
    requires w > 0 && a < Pow2(w) && b < Pow2(w)
    ensures SmtBin(Mul, w, a, b) == Wrap(w, a * b)
  {
  }

  lemma WidenEval(e: Expr, from: nat, to: nat, inp: Input, v: Value)
    requires 1 < from <= to && v.bits == from && Denotes(e, inp, v)
    ensures var wide := if from == to then e else ZeroExtend(to - from, e);
      SortOf(wide) == BitVec(to) && Eval(wide, inp) == v.n
  {
  }

  lemma NoSortForOddIndices(lay: Layout, e: Expr, indexBits: nat, size: nat)
    requires ValidLayout(lay)
    requires SortOf(e) == SortFor(indexBits) && !(1 < indexBits <= lay.ptrBits) && indexBits > 0
    ensures SortOf(ElementExpr(lay, e, indexBits, size)).IllSorted?
  {
    PtrConstDenotes(lay, size, []);
  }

  /** Every index that the emitted code multiplies is faithful. */
  predicate StepFaithful(lay: Layout, regs: Regs, step: GepStep) {
    match step
    case Field(_, _) => true
    case Element(index, indexBits, size) =>
      IsZeroIndex(step) || (HasValue(regs, index) && IndexFaithful(lay, indexBits, size, Number(regs, index)))
  }

  predicate GepFaithful(lay: Layout, regs: Regs, es: Exprs, base: Operand, steps: seq<GepStep>) {
    || AllZero(steps)
    || AllNull(ExprsOf(es, [base] + IndexOperands(steps)))
    || forall i | 0 <= i < |steps| :: StepFaithful(lay, regs, steps[i])
  }

  predicate DenotesAddress(lay: Layout, e: Expr, inp: Input, x: int)
    requires lay.ptrBits > 0
  {
    Denotes(e, inp, Word(lay.ptrBits, Wrap(lay.ptrBits, x)))
  }

  lemma AddDenotes(lay: Layout, a: Expr, b: Expr, inp: Input, x: int, z: int)
    requires ValidLayout(lay)
    requires DenotesAddress(lay, a, inp, x) && DenotesAddress(lay, b, inp, z)
    ensures DenotesAddress(lay, BinExpr(Add, a, b), inp, z + x)
  {
    hide Eval, Wrap, Pow2;
    var w := lay.ptrBits;
    BinEval(Add, a, b, w, inp);
    WrapAdd(w, x, Wrap(w, z));
    WrapAdd(w, z, x);
  }

  lemma GepStepDenotes(lay: Layout, rc: Regs, es: Exprs, rd: Regs, inp: Input, step: GepStep, current: Expr, x: int)
    requires ValidLayout(lay)
    requires RegsRelated(rc, es, rd, inp)
    requires StepOffset(rc, step).Some? && StepOffset(rd, step).Some?
    requires StepFaithful(lay, rd, step)
    requires DenotesAddress(lay, current, inp, x)
    ensures DenotesAddress(lay, GepStepExpr(lay, rc, es, step, current), inp, x + StepOffset(rd, step).value)
  {
    hide Lift, PtrConst, Wrap, Pow2, Eval, SortOf, ElementExpr;
    match step
    case Field(_, offset) =>
      PtrConstDenotes(lay, offset, inp);
      AddDenotes(lay, PtrConst(lay, offset), current, inp, offset, x);
    case Element(index, indexBits, size) =>
      OperandRelated(rc, es, rd, inp, index);
      if IsZeroIndex(step) {
        assert Signed(indexBits, 0) == 0 by { assert Pow2(indexBits - 1) > 0; }
      } else {
        var v := ValueOf(rd, index).value;
        LiftedDenotes(ValueOf(rc, index).value, ExprOf(es, index), v, inp);
        var e := LiftedOperand(rc, es, index);
        ElementDenotesIff(lay, e, indexBits, size, inp, v);
        AddDenotes(lay, ElementExpr(lay, e, indexBits, size), current, inp, Signed(indexBits, v.n) * size, x);
      }
  }

  lemma {:induction false} GepFoldDenotes(lay: Layout, rc: Regs, es: Exprs, rd: Regs, inp: Input,
                                          steps: seq<GepStep>, current: Expr, x: int)
    requires ValidLayout(lay)
    requires RegsRelated(rc, es, rd, inp)
    requires StepsOffset(rc, steps).Some? && StepsOffset(rd, steps).Some?
    requires forall i | 0 <= i < |steps| :: StepFaithful(lay, rd, steps[i])
    requires DenotesAddress(lay, current, inp, x)
    ensures DenotesAddress(lay, GepFold(lay, rc, es, steps, current), inp, x + StepsOffset(rd, steps).value)
  {
    hide Eval, SortOf, Denotes, GepStepExpr, StepFaithful, RegsRelated, DenotesAddress, StepOffset;
    if steps != [] {
      assert StepFaithful(lay, rd, steps[0]);
      GepStepDenotes(lay, rc, es, rd, inp, steps[0], current, x);
      forall i | 0 <= i < |steps[1..]|
        ensures StepFaithful(lay, rd, steps[1..][i])
      {
        assert steps[1..][i] == steps[i + 1];
      }
      var next := GepStepExpr(lay, rc, es, steps[0], current);
      GepFoldDenotes(lay, rc, es, rd, inp, steps[1..], next, x + StepOffset(rd, steps[0]).value);
    }
  }

  lemma {:induction false} ZeroStepsOffset(regs: Regs, steps: seq<GepStep>)
    requires AllZero(steps) && StepsOffset(regs, steps).Some?
    ensures StepsOffset(regs, steps).value == 0
  {
    if steps != [] {
      assert IsZeroIndex(steps[0]);
      forall i | 0 <= i < |steps[1..]|
        ensures IsZeroIndex(steps[1..][i])
      {
        assert steps[1..][i] == steps[i + 1];
      }
      ZeroStepsOffset(regs, steps[1..]);
      if steps[0].Element? {
        ZeroIndexOffset(regs, steps[0]);
      }
    }
  }

  lemma ZeroIndexOffset(regs: Regs, step: GepStep)
    requires step.Element? && IsZeroIndex(step) && StepOffset(regs, step).Some?
    ensures StepOffset(regs, step).value == 0
  {
    assert Pow2(step.indexBits - 1) > 0;
  }

  /** Concrete indices contribute the same offset on both sides. */
  lemma {:induction false} ConcreteStepsOffset(rc: Regs, es: Exprs, rd: Regs, inp: Input, steps: seq<GepStep>)
    requires RegsRelated(rc, es, rd, inp)
    requires AllNull(ExprsOf(es, IndexOperands(steps)))
    ensures StepsOffset(rc, steps) == StepsOffset(rd, steps)
  {
    if steps != [] {
      var os, tail := IndexOperands(steps), IndexOperands(steps[1..]);
      forall i | 0 <= i < |tail|
        ensures ExprsOf(es, tail)[i] == None
      {
        var j := |os| - |tail| + i;
        assert os[j] == tail[i];
        assert ExprsOf(es, os)[j] == None;
      }
      ConcreteStepsOffset(rc, es, rd, inp, steps[1..]);
      if steps[0].Element? {
        assert os[0] == steps[0].index;
        assert ExprsOf(es, os)[0] == None;
        OperandRelated(rc, es, rd, inp, steps[0].index);
      }
    }
  }

  lemma {:induction false} GepRelated(lay: Layout, rc: Regs, es: Exprs, rd: Regs, inp: Input, base: Operand,
                                      steps: seq<GepStep>)
    requires ValidLayout(lay)
    requires RegsRelated(rc, es, rd, inp)
    requires IsPointer(lay, rc, base) && IsPointer(lay, rd, base)
    requires StepsOffset(rc, steps).Some? && StepsOffset(rd, steps).Some?
    requires GepFaithful(lay, rd, es, base, steps)
    ensures RegRelated(Word(lay.ptrBits, Wrap(lay.ptrBits, Number(rc, base) + StepsOffset(rc, steps).value)),
                       GepExpr(lay, rc, es, base, steps),
                       Word(lay.ptrBits, Wrap(lay.ptrBits, Number(rd, base) + StepsOffset(rd, steps).value)), inp)
  {
    hide Eval, SortOf, Pow2, Lift, GepFold, StepFaithful, IndexFaithful;
    var w := lay.ptrBits;
    OperandRelated(rc, es, rd, inp, base);
    var os := [base] + IndexOperands(steps);
    if AllZero(steps) {
      ZeroStepsOffset(rc, steps);
      ZeroStepsOffset(rd, steps);
      ModSmall(Number(rc, base), Pow2(w));
      ModSmall(Number(rd, base), Pow2(w));
    } else if AllNull(ExprsOf(es, os)) {
      assert ExprsOf(es, os)[0] == None;
      forall i | 0 <= i < |IndexOperands(steps)|
        ensures ExprsOf(es, IndexOperands(steps))[i] == None
      {
        assert ExprsOf(es, os)[i + 1] == None;
      }
      ConcreteStepsOffset(rc, es, rd, inp, steps);
    } else {
      LiftedDenotes(ValueOf(rc, base).value, ExprOf(es, base), ValueOf(rd, base).value, inp);
      ModSmall(Number(rd, base), Pow2(w));
      GepFoldDenotes(lay, rc, es, rd, inp, steps, LiftedOperand(rc, es, base), Number(rd, base));
    }
  }
}
