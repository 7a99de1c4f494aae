/** When it matters that the pass does not find the expression of an operand.

    An operand that is defined later in layout order is taken to be concrete.  That changes what the
    emitted code does unless the operand's expression is the constant that is made up for a concrete
    operand anyway (and some other operand keeps the computation symbolic), or is of no use. */
module MissedLookups {
  import opened BitVectors
  import opened Expressions
  import opened Builders
  import opened FlatShadow
  import opened Programs
  import opened Concolic
  import opened ShortCircuit
  import opened Computations
  import opened Symbolizer
  import opened Visibility
  import opened Instrumented
  import opened PassFacts
  import opened EmittedCode
  import opened SsaForm
  import opened Faithfulness
  import opened Replay
  import opened Runs
  import opened Refinement

  predicate Missing(es: Exprs, lost: set<Reg>, o: Operand) {
    o.Var? && o.r in lost && o.r in es
  }

  predicate SomeMissing(es: Exprs, lost: set<Reg>, os: seq<Operand>) {
    exists j :: 0 <= j < |os| && Missing(es, lost, os[j])
  }

  /** The missed operand has a constant expression, the one made up for its value. */
  predicate MadeUp(regs: Regs, es: Exprs, lost: set<Reg>, o: Operand) {
    Missing(es, lost, o) ==> HasValue(regs, o) && es[o.r] == Lift(ValueOf(regs, o).value)
  }

  predicate AllMadeUp(regs: Regs, es: Exprs, lost: set<Reg>, os: seq<Operand>) {
    forall j | 0 <= j < |os| :: MadeUp(regs, es, lost, os[j])
  }

  /** The node does the same although expressions of its operands are missed. */
  predicate Indifferent(node: Node, regs: Regs, es: Exprs, lost: set<Reg>) {
    match node
    case InstrNode(Compute(_, _, args)) => !AllNull(ExprsOf(es - lost, args)) && AllMadeUp(regs, es, lost, args)
    case InstrNode(Gep(_, base, steps)) =>
      var os := [base] + IndexOperands(steps);
      !AllZero(steps) && !AllNull(ExprsOf(es - lost, os)) && AllMadeUp(regs, es, lost, os)
    case InstrNode(MemSet(dest, _, len)) =>
      !Missing(es, lost, dest) && !Missing(es, lost, len) && Address(regs, len) == 0
    case TermNode(Switch(_, cases, _)) => cases == []
    case _ => false
  }

  lemma SeenExpr(es: Exprs, lost: set<Reg>, o: Operand)
    ensures ExprOf(es - lost, o) == if Missing(es, lost, o) then None else ExprOf(es, o)
    ensures Missing(es, lost, o) ==> ExprOf(es, o).Some?
  {
  }

  // ----- Operations -----

  lemma LiftedSameIff(regs: Regs, es: Exprs, lost: set<Reg>, o: Operand)
    requires HasValue(regs, o)
    ensures LiftedOperand(regs, es - lost, o) == LiftedOperand(regs, es, o) <==> MadeUp(regs, es, lost, o)
  {
    hide Lift;
    SeenExpr(es, lost, o);
  }

  lemma MissingIsSymbolic(es: Exprs, lost: set<Reg>, os: seq<Operand>)
    requires SomeMissing(es, lost, os)
    ensures !AllNull(ExprsOf(es, os))
  {
    var j :| 0 <= j < |os| && Missing(es, lost, os[j]);
    assert ExprsOf(es, os)[j] == ExprOf(es, os[j]);
  }

  /** Two-operand calls build different expressions for different operands. */
  lemma ApplyInjective(lay: Layout, op: Op, vs: seq<Value>, a: seq<Expr>, b: seq<Expr>)
    requires OpResult(lay, op, vs).Some? && |vs| == |a| == |b| == 2
    ensures Apply(RtOf(lay, op), a) == Apply(RtOf(lay, op), b) <==> a == b
  {
    assert a == [a[0], a[1]] && b == [b[0], b[1]];
  }

  lemma ComputeSameIff(lay: Layout, op: Op, args: seq<Operand>, regs: Regs, es: Exprs, lost: set<Reg>)
    requires ValuesOf(regs, args).Some? && OpResult(lay, op, ValuesOf(regs, args).value).Some?
    requires SomeMissing(es, lost, args)
    ensures ComputeExpr(lay, op, args, regs, es - lost) == ComputeExpr(lay, op, args, regs, es)
       <==> !AllNull(ExprsOf(es - lost, args)) && AllMadeUp(regs, es, lost, args)
  {
    hide Lift, OpResult, Apply, RtOf, ValuesOf, Missing, MadeUp;
    var vs, seen := ValuesOf(regs, args).value, es - lost;
    ArgumentCount(regs, args);
    DefinedOpIsValid(lay, op, vs);
    MissingIsSymbolic(es, lost, args);
    if !AllNull(ExprsOf(seen, args)) {
      var a, b := LiftedAll(vs, ExprsOf(seen, args)), LiftedAll(vs, ExprsOf(es, args));
      assert |vs| == 2 by { TwoOperands(lay, op, args, vs, es, lost); }
      ApplyInjective(lay, op, vs, a, b);
      forall j | 0 <= j < |args|
        ensures a[j] == b[j] <==> MadeUp(regs, es, lost, args[j])
      {
        ValuesOfAt(regs, args, j);
        LiftedSameIff(regs, es, lost, args[j]);
      }
    }
  }

  /** One operand is missed and another is symbolic. */
  lemma TwoOperands(lay: Layout, op: Op, args: seq<Operand>, vs: seq<Value>, es: Exprs, lost: set<Reg>)
    requires OpResult(lay, op, vs).Some? && |args| == |vs|
    requires SomeMissing(es, lost, args) && !AllNull(ExprsOf(es - lost, args))
    ensures |vs| == 2
  {
    hide LlvmBin, LlvmCmp, MakeValue, FromBytes, FieldBytes;
    var i :| 0 <= i < |args| && Missing(es, lost, args[i]);
    var j :| 0 <= j < |args| && ExprsOf(es - lost, args)[j] != None;
    SeenExpr(es, lost, args[i]);
    assert i != j;
    assert |vs| <= 2;
  }

  // ----- Address computations -----

  predicate StepMadeUp(regs: Regs, es: Exprs, lost: set<Reg>, step: GepStep) {
    step.Element? && !IsZeroIndex(step) ==> MadeUp(regs, es, lost, step.index)
  }

  lemma StepSameIff(lay: Layout, regs: Regs, es: Exprs, lost: set<Reg>, step: GepStep, a: Expr, b: Expr)
    requires lay.ptrBits > 0 && StepOffset(regs, step).Some?
    ensures GepStepExpr(lay, regs, es - lost, step, a) == GepStepExpr(lay, regs, es, step, b)
       <==> a == b && StepMadeUp(regs, es, lost, step)
  {
    hide Lift, PtrConst, MadeUp, LiftedOperand, Signed;
    if step.Element? {
      LiftedSameIff(regs, es, lost, step.index);
    }
  }

  lemma {:induction false} FoldSameIff(lay: Layout, regs: Regs, es: Exprs, lost: set<Reg>, steps: seq<GepStep>, a: Expr,
                                       b: Expr)
    requires lay.ptrBits > 0 && StepsOffset(regs, steps).Some?
    ensures GepFold(lay, regs, es - lost, steps, a) == GepFold(lay, regs, es, steps, b)
       <==> a == b && forall k | 0 <= k < |steps| :: StepMadeUp(regs, es, lost, steps[k])
  {
    hide GepStepExpr, StepMadeUp, StepOffset;
    if steps != [] {
      StepSameIff(lay, regs, es, lost, steps[0], a, b);
      FoldSameIff(lay, regs, es, lost, steps[1..], GepStepExpr(lay, regs, es - lost, steps[0], a),
                  GepStepExpr(lay, regs, es, steps[0], b));
      assert forall k | 0 <= k < |steps[1..]| :: steps[1..][k] == steps[k + 1];
      assert forall k | 0 < k < |steps| :: steps[k] == steps[1..][k - 1];
    }
  }

  lemma {:induction false} AddressMadeUp(regs: Regs, es: Exprs, lost: set<Reg>, base: Operand, steps: seq<GepStep>)
    ensures AllMadeUp(regs, es, lost, [base] + IndexOperands(steps))
       <==> MadeUp(regs, es, lost, base) && forall k | 0 <= k < |steps| :: StepMadeUp(regs, es, lost, steps[k])
  {
    hide Lift, IndexOperands, MadeUp;
    var os := [base] + IndexOperands(steps);
    assert os[0] == base;
    if AllMadeUp(regs, es, lost, os) {
      forall k: nat | k < |steps|
        ensures StepMadeUp(regs, es, lost, steps[k])
      {
        if steps[k].Element? {
          var j := IndexOperandAt(steps, k);
          assert os[j + 1] == steps[k].index;
        }
      }
    }
    if MadeUp(regs, es, lost, base) && forall k | 0 <= k < |steps| :: StepMadeUp(regs, es, lost, steps[k]) {
      forall j | 0 <= j < |os|
        ensures MadeUp(regs, es, lost, os[j])
      {
        if j > 0 {
          var k := StepOfOperand(steps, j - 1);
          ConstantIsMadeUp(regs, es, lost, steps[k]);
          assert StepMadeUp(regs, es, lost, steps[k]);
        }
      }
    }
  }

  lemma ConstantIsMadeUp(regs: Regs, es: Exprs, lost: set<Reg>, step: GepStep)
    requires step.Element?
    ensures IsZeroIndex(step) ==> MadeUp(regs, es, lost, step.index)
  {
  }

  lemma {:induction false} GepSameIff(lay: Layout, regs: Regs, es: Exprs, lost: set<Reg>, base: Operand,
                                      steps: seq<GepStep>)
    requires lay.ptrBits > 0 && StepsOffset(regs, steps).Some? && HasValue(regs, base)
    requires SomeMissing(es, lost, [base] + IndexOperands(steps))
    ensures var os := [base] + IndexOperands(steps);
      GepExpr(lay, regs, es - lost, base, steps) == GepExpr(lay, regs, es, base, steps)
      <==> !AllZero(steps) && !AllNull(ExprsOf(es - lost, os)) && AllMadeUp(regs, es, lost, os)
  {
    hide GepFold, LiftedOperand, IndexOperands, AllMadeUp, MadeUp, AllZero, StepsOffset, AllNull;
    var os := [base] + IndexOperands(steps);
    MissingIsSymbolic(es, lost, os);
    if AllZero(steps) {
      OnlyBaseMissing(es, lost, base, steps);
      SeenExpr(es, lost, base);
    } else {
      LiftedSameIff(regs, es, lost, base);
      FoldSameIff(lay, regs, es, lost, steps, LiftedOperand(regs, es - lost, base), LiftedOperand(regs, es, base));
      AddressMadeUp(regs, es, lost, base, steps);
    }
  }

  lemma {:induction false} OnlyBaseMissing(es: Exprs, lost: set<Reg>, base: Operand, steps: seq<GepStep>)
    requires AllZero(steps) && SomeMissing(es, lost, [base] + IndexOperands(steps))
    ensures Missing(es, lost, base)
  {
    hide IndexOperands;
    var os := [base] + IndexOperands(steps);
    var j :| 0 <= j < |os| && Missing(es, lost, os[j]);
    if j > 0 {
      var k := StepOfOperand(steps, j - 1);
    }
  }

  // ----- Pinned addresses and pushed conditions -----

  function Pins(regs: Regs, es: Exprs, o: Operand): nat {
    if HasValue(regs, o) && ExprOf(es, o).Some? then 1 else 0
  }

  lemma PinLength(regs: Regs, es: Exprs, o: Operand, path: Path)
    ensures |TryAlternative(regs, es, o, path)| == |path| + Pins(regs, es, o)
  {
  }

  lemma PinSameIff(regs: Regs, es: Exprs, lost: set<Reg>, o: Operand, path: Path)
    requires HasValue(regs, o)
    ensures Pins(regs, es - lost, o) <= Pins(regs, es, o)
    ensures Pins(regs, es - lost, o) == Pins(regs, es, o) <==> !Missing(es, lost, o)
    ensures TryAlternative(regs, es - lost, o, path) == TryAlternative(regs, es, o, path) <==> !Missing(es, lost, o)
  {
    SeenExpr(es, lost, o);
    PinLength(regs, es - lost, o, path);
    PinLength(regs, es, o, path);
  }

  lemma TwoPinsSameIff(regs: Regs, es: Exprs, lost: set<Reg>, a: Operand, b: Operand, path: Path)
    requires HasValue(regs, a) && HasValue(regs, b)
    ensures TryAlternative(regs, es - lost, b, TryAlternative(regs, es - lost, a, path))
         == TryAlternative(regs, es, b, TryAlternative(regs, es, a, path))
       <==> !Missing(es, lost, a) && !Missing(es, lost, b)
  {
    hide TryAlternative, Pins, Missing;
    var seen := es - lost;
    PinSameIff(regs, es, lost, a, path);
    PinSameIff(regs, es, lost, b, TryAlternative(regs, es, a, path));
    PinLength(regs, seen, a, path);
    PinLength(regs, es, a, path);
    PinLength(regs, seen, b, TryAlternative(regs, seen, a, path));
    PinLength(regs, es, b, TryAlternative(regs, es, a, path));
  }

  lemma ThreePinsSame(regs: Regs, es: Exprs, lost: set<Reg>, a: Operand, b: Operand, c: Operand, path: Path)
    requires HasValue(regs, a) && HasValue(regs, b) && HasValue(regs, c)
    requires Missing(es, lost, a) || Missing(es, lost, b) || Missing(es, lost, c)
    ensures TryAlternative(regs, es - lost, c,
                           TryAlternative(regs, es - lost, b, TryAlternative(regs, es - lost, a, path)))
         != TryAlternative(regs, es, c, TryAlternative(regs, es, b, TryAlternative(regs, es, a, path)))
  {
    hide TryAlternative, Pins, Missing;
    var seen := es - lost;
    var s1, e1 := TryAlternative(regs, seen, a, path), TryAlternative(regs, es, a, path);
    var s2, e2 := TryAlternative(regs, seen, b, s1), TryAlternative(regs, es, b, e1);
    PinSameIff(regs, es, lost, a, path);
    PinSameIff(regs, es, lost, b, path);
    PinSameIff(regs, es, lost, c, path);
    PinLength(regs, seen, a, path);
    PinLength(regs, es, a, path);
    PinLength(regs, seen, b, s1);
    PinLength(regs, es, b, e1);
    PinLength(regs, seen, c, s2);
    PinLength(regs, es, c, e2);
  }

  lemma {:induction false} SwitchLength(cases: seq<(Value, nat)>, v: Value, e: Expr, path: Path)
    ensures |SwitchPath(cases, v, e, path)| == |path| + |cases|
  {
    hide Lift;
    if cases != [] {
      SwitchLength(cases[1..], v, e, path + [Constraint(CmpExpr(Eq, e, Lift(cases[0].0)), v == cases[0].0)]);
    }
  }

  // ----- Instructions -----

  /** What can be told apart of an instruction's effect. */
  predicate SameEffect(i: Instr, s: SymLocal, t: SymLocal) {
    && s.shadow == t.shadow && s.offset == t.offset && s.path == t.path
    && (Target(i).Some? ==> Lookup(s.exprs, Target(i).value) == Lookup(t.exprs, Target(i).value))
  }

  lemma AdvanceSameIff(y: Sym, i: Instr, s: SymLocal, t: SymLocal)
    requires y.frames != []
    ensures SymAdvance(y, i, s) == SymAdvance(y, i, t) <==> SameEffect(i, s, t)
  {
    var a, b := SymAdvance(y, i, s), SymAdvance(y, i, t);
    if a == b {
      assert a.frames[0] == b.frames[0];
      if Target(i).Some? {
        var r := Target(i).value;
        assert Lookup(Assigned(y.frames[0], i, s.exprs), r) == Lookup(s.exprs, r);
        assert Lookup(Assigned(y.frames[0], i, t.exprs), r) == Lookup(t.exprs, r);
      }
    }
  }

  lemma OneMissing(es: Exprs, lost: set<Reg>, o: Operand)
    requires SomeMissing(es, lost, [o])
    ensures Missing(es, lost, o)
  {
  }

  lemma InstrSameIff(lay: Layout, inp: Input, i: Instr, l: Local, y: Sym, es: Exprs, lost: set<Reg>)
    requires lay.ptrBits > 0 && !i.Call? && Exec(lay, inp, i, l).Some?
    requires SomeMissing(es, lost, Operands(InstrNode(i)))
    ensures SameEffect(i, SymExec(lay, inp, i, l, LocalSym(y, es - lost)), SymExec(lay, inp, i, l, LocalSym(y, es)))
       <==> Indifferent(InstrNode(i), l.regs, es, lost)
  {
    hide Missing, TryAlternative, ComputeExpr, GepExpr, AllMadeUp, AllNull, SomeMissing, OpResult, ReadShadow,
         WriteShadow, FillShadow, CopyShadow, WriteInput, StoreBytes, ToBytes, LoadResult, InAddressSpace,
         IndexOperands, AllZero, StepsOffset, ValuesOf;
    match i
    case Compute(_, op, args) => ComputeSameIff(lay, op, args, l.regs, es, lost);
    case Gep(_, base, steps) => GepSameIff(lay, l.regs, es, lost, base, steps);
    case Copy(_, src, _) =>
      OneMissing(es, lost, src);
      SeenExpr(es, lost, src);
    case Select(_, cond, _, _) =>
      OneMissing(es, lost, cond);
      SeenExpr(es, lost, cond);
    case Load(_, _, _, addr) =>
      OneMissing(es, lost, addr);
      PinSameIff(l.regs, es, lost, addr, y.path);
    case Store(_, _, _, _) => StoreDiffers(lay, inp, i, l, y, es, lost);
    case MemCpy(dest, src, len) => TransferDiffers(dest, src, len, l, y, es, lost);
    case MemMove(dest, src, len) => TransferDiffers(dest, src, len, l, y, es, lost);
    case MemSet(_, _, _) => FillSameIff(lay, inp, i, l, y, es, lost);
    case ReadInput(_, buf, len) =>
      TwoMissing(es, lost, buf, len);
      TwoPinsSameIff(l.regs, es, lost, buf, len, y.path);
  }

  lemma TwoMissing(es: Exprs, lost: set<Reg>, a: Operand, b: Operand)
    requires SomeMissing(es, lost, [a, b])
    ensures Missing(es, lost, a) || Missing(es, lost, b)
  {
  }

  lemma ThreeMissing(es: Exprs, lost: set<Reg>, a: Operand, b: Operand, c: Operand)
    requires SomeMissing(es, lost, [a, b, c])
    ensures Missing(es, lost, a) || Missing(es, lost, b) || Missing(es, lost, c)
  {
  }

  lemma StoreDiffers(lay: Layout, inp: Input, i: Instr, l: Local, y: Sym, es: Exprs, lost: set<Reg>)
    requires lay.ptrBits > 0 && i.Store? && Exec(lay, inp, i, l).Some?
    requires SomeMissing(es, lost, Operands(InstrNode(i)))
    ensures !SameEffect(i, SymExec(lay, inp, i, l, LocalSym(y, es - lost)), SymExec(lay, inp, i, l, LocalSym(y, es)))
  {
    hide Missing, TryAlternative, WriteShadow, StoreBytes, ToBytes, InAddressSpace, SomeMissing;
    var Store(val, bits, _, addr) := i;
    TwoMissing(es, lost, val, addr);
    PinSameIff(l.regs, es, lost, addr, y.path);
    if Missing(es, lost, val) {
      SeenExpr(es, lost, val);
      var a, size := Address(l.regs, addr), StoreSize(bits);
      WriteShadowAt(y.shadow, a, size, None, lay.littleEndian, a);
      WriteShadowAt(y.shadow, a, size, ExprOf(es, val), lay.littleEndian, a);
    }
  }

  lemma TransferDiffers(dest: Operand, src: Operand, len: Operand, l: Local, y: Sym, es: Exprs, lost: set<Reg>)
    requires HasValue(l.regs, dest) && HasValue(l.regs, src) && HasValue(l.regs, len)
    requires SomeMissing(es, lost, [dest, src, len])
    ensures SymTransfer(dest, src, len, l, LocalSym(y, es - lost)).path
      != SymTransfer(dest, src, len, l, LocalSym(y, es)).path
  {
    hide Missing, TryAlternative, SomeMissing, CopyShadow;
    ThreeMissing(es, lost, dest, src, len);
    ThreePinsSame(l.regs, es, lost, dest, src, len, y.path);
  }

  lemma FillSameIff(lay: Layout, inp: Input, i: Instr, l: Local, y: Sym, es: Exprs, lost: set<Reg>)
    requires lay.ptrBits > 0 && i.MemSet? && Exec(lay, inp, i, l).Some?
    requires SomeMissing(es, lost, Operands(InstrNode(i)))
    ensures SameEffect(i, SymExec(lay, inp, i, l, LocalSym(y, es - lost)), SymExec(lay, inp, i, l, LocalSym(y, es)))
       <==> !Missing(es, lost, i.dest) && !Missing(es, lost, i.len) && Address(l.regs, i.len) == 0
  {
    hide Missing, TryAlternative, FillShadow, StoreBytes, InAddressSpace, SomeMissing, Replicate;
    var MemSet(dest, val, len) := i;
    ThreeMissing(es, lost, dest, val, len);
    TwoPinsSameIff(l.regs, es, lost, dest, len, y.path);
    SeenExpr(es, lost, val);
    if Missing(es, lost, val) {
      FillSame(y.shadow, Address(l.regs, dest), Address(l.regs, len), ExprOf(es, val).value);
    }
  }

  lemma FillSame(sh: ShadowMap, a: nat, n: nat, e: Expr)
    ensures FillShadow(sh, a, n, None) == FillShadow(sh, a, n, Some(e)) <==> n == 0
  {
    var cleared, filled := FillShadow(sh, a, n, None), FillShadow(sh, a, n, Some(e));
    if n > 0 {
      assert a !in cleared && a in filled;
    } else {
      assert cleared == sh == filled;
    }
  }

  // ----- Calls and terminators -----

  lemma CallDiffers(p: Program, y: Sym, es: Exprs, lost: set<Reg>, result: Option<Reg>, callee: nat, args: seq<Operand>)
    requires |args| <= 256 && SomeMissing(es, lost, args)
    ensures SymCall(p, y, es - lost, result, callee, args).params != SymCall(p, y, es, result, callee, args).params
  {
    hide SetParams;
    var j :| 0 <= j < |args| && Missing(es, lost, args[j]);
    SeenExpr(es, lost, args[j]);
    SetParamsLookup(y.params, ExprsOf(es - lost, args), j);
    SetParamsLookup(y.params, ExprsOf(es, args), j);
  }

  lemma ReturnDiffers(y: Sym, es: Exprs, lost: set<Reg>, returnTo: Option<Reg>, o: Operand)
    requires y.frames != [] && Missing(es, lost, o)
    ensures SymReturn(y, es - lost, returnTo, Some(o)) != SymReturn(y, es, returnTo, Some(o))
  {
    SeenExpr(es, lost, o);
    var a, b := SymReturn(y, es - lost, returnTo, Some(o)), SymReturn(y, es, returnTo, Some(o));
    if returnTo.Some? && |y.frames| > 1 {
      assert Lookup(a.frames[0], returnTo.value) != Lookup(b.frames[0], returnTo.value);
    }
  }

  lemma TermSameIff(p: Program, m: Machine, y: Sym, lost: set<Reg>)
    requires AtCode(p, m) && y.frames != [] && StepTerm(p, m).Some?
    requires SomeMissing(y.frames[0], lost, Operands(TermNode(BlockAt(p, m).term)))
    ensures SymTerm(p, m, y, y.frames[0] - lost) == SymTerm(p, m, y, y.frames[0])
       <==> Indifferent(TermNode(BlockAt(p, m).term), m.frames[0].regs, y.frames[0], lost)
  {
    hide Missing, SomeMissing, SwitchPath, SymPhis, SymReturn, StepReturn, Enter;
    var regs, es, term := m.frames[0].regs, y.frames[0], BlockAt(p, m).term;
    match term
    case Jump(_) => NothingMissing(es, lost);
    case Branch(cond, _, _) =>
      OneMissing(es, lost, cond);
      SeenExpr(es, lost, cond);
      assert |Push(y.path, ExprOf(es, cond), Address(regs, cond) == 1)| == |y.path| + 1;
    case Switch(cond, cases, _) =>
      OneMissing(es, lost, cond);
      SeenExpr(es, lost, cond);
      SwitchLength(cases, ValueOf(regs, cond).value, ExprOf(es, cond).value, y.path);
      if cases == [] {
        NoCases(ValueOf(regs, cond).value, ExprOf(es, cond).value, y.path);
      }
    case Return(result) =>
      if result.Some? {
        OneMissing(es, lost, result.value);
        ReturnDiffers(y, es, lost, m.frames[0].returnTo, result.value);
      } else {
        NothingMissing(es, lost);
      }
  }

  lemma NoCases(v: Value, e: Expr, path: Path)
    ensures SwitchPath([], v, e, path) == path
  {
  }

  lemma NothingMissing(es: Exprs, lost: set<Reg>)
    ensures !SomeMissing(es, lost, [])
  {
  }

  // ----- All nodes -----

  lemma MissingIff(p: Program, m: Machine, y: Sym)
    requires AtCode(p, m) && y.frames != []
    ensures SeesAll(InLayoutOrder, p, m, y)
       <==> !SomeMissing(y.frames[0], MissedAt(p, m), Operands(NodeIn(BlockAt(p, m), m.frames[0].pc)))
  {
    hide DefinedEarlier, Operands, NodeIndex;
    SeesAllIff(p, m, y);
    var es, lost, os := y.frames[0], MissedAt(p, m), Operands(NodeIn(BlockAt(p, m), m.frames[0].pc));
    if r :| r in lost && r in es {
      var o :| o in os && o.Var? && o.r == r;
      var j :| 0 <= j < |os| && os[j] == o;
      assert Missing(es, lost, os[j]);
    }
  }

  /** Whether it matters at a node that operands are missed, for every program and state: the step is
      the naive rule's if and only if all expressions are seen or the node is indifferent to those
      that are not. */
  lemma MissedMattersIff(p: Program, inp: Input, m: Machine, y: Sym)
    requires p.layout.ptrBits > 0 && y.frames != [] && Step(p, inp, m).Some?
    ensures AtCode(p, m)
    ensures SightStep(InLayoutOrder, p, inp, m, y) == SightStep(Everything, p, inp, m, y)
       <==> SeesAll(InLayoutOrder, p, m, y)
            || Indifferent(NodeIn(BlockAt(p, m), m.frames[0].pc), m.frames[0].regs, y.frames[0], MissedAt(p, m))
  {
    hide MissedAt, SymExec, SymTerm, StepTerm, SymCall, Exec, SymAdvance, SomeMissing, Operands, Indifferent, ValuesOf;
    var es, lost := y.frames[0], MissedAt(p, m);
    MissingIff(p, m, y);
    if SeesAll(InLayoutOrder, p, m, y) {
      SeesAllSteps(p, inp, m, y);
    } else if AtInstr(p, m) {
      var i := InstrAt(p, m);
      if i.Call? {
        ArgumentCount(m.frames[0].regs, i.args);
        CallOperands(i);
        CallDiffers(p, y, es, lost, i.result, i.callee, i.args);
      } else {
        InstrSameIff(p.layout, inp, i, LocalOf(m), y, es, lost);
        AdvanceSameIff(y, i, SymExec(p.layout, inp, i, LocalOf(m), LocalSym(y, es - lost)),
                       SymExec(p.layout, inp, i, LocalOf(m), LocalSym(y, es)));
      }
    } else {
      TermSameIff(p, m, y, lost);
    }
  }

  lemma CallOperands(i: Instr)
    requires i.Call?
    ensures Operands(InstrNode(i)) == i.args
    ensures forall regs, es, lost :: !Indifferent(InstrNode(i), regs, es, lost)
  {
  }

  /** What is missed at the next step, if anything, does not matter. */
  predicate NothingMatters(p: Program, m: Machine, y: Sym) {
    !AtCode(p, m) || y.frames == [] || SeesAll(InLayoutOrder, p, m, y)
    || Indifferent(NodeIn(BlockAt(p, m), m.frames[0].pc), m.frames[0].regs, y.frames[0], MissedAt(p, m))
  }

  lemma SameStepIff(p: Program, inp: Input, m: Machine, y: Sym)
    requires p.layout.ptrBits > 0 && Step(p, inp, m).Some?
    ensures SightStep(InLayoutOrder, p, inp, m, y) == SightStep(Everything, p, inp, m, y) <==> NothingMatters(p, m, y)
  {
    hide MissedAt, SymExec, SymTerm, SymCall, SymAdvance, Step, Indifferent, Visible;
    if y.frames != [] {
      MissedMattersIff(p, inp, m, y);
    }
  }

  /** The rule for what the emitted code sees has done what the naive rule says for `n` steps. */
  ghost predicate InStep(p: Program, inp: Input, m0: Machine, y0: Sym, n: nat)
    requires p.layout.ptrBits > 0
  {
    forall k | 0 <= k <= n :: SymRun(InLayoutOrder, p, inp, m0, y0, k) == SymRun(Everything, p, inp, m0, y0, k)
  }

  ghost predicate NothingMattersBefore(p: Program, inp: Input, m0: Machine, y0: Sym, n: nat)
    requires p.layout.ptrBits > 0
  {
    forall k | 0 <= k < n ::
      Run(p, inp, m0, k).Some? ==> NothingMatters(p, Run(p, inp, m0, k).value, SymRun(Everything, p, inp, m0, y0, k))
  }

  lemma OneMoreStep(p: Program, inp: Input, m0: Machine, y0: Sym, n: nat)
    requires p.layout.ptrBits > 0 && Run(p, inp, m0, n + 1).Some?
    ensures Run(p, inp, m0, n).Some?
    ensures InStep(p, inp, m0, y0, n + 1)
       <==> InStep(p, inp, m0, y0, n)
            && SymRun(InLayoutOrder, p, inp, m0, y0, n + 1) == SymRun(Everything, p, inp, m0, y0, n + 1)
    ensures NothingMattersBefore(p, inp, m0, y0, n + 1)
       <==> NothingMattersBefore(p, inp, m0, y0, n)
            && NothingMatters(p, Run(p, inp, m0, n).value, SymRun(Everything, p, inp, m0, y0, n))
  {
    assert Run(p, inp, m0, n).Some?;
    hide SymRun, Step, NothingMatters, Run;
  }

  lemma NextInStepIff(p: Program, inp: Input, m0: Machine, y0: Sym, n: nat)
    requires p.layout.ptrBits > 0 && n > 0 && Run(p, inp, m0, n).Some?
    requires InStep(p, inp, m0, y0, n - 1)
    ensures Run(p, inp, m0, n - 1).Some?
    ensures SymRun(InLayoutOrder, p, inp, m0, y0, n) == SymRun(Everything, p, inp, m0, y0, n)
       <==> NothingMatters(p, Run(p, inp, m0, n - 1).value, SymRun(Everything, p, inp, m0, y0, n - 1))
  {
    hide SightStep, Step, NothingMatters;
    assert SymRun(InLayoutOrder, p, inp, m0, y0, n - 1) == SymRun(Everything, p, inp, m0, y0, n - 1);
    SameStepIff(p, inp, Run(p, inp, m0, n - 1).value, SymRun(Everything, p, inp, m0, y0, n - 1));
  }

  /** Over whole runs: the two rules keep in step exactly as long as nothing matters that is missed. */
  lemma {:induction false} KeepsInStepIff(p: Program, inp: Input, m0: Machine, y0: Sym, n: nat)
    requires p.layout.ptrBits > 0 && Run(p, inp, m0, n).Some?
    ensures InStep(p, inp, m0, y0, n) <==> NothingMattersBefore(p, inp, m0, y0, n)
  {
    if n == 0 {
      hide SightStep, Step, NothingMatters;
    } else {
      hide InStep, NothingMatters, NothingMattersBefore, Run, SymRun, Step, SightStep;
      OneMoreStep(p, inp, m0, y0, n - 1);
      KeepsInStepIff(p, inp, m0, y0, n - 1);
      if InStep(p, inp, m0, y0, n - 1) {
        NextInStepIff(p, inp, m0, y0, n);
      }
    }
  }

  // ----- Replay -----

  /** Where nothing matters that is missed, code that stands for a step with the expressions it sees
      stands for it with all expressions, too. */
  lemma FaithfulWithAll(p: Program, m: Machine, y: Sym, d: Machine)
    requires AtCode(p, m) && y.frames != [] && d.frames != [] && NothingMatters(p, m, y)
    requires d.frames[0] == m.frames[0].(regs := d.frames[0].regs)
    requires StepFaithfulAt(p, d, AsSeen(InLayoutOrder, p, m, y))
    ensures StepFaithfulAt(p, d, AsSeen(Everything, p, m, y))
  {
    hide MissedAt, InstrFaithful, TermFaithful, Indifferent;
    var regs, es, lost := d.frames[0].regs, y.frames[0], MissedAt(p, m);
    if !SeesAll(InLayoutOrder, p, m, y) {
      if AtInstr(p, d) {
        InstrFaithfulWithAll(p.layout, InstrAt(p, d), m.frames[0].regs, y, lost, regs);
      } else {
        TermFaithfulWithAll(BlockAt(p, d).term, m.frames[0].regs, es, lost, regs);
      }
    }
  }

  lemma InstrFaithfulWithAll(lay: Layout, i: Instr, rc: Regs, y: Sym, lost: set<Reg>, rd: Regs)
    requires y.frames != [] && Indifferent(InstrNode(i), rc, y.frames[0], lost)
    requires InstrFaithful(lay, i, rd, LocalSym(y, y.frames[0] - lost))
    ensures InstrFaithful(lay, i, rd, LocalSym(y, y.frames[0]))
  {
    hide AllMadeUp, IndexOperands, AllZero, StepFaithful, ValuesOf, Faithful, WellTyped, Missing;
    var es := y.frames[0];
    if i.Compute? {
      forall j | 0 <= j < |i.args| && ExprsOf(es - lost, i.args)[j].Some?
        ensures ExprsOf(es, i.args)[j].Some?
      {
        SeenExpr(es, lost, i.args[j]);
      }
    }
  }

  lemma TermFaithfulWithAll(t: Term, rc: Regs, es: Exprs, lost: set<Reg>, rd: Regs)
    requires Indifferent(TermNode(t), rc, es, lost)
    ensures TermFaithful(rd, es, t)
  {
  }

  /** Nothing that a replay of a run needs is lost: no missed expression matters, select instructions
      pick concrete operands, and main is only called with concrete arguments. */
  ghost predicate NothingNeededLost(p: Program, inp: Input, m0: Machine, n: nat)
    requires p.layout.ptrBits > 0
  {
    NothingMattersBefore(p, inp, m0, BLANK, n) && LosslessRun(Everything, p, inp, m0, BLANK, n)
  }

  /** In particular if all operands with expressions are seen. */
  lemma LosslessNeedsNothing(p: Program, inp: Input, m0: Machine, n: nat)
    requires p.layout.ptrBits > 0 && LosslessRun(InLayoutOrder, p, inp, m0, BLANK, n)
    ensures NothingNeededLost(p, inp, m0, n)
  {
    hide SymRun, Run, SeesAll, Indifferent, KeepsAll;
    forall k: nat | k < n && Run(p, inp, m0, k).Some?
      ensures var m, y := Run(p, inp, m0, k).value, SymRun(Everything, p, inp, m0, BLANK, k);
        NothingMatters(p, m, y) && Lossless(Everything, p, m, y)
    {
      forall l: nat | l < n && Run(p, inp, m0, l).Some?
        ensures SeesAll(InLayoutOrder, p, Run(p, inp, m0, l).value, SymRun(InLayoutOrder, p, inp, m0, BLANK, l))
      {
        assert Lossless(InLayoutOrder, p, Run(p, inp, m0, l).value, SymRun(InLayoutOrder, p, inp, m0, BLANK, l));
      }
      assert SeeingRun(InLayoutOrder, p, inp, m0, BLANK, k);
      SeeingRunsCoincide(InLayoutOrder, p, inp, m0, BLANK, k);
      var m, y := Run(p, inp, m0, k).value, SymRun(Everything, p, inp, m0, BLANK, k);
      assert Lossless(InLayoutOrder, p, m, y);
      EverythingIsSeen(p, m, y);
    }
  }

  lemma EverythingIsSeen(p: Program, m: Machine, y: Sym)
    ensures SeesAll(Everything, p, m, y)
  {
  }

  lemma ReplayedEitherWay(p: Program, inpC: Input, inp: Input, m0: Machine, k: nat)
    requires p.layout.ptrBits > 0
    requires SymRun(InLayoutOrder, p, inpC, m0, BLANK, k) == SymRun(Everything, p, inpC, m0, BLANK, k)
    ensures Replayed(InLayoutOrder, p, inpC, inp, m0, k) <==> Replayed(Everything, p, inpC, inp, m0, k)
  {
    hide SymRun, Run, Related;
  }

  lemma StopsEitherWay(p: Program, inpC: Input, inp: Input, m0: Machine, k: nat)
    requires p.layout.ptrBits > 0 && Run(p, inpC, m0, k + 1).Some?
    requires SymRun(InLayoutOrder, p, inpC, m0, BLANK, k) == SymRun(Everything, p, inpC, m0, BLANK, k)
    requires Replayed(Everything, p, inpC, inp, m0, k)
    requires NothingMatters(p, Run(p, inpC, m0, k).value, SymRun(Everything, p, inpC, m0, BLANK, k))
    ensures Continues(InLayoutOrder, p, inpC, inp, m0, k) ==> Continues(Everything, p, inpC, inp, m0, k)
  {
    hide SymRun, Step, StepFaithfulAt, AsSeen, NothingMatters, Related, FrameRelated;
    if Continues(InLayoutOrder, p, inpC, inp, m0, k) {
      var m, y, d := Run(p, inpC, m0, k).value, SymRun(Everything, p, inpC, m0, BLANK, k), Run(p, inp, m0, k).value;
      assert Step(p, inpC, m).Some?;
      StepsAtCode(p, inpC, m);
      TopRelated(m, y, d, inp);
      FrameParts(m.frames[0], y.frames[0], d.frames[0], inp);
      FaithfulWithAll(p, m, y, d);
    }
  }

  /** Replay with the constraints for what the emitted code sees, of every run in which nothing that it
      needs is lost, harmless misses included. */
  lemma ReplaySeenRun(p: Program, inpC: Input, inp: Input, args: Regs, mem: Memory, n: nat)
    requires ValidLayout(p.layout) && |inpC| == |inp|
    requires Run(p, inpC, Start(p, args, mem), n).Some?
    requires NothingNeededLost(p, inpC, Start(p, args, mem), n)
    requires PathHolds(SymRun(InLayoutOrder, p, inpC, Start(p, args, mem), BLANK, n).path, inp)
    ensures var m0 := Start(p, args, mem);
      || Replayed(InLayoutOrder, p, inpC, inp, m0, n)
      || exists k :: 0 <= k < n && Replayed(InLayoutOrder, p, inpC, inp, m0, k)
                     && !Continues(InLayoutOrder, p, inpC, inp, m0, k)
  {
    hide Run, SymRun, Replayed, Continues, PathHolds, NothingMatters, LosslessRun, Start;
    var m0 := Start(p, args, mem);
    KeepsInStepIff(p, inpC, m0, BLANK, n);
    assert SymRun(InLayoutOrder, p, inpC, m0, BLANK, n) == SymRun(Everything, p, inpC, m0, BLANK, n);
    ReplayRun(Everything, p, inpC, inp, args, mem, n);
    ReplayedEitherWay(p, inpC, inp, m0, n);
    if !Replayed(Everything, p, inpC, inp, m0, n) {
      var k: nat :| k < n && Replayed(Everything, p, inpC, inp, m0, k) && !Continues(Everything, p, inpC, inp, m0, k);
      assert SymRun(InLayoutOrder, p, inpC, m0, BLANK, k) == SymRun(Everything, p, inpC, m0, BLANK, k);
      ReplayedEitherWay(p, inpC, inp, m0, k);
      RunsBefore(p, inpC, m0, k + 1, n);
      RunsBefore(p, inpC, m0, k, n);
      StopsEitherWay(p, inpC, inp, m0, k);
    }
  }

  lemma {:induction false} RunsBefore(p: Program, inp: Input, m0: Machine, k: nat, n: nat)
    requires k <= n && Run(p, inp, m0, n).Some?
    ensures Run(p, inp, m0, k).Some?
  {
    hide Step;
    if k < n {
      RunsBefore(p, inp, m0, k, n - 1);
    }
  }
}
