/** Symbolic computations as the compiler pass records them, and the rewrite that skips them when
    all their inputs are concrete. */
module ShortCircuit {
  import opened BitVectors
  import opened Expressions
  import opened Builders
  import opened FlatShadow
  import opened Programs
  import opened Concolic

  /** An operand of emitted code: the null pointer, the symbolic register of an SSA value, or a
      temporary of the surrounding computation. */
  datatype SymOperand = Null | SymReg(r: Reg) | Temp(k: nat)

  datatype Callee =
    | Build(fn: RtFn)
    | LiftOf(v: Operand)
    | PushConstraint(taken: Operand)

  /** A call to the run-time library; its result is the temporary with the index of the call. */
  datatype RtCall = RtCall(callee: Callee, args: seq<SymOperand>)

  /** A symbolic input: an operand of one of the calls, and the concrete value it stands for. */
  datatype SymInput = SymInput(concreteValue: Operand, operandIndex: nat, user: nat)

  datatype Computation = Computation(calls: seq<RtCall>, inputs: seq<SymInput>)

  /** Emitted code: blocks that run on one value of a flag, and phi nodes that tell which edge was taken. */
  datatype Code =
    | IsNull(flag: nat, op: SymOperand)
    | AndFlags(flag: nat, a: nat, b: nat)
    | Unless(flag: nat, body: seq<Code>)
    | When(flag: nat, body: seq<Code>)
    | PhiTemp(temp: nat, flag: nat, ifTaken: SymOperand, otherwise: SymOperand)
    | PhiReg(dst: Reg, flag: nat, ifTaken: SymOperand, otherwise: SymOperand)
    | LiftTemp(temp: nat, v: Operand)
    | CallTemp(temp: nat, call: RtCall)

  type Temps = map<nat, Option<Expr>>

  datatype CodeState = CodeState(flags: map<nat, bool>, temps: Temps, exprs: Exprs, path: Path)

  // ----- Execution -----

  function EvalOp(op: SymOperand, temps: Temps, es: Exprs): Option<Expr> {
    match op
    case Null => None
    case SymReg(r) => Lookup(es, r)
    case Temp(k) => if k in temps then temps[k] else None
  }

  function LiftValue(regs: Regs, o: Operand): Expr {
    match ValueOf(regs, o)
    case Some(v) => Lift(v)
    case None => ERROR_EXPR
  }

  /** The run-time library does not accept null arguments; a null here stands for a crash. */
  function EvalArgs(args: seq<SymOperand>, temps: Temps, es: Exprs): (r: seq<Expr>)
    ensures |r| == |args|
  {
    seq(|args|, i requires 0 <= i < |args| =>
      match EvalOp(args[i], temps, es)
      case Some(e) => e
      case None => ERROR_EXPR)
  }

  function CallResult(call: RtCall, regs: Regs, temps: Temps, es: Exprs): Option<Expr> {
    match call.callee
    case Build(fn) => Some(Apply(fn, EvalArgs(call.args, temps, es)))
    case LiftOf(v) => Some(LiftValue(regs, v))
    case PushConstraint(_) => None
  }

  function CallPath(call: RtCall, regs: Regs, temps: Temps, es: Exprs, path: Path): Path {
    if call.callee.PushConstraint? && |call.args| == 1
    then path + [Constraint(EvalArgs(call.args, temps, es)[0], Address(regs, call.callee.taken) == 1)]
    else path
  }

  function ExecOne(code: Code, regs: Regs, s: CodeState): CodeState
    decreases code, 1
  {
    match code
    case IsNull(f, op) => s.(flags := s.flags[f := EvalOp(op, s.temps, s.exprs).None?])
    case AndFlags(f, a, b) => s.(flags := s.flags[f := Flag(s, a) && Flag(s, b)])
    case Unless(f, body) => if Flag(s, f) then s else ExecCode(body, regs, s)
    case When(f, body) => if Flag(s, f) then ExecCode(body, regs, s) else s
    case PhiTemp(t, f, a, b) =>
      s.(temps := s.temps[t := EvalOp(if Flag(s, f) then a else b, s.temps, s.exprs)])
    case PhiReg(r, f, a, b) =>
      s.(exprs := SetExpr(s.exprs, r, EvalOp(if Flag(s, f) then a else b, s.temps, s.exprs)))
    case LiftTemp(t, v) => s.(temps := s.temps[t := Some(LiftValue(regs, v))])
    case CallTemp(t, call) =>
      s.(temps := s.temps[t := CallResult(call, regs, s.temps, s.exprs)],
         path := CallPath(call, regs, s.temps, s.exprs, s.path))
  }

  predicate Flag(s: CodeState, f: nat) {
    f in s.flags && s.flags[f]
  }

  function ExecCode(code: seq<Code>, regs: Regs, s: CodeState): CodeState
    decreases code, 0
  {
    if code == [] then s
    else
      var k := |code| - 1;
      assert code[..k] < code;
      ExecOne(code[k], regs, ExecCode(code[..k], regs, s))
  }

  lemma ExecAppendOne(code: seq<Code>, c: Code, regs: Regs, s: CodeState)
    ensures ExecCode(code + [c], regs, s) == ExecOne(c, regs, ExecCode(code, regs, s))
  {
    assert (code + [c])[..|code|] == code;
  }

  lemma ExecSingle(c: Code, regs: Regs, s: CodeState)
    ensures ExecCode([c], regs, s) == ExecOne(c, regs, s)
  {
    assert [c] == [] + [c];
    ExecAppendOne([], c, regs, s);
  }

  lemma ExecPair(c: Code, d: Code, regs: Regs, s: CodeState)
    ensures ExecCode([c, d], regs, s) == ExecOne(d, regs, ExecOne(c, regs, s))
  {
    hide ExecOne;
    assert [c, d] == [c] + [d];
    ExecSingle(c, regs, s);
    ExecAppendOne([c], d, regs, s);
  }

  lemma ExecNil(regs: Regs, s: CodeState)
    ensures ExecCode([], regs, s) == s
  {
  }

  lemma {:induction false} ExecAppend(code: seq<Code>, more: seq<Code>, regs: Regs, s: CodeState)
    ensures ExecCode(code + more, regs, s) == ExecCode(more, regs, ExecCode(code, regs, s))
  {
    if more == [] {
      assert code + more == code;
    } else {
      var k := |more| - 1;
      ExecAppend(code, more[..k], regs, s);
      assert code + more == (code + more[..k]) + [more[k]];
      ExecAppendOne(code + more[..k], more[k], regs, s);
    }
  }

  // ----- The naive rule -----

  predicate HasLocation(calls: seq<RtCall>, input: SymInput) {
    input.user < |calls| && input.operandIndex < |calls[input.user].args|
  }

  function OperandAt(calls: seq<RtCall>, input: SymInput): SymOperand
    requires HasLocation(calls, input)
  {
    calls[input.user].args[input.operandIndex]
  }

  /** `replaceOperand`. */
  function ReplaceOperand(calls: seq<RtCall>, input: SymInput, op: SymOperand): (r: seq<RtCall>)
    requires HasLocation(calls, input)
    ensures |r| == |calls|
    ensures forall j | 0 <= j < |r| :: |r[j].args| == |calls[j].args| && r[j].callee == calls[j].callee
  {
    var call := calls[input.user];
    calls[input.user := call.(args := call.args[input.operandIndex := op])]
  }

  lemma ReplaceOperandAt(calls: seq<RtCall>, input: SymInput, op: SymOperand, j: nat, i: nat)
    requires HasLocation(calls, input) && j < |calls| && i < |calls[j].args|
    ensures ReplaceOperand(calls, input, op)[j].args[i]
         == if j == input.user && i == input.operandIndex then op else calls[j].args[i]
  {
  }

  /** Inputs are distinct operand positions that do not hold temporaries, and there is at least one. */
  predicate WellFormed(c: Computation) {
    && c.calls != [] && c.inputs != []
    && (forall k | 0 <= k < |c.inputs| :: HasLocation(c.calls, c.inputs[k]) && !OperandAt(c.calls, c.inputs[k]).Temp?)
    && (forall k, l | 0 <= k < l < |c.inputs| ::
          (c.inputs[k].user, c.inputs[k].operandIndex) != (c.inputs[l].user, c.inputs[l].operandIndex))
    && (forall j, i | 0 <= j < |c.calls| && 0 <= i < |c.calls[j].args| :: TempBelow(c.calls[j].args[i], |c.calls|))
  }

  predicate TempBelow(op: SymOperand, n: nat) {
    op.Temp? ==> op.k < n
  }

  function InputOp(c: Computation, k: nat): SymOperand
    requires WellFormed(c) && k < |c.inputs|
  {
    OperandAt(c.calls, c.inputs[k])
  }

  function InputExpr(c: Computation, es: Exprs, k: nat): Option<Expr>
    requires WellFormed(c) && k < |c.inputs|
  {
    EvalOp(InputOp(c, k), map[], es)
  }

  predicate AllConcrete(c: Computation, es: Exprs, k: nat)
    requires WellFormed(c) && k <= |c.inputs|
  {
    forall i | 0 <= i < k :: InputExpr(c, es, i).None?
  }

  /** The temporary that holds the final expression of input `k`. */
  function ArgTemp(c: Computation, k: nat): nat {
    |c.calls| + k
  }

  function LiftedInput(c: Computation, regs: Regs, es: Exprs, k: nat): Expr
    requires WellFormed(c) && k < |c.inputs|
  {
    match InputExpr(c, es, k)
    case Some(e) => e
    case None => LiftValue(regs, c.inputs[k].concreteValue)
  }

  /** Every input lifted. */
  function LiftedInputs(c: Computation, regs: Regs, es: Exprs, k: nat): Temps
    requires WellFormed(c) && k <= |c.inputs|
  {
    if k == 0 then map[]
    else LiftedInputs(c, regs, es, k - 1)[ArgTemp(c, k - 1) := Some(LiftedInput(c, regs, es, k - 1))]
  }

  /** The calls with their first `k` inputs replaced by the temporaries of the lifted arguments. */
  function Patched(c: Computation, k: nat): (calls: seq<RtCall>)
    requires WellFormed(c) && k <= |c.inputs|
    ensures SameShape(calls, c.calls)
  {
    if k == 0 then c.calls
    else ReplaceOperand(Patched(c, k - 1), c.inputs[k - 1], Temp(ArgTemp(c, k - 1)))
  }

  predicate SameShape(a: seq<RtCall>, b: seq<RtCall>) {
    |a| == |b| && forall j | 0 <= j < |a| :: |a[j].args| == |b[j].args| && a[j].callee == b[j].callee
  }

  datatype Outcome = Outcome(temps: Temps, path: Path)

  function RunCalls(calls: seq<RtCall>, n: nat, regs: Regs, es: Exprs, o: Outcome): Outcome
    requires n <= |calls|
  {
    if n == 0 then o else
    var prev := RunCalls(calls, n - 1, regs, es, o);
    Outcome(prev.temps[n - 1 := CallResult(calls[n - 1], regs, prev.temps, es)],
            CallPath(calls[n - 1], regs, prev.temps, es, prev.path))
  }

  /** The calls of the computation on lifted inputs. */
  function SlowOutcome(c: Computation, regs: Regs, es: Exprs, path: Path): Outcome
    requires WellFormed(c)
  {
    RunCalls(Patched(c, |c.inputs|), |c.calls|, regs, es, Outcome(LiftedInputs(c, regs, es, |c.inputs|), path))
  }

  /** If all inputs are null the result is null and nothing is called; otherwise each null input is
      made into an expression from its concrete value, and the calls are made. */
  function NaiveResult(c: Computation, regs: Regs, es: Exprs, path: Path): Option<Expr>
    requires WellFormed(c)
  {
    if AllConcrete(c, es, |c.inputs|) then None
    else EvalOp(Temp(|c.calls| - 1), SlowOutcome(c, regs, es, path).temps, es)
  }

  function NaivePath(c: Computation, regs: Regs, es: Exprs, path: Path): Path
    requires WellFormed(c)
  {
    if AllConcrete(c, es, |c.inputs|) then path else SlowOutcome(c, regs, es, path).path
  }

  // ----- The rewrite -----

  function NumUnknown(c: Computation, k: nat): nat
    requires WellFormed(c) && k <= |c.inputs|
  {
    if k == 0 then 0 else NumUnknown(c, k - 1) + if InputOp(c, k - 1) == Null then 0 else 1
  }

  /** An input of unknown concreteness that is the only one must be symbolic on the slow path. */
  predicate SkipsCheck(c: Computation, k: nat)
    requires WellFormed(c) && k < |c.inputs|
  {
    InputOp(c, k) != Null && NumUnknown(c, |c.inputs|) == 1
  }

  function NullTests(c: Computation, k: nat): seq<Code>
    requires WellFormed(c) && k <= |c.inputs|
  {
    if k == 0 then [] else NullTests(c, k - 1) + [IsNull(k - 1, InputOp(c, k - 1))]
  }

  /** The flag that says that the first `k` inputs are null. */
  function AllFlag(c: Computation, k: nat): nat
    requires 0 < k
  {
    if k == 1 then 0 else |c.inputs| + k - 1
  }

  function AndChain(c: Computation, k: nat): seq<Code>
    requires 0 < k
  {
    if k == 1 then [] else AndChain(c, k - 1) + [AndFlags(AllFlag(c, k), AllFlag(c, k - 1), k - 1)]
  }

  /** The temporary for an expression created in an argument's check block. */
  function CheckTemp(c: Computation, k: nat): nat {
    |c.calls| + |c.inputs| + k
  }

  function ArgCode(c: Computation, k: nat): seq<Code>
    requires WellFormed(c) && k < |c.inputs|
  {
    if SkipsCheck(c, k) then []
    else if InputOp(c, k) == Null then [LiftTemp(ArgTemp(c, k), c.inputs[k].concreteValue)]
    else [When(k, [LiftTemp(CheckTemp(c, k), c.inputs[k].concreteValue)]),
          PhiTemp(ArgTemp(c, k), k, Temp(CheckTemp(c, k)), InputOp(c, k))]
  }

  function ArgCodes(c: Computation, k: nat): seq<Code>
    requires WellFormed(c) && k <= |c.inputs|
  {
    if k == 0 then [] else ArgCodes(c, k - 1) + ArgCode(c, k - 1)
  }

  /** The calls as the rewrite leaves them: inputs whose check is skipped keep their operand. */
  function Rewritten(c: Computation, k: nat): (calls: seq<RtCall>)
    requires WellFormed(c) && k <= |c.inputs|
    ensures SameShape(calls, c.calls)
  {
    if k == 0 then c.calls
    else if SkipsCheck(c, k - 1) then Rewritten(c, k - 1)
    else ReplaceOperand(Rewritten(c, k - 1), c.inputs[k - 1], Temp(ArgTemp(c, k - 1)))
  }

  function CallCodes(calls: seq<RtCall>, n: nat): seq<Code>
    requires n <= |calls|
  {
    if n == 0 then [] else CallCodes(calls, n - 1) + [CallTemp(n - 1, calls[n - 1])]
  }

  function SlowPath(c: Computation): seq<Code>
    requires WellFormed(c)
  {
    ArgCodes(c, |c.inputs|) + CallCodes(Rewritten(c, |c.inputs|), |c.calls|)
  }

  function ResultPhi(c: Computation, dst: Option<Reg>): seq<Code>
    requires WellFormed(c)
  {
    match dst
    case None => []
    case Some(r) => [PhiReg(r, AllFlag(c, |c.inputs|), Null, Temp(|c.calls| - 1))]
  }

  /** The code that replaces a recorded computation. */
  function Lower(c: Computation, dst: Option<Reg>): seq<Code>
    requires WellFormed(c)
  {
    NullTests(c, |c.inputs|) + AndChain(c, |c.inputs|) + [Unless(AllFlag(c, |c.inputs|), SlowPath(c))]
    + ResultPhi(c, dst)
  }

  /** `shortCircuitExpressionUses`, one computation. */
  method ShortCircuitExpressionUse(c: Computation, dst: Option<Reg>) returns (code: seq<Code>)
    requires WellFormed(c)
    ensures code == Lower(c, dst)
  {
    // Check whether any input expression is non-null.
    var tests: seq<Code> := [];
    for k := 0 to |c.inputs|
      invariant tests == NullTests(c, k)
    {
      tests := tests + [IsNull(k, OperandAt(c.calls, c.inputs[k]))];
    }
    var allConcrete := 0;
    var ands: seq<Code> := [];
    for k := 1 to |c.inputs|
      invariant allConcrete == AllFlag(c, k)
      invariant ands == AndChain(c, k)
    {
      ands := ands + [AndFlags(|c.inputs| + k, allConcrete, k)];
      allConcrete := |c.inputs| + k;
    }
    var numUnknown := 0;
    for k := 0 to |c.inputs|
      invariant numUnknown == NumUnknown(c, k)
    {
      if OperandAt(c.calls, c.inputs[k]) != Null {
        numUnknown := numUnknown + 1;
      }
    }
    var slow := BuildSlowPath(c, numUnknown);
    code := tests + ands + [Unless(allConcrete, slow)];
    if dst.Some? {
      code := code + [PhiReg(dst.value, allConcrete, Null, Temp(|c.calls| - 1))];
    }
  }

  /** The slow path: lift the concrete inputs, then make the calls. */
  method BuildSlowPath(c: Computation, numUnknown: nat) returns (slow: seq<Code>)
    requires WellFormed(c) && numUnknown == NumUnknown(c, |c.inputs|)
    ensures slow == SlowPath(c)
  {
    var calls := c.calls;
    slow := [];
    hide ReplaceOperand, InputOp;
    for k := 0 to |c.inputs|
      invariant calls == Rewritten(c, k)
      invariant slow == ArgCodes(c, k)
    {
      RewrittenKeepsOperand(c, k, k);
      var original := OperandAt(calls, c.inputs[k]);
      var needRuntimeCheck := original != Null;
      if needRuntimeCheck && numUnknown == 1 {
        assert ArgCodes(c, k + 1) == ArgCodes(c, k);
        continue;
      }
      if needRuntimeCheck {
        slow := slow + [When(k, [LiftTemp(CheckTemp(c, k), c.inputs[k].concreteValue)]),
                        PhiTemp(ArgTemp(c, k), k, Temp(CheckTemp(c, k)), original)];
      } else {
        slow := slow + [LiftTemp(ArgTemp(c, k), c.inputs[k].concreteValue)];
      }
      calls := ReplaceOperand(calls, c.inputs[k], Temp(ArgTemp(c, k)));
    }
    var callCodes: seq<Code> := [];
    for j := 0 to |calls|
      invariant callCodes == CallCodes(calls, j)
    {
      callCodes := callCodes + [CallTemp(j, calls[j])];
    }
    slow := slow + callCodes;
  }

  /** Rewriting the first inputs leaves the operands of the later ones alone. */
  lemma {:induction false} RewrittenKeepsOperand(c: Computation, k: nat, i: nat)
    requires WellFormed(c) && k <= i < |c.inputs|
    ensures HasLocation(Rewritten(c, k), c.inputs[i])
    ensures OperandAt(Rewritten(c, k), c.inputs[i]) == InputOp(c, i)
  {
    if k > 0 {
      RewrittenKeepsOperand(c, k - 1, i);
      assert (c.inputs[k - 1].user, c.inputs[k - 1].operandIndex) != (c.inputs[i].user, c.inputs[i].operandIndex);
    }
  }

  // ----- The rewrite preserves meaning -----

  ghost predicate TestsDone(c: Computation, es: Exprs, s: CodeState, k: nat)
    requires WellFormed(c) && k <= |c.inputs|
  {
    forall i | 0 <= i < k :: i in s.flags && s.flags[i] == InputExpr(c, es, i).None?
  }

  lemma NoTempInput(c: Computation, k: nat, temps: Temps, es: Exprs)
    requires WellFormed(c) && k < |c.inputs|
    ensures EvalOp(InputOp(c, k), temps, es) == InputExpr(c, es, k)
  {
    assert !OperandAt(c.calls, c.inputs[k]).Temp?;
  }

  lemma {:induction false} NullTestsRun(c: Computation, k: nat, regs: Regs, s: CodeState)
    requires WellFormed(c) && k <= |c.inputs|
    ensures var t := ExecCode(NullTests(c, k), regs, s);
      TestsDone(c, s.exprs, t, k) && t == s.(flags := t.flags)
  {
    hide ExecCode, InputOp;
    if k == 0 {
      ExecNil(regs, s);
    } else {
      NullTestsRun(c, k - 1, regs, s);
      var t := ExecCode(NullTests(c, k - 1), regs, s);
      NoTempInput(c, k - 1, t.temps, s.exprs);
      ExecAppendOne(NullTests(c, k - 1), IsNull(k - 1, InputOp(c, k - 1)), regs, s);
    }
  }

  lemma {:induction false} AndChainRun(c: Computation, k: nat, regs: Regs, s: CodeState)
    requires WellFormed(c) && 0 < k <= |c.inputs|
    requires TestsDone(c, s.exprs, s, |c.inputs|)
    ensures var t := ExecCode(AndChain(c, k), regs, s);
      && t == s.(flags := t.flags)
      && TestsDone(c, s.exprs, t, |c.inputs|)
      && (Flag(t, AllFlag(c, k)) <==> AllConcrete(c, s.exprs, k))
  {
    hide ExecCode, InputExpr;
    if k == 1 {
      ExecNil(regs, s);
    } else {
      AndChainRun(c, k - 1, regs, s);
      ExecAppendOne(AndChain(c, k - 1), AndFlags(AllFlag(c, k), AllFlag(c, k - 1), k - 1), regs, s);
    }
  }

  lemma {:induction false} OneUnknownIsSymbolic(c: Computation, es: Exprs, k: nat)
    requires WellFormed(c) && k < |c.inputs|
    requires SkipsCheck(c, k) && !AllConcrete(c, es, |c.inputs|)
    ensures InputExpr(c, es, k).Some?
  {
    if InputExpr(c, es, k).None? {
      var i :| 0 <= i < |c.inputs| && InputExpr(c, es, i).Some?;
      TwoUnknowns(c, if i < k then i else k, if i < k then k else i, |c.inputs|);
    }
  }

  lemma {:induction false} TwoUnknowns(c: Computation, i: nat, k: nat, n: nat)
    requires WellFormed(c) && i < k < n <= |c.inputs|
    requires InputOp(c, i) != Null && InputOp(c, k) != Null
    ensures NumUnknown(c, n) >= 2
  {
    if k < n - 1 {
      TwoUnknowns(c, i, k, n - 1);
    } else {
      OneUnknown(c, i, k);
    }
  }

  lemma {:induction false} OneUnknown(c: Computation, i: nat, n: nat)
    requires WellFormed(c) && i < n <= |c.inputs|
    requires InputOp(c, i) != Null
    ensures NumUnknown(c, n) >= 1
  {
    if i < n - 1 {
      OneUnknown(c, i, n - 1);
    }
  }

  /** The temporaries after the argument checks: every input that is not skipped is lifted. */
  ghost predicate ArgsDone(c: Computation, regs: Regs, es: Exprs, temps: Temps, k: nat)
    requires WellFormed(c) && k <= |c.inputs|
  {
    forall i | 0 <= i < k && !SkipsCheck(c, i) ::
      EvalOp(Temp(ArgTemp(c, i)), temps, es) == Some(LiftedInput(c, regs, es, i))
  }

  lemma {:induction false} ArgCodesRun(c: Computation, k: nat, regs: Regs, s: CodeState)
    requires WellFormed(c) && k <= |c.inputs|
    requires TestsDone(c, s.exprs, s, |c.inputs|)
    ensures var t := ExecCode(ArgCodes(c, k), regs, s);
      && t == s.(temps := t.temps)
      && ArgsDone(c, regs, s.exprs, t.temps, k)
  {
    hide LiftValue, ExecCode, ArgCode, LiftedInput;
    if k == 0 {
      ExecNil(regs, s);
    } else {
      ArgCodesRun(c, k - 1, regs, s);
      var t := ExecCode(ArgCodes(c, k - 1), regs, s);
      ExecAppend(ArgCodes(c, k - 1), ArgCode(c, k - 1), regs, s);
      ArgCodeRun(c, k - 1, regs, t);
    }
  }

  lemma ArgCodeRun(c: Computation, k: nat, regs: Regs, s: CodeState)
    requires WellFormed(c) && k < |c.inputs|
    requires TestsDone(c, s.exprs, s, |c.inputs|)
    ensures var t := ExecCode(ArgCode(c, k), regs, s);
      && t == s.(temps := t.temps)
      && (!SkipsCheck(c, k) ==>
           EvalOp(Temp(ArgTemp(c, k)), t.temps, s.exprs) == Some(LiftedInput(c, regs, s.exprs, k)))
      && forall i | 0 <= i < |c.inputs| && i != k ::
           EvalOp(Temp(ArgTemp(c, i)), t.temps, s.exprs) == EvalOp(Temp(ArgTemp(c, i)), s.temps, s.exprs)
  {
    hide LiftValue, ExecCode;
    NoTempInput(c, k, s.temps, s.exprs);
    var v := c.inputs[k].concreteValue;
    if SkipsCheck(c, k) {
      ExecNil(regs, s);
    } else if InputOp(c, k) == Null {
      ExecSingle(LiftTemp(ArgTemp(c, k), v), regs, s);
    } else {
      CheckRun(c, k, regs, s);
    }
  }

  /** A check block and its phi node leave the original expression or a new one in the argument's temporary. */
  lemma CheckRun(c: Computation, k: nat, regs: Regs, s: CodeState)
    requires WellFormed(c) && k < |c.inputs| && !SkipsCheck(c, k) && InputOp(c, k) != Null
    requires TestsDone(c, s.exprs, s, |c.inputs|)
    ensures var t := ExecCode(ArgCode(c, k), regs, s);
      && t == s.(temps := t.temps)
      && EvalOp(Temp(ArgTemp(c, k)), t.temps, s.exprs) == Some(LiftedInput(c, regs, s.exprs, k))
      && (forall j | 0 <= j < |c.calls| :: j !in s.temps ==> j !in t.temps)
      && forall i | 0 <= i < |c.inputs| && i != k ::
           EvalOp(Temp(ArgTemp(c, i)), t.temps, s.exprs) == EvalOp(Temp(ArgTemp(c, i)), s.temps, s.exprs)
  {
    hide LiftValue, ExecCode, InputOp;
    var lift := LiftTemp(CheckTemp(c, k), c.inputs[k].concreteValue);
    var check, phi := When(k, [lift]), PhiTemp(ArgTemp(c, k), k, Temp(CheckTemp(c, k)), InputOp(c, k));
    ExecSingle(lift, regs, s);
    ExecPair(check, phi, regs, s);
    var t := ExecOne(check, regs, s);
    NoTempInput(c, k, t.temps, s.exprs);
    assert s.flags[k] == InputExpr(c, s.exprs, k).None?;
  }

  lemma {:induction false} CallCodesRun(calls: seq<RtCall>, n: nat, regs: Regs, s: CodeState)
    requires n <= |calls|
    ensures var o := RunCalls(calls, n, regs, s.exprs, Outcome(s.temps, s.path));
      ExecCode(CallCodes(calls, n), regs, s) == s.(temps := o.temps, path := o.path)
  {
    hide ExecCode, CallResult, CallPath;
    if n == 0 {
      ExecNil(regs, s);
    } else {
      CallCodesRun(calls, n - 1, regs, s);
      ExecAppendOne(CallCodes(calls, n - 1), CallTemp(n - 1, calls[n - 1]), regs, s);
    }
  }

  ghost predicate SkippedDone(c: Computation, es: Exprs, temps: Temps, k: nat)
    requires WellFormed(c) && k <= |c.inputs|
  {
    forall i | 0 <= i < k && SkipsCheck(c, i) ::
      EvalOp(Temp(ArgTemp(c, i)), temps, es) == InputExpr(c, es, i)
  }

  /** An operand of the rewritten calls and of the patched ones evaluate alike when the argument
      temporaries of skipped inputs hold the expressions of those inputs. */
  lemma {:induction false} SameOperand(c: Computation, k: nat, temps: Temps, es: Exprs, j: nat, i: nat)
    requires WellFormed(c) && k <= |c.inputs| && j < |c.calls| && i < |c.calls[j].args|
    requires SkippedDone(c, es, temps, k)
    ensures EvalOp(Rewritten(c, k)[j].args[i], temps, es) == EvalOp(Patched(c, k)[j].args[i], temps, es)
  {
    hide ReplaceOperand, EvalOp, SkipsCheck, InputOp, InputExpr, WellFormed;
    if k > 0 {
      SameOperand(c, k - 1, temps, es, j, i);
      var input, op := c.inputs[k - 1], Temp(ArgTemp(c, k - 1));
      RewrittenKeepsOperand(c, k - 1, k - 1);
      NoTempInput(c, k - 1, temps, es);
      InputLocation(c, k - 1);
      ReplaceOperandAt(Rewritten(c, k - 1), input, op, j, i);
      ReplaceOperandAt(Patched(c, k - 1), input, op, j, i);
    }
  }

  lemma InputLocation(c: Computation, k: nat)
    requires WellFormed(c) && k < |c.inputs|
    ensures HasLocation(c.calls, c.inputs[k])
  {
  }

  /** The temporaries that the rewritten calls use. */
  predicate Used(c: Computation, t: nat)
    requires WellFormed(c)
  {
    t < |c.calls| || (t < |c.calls| + |c.inputs| && !SkipsCheck(c, t - |c.calls|))
  }

  predicate UsedOperand(c: Computation, op: SymOperand)
    requires WellFormed(c)
  {
    op.Temp? ==> Used(c, op.k)
  }

  lemma {:induction false} RewrittenUses(c: Computation, k: nat, j: nat, i: nat)
    requires WellFormed(c) && k <= |c.inputs| && j < |c.calls| && i < |c.calls[j].args|
    ensures UsedOperand(c, Rewritten(c, k)[j].args[i])
  {
    hide ReplaceOperand, SkipsCheck;
    if k > 0 {
      RewrittenUses(c, k - 1, j, i);
      RewrittenKeepsOperand(c, k - 1, k - 1);
      ReplaceOperandAt(Rewritten(c, k - 1), c.inputs[k - 1], Temp(ArgTemp(c, k - 1)), j, i);
    } else {
      assert TempBelow(c.calls[j].args[i], |c.calls|);
    }
  }

  ghost predicate TempsAgree(c: Computation, a: Temps, b: Temps, es: Exprs)
    requires WellFormed(c)
  {
    forall t: nat | Used(c, t) :: EvalOp(Temp(t), a, es) == EvalOp(Temp(t), b, es)
  }

  lemma ArgsAgree(c: Computation, j: nat, a: Temps, b: Temps, es: Exprs)
    requires WellFormed(c) && j < |c.calls|
    requires TempsAgree(c, a, b, es) && SkippedDone(c, es, b, |c.inputs|)
    ensures EvalArgs(Rewritten(c, |c.inputs|)[j].args, a, es) == EvalArgs(Patched(c, |c.inputs|)[j].args, b, es)
  {
    var rs, ps := Rewritten(c, |c.inputs|), Patched(c, |c.inputs|);
    hide EvalOp, SkippedDone, UsedOperand, WellFormed, Rewritten, Patched;
    forall i | 0 <= i < |c.calls[j].args|
      ensures EvalOp(rs[j].args[i], a, es) == EvalOp(ps[j].args[i], b, es)
    {
      RewrittenUses(c, |c.inputs|, j, i);
      SameOperand(c, |c.inputs|, b, es, j, i);
      UsedOperandAgrees(c, rs[j].args[i], a, b, es);
    }
  }

  lemma UsedOperandAgrees(c: Computation, op: SymOperand, a: Temps, b: Temps, es: Exprs)
    requires WellFormed(c) && UsedOperand(c, op) && TempsAgree(c, a, b, es)
    ensures EvalOp(op, a, es) == EvalOp(op, b, es)
  {
  }

  /** The rewritten calls after the argument checks, and the patched calls on lifted inputs, go in step. */
  lemma {:induction false} RunsAgree(c: Computation, n: nat, regs: Regs, es: Exprs, o: Outcome, o': Outcome)
    requires WellFormed(c) && n <= |c.calls|
    requires o.path == o'.path && TempsAgree(c, o.temps, o'.temps, es)
    requires SkippedDone(c, es, o'.temps, |c.inputs|)
    ensures var r := RunCalls(Rewritten(c, |c.inputs|), n, regs, es, o);
            var r' := RunCalls(Patched(c, |c.inputs|), n, regs, es, o');
      r.path == r'.path && TempsAgree(c, r.temps, r'.temps, es) && SkippedDone(c, es, r'.temps, |c.inputs|)
  {
    hide EvalArgs, Apply, LiftValue, Rewritten, Patched, Address, SkipsCheck;
    if n > 0 {
      RunsAgree(c, n - 1, regs, es, o, o');
      var r := RunCalls(Rewritten(c, |c.inputs|), n - 1, regs, es, o);
      var r' := RunCalls(Patched(c, |c.inputs|), n - 1, regs, es, o');
      ArgsAgree(c, n - 1, r.temps, r'.temps, es);
    }
  }

  lemma {:induction false} LiftedInputsAt(c: Computation, regs: Regs, es: Exprs, k: nat, t: nat)
    requires WellFormed(c) && k <= |c.inputs|
    ensures EvalOp(Temp(t), LiftedInputs(c, regs, es, k), es)
         == if |c.calls| <= t < |c.calls| + k then Some(LiftedInput(c, regs, es, t - |c.calls|)) else None
  {
    hide LiftValue;
    if k > 0 {
      LiftedInputsAt(c, regs, es, k - 1, t);
    }
  }

  /** On the slow path the emitted code computes what the naive rule does. */
  lemma SlowPathCorrect(c: Computation, regs: Regs, s: CodeState)
    requires WellFormed(c)
    requires TestsDone(c, s.exprs, s, |c.inputs|) && s.temps == map[]
    requires !AllConcrete(c, s.exprs, |c.inputs|)
    ensures var t := ExecCode(SlowPath(c), regs, s);
      var o := SlowOutcome(c, regs, s.exprs, s.path);
      && t == s.(temps := t.temps, path := o.path)
      && EvalOp(Temp(|c.calls| - 1), t.temps, s.exprs) == EvalOp(Temp(|c.calls| - 1), o.temps, s.exprs)
  {
    hide EvalArgs, Apply, LiftValue, Rewritten, Patched, SkipsCheck, LiftedInput, InputExpr, ExecCode, RunCalls;
    var es, n := s.exprs, |c.inputs|;
    ArgCodesRun(c, n, regs, s);
    var a := ExecCode(ArgCodes(c, n), regs, s);
    ArgCodesKeepCallTemps(c, n, regs, s);
    ExecAppend(ArgCodes(c, n), CallCodes(Rewritten(c, n), |c.calls|), regs, s);
    CallCodesRun(Rewritten(c, n), |c.calls|, regs, a);
    var lifted := LiftedInputs(c, regs, es, n);
    forall t: nat | Used(c, t)
      ensures EvalOp(Temp(t), a.temps, es) == EvalOp(Temp(t), lifted, es)
    {
      LiftedInputsAt(c, regs, es, n, t);
      if t >= |c.calls| {
        assert ArgTemp(c, t - |c.calls|) == t;
      }
    }
    forall i | 0 <= i < n && SkipsCheck(c, i)
      ensures EvalOp(Temp(ArgTemp(c, i)), lifted, es) == InputExpr(c, es, i)
    {
      LiftedInputsAt(c, regs, es, n, ArgTemp(c, i));
      OneUnknownIsSymbolic(c, es, i);
      LiftedSymbolicInput(c, regs, es, i);
    }
    RunsAgree(c, |c.calls|, regs, es, Outcome(a.temps, s.path), Outcome(lifted, s.path));
  }

  lemma LiftedSymbolicInput(c: Computation, regs: Regs, es: Exprs, i: nat)
    requires WellFormed(c) && i < |c.inputs| && InputExpr(c, es, i).Some?
    ensures Some(LiftedInput(c, regs, es, i)) == InputExpr(c, es, i)
  {
  }

  lemma {:induction false} ArgCodesKeepCallTemps(c: Computation, k: nat, regs: Regs, s: CodeState)
    requires WellFormed(c) && k <= |c.inputs| && s.temps == map[]
    requires TestsDone(c, s.exprs, s, |c.inputs|)
    ensures forall j | 0 <= j < |c.calls| :: j !in ExecCode(ArgCodes(c, k), regs, s).temps
  {
    hide LiftValue, ExecCode, ArgCode;
    if k > 0 {
      ArgCodesKeepCallTemps(c, k - 1, regs, s);
      ArgCodesRun(c, k - 1, regs, s);
      ExecAppend(ArgCodes(c, k - 1), ArgCode(c, k - 1), regs, s);
      ArgCodeKeepsCallTemps(c, k - 1, regs, ExecCode(ArgCodes(c, k - 1), regs, s));
    } else {
      ExecNil(regs, s);
    }
  }

  lemma ArgCodeKeepsCallTemps(c: Computation, k: nat, regs: Regs, s: CodeState)
    requires WellFormed(c) && k < |c.inputs|
    requires TestsDone(c, s.exprs, s, |c.inputs|)
    requires forall j | 0 <= j < |c.calls| :: j !in s.temps
    ensures forall j | 0 <= j < |c.calls| :: j !in ExecCode(ArgCode(c, k), regs, s).temps
  {
    hide LiftValue, ExecCode;
    if SkipsCheck(c, k) {
      ExecNil(regs, s);
    } else if InputOp(c, k) == Null {
      ExecSingle(LiftTemp(ArgTemp(c, k), c.inputs[k].concreteValue), regs, s);
    } else {
      CheckRun(c, k, regs, s);
    }
  }

  /** The rewrite preserves meaning: for every recorded computation and every run-time state, the
      emitted code gives the result the expression of the naive rule, pushes the same constraints,
      and changes nothing else. */
  lemma LowerCorrect(c: Computation, dst: Option<Reg>, regs: Regs, es: Exprs, path: Path)
    requires WellFormed(c)
    ensures var t := ExecCode(Lower(c, dst), regs, CodeState(map[], map[], es, path));
      && t.path == NaivePath(c, regs, es, path)
      && t.exprs == if dst.Some? then SetExpr(es, dst.value, NaiveResult(c, regs, es, path)) else es
  {
    hide SlowPath, SlowOutcome, NullTests, AndChain, ExecCode;
    var n, s := |c.inputs|, CodeState(map[], map[], es, path);
    var tests, ands, slow := NullTests(c, n), AndChain(c, n), Unless(AllFlag(c, n), SlowPath(c));
    NullTestsRun(c, n, regs, s);
    var a := ExecCode(tests, regs, s);
    AndChainRun(c, n, regs, a);
    var b := ExecCode(ands, regs, a);
    ExecAppend(tests, ands, regs, s);
    ExecAppendOne(tests + ands, slow, regs, s);
    var t := ExecOne(slow, regs, b);
    if !AllConcrete(c, es, n) {
      SlowPathCorrect(c, regs, b);
    }
    ExecAppend(tests + ands + [slow], ResultPhi(c, dst), regs, s);
    ResultPhiRun(c, dst, regs, t);
  }

  lemma ResultPhiRun(c: Computation, dst: Option<Reg>, regs: Regs, s: CodeState)
    requires WellFormed(c)
    ensures var t := ExecCode(ResultPhi(c, dst), regs, s);
      && t.path == s.path
      && t.exprs == if dst.None? then s.exprs else
           SetExpr(s.exprs, dst.value,
                   if Flag(s, AllFlag(c, |c.inputs|)) then None else EvalOp(Temp(|c.calls| - 1), s.temps, s.exprs))
  {
    hide ExecCode;
    if dst.Some? {
      ExecSingle(ResultPhi(c, dst)[0], regs, s);
    } else {
      ExecNil(regs, s);
    }
  }
}
