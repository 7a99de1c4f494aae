/** Building symbolic computations, and what they compute on lifted inputs. */
module Computations {
  import opened BitVectors
  import opened Expressions
  import opened Builders
  import opened FlatShadow
  import opened Programs
  import opened Concolic
  import opened ShortCircuit

  /** The compile-time map from SSA values to the operands that hold their expressions. */
  type ExprMap = map<Reg, SymOperand>

  /** `getSymbolicExpression`. */
  function GetExpr(em: ExprMap, o: Operand): Option<SymOperand> {
    match o
    case Imm(_) => None
    case Var(r) => if r in em then Some(em[r]) else None
  }

  /** `getSymbolicExpressionOrNull`. */
  function GetExprOrNull(em: ExprMap, o: Operand): SymOperand {
    match GetExpr(em, o)
    case Some(op) => op
    case None => Null
  }

  predicate NoTemps(em: ExprMap) {
    forall r | r in em :: !em[r].Temp?
  }

  /** An argument of a run-time call: symbolic, or the result of an earlier call. */
  datatype Arg = Symbolic(o: Operand) | Earlier(k: nat)

  const EMPTY_COMPUTATION := Computation([], [])

  function ArgOperand(em: ExprMap, a: Arg): SymOperand {
    match a
    case Symbolic(o) => GetExprOrNull(em, o)
    case Earlier(k) => Temp(k)
  }

  function ArgInputs(args: seq<Arg>, n: nat, user: nat): seq<SymInput>
    requires n <= |args|
  {
    if n == 0 then [] else
    ArgInputs(args, n - 1, user)
    + if args[n - 1].Symbolic? then [SymInput(args[n - 1].o, n - 1, user)] else []
  }

  /** `merge` with the computation that `forceBuildRuntimeCall` creates. */
  function AppendCall(em: ExprMap, c: Computation, callee: Callee, args: seq<Arg>): Computation {
    Computation(c.calls + [RtCall(callee, seq(|args|, i requires 0 <= i < |args| => ArgOperand(em, args[i])))],
                c.inputs + ArgInputs(args, |args|, |c.calls|))
  }

  // ----- Well-formedness -----

  /** Like `WellFormed`, but possibly empty, and with results used only after they are computed. */
  predicate Ordered(c: Computation) {
    && (forall k | 0 <= k < |c.inputs| :: HasLocation(c.calls, c.inputs[k]) && !OperandAt(c.calls, c.inputs[k]).Temp?)
    && (forall k, l | 0 <= k < l < |c.inputs| ::
          (c.inputs[k].user, c.inputs[k].operandIndex) != (c.inputs[l].user, c.inputs[l].operandIndex))
    && (forall j, i | 0 <= j < |c.calls| && 0 <= i < |c.calls[j].args| :: TempBelow(c.calls[j].args[i], j))
  }

  lemma OrderedIsWellFormed(c: Computation)
    requires Ordered(c) && c.calls != [] && c.inputs != []
    ensures WellFormed(c)
  {
    forall j, i | 0 <= j < |c.calls| && 0 <= i < |c.calls[j].args|
      ensures TempBelow(c.calls[j].args[i], |c.calls|)
    {
      assert TempBelow(c.calls[j].args[i], j);
    }
  }

  lemma {:induction false} ArgInputsShape(args: seq<Arg>, n: nat, user: nat, k: nat)
    requires n <= |args| && k < |ArgInputs(args, n, user)|
    ensures var input := ArgInputs(args, n, user)[k];
      input.user == user && input.operandIndex < n && args[input.operandIndex] == Symbolic(input.concreteValue)
  {
    if n > 0 && k < |ArgInputs(args, n - 1, user)| {
      ArgInputsShape(args, n - 1, user, k);
    }
  }

  lemma {:induction false} ArgInputsDistinct(args: seq<Arg>, n: nat, user: nat, k: nat, l: nat)
    requires n <= |args| && k < l < |ArgInputs(args, n, user)|
    ensures ArgInputs(args, n, user)[k].operandIndex != ArgInputs(args, n, user)[l].operandIndex
  {
    if n > 0 {
      var before := ArgInputs(args, n - 1, user);
      if l < |before| {
        ArgInputsDistinct(args, n - 1, user, k, l);
      } else {
        ArgInputsShape(args, n - 1, user, k);
      }
    }
  }

  lemma AppendCallOrdered(em: ExprMap, c: Computation, callee: Callee, args: seq<Arg>)
    requires Ordered(c) && NoTemps(em)
    requires forall i | 0 <= i < |args| :: args[i].Earlier? ==> args[i].k < |c.calls|
    ensures Ordered(AppendCall(em, c, callee, args))
  {
    hide ArgInputs;
    var c' := AppendCall(em, c, callee, args);
    var n, m, more := |c.calls|, |c.inputs|, ArgInputs(args, |args|, |c.calls|);
    assert forall j | 0 <= j < n :: c'.calls[j] == c.calls[j];
    forall k | 0 <= k < |c'.inputs|
      ensures HasLocation(c'.calls, c'.inputs[k]) && !OperandAt(c'.calls, c'.inputs[k]).Temp?
      ensures k < m ==> c'.inputs[k] == c.inputs[k] && c'.inputs[k].user < n
      ensures k >= m ==> c'.inputs[k] == more[k - m] && c'.inputs[k].user == n
    {
      if k < m {
        assert HasLocation(c.calls, c.inputs[k]) && !OperandAt(c.calls, c.inputs[k]).Temp?;
      } else {
        ArgInputsShape(args, |args|, n, k - m);
      }
    }
    forall k, l | 0 <= k < l < |c'.inputs|
      ensures (c'.inputs[k].user, c'.inputs[k].operandIndex) != (c'.inputs[l].user, c'.inputs[l].operandIndex)
    {
      if k >= m {
        ArgInputsDistinct(args, |args|, n, k - m, l - m);
      }
    }
    forall j, i | 0 <= j < |c'.calls| && 0 <= i < |c'.calls[j].args|
      ensures TempBelow(c'.calls[j].args[i], j)
    {
      if j < n {
        assert TempBelow(c.calls[j].args[i], j);
      }
    }
  }

  // ----- What a computation denotes -----

  /** The input, among the first `k`, at an operand position. */
  function FindInput(c: Computation, k: nat, j: nat, i: nat): (r: Option<nat>)
    requires k <= |c.inputs|
    ensures r.Some? ==> r.value < k
  {
    if k == 0 then None
    else if c.inputs[k - 1].user == j && c.inputs[k - 1].operandIndex == i then Some(k - 1)
    else FindInput(c, k - 1, j, i)
  }

  /** An operand on lifted inputs. */
  function ArgValue(c: Computation, regs: Regs, es: Exprs, j: nat, i: nat): Option<Expr>
    requires j < |c.calls| && i < |c.calls[j].args|
    decreases j, 0
  {
    match FindInput(c, |c.inputs|, j, i)
    case Some(k) =>
      (match EvalOp(c.calls[j].args[i], map[], es)
       case Some(e) => Some(e)
       case None => Some(LiftValue(regs, c.inputs[k].concreteValue)))
    case None =>
      if c.calls[j].args[i].Temp? then
        (if c.calls[j].args[i].k < j then CallValue(c, regs, es, c.calls[j].args[i].k) else None)
      else EvalOp(c.calls[j].args[i], map[], es)
  }

  function ArgValues(c: Computation, regs: Regs, es: Exprs, j: nat): (r: seq<Expr>)
    requires j < |c.calls|
    decreases j, 1
  {
    seq(|c.calls[j].args|, i requires 0 <= i < |c.calls[j].args| =>
      match ArgValue(c, regs, es, j, i)
      case Some(e) => e
      case None => ERROR_EXPR)
  }

  /** The result of call number `j` on lifted inputs. */
  function CallValue(c: Computation, regs: Regs, es: Exprs, j: nat): Option<Expr>
    requires j < |c.calls|
    decreases j, 2
  {
    match c.calls[j].callee
    case Build(fn) => Some(Apply(fn, ArgValues(c, regs, es, j)))
    case LiftOf(v) => Some(LiftValue(regs, v))
    case PushConstraint(_) => None
  }

  function PathAfter(c: Computation, regs: Regs, es: Exprs, n: nat, path: Path): Path
    requires n <= |c.calls|
  {
    if n == 0 then path else
    var call, before := c.calls[n - 1], PathAfter(c, regs, es, n - 1, path);
    if call.callee.PushConstraint? && |call.args| == 1
    then before + [Constraint(ArgValues(c, regs, es, n - 1)[0], Address(regs, call.callee.taken) == 1)]
    else before
  }

  lemma {:induction false} PatchedAt(c: Computation, k: nat, j: nat, i: nat)
    requires WellFormed(c) && k <= |c.inputs| && j < |c.calls| && i < |c.calls[j].args|
    ensures Patched(c, k)[j].args[i] == match FindInput(c, k, j, i)
      case Some(l) => Temp(ArgTemp(c, l))
      case None => c.calls[j].args[i]
  {
    hide ReplaceOperand;
    if k > 0 {
      PatchedAt(c, k - 1, j, i);
      ReplaceOperandAt(Patched(c, k - 1), c.inputs[k - 1], Temp(ArgTemp(c, k - 1)), j, i);
    }
  }

  lemma {:induction false} FindInputBound(c: Computation, k: nat, j: nat, i: nat)
    requires k <= |c.inputs|
    ensures var r := FindInput(c, k, j, i);
      r.Some? ==> c.inputs[r.value].user == j && c.inputs[r.value].operandIndex == i
  {
    if k > 0 {
      FindInputBound(c, k - 1, j, i);
    }
  }

  /** Calls with temporaries that hold the right values evaluate to the right value. */
  lemma ArgEvaluates(c: Computation, regs: Regs, es: Exprs, j: nat, i: nat, temps: Temps)
    requires WellFormed(c) && Ordered(c) && j < |c.calls| && i < |c.calls[j].args|
    requires forall u | 0 <= u < j :: EvalOp(Temp(u), temps, es) == CallValue(c, regs, es, u)
    requires forall k | 0 <= k < |c.inputs| ::
      EvalOp(Temp(ArgTemp(c, k)), temps, es) == Some(LiftedInput(c, regs, es, k))
    ensures EvalOp(Patched(c, |c.inputs|)[j].args[i], temps, es) == ArgValue(c, regs, es, j, i)
  {
    hide LiftValue, Patched, WellFormed, CallValue;
    PatchedAt(c, |c.inputs|, j, i);
    FindInputBound(c, |c.inputs|, j, i);
    match FindInput(c, |c.inputs|, j, i)
    case Some(k) =>
      InputOpAt(c, k);
    case None =>
      assert TempBelow(c.calls[j].args[i], j);
  }

  lemma InputOpAt(c: Computation, k: nat)
    requires WellFormed(c) && k < |c.inputs|
    ensures HasLocation(c.calls, c.inputs[k])
    ensures InputOp(c, k) == c.calls[c.inputs[k].user].args[c.inputs[k].operandIndex]
  {
  }

  /** Running the calls on lifted inputs computes their values. */
  lemma {:induction false} RunComputes(c: Computation, n: nat, regs: Regs, es: Exprs, path: Path)
    requires WellFormed(c) && Ordered(c) && n <= |c.calls|
    ensures var start := Outcome(LiftedInputs(c, regs, es, |c.inputs|), path);
      var o := RunCalls(Patched(c, |c.inputs|), n, regs, es, start);
      && o.path == PathAfter(c, regs, es, n, path)
      && (forall u | 0 <= u < n :: EvalOp(Temp(u), o.temps, es) == CallValue(c, regs, es, u))
      && (forall k | 0 <= k < |c.inputs| ::
            EvalOp(Temp(ArgTemp(c, k)), o.temps, es) == Some(LiftedInput(c, regs, es, k)))
  {
    hide LiftValue, Patched, WellFormed, Ordered, LiftedInput, ArgValue, Apply, LiftedInputs, EvalOp, CallValue,
         CallResult, CallPath, ArgValues;
    if n == 0 {
      forall k | 0 <= k < |c.inputs|
        ensures EvalOp(Temp(ArgTemp(c, k)), LiftedInputs(c, regs, es, |c.inputs|), es)
          == Some(LiftedInput(c, regs, es, k))
      {
        LiftedInputsAt(c, regs, es, |c.inputs|, ArgTemp(c, k));
      }
    } else {
      RunComputes(c, n - 1, regs, es, path);
      var o := RunCalls(Patched(c, |c.inputs|), n - 1, regs, es, Outcome(LiftedInputs(c, regs, es, |c.inputs|), path));
      CallEvaluates(c, regs, es, n - 1, o.temps, o.path);
      SetTemp(c, n - 1, regs, es, o.temps);
    }
  }

  /** Setting the temporary of a call keeps the earlier ones and the lifted inputs. */
  lemma SetTemp(c: Computation, n: nat, regs: Regs, es: Exprs, temps: Temps)
    requires WellFormed(c) && n < |c.calls|
    requires forall u | 0 <= u < n :: EvalOp(Temp(u), temps, es) == CallValue(c, regs, es, u)
    requires forall k | 0 <= k < |c.inputs| ::
      EvalOp(Temp(ArgTemp(c, k)), temps, es) == Some(LiftedInput(c, regs, es, k))
    ensures var temps' := temps[n := CallValue(c, regs, es, n)];
      && (forall u | 0 <= u < n + 1 :: EvalOp(Temp(u), temps', es) == CallValue(c, regs, es, u))
      && (forall k | 0 <= k < |c.inputs| ::
            EvalOp(Temp(ArgTemp(c, k)), temps', es) == Some(LiftedInput(c, regs, es, k)))
  {
    hide CallValue, LiftedInput, WellFormed;
  }

  lemma CallEvaluates(c: Computation, regs: Regs, es: Exprs, j: nat, temps: Temps, path: Path)
    requires WellFormed(c) && Ordered(c) && j < |c.calls|
    requires forall u | 0 <= u < j :: EvalOp(Temp(u), temps, es) == CallValue(c, regs, es, u)
    requires forall k | 0 <= k < |c.inputs| ::
      EvalOp(Temp(ArgTemp(c, k)), temps, es) == Some(LiftedInput(c, regs, es, k))
    ensures CallResult(Patched(c, |c.inputs|)[j], regs, temps, es) == CallValue(c, regs, es, j)
    ensures CallPath(Patched(c, |c.inputs|)[j], regs, temps, es, path)
         == var call := c.calls[j];
            if call.callee.PushConstraint? && |call.args| == 1
            then path + [Constraint(ArgValues(c, regs, es, j)[0], Address(regs, call.callee.taken) == 1)] else path
  {
    hide LiftValue, Patched, WellFormed, Ordered, LiftedInput, ArgValue, Apply, EvalOp, Address;
    var args := Patched(c, |c.inputs|)[j].args;
    forall i | 0 <= i < |args|
      ensures EvalArgs(args, temps, es)[i] == ArgValues(c, regs, es, j)[i]
    {
      ArgEvaluates(c, regs, es, j, i, temps);
    }
    assert EvalArgs(args, temps, es) == ArgValues(c, regs, es, j);
  }

  /** The naive rule, in terms of the values of the calls. */
  lemma NaiveIs(c: Computation, regs: Regs, es: Exprs, path: Path)
    requires WellFormed(c) && Ordered(c)
    ensures !AllConcrete(c, es, |c.inputs|) ==>
      NaiveResult(c, regs, es, path) == CallValue(c, regs, es, |c.calls| - 1)
      && NaivePath(c, regs, es, path) == PathAfter(c, regs, es, |c.calls|, path)
  {
    hide LiftValue, Patched, Ordered, LiftedInput, CallValue, LiftedInputs, RunCalls, PathAfter;
    RunComputes(c, |c.calls|, regs, es, path);
  }

  // ----- Appending a call -----

  /** The expression of an operand, seen through the compile-time map. */
  function ViewOf(em: ExprMap, es: Exprs, o: Operand): Option<Expr> {
    EvalOp(GetExprOrNull(em, o), map[], es)
  }

  lemma {:induction false} FindInputInPrefix(c: Computation, c': Computation, j: nat, i: nat, k: nat)
    requires |c.inputs| <= k <= |c'.inputs| && c.inputs == c'.inputs[..|c.inputs|]
    requires forall l | |c.inputs| <= l < k :: c'.inputs[l].user != j
    ensures FindInput(c', k, j, i) == FindInput(c, |c.inputs|, j, i)
  {
    if k > |c.inputs| {
      FindInputInPrefix(c, c', j, i, k - 1);
    } else {
      SameInputsSameFind(c, c', k, j, i);
    }
  }

  lemma {:induction false} SameInputsSameFind(c: Computation, c': Computation, k: nat, j: nat, i: nat)
    requires k <= |c.inputs| <= |c'.inputs| && c.inputs == c'.inputs[..|c.inputs|]
    ensures FindInput(c', k, j, i) == FindInput(c, k, j, i)
  {
    if k > 0 {
      assert c'.inputs[k - 1] == c'.inputs[..|c.inputs|][k - 1];
      SameInputsSameFind(c, c', k - 1, j, i);
    }
  }

  /** Earlier calls keep their values when a call is appended. */
  lemma {:induction false} AppendKeepsValue(em: ExprMap, c: Computation, callee: Callee, args: seq<Arg>,
                                            regs: Regs, es: Exprs, j: nat)
    requires j < |c.calls|
    ensures CallValue(AppendCall(em, c, callee, args), regs, es, j) == CallValue(c, regs, es, j)
    decreases j
  {
    hide LiftValue, Apply, ArgInputs, FindInput;
    var c' := AppendCall(em, c, callee, args);
    assert c'.calls[j] == c.calls[j];
    forall i | 0 <= i < |c.calls[j].args|
      ensures ArgValue(c', regs, es, j, i) == ArgValue(c, regs, es, j, i)
    {
      forall l | |c.inputs| <= l < |c'.inputs|
        ensures c'.inputs[l].user != j
      {
        ArgInputsShape(args, |args|, |c.calls|, l - |c.inputs|);
      }
      FindInputInPrefix(c, c', j, i, |c'.inputs|);
      FindInputBound(c, |c.inputs|, j, i);
      var op := c.calls[j].args[i];
      if op.Temp? && op.k < j {
        AppendKeepsValue(em, c, callee, args, regs, es, op.k);
      }
    }
    assert ArgValues(c', regs, es, j) == ArgValues(c, regs, es, j);
  }

  lemma {:induction false} FindNewInput(em: ExprMap, c: Computation, callee: Callee, args: seq<Arg>, n: nat, i: nat)
    requires Ordered(c) && i < |args| && n <= |args|
    ensures var c' := AppendCall(em, c, callee, args);
      var k := |c.inputs| + |ArgInputs(args, n, |c.calls|)|;
      k <= |c'.inputs| &&
      var r := FindInput(c', k, |c.calls|, i);
      if i < n && args[i].Symbolic? then r.Some? && c'.inputs[r.value].concreteValue == args[i].o else r.None?
  {
    hide AppendCall, Ordered, FindInput;
    if n == 0 {
      FindOldInput(em, c, callee, args, i);
    } else {
      FindNewInput(em, c, callee, args, n - 1, i);
      FindNextInput(em, c, callee, args, n, i);
    }
  }

  /** None of the old inputs belongs to the appended call. */
  lemma FindOldInput(em: ExprMap, c: Computation, callee: Callee, args: seq<Arg>, i: nat)
    requires Ordered(c)
    ensures ArgInputs(args, 0, |c.calls|) == []
    ensures |c.inputs| <= |AppendCall(em, c, callee, args).inputs|
    ensures FindInput(AppendCall(em, c, callee, args), |c.inputs|, |c.calls|, i).None?
  {
    hide Ordered, FindInput;
    var c' := AppendCall(em, c, callee, args);
    assert c'.inputs[..|c.inputs|] == c.inputs;
    SameInputsSameFind(c, c', |c.inputs|, |c.calls|, i);
    NoInputBeyond(c, |c.inputs|, i);
  }

  /** Among the new inputs, the last one of the first `n` arguments, if it is symbolic, comes last. */
  lemma FindNextInput(em: ExprMap, c: Computation, callee: Callee, args: seq<Arg>, n: nat, i: nat)
    requires 0 < n <= |args|
    ensures var c' := AppendCall(em, c, callee, args);
      var k, l := |c.inputs| + |ArgInputs(args, n - 1, |c.calls|)|, |c.inputs| + |ArgInputs(args, n, |c.calls|)|;
      k <= l <= |c'.inputs| &&
      if args[n - 1].Symbolic? && i == n - 1
      then FindInput(c', l, |c.calls|, i) == Some(k) && k < l && c'.inputs[k].concreteValue == args[i].o
      else FindInput(c', l, |c.calls|, i) == FindInput(c', k, |c.calls|, i)
  {
    hide Ordered;
    var more := ArgInputs(args, n, |c.calls|);
    ArgInputsPrefix(args, n, |args|, |c.calls|);
    if args[n - 1].Symbolic? {
      assert AppendCall(em, c, callee, args).inputs[|c.inputs| + |more| - 1] == more[|more| - 1];
    }
  }

  lemma {:induction false} NoInputBeyond(c: Computation, k: nat, i: nat)
    requires Ordered(c) && k <= |c.inputs|
    ensures FindInput(c, k, |c.calls|, i).None?
  {
    if k > 0 {
      assert HasLocation(c.calls, c.inputs[k - 1]);
      NoInputBeyond(c, k - 1, i);
    }
  }

  lemma {:induction false} ArgInputsPrefix(args: seq<Arg>, n: nat, m: nat, user: nat)
    requires n <= m <= |args|
    ensures ArgInputs(args, n, user) <= ArgInputs(args, m, user)
  {
    if n < m {
      ArgInputsPrefix(args, n, m - 1, user);
    }
  }

  /** The value of an argument of an appended call. */
  function ArgMeaning(em: ExprMap, c: Computation, regs: Regs, es: Exprs, a: Arg): Expr {
    match a
    case Symbolic(o) =>
      (match ViewOf(em, es, o) case Some(e) => e case None => LiftValue(regs, o))
    case Earlier(k) =>
      if k >= |c.calls| then ERROR_EXPR else
      match CallValue(c, regs, es, k) case Some(e) => e case None => ERROR_EXPR
  }

  function ArgMeanings(em: ExprMap, c: Computation, regs: Regs, es: Exprs, args: seq<Arg>): seq<Expr> {
    seq(|args|, i requires 0 <= i < |args| => ArgMeaning(em, c, regs, es, args[i]))
  }

  lemma AppendValue(em: ExprMap, c: Computation, callee: Callee, args: seq<Arg>, regs: Regs, es: Exprs)
    requires Ordered(c) && NoTemps(em)
    requires forall i | 0 <= i < |args| :: args[i].Earlier? ==> args[i].k < |c.calls|
    ensures ArgValues(AppendCall(em, c, callee, args), regs, es, |c.calls|) == ArgMeanings(em, c, regs, es, args)
  {
    hide LiftValue, ArgInputs, FindInput, CallValue, Ordered;
    var c', n := AppendCall(em, c, callee, args), |c.calls|;
    forall i | 0 <= i < |args|
      ensures ArgValues(c', regs, es, n)[i] == ArgMeaning(em, c, regs, es, args[i])
    {
      FindNewInput(em, c, callee, args, |args|, i);
      if args[i].Earlier? {
        AppendKeepsValue(em, c, callee, args, regs, es, args[i].k);
      }
    }
  }

  /** All inputs of the extended computation are null when the old ones and the new operands are. */
  lemma AppendConcrete(em: ExprMap, c: Computation, callee: Callee, args: seq<Arg>, es: Exprs)
    requires Ordered(c) && WellFormed(AppendCall(em, c, callee, args)) && NoTemps(em)
    ensures var c' := AppendCall(em, c, callee, args);
      AllConcrete(c', es, |c'.inputs|)
      <==> OldConcrete(c, es) && forall i | 0 <= i < |args| && args[i].Symbolic? :: ViewOf(em, es, args[i].o).None?
  {
    hide ArgInputs;
    var c', n, m := AppendCall(em, c, callee, args), |c.calls|, |c.inputs|;
    forall k | 0 <= k < |c'.inputs|
      ensures k < m ==> InputExpr(c', es, k) == EvalOp(OperandAt(c.calls, c.inputs[k]), map[], es)
      ensures k >= m ==> 
        exists i :: 0 <= i < |args| && args[i].Symbolic? && InputExpr(c', es, k) == ViewOf(em, es, args[i].o)
    {
      if k < m {
        assert c'.inputs[k] == c.inputs[k];
        assert HasLocation(c.calls, c.inputs[k]);
      } else {
        ArgInputsShape(args, |args|, n, k - m);
        var input := ArgInputs(args, |args|, n)[k - m];
        assert c'.inputs[k] == input;
        assert args[input.operandIndex].Symbolic? && InputExpr(c', es, k) == ViewOf(em, es, args[input.operandIndex].o);
      }
    }
    if AllConcrete(c', es, |c'.inputs|) {
      forall i | 0 <= i < |args| && args[i].Symbolic?
        ensures ViewOf(em, es, args[i].o).None?
      {
        var k := FindNewIndex(em, c, callee, args, |args|, i);
        assert InputExpr(c', es, k).None?;
      }
      forall k | 0 <= k < m
        ensures EvalOp(OperandAt(c.calls, c.inputs[k]), map[], es).None?
      {
        assert InputExpr(c', es, k).None?;
      }
    }
  }

  ghost predicate OldConcrete(c: Computation, es: Exprs)
    requires Ordered(c)
  {
    forall k | 0 <= k < |c.inputs| :: EvalOp(OperandAt(c.calls, c.inputs[k]), map[], es).None?
  }

  lemma {:induction false} FindNewIndex(em: ExprMap, c: Computation, callee: Callee, args: seq<Arg>, n: nat, i: nat)
    returns (k: nat)
    requires Ordered(c) && i < n <= |args| && args[i].Symbolic?
    ensures var c' := AppendCall(em, c, callee, args);
      k < |c'.inputs| && c'.inputs[k].user == |c.calls| && c'.inputs[k].operandIndex == i
  {
    var c' := AppendCall(em, c, callee, args);
    FindNewInput(em, c, callee, args, n, i);
    var bound := |c.inputs| + |ArgInputs(args, n, |c.calls|)|;
    FindInputBound(c', bound, |c.calls|, i);
    k := FindInput(c', bound, |c.calls|, i).value;
  }
}
