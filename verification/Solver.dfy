/** Pushing path constraints to an incremental solver and asking for inputs that diverge.  The solver
    and the simplifier are parameters: any simplifier that preserves meaning, any solver that never
    answers wrongly. */
module Solver {
  import opened BitVectors
  import opened Expressions
  import opened Builders
  import opened FlatShadow
  import opened Programs
  import opened Concolic
  import opened Faithfulness
  import opened Replay
  import opened Runs
  import opened Symbolizer
  import opened Visibility
  import opened MissedLookups
  import opened Instrumented
  import opened SsaForm
  import opened Simulation
  import opened PassTheorems

  predicate Satisfied(formula: Expr, inp: Input) {
    SortOf(formula).BoolSort? && Eval(formula, inp) == 1
  }

  predicate AllSatisfied(formulas: seq<Expr>, inp: Input) {
    forall i | 0 <= i < |formulas| :: Satisfied(formulas[i], inp)
  }

  ghost predicate Equivalent(a: Expr, b: Expr) {
    SortOf(a) == SortOf(b) && forall inp :: Eval(a, inp) == Eval(b, inp)
  }

  ghost predicate PreservesMeaning(simplify: Expr -> Expr) {
    forall e :: Equivalent(simplify(e), e)
  }

  datatype Answer = Sat(model: Input) | Unsat | Unknown

  /** A check that says yes comes with a model, a check that says no is right, and a check may give up. */
  ghost predicate Correct(check: seq<Expr> -> Answer, inputSize: nat) {
    forall fs :: RightAnswer(check(fs), fs, inputSize)
  }

  ghost predicate RightAnswer(answer: Answer, fs: seq<Expr>, inputSize: nat) {
    match answer
    case Sat(model) => |model| == inputSize && AllSatisfied(fs, model)
    case Unsat => forall inp: Input | |inp| == inputSize :: !AllSatisfied(fs, inp)
    case Unknown => true
  }

  function Flatten(scopes: seq<seq<Expr>>): seq<Expr> {
    if scopes == [] then [] else Flatten(scopes[..|scopes| - 1]) + scopes[|scopes| - 1]
  }

  lemma SatisfiedSnoc(fs: seq<Expr>, f: Expr, inp: Input)
    ensures AllSatisfied(fs + [f], inp) <==> AllSatisfied(fs, inp) && Satisfied(f, inp)
  {
    hide Satisfied;
    var longer := fs + [f];
    if AllSatisfied(longer, inp) {
      assert longer[|fs|] == f;
      forall i | 0 <= i < |fs|
        ensures Satisfied(fs[i], inp)
      {
        assert longer[i] == fs[i];
      }
    }
  }

  /** `formula` says that the constraint has this outcome. */
  ghost predicate Expresses(formula: Expr, e: Expr, taken: bool) {
    forall inp :: Satisfied(formula, inp) <==> Holds(Constraint(e, taken), inp)
  }

  lemma FormsExpress(e: Expr, simplify: Expr -> Expr)
    requires SortOf(e).BoolSort? && PreservesMeaning(simplify)
    ensures Expresses(simplify(e), e, true)
    ensures Expresses(simplify(NotExpr(simplify(e))), e, false)
  {
    hide Eval, SortOf;
    var s := simplify(e);
    var n := simplify(NotExpr(s));
    assert Equivalent(s, e) && Equivalent(n, NotExpr(s));
    forall inp
      ensures Satisfied(s, inp) <==> Holds(Constraint(e, true), inp)
      ensures Satisfied(n, inp) <==> Holds(Constraint(e, false), inp)
    {
      NotEval(s, inp);
    }
  }

  /** A constraint that simplifies to a constant has the same outcome on every input. */
  lemma ConstantOutcome(e: Expr, simplify: Expr -> Expr, b: bool, taken: bool, inp: Input)
    requires PreservesMeaning(simplify) && simplify(e) == BoolConst(b)
    ensures Holds(Constraint(e, taken), inp) <==> taken == b
  {
    assert Equivalent(simplify(e), e);
    assert Eval(simplify(e), inp) == Eval(e, inp);
    assert Pow2(1) == 2;
  }

  class PathSolver {
    const simplify: Expr -> Expr
    const check: seq<Expr> -> Answer
    const inputSize: nat
    /** The assertions of each scope, outermost first. */
    var scopes: seq<seq<Expr>>

    ghost predicate Valid()
      reads this
    {
      PreservesMeaning(simplify) && Correct(check, inputSize) && |scopes| == 1
    }

    function Assertions(): seq<Expr>
      reads this
    {
      Flatten(scopes)
    }

    constructor (simplify: Expr -> Expr, check: seq<Expr> -> Answer, inputSize: nat)
      requires PreservesMeaning(simplify) && Correct(check, inputSize)
      ensures Valid() && Assertions() == [] && this.inputSize == inputSize
      ensures this.simplify == simplify && this.check == check
    {
      this.simplify, this.check, this.inputSize := simplify, check, inputSize;
      scopes := [[]];
    }

    method PushScope()
      modifies this
      ensures scopes == old(scopes) + [[]]
    {
      scopes := scopes + [[]];
    }

    method PopScope()
      requires scopes != []
      modifies this
      ensures scopes == old(scopes)[..|old(scopes)| - 1]
    {
      scopes := scopes[..|scopes| - 1];
    }

    method Assert(formula: Expr)
      requires scopes != []
      modifies this
      ensures |scopes| == |old(scopes)| && scopes[..|scopes| - 1] == old(scopes)[..|scopes| - 1]
      ensures Assertions() == old(Assertions()) + [formula]
    {
      var k := |scopes| - 1;
      scopes := scopes[..k] + [scopes[k] + [formula]];
      assert scopes[..k] == old(scopes)[..k];
    }

    /** What the solver has been told, and what an input would have to satisfy to diverge here. */
    ghost predicate Diverging(e: Expr, taken: bool, inp: Input)
      reads this
    {
      AllSatisfied(Assertions(), inp) && Holds(Constraint(e, !taken), inp)
    }

    /** Asks for an input that satisfies all assertions and the given formula. */
    method Solve(formula: Expr) returns (model: Option<Input>, gaveUp: bool)
      requires Valid()
      modifies this
      ensures Valid() && scopes == old(scopes)
      ensures model.Some? ==>
        |model.value| == inputSize && AllSatisfied(Assertions(), model.value) && Satisfied(formula, model.value)
      ensures model.None? && !gaveUp ==>
        forall inp: Input | |inp| == inputSize :: !(AllSatisfied(Assertions(), inp) && Satisfied(formula, inp))
    {
      hide Satisfied, AllSatisfied, PreservesMeaning;
      ghost var fs := Assertions();
      PushScope();
      assert scopes[..|scopes| - 1] == old(scopes);
      Assert(formula);
      var feasible := check(Assertions());
      assert Assertions() == fs + [formula];
      assert RightAnswer(feasible, fs + [formula], inputSize);
      forall inp
        ensures AllSatisfied(fs + [formula], inp) <==> AllSatisfied(fs, inp) && Satisfied(formula, inp)
      {
        SatisfiedSnoc(fs, formula, inp);
      }
      model := match feasible case Sat(m) => Some(m) case _ => None;
      gaveUp := feasible.Unknown?;
      PopScope();
    }

    /** `_sym_push_path_constraint`: at most one assertion is added, which says that the constraint has
        its actual outcome; an input that is found satisfies all earlier assertions and makes the
        outcome differ; and if none is found without giving up, there is none.  `now` is the current
        input. */
    method PushPathConstraint(constraint: Option<Expr>, taken: bool, ghost now: Input)
      returns (diverging: Option<Input>, gaveUp: bool)
      requires Valid() && AllSatisfied(Assertions(), now) && |now| == inputSize
      requires constraint.Some? ==> Holds(Constraint(constraint.value, taken), now)
      modifies this
      ensures Valid() && AllSatisfied(Assertions(), now)
      ensures constraint.None? ==> Assertions() == old(Assertions()) && diverging.None?
      ensures constraint.Some? ==> forall inp ::
        AllSatisfied(Assertions(), inp) <==>
        old(AllSatisfied(Assertions(), inp)) && Holds(Constraint(constraint.value, taken), inp)
      ensures Assertions() == old(Assertions())
           || exists f ::
                Assertions() == old(Assertions()) + [f] && constraint.Some? && Expresses(f, constraint.value, taken)
      ensures diverging.Some? ==>
        constraint.Some? && |diverging.value| == inputSize && old(Diverging(constraint.value, taken, diverging.value))
      ensures constraint.Some? && diverging.None? && !gaveUp ==>
        forall inp: Input | |inp| == inputSize :: !old(Diverging(constraint.value, taken, inp))
    {
      hide Satisfied, AllSatisfied, Holds, PreservesMeaning, Correct;
      diverging, gaveUp := None, false;
      if constraint == None {
        return;
      }
      var e := constraint.value;
      var simplified := simplify(e);
      assert PreservesMeaning(simplify);
      if simplified == BoolConst(true) || simplified == BoolConst(false) {
        ConstantOutcome(e, simplify, simplified.truth, taken, now);
        // We have not taken an impossible branch.
        assert taken == simplified.truth;
        forall inp
          ensures Holds(Constraint(e, taken), inp) && !Holds(Constraint(e, !taken), inp)
        {
          ConstantOutcome(e, simplify, simplified.truth, taken, inp);
          ConstantOutcome(e, simplify, simplified.truth, !taken, inp);
        }
        return;
      }
      HoldsIsBool(e, taken, now);
      FormsExpress(e, simplify);
      var negated := simplify(NotExpr(simplified));
      diverging, gaveUp := Solve(if taken then negated else simplified);
      var newConstraint := if taken then simplified else negated;
      ghost var before := Assertions();
      forall inp
        ensures AllSatisfied(before + [newConstraint], inp)
           <==> AllSatisfied(before, inp) && Satisfied(newConstraint, inp)
      {
        SatisfiedSnoc(before, newConstraint, inp);
      }
      Assert(newConstraint);
      assert AllSatisfied(before + [newConstraint], now);
      // The solver cannot find the actual path constraint infeasible.
      CheckIsRight(check, inputSize, Assertions(), now);
      assert !check(Assertions()).Unsat?;
    }
  }

  lemma CheckIsRight(check: seq<Expr> -> Answer, inputSize: nat, fs: seq<Expr>, inp: Input)
    requires Correct(check, inputSize) && AllSatisfied(fs, inp) && |inp| == inputSize
    ensures !check(fs).Unsat?
  {
    hide AllSatisfied;
    assert RightAnswer(check(fs), fs, inputSize);
  }

  lemma HoldsIsBool(e: Expr, taken: bool, inp: Input)
    requires Holds(Constraint(e, taken), inp)
    ensures SortOf(e).BoolSort?
  {
  }

  // ----- A whole path -----

  /** The path up to constraint `k`, and that one broken. */
  function Broken(path: Path, k: nat): Path
    requires k < |path|
  {
    path[..k] + [Constraint(path[k].cond, !path[k].taken)]
  }

  /** What the solver says about a constraint: an input that breaks it, that it has given up, or that
      no input breaks it. */
  ghost predicate RightFinding(found: Option<Input>, gaveUp: bool, path: Path, k: nat, size: nat)
    requires k < |path|
  {
    match found
    case Some(inp) => |inp| == size && PathHolds(Broken(path, k), inp)
    case None => gaveUp || forall inp: Input | |inp| == size :: !PathHolds(Broken(path, k), inp)
  }

  lemma BrokenHolds(path: Path, k: nat, inp: Input)
    requires k < |path|
    ensures PathHolds(path[..k + 1], inp) <==> PathHolds(path[..k], inp) && Holds(path[k], inp)
    ensures PathHolds(Broken(path, k), inp)
      <==> PathHolds(path[..k], inp) && Holds(Constraint(path[k].cond, !path[k].taken), inp)
  {
    hide Holds, PathHolds;
    assert path[..k + 1] == path[..k] + [path[k]];
    PathHoldsSnoc(path[..k], path[k], inp);
    PathHoldsSnoc(path[..k], Constraint(path[k].cond, !path[k].taken), inp);
  }

  lemma FindingIsRight(assertions: seq<Expr>, found: Option<Input>, gaveUp: bool, path: Path, k: nat, size: nat)
    requires k < |path|
    requires forall inp :: AllSatisfied(assertions, inp) <==> PathHolds(path[..k], inp)
    requires found.Some? ==> |found.value| == size && AllSatisfied(assertions, found.value)
                             && Holds(Constraint(path[k].cond, !path[k].taken), found.value)
    requires found.None? && !gaveUp ==> forall inp: Input | |inp| == size ::
      !(AllSatisfied(assertions, inp) && Holds(Constraint(path[k].cond, !path[k].taken), inp))
    ensures RightFinding(found, gaveUp, path, k, size)
  {
    hide AllSatisfied, Holds, PathHolds, Broken;
    if found.Some? {
      BrokenHolds(path, k, found.value);
    } else if !gaveUp {
      forall inp: Input | |inp| == size
        ensures !PathHolds(Broken(path, k), inp)
      {
        BrokenHolds(path, k, inp);
      }
    }
  }

  /** The constraints of a run, pushed one after the other: the assertions stand for the whole path;
      each input found satisfies the path up to a constraint and breaks that one, and where none is
      found although the solver has not given up, there is none. */
  method PushPath(solver: PathSolver, path: Path, ghost now: Input)
    returns (found: seq<Option<Input>>, gaveUp: seq<bool>)
    requires solver.Valid() && solver.Assertions() == [] && |now| == solver.inputSize
    requires PathHolds(path, now)
    modifies solver
    ensures solver.Valid() && |found| == |gaveUp| == |path|
    ensures forall inp :: AllSatisfied(solver.Assertions(), inp) <==> PathHolds(path, inp)
    ensures forall k | 0 <= k < |path| :: RightFinding(found[k], gaveUp[k], path, k, solver.inputSize)
  {
    hide Satisfied, AllSatisfied, Holds, PathHolds, PreservesMeaning, Correct, RightFinding, Broken;
    found, gaveUp := [], [];
    EmptyHolds();
    for k := 0 to |path|
      invariant solver.Valid() && |found| == |gaveUp| == k && |now| == solver.inputSize
      invariant forall inp :: AllSatisfied(solver.Assertions(), inp) <==> PathHolds(path[..k], inp)
      invariant forall i | 0 <= i < k :: RightFinding(found[i], gaveUp[i], path, i, solver.inputSize)
    {
      PrefixHolds(path[..k], path, now);
      OneHolds(path, k, now);
      ghost var before := solver.Assertions();
      var diverging, unsure := solver.PushPathConstraint(Some(path[k].cond), path[k].taken, now);
      forall inp
        ensures PathHolds(path[..k + 1], inp) <==> PathHolds(path[..k], inp) && Holds(path[k], inp)
      {
        BrokenHolds(path, k, inp);
      }
      assert path[k] == Constraint(path[k].cond, path[k].taken);
      FindingIsRight(before, diverging, unsure, path, k, solver.inputSize);
      found, gaveUp := found + [diverging], gaveUp + [unsure];
    }
    assert path[..|path|] == path;
  }

  lemma EmptyHolds()
    ensures forall inp :: PathHolds([], inp) && AllSatisfied([], inp)
  {
  }

  lemma OneHolds(path: Path, k: nat, inp: Input)
    requires PathHolds(path, inp) && k < |path|
    ensures Holds(path[k], inp)
  {
  }

  // ----- What an input that is found is good for -----

  function Outcome(p: Program, m: Machine): bool
    requires AtCode(p, m) && BlockAt(p, m).term.Branch?
  {
    Address(m.frames[0].regs, BlockAt(p, m).term.cond) == 1
  }

  /** An input that the solver reports at a branch takes the program to that branch and out of it on
      the other side, unless it stops before the branch where the emitted code does not stand for an
      instruction or the program traps. */
  lemma ReportedInputDiverges(p: Program, inpC: Input, inp: Input, args: Regs, mem: Memory, n: nat, e: Expr)
    requires Compilable(p) && |inpC| == |inp|
    requires AtSymbolicBranch(p, inpC, Start(p, args, mem), n, e)
    requires NothingNeededLost(p, inpC, Start(p, args, mem), n)
    requires PathHolds(InstrumentedRun(p, inpC, Start(p, args, mem), BLANK, n).path
                       + [Constraint(e, !Outcome(p, Run(p, inpC, Start(p, args, mem), n).value))], inp)
    ensures var m0 := Start(p, args, mem);
      var m := Run(p, inpC, m0, n).value;
      var term := BlockAt(p, m).term;
      || (exists k ::
            && 0 <= k < n && Replayed(InLayoutOrder, p, inpC, inp, m0, k)
            && !Continues(InLayoutOrder, p, inpC, inp, m0, k))
      || (Run(p, inp, m0, n).Some? &&
          var d := Run(p, inp, m0, n).value;
          AtCode(p, d) && !AtInstr(p, d) && BlockAt(p, d).term == term
          && Successor(d.frames[0].regs, term) == Some(if Outcome(p, m) then term.ifFalse else term.ifTrue))
  {
    hide Compilable, Step, SightStep, InstrumentedStep, Start, PathHolds, NothingNeededLost, Continues, Related, Seen,
         Eval, SortOf, Holds;
    CompilableParts(p);
    var m0 := Start(p, args, mem);
    var m, y := Run(p, inpC, m0, n).value, InstrumentedRun(p, inpC, m0, BLANK, n);
    PathHoldsSnoc(y.path, Constraint(e, !Outcome(p, m)), inp);
    EmittedCodeReplays(p, inpC, inp, args, mem, n);
    BranchValue(m.frames[0].regs, BlockAt(p, m).term.cond, BlockAt(p, m).term);
    OutcomeDiffers(e, Outcome(p, m), inp);
    if Replayed(InLayoutOrder, p, inpC, inp, m0, n) {
      EmittedCodeDiverges(p, inpC, inp, args, mem, n, e);
    }
  }

  lemma OutcomeDiffers(e: Expr, taken: bool, inp: Input)
    requires Holds(Constraint(e, !taken), inp)
    ensures Eval(e, inp) == AsNat(!taken)
  {
  }

  lemma BranchValue(regs: Regs, cond: Operand, term: Term)
    requires term.Branch? && term.cond == cond && Successor(regs, term).Some?
    ensures HasValue(regs, cond) && Number(regs, cond) == AsNat(Address(regs, cond) == 1)
  {
    assert Pow2(1) == 2;
  }
}
