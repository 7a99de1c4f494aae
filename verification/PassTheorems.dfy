/** The results about the compiler pass as a whole, in terms of the code that it emits. */
module PassTheorems {
  import opened BitVectors
  import opened Expressions
  import opened Builders
  import opened FlatShadow
  import opened Programs
  import opened Concolic
  import opened Faithfulness
  import opened Replay
  import opened Runs
  import opened ShortCircuit
  import opened Computations
  import opened Symbolizer
  import opened Visibility
  import opened Instrumented
  import opened PassFacts
  import opened EmittedCode
  import opened SsaForm
  import opened Refinement
  import opened MissedLookups
  import opened Simulation

  /** The next instruction. */
  function Next(p: Program, m: Machine): Node
    requires AtCode(p, m)
  {
    NodeAtFrame(p, m.frames[0])
  }

  predicate AtNode(p: Program, m: Machine) {
    m.frames != [] && InCode(p, m.frames[0])
  }

  /** The expression that the code emitted for the next instruction sees for an operand. */
  function Seen(p: Program, m: Machine, y: Sym, o: Operand): Option<Expr>
    requires AtNode(p, m) && y.frames != []
  {
    ViewOf(SeenMap(p, m.frames[0]), y.frames[0], o)
  }

  lemma SimSeen(p: Program, m: Machine, y1: Sym, y0: Sym, paths: seq<seq<nat>>, o: Operand)
    requires Compilable(p) && Sim(p, m, y1, y0, paths) && AtCode(p, m) && o in Operands(Next(p, m))
    ensures AtNode(p, m) && y1.frames != []
    ensures Seen(p, m, y1, o) == ExprOf(Visible(InLayoutOrder, p, m, y0), o)
  {
    hide Sim, Agree, SeenMap, Compilable, AvailAt, IsPath, Operands, ExprOf, ViewOf, Visible, OperandRegs, FinalMap;
    SimTop(p, m, y1, y0, paths);
    SeenAgrees(p, m, paths[0], y1.frames[0], y0);
    OperandsListed(Next(p, m));
    var j :| 0 <= j < |Operands(Next(p, m))| && Operands(Next(p, m))[j] == o;
    assert ValidAt(OperandRegs(Next(p, m)), Operands(Next(p, m))[j]);
    ViewAgrees(SeenMap(p, m.frames[0]), OperandRegs(Next(p, m)), y1.frames[0], Visible(InLayoutOrder, p, m, y0), o);
  }

  lemma SimAtNode(p: Program, m: Machine, y1: Sym, y0: Sym, paths: seq<seq<nat>>)
    requires Sim(p, m, y1, y0, paths) && m.frames != []
    ensures AtNode(p, m) && y1.frames != [] && y0.frames != []
  {
    hide Sim, Agree, AvailAt, FinalMap;
    SimTop(p, m, y1, y0, paths);
  }

  /** After `n` steps the emitted code has pushed the path constraints of a rule, its shadow memory and
      parameter slots are the rule's, and so is what it sees of the operands of the next instruction. */
  ghost predicate Follows(sight: Sight, p: Program, inp: Input, m0: Machine, n: nat)
    requires p.layout.ptrBits > 0 && Run(p, inp, m0, n).Some?
  {
    var m, y1, y0 := Run(p, inp, m0, n).value, InstrumentedRun(p, inp, m0, BLANK, n),
        SymRun(sight, p, inp, m0, BLANK, n);
    && y1.path == y0.path && y1.shadow == y0.shadow && y1.params == y0.params
    && y1.ret == y0.ret && y1.offset == y0.offset
    && |y1.frames| == |y0.frames| == |m.frames|
    && (m.frames != [] ==> AtNode(p, m))
    && (m.frames != [] ==> forall o | o in Operands(Next(p, m)) ::
          Seen(p, m, y1, o) == ExprOf(Visible(sight, p, m, y0), o))
  }

  /** For every program in SSA form, every layout of its blocks, every input and every number of
      steps, the emitted code follows the rule for what it sees. */
  lemma PassRefinesVisibleRule(p: Program, inp: Input, args: Regs, mem: Memory, n: nat)
    requires Compilable(p)
    requires Run(p, inp, Start(p, args, mem), n).Some?
    ensures p.layout.ptrBits > 0 && Follows(InLayoutOrder, p, inp, Start(p, args, mem), n)
  {
    hide Sim, Compilable, Step, SightStep, InstrumentedStep, Start, Operands, ExprOf, ViewOf, Visible, SeenMap;
    CompilableParts(p);
    var m0 := Start(p, args, mem);
    var paths := RunSim(p, inp, args, mem, n);
    var m, y1, y0 := Run(p, inp, m0, n).value, InstrumentedRun(p, inp, m0, BLANK, n),
        SymRun(InLayoutOrder, p, inp, m0, BLANK, n);
    SimShared(p, m, y1, y0, paths);
    if m.frames != [] {
      SimAtNode(p, m, y1, y0, paths);
      forall o | o in Operands(Next(p, m))
        ensures Seen(p, m, y1, o) == ExprOf(Visible(InLayoutOrder, p, m, y0), o)
      {
        SimSeen(p, m, y1, y0, paths, o);
      }
    }
  }

  lemma SimShared(p: Program, m: Machine, y1: Sym, y0: Sym, paths: seq<seq<nat>>)
    requires Sim(p, m, y1, y0, paths)
    ensures y1.path == y0.path && y1.shadow == y0.shadow && y1.params == y0.params && y1.ret == y0.ret
      && y1.offset == y0.offset
    ensures |y1.frames| == |y0.frames| == |m.frames|
  {
    hide FrameSim, Waits;
  }

  // ----- Programs laid out in order -----

  predicate InOrder(p: Program) {
    forall k | 0 <= k < |p.functions| :: LayoutOrder(p.functions[k], k == p.main)
  }

  /** If every operand is defined before it is visited or never has an expression, the emitted code
      sees all expressions there are. */
  lemma SimSeesAll(p: Program, m: Machine, y1: Sym, y0: Sym, paths: seq<seq<nat>>)
    requires Compilable(p) && InOrder(p) && Sim(p, m, y1, y0, paths)
    ensures SeesAll(InLayoutOrder, p, m, y0)
  {
    hide Sim, Agree, Compilable, Operands, FinalMap, DefinedEarlier, NodeIndex, AvailAt, IsPath, ViewOf, EndMap,
         LayoutOrder, ErasedPhis;
    if AtCode(p, m) {
      SimTop(p, m, y1, y0, paths);
      var fr, f, es0 := m.frames[0], FunctionAt(p, m), y0.frames[0];
      OperandsValid(p, fr, paths[0]);
      var k := NodeIndex(f.blocks, fr.block, fr.pc);
      assert k < |Nodes(f)| && Nodes(f)[k] == Next(p, m) by { InstrNodeAt(f, fr.block, fr.pc); }
      forall r | r in MissedAt(p, m)
        ensures r !in es0
      {
        var o :| o in Operands(Next(p, m)) && o.Var? && o.r == r && !DefinedEarlier(f, k, o);
        var j :| 0 <= j < |Operands(Next(p, m))| && Operands(Next(p, m))[j] == o;
        assert GetExpr(EndMap(f, fr.func == p.main), o).None? by {
          NeverFound(f, fr.func == p.main, k, j);
        }
        FinalLookup(f, fr.func == p.main, o);
        BaseView(MapOf(p, fr.func), y1.frames[0], o);
        assert ValidAt(Avail(p, fr, paths[0]), Operands(Next(p, m))[j]);
        ViewAgrees(MapOf(p, fr.func), Avail(p, fr, paths[0]), y1.frames[0], es0, o);
      }
      SeesAllIff(p, m, y0);
    } else {
      NowhereToLook(p, m, y0);
    }
  }

  lemma NowhereToLook(p: Program, m: Machine, y: Sym)
    requires !AtCode(p, m)
    ensures SeesAll(InLayoutOrder, p, m, y)
  {
  }

  lemma NeverFound(f: Function, isMain: bool, k: nat, j: nat)
    requires LayoutOrder(f, isMain) && k < |Nodes(f)| && j < |Operands(Nodes(f)[k])|
    requires !DefinedEarlier(f, k, Operands(Nodes(f)[k])[j])
    ensures GetExpr(EndMap(f, isMain), Operands(Nodes(f)[k])[j]).None?
  {
    hide Operands, DefinedEarlier, EndMap;
  }

  lemma {:induction false} InOrderRunSees(p: Program, inp: Input, args: Regs, mem: Memory, n: nat)
    requires Compilable(p) && InOrder(p) && Run(p, inp, Start(p, args, mem), n).Some?
    ensures p.layout.ptrBits > 0
    ensures SeeingRun(InLayoutOrder, p, inp, Start(p, args, mem), BLANK, n + 1)
  {
    hide Sim, Compilable, InOrder, Step, SightStep, InstrumentedStep, Start, SeesAll;
    CompilableParts(p);
    var m0 := Start(p, args, mem);
    forall k | 0 <= k < n + 1 && Run(p, inp, m0, k).Some?
      ensures SeesAll(InLayoutOrder, p, Run(p, inp, m0, k).value, SymRun(InLayoutOrder, p, inp, m0, BLANK, k))
    {
      var paths := RunSim(p, inp, args, mem, k);
      SimSeesAll(p, Run(p, inp, m0, k).value, InstrumentedRun(p, inp, m0, BLANK, k),
                 SymRun(InLayoutOrder, p, inp, m0, BLANK, k), paths);
    }
  }

  /** For programs laid out in order, the emitted code follows the naive rule. */
  lemma PassRefinesNaiveRule(p: Program, inp: Input, args: Regs, mem: Memory, n: nat)
    requires Compilable(p) && InOrder(p)
    requires Run(p, inp, Start(p, args, mem), n).Some?
    ensures p.layout.ptrBits > 0 && Follows(Everything, p, inp, Start(p, args, mem), n)
  {
    hide Compilable, InOrder, Step, SightStep, InstrumentedStep, Start, Operands, ExprOf, ViewOf, Visible, SeenMap;
    var m0 := Start(p, args, mem);
    PassRefinesVisibleRule(p, inp, args, mem, n);
    InOrderRunSees(p, inp, args, mem, n);
    assert SeeingRun(InLayoutOrder, p, inp, m0, BLANK, n);
    SeeingRunsCoincide(InLayoutOrder, p, inp, m0, BLANK, n);
    var m, y0 := Run(p, inp, m0, n).value, SymRun(Everything, p, inp, m0, BLANK, n);
    assert SeesAll(InLayoutOrder, p, m, y0);
    EverythingIsSeen(p, m, y0);
  }

  /** So it does for programs in which every definition is laid out before its uses. */
  lemma DefinitionsFirstRefinesNaiveRule(p: Program, inp: Input, args: Regs, mem: Memory, n: nat)
    requires Compilable(p) && forall k | 0 <= k < |p.functions| :: DefinitionsFirst(p.functions[k])
    requires Run(p, inp, Start(p, args, mem), n).Some?
    ensures p.layout.ptrBits > 0 && Follows(Everything, p, inp, Start(p, args, mem), n)
  {
    hide Compilable, DefinitionsFirst, LayoutOrder, Follows, Run, Start;
    forall k | 0 <= k < |p.functions|
      ensures LayoutOrder(p.functions[k], k == p.main)
    {
      DefinitionsFirstSuffices(p.functions[k], k == p.main);
    }
    PassRefinesNaiveRule(p, inp, args, mem, n);
  }

  // ----- Soundness, replay and divergence of the emitted code -----

  /** Soundness of the emitted code, for every layout: the constraints it has pushed hold, the shadow
      describes memory, and every operand that it sees with an expression has the expression's value. */
  lemma EmittedCodeIsSound(p: Program, inp: Input, args: Regs, mem: Memory, n: nat)
    requires Compilable(p)
    requires Run(p, inp, Start(p, args, mem), n).Some?
    requires FaithfulRun(InLayoutOrder, p, inp, Start(p, args, mem), BLANK, n)
    ensures var m0 := Start(p, args, mem);
      var m, y := Run(p, inp, m0, n).value, InstrumentedRun(p, inp, m0, BLANK, n);
      && PathHolds(y.path, inp) && MemRelated(y.shadow, m.mem, m.mem, inp)
      && |y.frames| == |m.frames|
      && (m.frames != [] ==> AtNode(p, m))
      && (m.frames != [] ==> forall o | o in Operands(Next(p, m)) && HasValue(m.frames[0].regs, o) ::
            Seen(p, m, y, o).Some? ==> Denotes(Seen(p, m, y, o).value, inp, ValueOf(m.frames[0].regs, o).value))
  {
    hide Compilable, Step, SightStep, InstrumentedStep, Start, Operands, ExprOf, ViewOf, PathHolds, MemRelated, Denotes,
         Visible, SeenMap;
    CompilableParts(p);
    var m0 := Start(p, args, mem);
    PassRefinesVisibleRule(p, inp, args, mem, n);
    Soundness(InLayoutOrder, p, inp, args, mem, n);
    var m, y0 := Run(p, inp, m0, n).value, SymRun(InLayoutOrder, p, inp, m0, BLANK, n);
    if m.frames != [] {
      FewerRelated(InLayoutOrder, p, m, y0, inp);
      forall o | HasValue(m.frames[0].regs, o)
        ensures var seen := Visible(InLayoutOrder, p, m, y0);
          ExprOf(seen, o).Some? ==> Denotes(ExprOf(seen, o).value, inp, ValueOf(m.frames[0].regs, o).value)
      {
        OperandRelated(m.frames[0].regs, Visible(InLayoutOrder, p, m, y0), m.frames[0].regs, inp, o);
      }
    }
  }

  /** Replay, for every layout: an input that satisfies the constraints pushed by the emitted code
      takes the program along the same instructions. */
  lemma EmittedCodeReplays(p: Program, inpC: Input, inp: Input, args: Regs, mem: Memory, n: nat)
    requires Compilable(p) && |inpC| == |inp|
    requires Run(p, inpC, Start(p, args, mem), n).Some?
    requires NothingNeededLost(p, inpC, Start(p, args, mem), n)
    requires PathHolds(InstrumentedRun(p, inpC, Start(p, args, mem), BLANK, n).path, inp)
    ensures var m0 := Start(p, args, mem);
      || Replayed(InLayoutOrder, p, inpC, inp, m0, n)
      || exists k :: 0 <= k < n && Replayed(InLayoutOrder, p, inpC, inp, m0, k)
                     && !Continues(InLayoutOrder, p, inpC, inp, m0, k)
  {
    hide Compilable, Step, SightStep, InstrumentedStep, Start, PathHolds, NothingNeededLost, Continues, Replayed;
    CompilableParts(p);
    PassRefinesVisibleRule(p, inpC, args, mem, n);
    ReplaySeenRun(p, inpC, inp, args, mem, n);
  }

  /** The emitted code sees the expression of the condition of a branch. */
  ghost predicate AtSymbolicBranch(p: Program, inp: Input, m0: Machine, n: nat, e: Expr)
    requires Compilable(p)
  {
    Run(p, inp, m0, n).Some? &&
    var m, y := Run(p, inp, m0, n).value, InstrumentedRun(p, inp, m0, BLANK, n);
    && AtNode(p, m) && m.frames[0].pc == |BlockAt(p, m).instrs| && BlockAt(p, m).term.Branch?
    && y.frames != [] && Successor(m.frames[0].regs, BlockAt(p, m).term).Some?
    && Seen(p, m, y, BlockAt(p, m).term.cond) == Some(e)
  }

  /** An input that satisfies the constraints pushed before a branch, and makes the expression of its
      condition differ from the outcome, leaves the branch through the other side. */
  lemma EmittedCodeDiverges(p: Program, inpC: Input, inp: Input, args: Regs, mem: Memory, n: nat, e: Expr)
    requires Compilable(p)
    requires Replayed(InLayoutOrder, p, inpC, inp, Start(p, args, mem), n)
    requires AtSymbolicBranch(p, inpC, Start(p, args, mem), n, e)
    requires var m := Run(p, inpC, Start(p, args, mem), n).value;
      Eval(e, inp) != Number(m.frames[0].regs, BlockAt(p, m).term.cond)
    ensures var m, d := Run(p, inpC, Start(p, args, mem), n).value, Run(p, inp, Start(p, args, mem), n).value;
      var term := BlockAt(p, m).term;
      && AtCode(p, d) && !AtInstr(p, d) && BlockAt(p, d).term == term
      && Successor(d.frames[0].regs, term)
         == Some(if Number(m.frames[0].regs, term.cond) == 1 then term.ifFalse else term.ifTrue)
  {
    hide Compilable, Step, SightStep, InstrumentedStep, Start, Related, ExprOf, ViewOf, Eval, Successor, Visible,
         SeenMap;
    CompilableParts(p);
    PassRefinesVisibleRule(p, inpC, args, mem, n);
    var m, y0 := Run(p, inpC, Start(p, args, mem), n).value,
        SymRun(InLayoutOrder, p, inpC, Start(p, args, mem), BLANK, n);
    assert Operands(Next(p, m)) == [BlockAt(p, m).term.cond];
    assert BlockAt(p, m).term.cond in Operands(Next(p, m));
    VisibleIsThere(p, m, y0, BlockAt(p, m).term.cond);
    Diverges(InLayoutOrder, p, inpC, inp, args, mem, n);
  }

  lemma VisibleIsThere(p: Program, m: Machine, y: Sym, o: Operand)
    requires ExprOf(Visible(InLayoutOrder, p, m, y), o).Some?
    ensures y.frames != [] && ExprOf(y.frames[0], o) == ExprOf(Visible(InLayoutOrder, p, m, y), o)
  {
    hide MissedAt;
  }

  // ----- Why the layout of blocks matters -----

  /** Blocks in the order 0, 2, 1: the byte loaded in block 2 is used in block 1. */
  function Backwards(lay: Layout): Function
    requires ValidLayout(lay)
  {
    Function([], [
      Block([], [], Jump(2)),
      Block([], [Compute(1, Bin(Add, 8), [Var(0), Imm(MakeValue(8, 1))])], Return(Some(Var(1)))),
      Block([], [Load(0, 8, true, Imm(MakeValue(lay.ptrBits, 0)))], Jump(1))])
  }

  lemma BackwardsNodes(lay: Layout)
    requires ValidLayout(lay)
    ensures var f := Backwards(lay);
      Nodes(f) == [TermNode(Jump(2)), InstrNode(f.blocks[1].instrs[0]), TermNode(Return(Some(Var(1)))),
                   InstrNode(f.blocks[2].instrs[0]), TermNode(Jump(1))]
  {
    hide MakeValue, Pow2, ValidLayout;
    var f := Backwards(lay);
    assert BlockNodes(f.blocks[0]) == [TermNode(Jump(2))];
    assert BlockNodes(f.blocks[1]) == [InstrNode(f.blocks[1].instrs[0]), TermNode(Return(Some(Var(1))))];
    assert BlockNodes(f.blocks[2]) == [InstrNode(f.blocks[2].instrs[0]), TermNode(Jump(1))];
    assert AllInstructions(f.blocks, 1) == BlockNodes(f.blocks[0]);
    assert AllInstructions(f.blocks, 2) == BlockNodes(f.blocks[0]) + BlockNodes(f.blocks[1]);
    assert AllInstructions(f.blocks, 3) == BlockNodes(f.blocks[0]) + BlockNodes(f.blocks[1]) + BlockNodes(f.blocks[2]);
  }

  /** Without the layout condition the result fails: this function is in SSA form, but the pass
      emits no code for the sum, although the naive rule gives it an expression whenever the loaded
      byte has one. */
  lemma LayoutOrderIsNeeded(lay: Layout, regs: Regs, es: Exprs)
    requires ValidLayout(lay)
    requires 0 in regs && regs[0].bits == 8 && 0 in es
    ensures var f := Backwards(lay);
      && Ssa(f) && !LayoutOrder(f, false)
      && CodeAt(Instrument(lay, f, false), NodeIndex(f.blocks, 1, 0)) == []
      && ComputeExpr(lay, Bin(Add, 8), f.blocks[1].instrs[0].args, regs, es).Some?
  {
    hide Backwards, Ssa, LayoutOrder, Instrument, ComputeExpr;
    BackwardsIsSsa(lay);
    BackwardsUnseen(lay);
    BackwardsCode(lay);
    BackwardsSum(lay, regs, es);
  }

  lemma BackwardsCode(lay: Layout)
    requires ValidLayout(lay)
    ensures CodeAt(Instrument(lay, Backwards(lay), false), NodeIndex(Backwards(lay).blocks, 1, 0)) == []
  {
    hide MakeValue, Pow2, ValidLayout, FinalPhis, ErasedPhis, Lowerable, AppendCall, Visited, MapAfter;
    assert lay.ptrBits > 0 by { LayoutParts(lay); }
    BackwardsNodes(lay);
    var f := Backwards(lay);
    BackwardsMap(lay);
    assert Items(lay, map[], Nodes(f)[1]) == [];
    VisitedAt(lay, StartMap(f, false), Nodes(f), |Nodes(f)|, 1);
    VisitedLowerable(lay, StartMap(f, false), Nodes(f), |Nodes(f)|, ErasedPhis(f, false));
    assert NodeIndex(f.blocks, 1, 0) == 1 by { BackwardsIndex(lay); }
  }

  lemma BackwardsIndex(lay: Layout)
    requires ValidLayout(lay)
    ensures NodeIndex(Backwards(lay).blocks, 1, 0) == 1
  {
    assert AllInstructions(Backwards(lay).blocks, 1) == BlockNodes(Backwards(lay).blocks[0]);
  }

  lemma BackwardsMap(lay: Layout)
    requires ValidLayout(lay)
    ensures |Nodes(Backwards(lay))| == 5
    ensures StartMap(Backwards(lay), false) == map[]
    ensures MapAfter(StartMap(Backwards(lay), false), Nodes(Backwards(lay)), 1) == map[]
  {
    hide MakeValue, Pow2, ValidLayout;
    BackwardsNodes(lay);
    assert ParamMap({}) == map[] && Params(Backwards(lay)) == {};
    assert Record(map[], Nodes(Backwards(lay))[0]) == map[];
  }

  lemma LayoutParts(lay: Layout)
    requires ValidLayout(lay)
    ensures lay.ptrBits > 0
  {
  }

  lemma BackwardsSum(lay: Layout, regs: Regs, es: Exprs)
    requires ValidLayout(lay)
    requires 0 in regs && regs[0].bits == 8 && 0 in es
    ensures ComputeExpr(lay, Bin(Add, 8), Backwards(lay).blocks[1].instrs[0].args, regs, es).Some?
  {
    hide MakeValue, Pow2, ValidLayout, Apply, RtOf;
    var args := Backwards(lay).blocks[1].instrs[0].args;
    TwoValues(regs, args[0], args[1]);
    assert args == [args[0], args[1]];
    assert ExprsOf(es, args)[0] == Some(es[0]);
  }

  lemma TwoValues(regs: Regs, a: Operand, b: Operand)
    requires HasValue(regs, a) && HasValue(regs, b)
    ensures ValuesOf(regs, [a, b]) == Some([ValueOf(regs, a).value, ValueOf(regs, b).value])
  {
    hide ValueOf;
    assert [a, b][1..] == [b] && [b][1..] == [];
    var none: seq<Value> := [];
    assert ValuesOf(regs, []) == Some(none);
    assert [ValueOf(regs, b).value] + none == [ValueOf(regs, b).value];
    assert ValuesOf(regs, [b]) == Some([ValueOf(regs, b).value]);
    assert ValuesOf(regs, [a, b][1..]) == Some([ValueOf(regs, b).value]);
    assert [ValueOf(regs, a).value] + [ValueOf(regs, b).value] == [ValueOf(regs, a).value, ValueOf(regs, b).value];
  }

  lemma BackwardsUnseen(lay: Layout)
    requires ValidLayout(lay)
    ensures SingleAssignment(Backwards(lay)) && !LayoutOrder(Backwards(lay), false)
  {
    hide MakeValue, Pow2;
    BackwardsNodes(lay);
    var f := Backwards(lay);
    var nodes, start := Nodes(f), StartMap(f, false);
    BackwardsMap(lay);
    assert Recorded(MapAfter(start, nodes, 3), nodes[3]) == Some(SymReg(0));
    assert 0 in MapAfter(start, nodes, 4);
    assert 0 in MapAfter(start, nodes, 5);
    assert forall l | 0 <= l < 1 :: Defines(nodes[l]) == None;
    assert !DefinedEarlier(f, 1, Operands(nodes[1])[0]) && GetExpr(EndMap(f, false), Operands(nodes[1])[0]).Some?;
  }

  /** The same function is in SSA form. */
  lemma BackwardsIsSsa(lay: Layout)
    requires ValidLayout(lay)
    ensures Ssa(Backwards(lay))
  {
    hide MakeValue, Pow2, LayoutOrder, SingleAssignment, NodeDefs, Defs;
    var f := Backwards(lay);
    BackwardsUnseen(lay);
    forall path, pc: nat | IsPath(f, path) && pc <= |f.blocks[Last(path)].instrs|
      ensures UsesDefined(f, path, pc)
    {
      BackwardsUses(lay, path, pc);
    }
  }

  lemma BackwardsUses(lay: Layout, path: seq<nat>, pc: nat)
    requires ValidLayout(lay)
    requires IsPath(Backwards(lay), path) && pc <= |Backwards(lay).blocks[Last(path)].instrs|
    ensures UsesDefined(Backwards(lay), path, pc)
  {
    hide MakeValue, Pow2, ValidLayout;
    var f := Backwards(lay);
    if Last(path) == 1 {
      var prev := path[..|path| - 1];
      assert IsSuccessor(f.blocks[Last(prev)].term, 1);
      assert Last(prev) == 2;
      assert BlockNodes(f.blocks[2])[0] == InstrNode(f.blocks[2].instrs[0]);
      SiteInDefs(f.blocks[2], 1, 0, 0);
      assert 0 in DefsThrough(f, prev);
      if pc == 1 {
        assert BlockNodes(f.blocks[1])[0] == InstrNode(f.blocks[1].instrs[0]);
        SiteInDefs(f.blocks[1], 1, 0, 1);
      }
    }
  }
}
