/** Whole runs of instrumented programs: they stay in step with the rule for what the emitted code
    sees, and so the theorems about that rule hold for the code that the pass emits. */
module Simulation {
  import opened BitVectors
  import opened Expressions
  import opened Builders
  import opened FlatShadow
  import opened Programs
  import opened Concolic
  import opened Faithfulness
  import opened Replay
  import opened Runs
  import opened ShortCircuit
  import opened Computations
  import opened Symbolizer
  import opened Visibility
  import opened Instrumented
  import opened PassFacts
  import opened EmittedCode
  import opened SsaForm
  import opened Refinement

  /** Programs that the theorems are about: all functions are in SSA form. */
  ghost predicate Compilable(p: Program) {
    && ValidLayout(p.layout) && p.main < |p.functions|
    && forall k | 0 <= k < |p.functions| :: Ssa(p.functions[k])
  }

  function MapOf(p: Program, k: nat): ExprMap
    requires k < |p.functions|
  {
    FinalMap(p.functions[k], k == p.main)
  }

  function PassOutput(p: Program): seq<SymFunction>
    requires p.layout.ptrBits > 0
  {
    InstrumentAll(p, |p.functions|)
  }

  lemma {:induction false} PassOutputAt(p: Program, n: nat, k: nat)
    requires p.layout.ptrBits > 0 && k < n <= |p.functions|
    ensures |InstrumentAll(p, n)| == n
    ensures InstrumentAll(p, n)[k] == Instrument(p.layout, p.functions[k], k == p.main)
  {
    hide Instrument;
    if k < n - 1 {
      PassOutputAt(p, n - 1, k);
    } else {
      OutputLength(p, n - 1);
    }
  }

  lemma {:induction false} OutputLength(p: Program, n: nat)
    requires p.layout.ptrBits > 0 && n <= |p.functions|
    ensures |InstrumentAll(p, n)| == n
  {
    hide Instrument;
    if n > 0 {
      OutputLength(p, n - 1);
    }
  }

  // ----- Frames in step -----

  /** The frame is where `path` ends. */
  predicate At(p: Program, fr: Frame, path: seq<nat>) {
    && fr.func < |p.functions| && IsPath(p.functions[fr.func], path)
    && Last(path) == fr.block && fr.pc <= |p.functions[fr.func].blocks[fr.block].instrs|
  }

  function Pending(r: Option<Reg>): set<Reg> {
    match r
    case Some(x) => {x}
    case None => {}
  }

  function Avail(p: Program, fr: Frame, path: seq<nat>): set<Reg>
    requires At(p, fr, path)
  {
    AvailAt(p.functions[fr.func], MapOf(p, fr.func), path, fr.pc)
  }

  /** The values of the frame agree, except for the result of a call that has not returned. */
  ghost predicate FrameSim(p: Program, fr: Frame, path: seq<nat>, pending: set<Reg>, es1: Exprs, es0: Exprs) {
    At(p, fr, path) && Agree(MapOf(p, fr.func), Avail(p, fr, path) - pending, es1, es0)
  }

  /** The caller's frame is behind the call that waits for the result. */
  predicate Waits(p: Program, fr: Frame, returnTo: Option<Reg>) {
    && fr.func < |p.functions| && fr.block < |p.functions[fr.func].blocks|
    && 0 < fr.pc <= |p.functions[fr.func].blocks[fr.block].instrs|
    && var i := p.functions[fr.func].blocks[fr.block].instrs[fr.pc - 1];
    i.Call? && i.result == returnTo
  }

  function PendingAt(m: Machine, k: nat): set<Reg>
    requires k < |m.frames|
  {
    if k == 0 then {} else Pending(m.frames[k - 1].returnTo)
  }

  ghost predicate Sim(p: Program, m: Machine, y1: Sym, y0: Sym, paths: seq<seq<nat>>) {
    && |m.frames| == |y1.frames| == |y0.frames| == |paths|
    && y1.(frames := y0.frames) == y0
    && (forall k | 0 <= k < |m.frames| ::
          FrameSim(p, m.frames[k], paths[k], PendingAt(m, k), y1.frames[k], y0.frames[k]))
    && (forall k | 0 < k < |m.frames| :: Waits(p, m.frames[k], m.frames[k - 1].returnTo))
  }

  lemma SimTop(p: Program, m: Machine, y1: Sym, y0: Sym, paths: seq<seq<nat>>)
    requires Sim(p, m, y1, y0, paths) && m.frames != []
    ensures y1.frames != [] && y0.frames != [] && paths != []
    ensures At(p, m.frames[0], paths[0])
    ensures Agree(MapOf(p, m.frames[0].func), Avail(p, m.frames[0], paths[0]), y1.frames[0], y0.frames[0])
  {
    hide Agree, At, AvailAt;
    assert FrameSim(p, m.frames[0], paths[0], PendingAt(m, 0), y1.frames[0], y0.frames[0]);
    assert Avail(p, m.frames[0], paths[0]) - {} == Avail(p, m.frames[0], paths[0]);
  }

  /** The innermost frame moves on. */
  lemma SimReplaceTop(p: Program, m: Machine, y1: Sym, y0: Sym, paths: seq<seq<nat>>,
                      m': Machine, y1': Sym, y0': Sym, path: seq<nat>)
    requires Sim(p, m, y1, y0, paths) && m.frames != []
    requires m'.frames != [] && y1'.frames != [] && y0'.frames != []
    requires m'.frames[1..] == m.frames[1..] && m'.frames[0].returnTo == m.frames[0].returnTo
    requires y1'.frames[1..] == y1.frames[1..] && y0'.frames[1..] == y0.frames[1..]
    requires y1'.(frames := y0'.frames) == y0'
    requires FrameSim(p, m'.frames[0], path, {}, y1'.frames[0], y0'.frames[0])
    ensures Sim(p, m', y1', y0', [path] + paths[1..])
  {
    hide FrameSim, Waits;
    var paths' := [path] + paths[1..];
    forall k | 0 < k < |m'.frames|
      ensures FrameSim(p, m'.frames[k], paths'[k], PendingAt(m', k), y1'.frames[k], y0'.frames[k])
      ensures Waits(p, m'.frames[k], m'.frames[k - 1].returnTo)
    {
      assert m'.frames[k] == m'.frames[1..][k - 1] && y1'.frames[k] == y1'.frames[1..][k - 1]
          && y0'.frames[k] == y0'.frames[1..][k - 1];
      assert m'.frames[k - 1].returnTo == m.frames[k - 1].returnTo by {
        assert k > 1 ==> m'.frames[k - 1] == m'.frames[1..][k - 2];
      }
      assert FrameSim(p, m.frames[k], paths[k], PendingAt(m, k), y1.frames[k], y0.frames[k]);
    }
  }

  // ----- The code of a node -----

  function NodeAtFrame(p: Program, fr: Frame): Node
    requires fr.func < |p.functions| && fr.block < |p.functions[fr.func].blocks|
  {
    NodeIn(p.functions[fr.func].blocks[fr.block], fr.pc)
  }

  predicate InCode(p: Program, fr: Frame) {
    && fr.func < |p.functions| && fr.block < |p.functions[fr.func].blocks|
    && fr.pc <= |p.functions[fr.func].blocks[fr.block].instrs|
  }

  /** What the pass knew when it visited the node. */
  function SeenMap(p: Program, fr: Frame): ExprMap
    requires InCode(p, fr)
  {
    var f := p.functions[fr.func];
    InstrNodeAt(f, fr.block, fr.pc);
    NodeMap(f, fr.func == p.main, NodeIndex(f.blocks, fr.block, fr.pc))
  }

  lemma CodeOfNode(p: Program, fr: Frame)
    requires Compilable(p) && InCode(p, fr)
    ensures fr.func < |PassOutput(p)|
    ensures Lowerable(Items(p.layout, SeenMap(p, fr), NodeAtFrame(p, fr)))
    ensures CodeAt(PassOutput(p)[fr.func], NodeIndex(p.functions[fr.func].blocks, fr.block, fr.pc))
         == LowerItems(Items(p.layout, SeenMap(p, fr), NodeAtFrame(p, fr)))
    ensures RecordedIn(MapOf(p, fr.func), SeenMap(p, fr), NodeAtFrame(p, fr))
    ensures NoTemps(MapOf(p, fr.func)) && NoTemps(SeenMap(p, fr))
  {
    hide FinalMap, NodeMap, Items, LowerItems, Lowerable, SingleAssignment, Instrument, CodeAt, NodeIndex,
         Recorded;
    var f, isMain, k := p.functions[fr.func], fr.func == p.main,
        NodeIndex(p.functions[fr.func].blocks, fr.block, fr.pc);
    PassOutputAt(p, |p.functions|, fr.func);
    InstrNodeAt(f, fr.block, fr.pc);
    CodeThroughNodeMap(p.layout, f, isMain, k);
    FinalHasNoTemps(f, isMain);
    NodeMapHasNoTemps(f, isMain, k);
    if Defines(NodeAtFrame(p, fr)).Some? {
      RecordedThroughNodeMap(f, isMain, k);
    }
  }

  function OperandRegs(node: Node): set<Reg> {
    set o | o in Operands(node) && o.Var? :: o.r
  }

  lemma OperandsListed(node: Node)
    ensures AllValid(OperandRegs(node), Operands(node))
  {
    hide Operands;
  }

  /** The emitted code sees its operands as the rule says. */
  lemma SeenAgrees(p: Program, m: Machine, path: seq<nat>, es1: Exprs, y0: Sym)
    requires Compilable(p) && m.frames != [] && At(p, m.frames[0], path) && y0.frames != [] && AtCode(p, m)
    requires Agree(MapOf(p, m.frames[0].func), Avail(p, m.frames[0], path), es1, y0.frames[0])
    ensures Agree(SeenMap(p, m.frames[0]), OperandRegs(NodeAtFrame(p, m.frames[0])), es1,
                  Visible(InLayoutOrder, p, m, y0))
  {
    hide FinalMap, NodeMap, Operands, AvailAt, IsPath, NodeIndex, DefinedEarlier, Ssa;
    var fr, seen := m.frames[0], Visible(InLayoutOrder, p, m, y0);
    var f, isMain, node := p.functions[fr.func], fr.func == p.main, NodeAtFrame(p, fr);
    var k := NodeIndex(f.blocks, fr.block, fr.pc);
    InstrNodeAt(f, fr.block, fr.pc);
    assert SingleAssignment(f) by { SsaAssigns(f); }
    OperandsValid(p, fr, path);
    forall r | r in OperandRegs(node)
      ensures ViewOf(SeenMap(p, fr), es1, Var(r)) == Lookup(seen, r)
    {
      var j :| 0 <= j < |Operands(node)| && Operands(node)[j] == Var(r);
      assert ValidAt(Avail(p, fr, path), Operands(node)[j]);
      NodeLookup(f, isMain, k, Var(r));
      BaseView(SeenMap(p, fr), es1, Var(r));
      BaseView(MapOf(p, fr.func), es1, Var(r));
      assert r in MissedAt(p, m) <==> !DefinedEarlier(f, k, Var(r));
    }
    AgreeFrom(SeenMap(p, fr), OperandRegs(node), es1, seen);
  }

  lemma OperandsValid(p: Program, fr: Frame, path: seq<nat>)
    requires Compilable(p) && At(p, fr, path)
    ensures AllValid(Avail(p, fr, path), Operands(NodeAtFrame(p, fr)))
  {
    hide FinalMap, Ssa, Operands, AvailAt, IsSuccessor, ValidAt;
    var f := p.functions[fr.func];
    forall j | 0 <= j < |Operands(NodeAtFrame(p, fr))|
      ensures ValidAt(Avail(p, fr, path), Operands(NodeAtFrame(p, fr))[j])
    {
      OperandsUpToDate(f, fr.func == p.main, path, fr.pc, j);
    }
  }

  /** What running the code of the current node amounts to. */
  function RunNode(p: Program, inp: Input, m: Machine, y: Sym): (y': Sym)
    requires p.layout.ptrBits > 0 && m.frames != [] && InCode(p, m.frames[0]) && y.frames != []
    requires Lowerable(Items(p.layout, SeenMap(p, m.frames[0]), NodeAtFrame(p, m.frames[0])))
    ensures y'.frames != []
  {
    RunItems(inp, LocalOf(m), Items(p.layout, SeenMap(p, m.frames[0]), NodeAtFrame(p, m.frames[0])), y)
  }

  lemma InstrumentedInstr(p: Program, inp: Input, m: Machine, y: Sym)
    requires Compilable(p) && AtInstr(p, m) && y.frames != []
    ensures Lowerable(Items(p.layout, SeenMap(p, m.frames[0]), NodeAtFrame(p, m.frames[0])))
    ensures var y', i := RunNode(p, inp, m, y), InstrAt(p, m);
      InstrumentedStep(p, PassOutput(p), inp, m, y)
      == if i.Call? then y'.(frames := [CallFrame(p, PassOutput(p), i.callee, y'.params)] + y'.frames) else y'
  {
    hide Items, LowerItems, Lowerable, CodeAt, NodeIndex, RecordedIn, Compilable, PassOutput, CallFrame, SeenMap;
    assert p.layout.ptrBits > 0 by { CompilableParts(p); }
    CodeOfNode(p, m.frames[0]);
  }

  lemma CompilableParts(p: Program)
    requires Compilable(p)
    ensures ValidLayout(p.layout) && p.layout.ptrBits > 0
  {
  }

  lemma InstrumentedTerm(p: Program, inp: Input, m: Machine, y: Sym)
    requires Compilable(p) && AtCode(p, m) && !AtInstr(p, m) && y.frames != []
    requires m.frames[0].pc == |BlockAt(p, m).instrs|
    ensures Lowerable(Items(p.layout, SeenMap(p, m.frames[0]), TermNode(BlockAt(p, m).term)))
    ensures NodeAtFrame(p, m.frames[0]) == TermNode(BlockAt(p, m).term)
    ensures var y', fr, f, term := RunNode(p, inp, m, y), m.frames[0], FunctionAt(p, m), BlockAt(p, m).term;
      m.frames[0].func < |PassOutput(p)| &&
      InstrumentedStep(p, PassOutput(p), inp, m, y)
      == if term.Return? then PopReturn(y', fr.returnTo)
         else if Successor(fr.regs, term).None? || Successor(fr.regs, term).value >= |f.blocks| then y'
         else WithTop(y', RunPhis(PassOutput(p)[fr.func].phis, f.blocks[Successor(fr.regs, term).value].phis, fr.block,
                                  y'.frames[0], y'.frames[0]))
  {
    hide Items, LowerItems, Lowerable, CodeAt, NodeIndex, RecordedIn, Compilable, PassOutput, RunPhis, PopReturn,
         SeenMap;
    assert p.layout.ptrBits > 0 by { CompilableParts(p); }
    CodeOfNode(p, m.frames[0]);
  }

  // ----- Instructions -----

  lemma InstrStepSim(p: Program, inp: Input, m: Machine, y1: Sym, y0: Sym, paths: seq<seq<nat>>)
    requires Compilable(p) && Sim(p, m, y1, y0, paths) && AtInstr(p, m) && !InstrAt(p, m).Call?
    requires Step(p, inp, m).Some?
    ensures Sim(p, Step(p, inp, m).value, InstrumentedStep(p, PassOutput(p), inp, m, y1),
                SightStep(InLayoutOrder, p, inp, m, y0), paths)
  {
    hide Sim, Agree, Items, InstrItems, Lowerable, RunItems, Exec, SymExec, Compilable, InstrumentedStep,
         RecordedIn, AllValid, SeenMap, Visible, Assigned, OnlySets, Recorded,
         FinalMap, AvailAt, After, IsPath, DefSet;
    CompilableParts(p);
    SimTop(p, m, y1, y0, paths);
    SimParts(p, m, y1, y0, paths);
    var fr, i, em, l := m.frames[0], InstrAt(p, m), SeenMap(p, m.frames[0]), LocalOf(m);
    var seen := Visible(InLayoutOrder, p, m, y0);
    CodeOfNode(p, fr);
    SeenAgrees(p, m, paths[0], y1.frames[0], y0);
    OperandsListed(InstrNode(i));
    InstrumentedInstr(p, inp, m, y1);
    ItemsOfInstr(p.layout, em, i);
    InstrSim(p.layout, inp, em, OperandRegs(InstrNode(i)), i, l, y1, seen);
    var s := SymExec(p.layout, inp, i, l, LocalSym(y0, seen));
    EffectAgrees(MapOf(p, fr.func), Avail(p, fr, paths[0]), em, i, y1, RunNode(p, inp, m, y1), s, y0.frames[0]);
    AdvanceSim(p, m, y1, y0, paths, Exec(p.layout, inp, i, l).value, RunNode(p, inp, m, y1), s);
  }

  lemma ItemsOfInstr(lay: Layout, em: ExprMap, i: Instr)
    requires lay.ptrBits > 0
    ensures Items(lay, em, InstrNode(i)) == InstrItems(lay, em, i)
  {
  }

  lemma SimParts(p: Program, m: Machine, y1: Sym, y0: Sym, paths: seq<seq<nat>>)
    requires Sim(p, m, y1, y0, paths) && m.frames != []
    ensures y1.frames != [] && y0.frames != [] && paths != []
    ensures y1.(frames := y0.frames) == y0
  {
    hide FrameSim, Waits;
  }

  lemma AdvanceSim(p: Program, m: Machine, y1: Sym, y0: Sym, paths: seq<seq<nat>>, l: Local, y1': Sym, s: SymLocal)
    requires Sim(p, m, y1, y0, paths) && AtInstr(p, m) && At(p, m.frames[0], paths[0])
    requires y1.frames != [] && y0.frames != [] && y1'.frames != []
    requires y1' == WithTop(y1, y1'.frames[0]).(shadow := s.shadow, offset := s.offset, path := s.path)
    requires Agree(MapOf(p, m.frames[0].func),
                   After(MapOf(p, m.frames[0].func), Avail(p, m.frames[0], paths[0]), DefSet(InstrNode(InstrAt(p, m)))),
                   y1'.frames[0], Assigned(y0.frames[0], InstrAt(p, m), s.exprs))
    ensures Sim(p, Advance(m, l), y1', SymAdvance(y0, InstrAt(p, m), s), paths)
  {
    hide Sim, Agree, After, DefSet, FinalMap, IsSuccessor, Assigned;
    SimParts(p, m, y1, y0, paths);
    var m', y0' := Advance(m, l), SymAdvance(y0, InstrAt(p, m), s);
    SimReplaceTop(p, m, y1, y0, paths, m', y1', y0', paths[0]) by {
      assert AvailAt(FunctionAt(p, m), MapOf(p, m.frames[0].func), paths[0], m.frames[0].pc + 1)
          == After(MapOf(p, m.frames[0].func), Avail(p, m.frames[0], paths[0]), DefSet(InstrNode(InstrAt(p, m))));
      FrameSimTop(p, m'.frames[0], paths[0], y1'.frames[0], y0'.frames[0]);
    }
    assert [paths[0]] + paths[1..] == paths;
  }

  lemma FrameSimTop(p: Program, fr: Frame, path: seq<nat>, es1: Exprs, es0: Exprs)
    requires At(p, fr, path) && Agree(MapOf(p, fr.func), Avail(p, fr, path), es1, es0)
    ensures FrameSim(p, fr, path, {}, es1, es0)
  {
    hide Agree, At, AvailAt;
    assert Avail(p, fr, path) - {} == Avail(p, fr, path);
  }

  // ----- Calls -----

  lemma CallRun(p: Program, inp: Input, l: Local, em: ExprMap, avail: set<Reg>, i: Instr, y1: Sym, es0: Exprs)
    requires p.layout.ptrBits > 0 && i.Call? && Ready(em, avail, y1, es0) && AllValid(avail, i.args)
    ensures Lowerable(InstrItems(p.layout, em, i))
    ensures RunItems(inp, l, InstrItems(p.layout, em, i), y1)
         == y1.(params := SetParams(y1.params, ExprsOf(es0, i.args)), ret := if i.result.Some? then None else y1.ret)
  {
    hide Agree, RunItems, Lowerable, ViewsOf, AllValid, SetParams, ParamItems;
    var items, n := ParamItems(em, i.args, |i.args|), |i.args|;
    ParamsRun(inp, l, em, i.args, n, y1);
    ViewsAgree(em, avail, y1.frames[0], es0, i.args);
    assert ViewsOf(em, y1.frames[0], i.args)[..n] == ExprsOf(es0, i.args);
    var y := RunItems(inp, l, items, y1);
    if i.result.Some? {
      RunOneItem(inp, l, SetReturn(Null), y);
      RunItemsAppend(inp, l, items, [SetReturn(Null)], y1);
    } else {
      assert items + [] == items;
    }
  }

  /** The callee starts with the expressions of its parameters, those without uses aside. */
  lemma CalleeSim(p: Program, callee: nat, regs: Regs, returnTo: Option<Reg>, slots: map<nat, Expr>)
    requires Compilable(p) && callee < |p.functions|
    ensures FrameSim(p, Frame(callee, 0, 0, regs, returnTo), [0], {},
                     CallFrame(p, PassOutput(p), callee, slots), CalleeExprs(p, callee, slots))
  {
    hide FinalMap, SingleAssignment, FinalPhis, FinalCode, GetParams;
    var f, isMain := p.functions[callee], callee == p.main;
    PassOutputAt(p, |p.functions|, callee);
    var es1, es0 := CallFrame(p, PassOutput(p), callee, slots), CalleeExprs(p, callee, slots);
    forall r | r in Params(f)
      ensures ViewOf(FinalMap(f, isMain), es1, Var(r)) == Lookup(es0, r)
    {
      ParamThroughFinalMap(f, isMain, r);
    }
    AgreeFrom(FinalMap(f, isMain), Params(f), es1, es0);
  }

  /** The caller waits; only the result of the call is out of date. */
  lemma CallerSim(p: Program, fr: Frame, path: seq<nat>, es1: Exprs, es0: Exprs)
    requires At(p, fr, path) && Agree(MapOf(p, fr.func), Avail(p, fr, path), es1, es0)
    requires fr.pc < |p.functions[fr.func].blocks[fr.block].instrs|
    requires p.functions[fr.func].blocks[fr.block].instrs[fr.pc].Call?
    ensures var result := p.functions[fr.func].blocks[fr.block].instrs[fr.pc].result;
      FrameSim(p, fr.(pc := fr.pc + 1), path, Pending(result), es1, es0) && Waits(p, fr.(pc := fr.pc + 1), result)
  {
    hide FinalMap, IsSuccessor, ViewOf;
    var i := p.functions[fr.func].blocks[fr.block].instrs[fr.pc];
    assert DefSet(InstrNode(i)) == Pending(i.result);
  }

  lemma SimPush(p: Program, m: Machine, y1: Sym, y0: Sym, paths: seq<seq<nat>>, m': Machine, y1': Sym, y0': Sym,
                path: seq<nat>)
    requires Sim(p, m, y1, y0, paths) && m.frames != []
    requires |m'.frames| > 1 && m'.frames[2..] == m.frames[1..] && m'.frames[1].returnTo == m.frames[0].returnTo
    requires y1'.frames != [] && y1'.frames[1..] == y1.frames
    requires y0'.frames != [] && y0'.frames[1..] == y0.frames
    requires y1'.(frames := y0'.frames) == y0'
    requires y1.frames != [] && y0.frames != [] && paths != []
    requires FrameSim(p, m'.frames[0], path, {}, y1'.frames[0], y0'.frames[0])
    requires FrameSim(p, m'.frames[1], paths[0], Pending(m'.frames[0].returnTo), y1.frames[0], y0.frames[0])
    requires Waits(p, m'.frames[1], m'.frames[0].returnTo)
    ensures Sim(p, m', y1', y0', [path] + paths)
  {
    hide FrameSim, Waits;
    var paths' := [path] + paths;
    forall k | 0 < k < |m'.frames|
      ensures FrameSim(p, m'.frames[k], paths'[k], PendingAt(m', k), y1'.frames[k], y0'.frames[k])
      ensures Waits(p, m'.frames[k], m'.frames[k - 1].returnTo)
    {
      assert y1'.frames[k] == y1.frames[k - 1] && y0'.frames[k] == y0.frames[k - 1];
      if k > 1 {
        assert m'.frames[k] == m'.frames[2..][k - 2] == m.frames[k - 1];
        assert m'.frames[k - 1].returnTo == m.frames[k - 2].returnTo by {
          assert k > 2 ==> m'.frames[k - 1] == m'.frames[2..][k - 3];
        }
        assert FrameSim(p, m.frames[k - 1], paths[k - 1], PendingAt(m, k - 1), y1.frames[k - 1], y0.frames[k - 1]);
      }
    }
  }

  lemma CallFrames(p: Program, inp: Input, m: Machine)
    requires AtInstr(p, m) && InstrAt(p, m).Call? && Step(p, inp, m).Some?
    ensures var m', i, fr := Step(p, inp, m).value, InstrAt(p, m), m.frames[0];
      && i.callee < |p.functions| && |m'.frames| > 1 && m'.frames[2..] == m.frames[1..]
      && m'.frames[0] == Frame(i.callee, 0, 0, m'.frames[0].regs, i.result)
      && m'.frames[1] == fr.(pc := fr.pc + 1)
  {
    hide ValuesOf, BindParams;
  }

  lemma CallStepSim(p: Program, inp: Input, m: Machine, y1: Sym, y0: Sym, paths: seq<seq<nat>>)
    requires Compilable(p) && Sim(p, m, y1, y0, paths) && AtInstr(p, m) && InstrAt(p, m).Call?
    requires Step(p, inp, m).Some?
    ensures Sim(p, Step(p, inp, m).value, InstrumentedStep(p, PassOutput(p), inp, m, y1),
                SightStep(InLayoutOrder, p, inp, m, y0), [[0]] + paths)
  {
    hide Sim, Agree, Items, InstrItems, Lowerable, RunItems, Compilable, InstrumentedStep, RecordedIn, AllValid,
         FrameSim, Waits, SeenMap, Visible, OperandRegs,
         FinalMap, AvailAt, IsPath, SetParams, GetParams, CallFrame, Step, CalleeExprs;
    CompilableParts(p);
    SimTop(p, m, y1, y0, paths);
    SimParts(p, m, y1, y0, paths);
    var fr, i, em := m.frames[0], InstrAt(p, m), SeenMap(p, m.frames[0]);
    CodeOfNode(p, fr);
    SeenAgrees(p, m, paths[0], y1.frames[0], y0);
    OperandsListed(InstrNode(i));
    InstrumentedInstr(p, inp, m, y1);
    ItemsOfInstr(p.layout, em, i);
    CallRun(p, inp, LocalOf(m), em, OperandRegs(InstrNode(i)), i, y1, Visible(InLayoutOrder, p, m, y0));
    CallFrames(p, inp, m);
    var m', y1', y0' := Step(p, inp, m).value, InstrumentedStep(p, PassOutput(p), inp, m, y1),
      SightStep(InLayoutOrder, p, inp, m, y0);
    CalleeSim(p, i.callee, m'.frames[0].regs, i.result, y0'.params);
    CallerSim(p, fr, paths[0], y1.frames[0], y0.frames[0]);
    SimPush(p, m, y1, y0, paths, m', y1', y0', [0]);
  }

  // ----- Returns -----

  lemma ReturnRun(p: Program, inp: Input, l: Local, em: ExprMap, avail: set<Reg>, result: Option<Operand>, y1: Sym,
                  es0: Exprs)
    requires p.layout.ptrBits > 0 && Ready(em, avail, y1, es0) && AllValid(avail, Operands(TermNode(Return(result))))
    ensures Lowerable(Items(p.layout, em, TermNode(Return(result))))
    ensures RunItems(inp, l, Items(p.layout, em, TermNode(Return(result))), y1)
         == y1.(ret := if result.Some? then ExprOf(es0, result.value) else y1.ret)
  {
    hide Agree, RunItems, Lowerable, ViewOf, ExprOf;
    match result
    case None => RunNoItems(inp, l, y1);
    case Some(o) =>
      assert ValidAt(avail, Operands(TermNode(Return(result)))[0]);
      ViewAgrees(em, avail, y1.frames[0], es0, o);
      ViewIsValue(em, y1.frames[0], o);
      RunOneItem(inp, l, SetReturn(GetExprOrNull(em, o)), y1);
  }

  /** The caller receives the result of the call it has been waiting for. */
  lemma ResultSim(p: Program, fr: Frame, path: seq<nat>, es1: Exprs, es0: Exprs, r: Reg, e: Option<Expr>)
    requires Compilable(p) && FrameSim(p, fr, path, {r}, es1, es0) && Waits(p, fr, Some(r))
    ensures FrameSim(p, fr, path, {}, SetExpr(es1, r, e), SetExpr(es0, r, e))
  {
    hide FinalMap, IsPath, Compilable, ViewOf, Recorded, Items, LowerItems, Lowerable, CodeAt, NodeIndex;
    var em, b := MapOf(p, fr.func), p.functions[fr.func].blocks[fr.block];
    CodeOfNode(p, fr.(pc := fr.pc - 1));
    assert NodeIn(b, fr.pc - 1) == InstrNode(b.instrs[fr.pc - 1]);
    assert DefSet(InstrNode(b.instrs[fr.pc - 1])) == {r};
    assert GetExpr(em, Var(r)) == Some(SymReg(r))
        by { CallRecorded(em, SeenMap(p, fr.(pc := fr.pc - 1)), b.instrs[fr.pc - 1], r); }
    forall q | q in Avail(p, fr, path)
      ensures ViewOf(em, SetExpr(es1, r, e), Var(q)) == Lookup(SetExpr(es0, r, e), q)
    {
      if q == r {
        OwnView(em, SetExpr(es1, r, e), r);
      } else {
        assert q in Avail(p, fr, path) - {r};
        OtherView(em, es1, r, e, q);
      }
    }
    AgreeFrom(em, Avail(p, fr, path), SetExpr(es1, r, e), SetExpr(es0, r, e));
    FrameSimTop(p, fr, path, SetExpr(es1, r, e), SetExpr(es0, r, e));
  }

  lemma CallRecorded(final: ExprMap, em: ExprMap, i: Instr, r: Reg)
    requires i.Call? && i.result == Some(r) && RecordedIn(final, em, InstrNode(i))
    ensures GetExpr(final, Var(r)) == Some(SymReg(r))
  {
  }

  lemma OwnView(em: ExprMap, es: Exprs, r: Reg)
    requires GetExpr(em, Var(r)) == Some(SymReg(r))
    ensures ViewOf(em, es, Var(r)) == Lookup(es, r)
  {
  }

  lemma OtherView(em: ExprMap, es: Exprs, r: Reg, e: Option<Expr>, q: Reg)
    requires NoTemps(em) && Root(em, q) != Some(r)
    ensures ViewOf(em, SetExpr(es, r, e), Var(q)) == ViewOf(em, es, Var(q))
  {
  }

  lemma SimPop(p: Program, m: Machine, y1: Sym, y0: Sym, paths: seq<seq<nat>>, m': Machine, y1': Sym, y0': Sym)
    requires Sim(p, m, y1, y0, paths) && |m.frames| > 1
    requires |y1.frames| > 1 && |y0.frames| > 1 && |paths| > 1
    requires m'.frames != [] && m'.frames[1..] == m.frames[2..] && m'.frames[0].returnTo == m.frames[1].returnTo
    requires y1'.frames != [] && y1'.frames[1..] == y1.frames[2..]
    requires y0'.frames != [] && y0'.frames[1..] == y0.frames[2..]
    requires y1'.(frames := y0'.frames) == y0'
    requires FrameSim(p, m'.frames[0], paths[1], {}, y1'.frames[0], y0'.frames[0])
    ensures Sim(p, m', y1', y0', paths[1..])
  {
    hide FrameSim, Waits;
    var paths' := paths[1..];
    forall k | 0 < k < |m'.frames|
      ensures FrameSim(p, m'.frames[k], paths'[k], PendingAt(m', k), y1'.frames[k], y0'.frames[k])
      ensures Waits(p, m'.frames[k], m'.frames[k - 1].returnTo)
    {
      assert m'.frames[k] == m'.frames[1..][k - 1] == m.frames[k + 1];
      assert y1'.frames[k] == y1'.frames[1..][k - 1] == y1.frames[k + 1];
      assert y0'.frames[k] == y0'.frames[1..][k - 1] == y0.frames[k + 1];
      assert m'.frames[k - 1].returnTo == m.frames[k].returnTo by {
        assert k > 1 ==> m'.frames[k - 1] == m'.frames[1..][k - 2];
      }
      assert FrameSim(p, m.frames[k + 1], paths[k + 1], PendingAt(m, k + 1), y1.frames[k + 1], y0.frames[k + 1]);
    }
  }

  lemma SecondFrame(p: Program, m: Machine, y1: Sym, y0: Sym, paths: seq<seq<nat>>)
    requires Sim(p, m, y1, y0, paths) && |m.frames| > 1
    ensures |y1.frames| > 1 && |y0.frames| > 1 && |paths| > 1
    ensures FrameSim(p, m.frames[1], paths[1], Pending(m.frames[0].returnTo), y1.frames[1], y0.frames[1])
    ensures Waits(p, m.frames[1], m.frames[0].returnTo)
  {
    hide FrameSim, Waits;
    assert FrameSim(p, m.frames[1], paths[1], PendingAt(m, 1), y1.frames[1], y0.frames[1]);
  }

  /** Leaving a function with the same return expression on both sides. */
  lemma PopSim(p: Program, m: Machine, y1: Sym, y0: Sym, seen: Exprs, paths: seq<seq<nat>>, result: Option<Operand>,
               y1': Sym)
    requires Compilable(p) && Sim(p, m, y1, y0, paths) && m.frames != [] && StepReturn(m, result).Some?
    requires y0.frames != [] && y1' == y1.(ret := if result.Some? then ExprOf(seen, result.value) else y1.ret)
    requires y1'.frames != []
    ensures paths != [] &&
      Sim(p, StepReturn(m, result).value, PopReturn(y1', m.frames[0].returnTo),
          SymReturn(y0, seen, m.frames[0].returnTo, result), paths[1..])
  {
    hide Sim, FrameSim, Waits, Compilable, ExprOf, SetExpr;
    SimParts(p, m, y1, y0, paths);
    var m', returnTo := StepReturn(m, result).value, m.frames[0].returnTo;
    var z1, z0 := PopReturn(y1', returnTo), SymReturn(y0, seen, returnTo, result);
    SameDepth(p, m, y1, y0, paths);
    if |m.frames| > 1 {
      SecondFrame(p, m, y1, y0, paths);
      if returnTo.Some? {
        ResultSim(p, m.frames[1], paths[1], y1.frames[1], y0.frames[1], returnTo.value, y1'.ret);
        RegsDoNotMatter(p, m.frames[1], m'.frames[0], paths[1], {}, z1.frames[0], z0.frames[0]);
      }
      SimPop(p, m, y1, y0, paths, m', z1, z0);
    } else {
      EmptySim(p, m', z1, z0, paths[1..]);
    }
  }

  lemma SameDepth(p: Program, m: Machine, y1: Sym, y0: Sym, paths: seq<seq<nat>>)
    requires Sim(p, m, y1, y0, paths)
    ensures |m.frames| == |y1.frames| == |y0.frames| == |paths|
  {
    hide FrameSim, Waits;
  }

  lemma EmptySim(p: Program, m: Machine, y1: Sym, y0: Sym, paths: seq<seq<nat>>)
    requires m.frames == [] && y1.frames == [] && y0.frames == [] && paths == []
    requires y1.(frames := y0.frames) == y0
    ensures Sim(p, m, y1, y0, paths)
  {
  }

  lemma RegsDoNotMatter(p: Program, fr: Frame, fr': Frame, path: seq<nat>, pending: set<Reg>, es1: Exprs, es0: Exprs)
    requires FrameSim(p, fr, path, pending, es1, es0)
    requires fr' == fr.(regs := fr'.regs)
    ensures FrameSim(p, fr', path, pending, es1, es0)
  {
    hide Agree, AvailAt, IsPath;
  }

  lemma ReturnStepSim(p: Program, inp: Input, m: Machine, y1: Sym, y0: Sym, paths: seq<seq<nat>>)
    requires Compilable(p) && Sim(p, m, y1, y0, paths) && AtCode(p, m) && !AtInstr(p, m) && BlockAt(p, m).term.Return?
    requires Step(p, inp, m).Some? && paths != []
    ensures Sim(p, Step(p, inp, m).value, InstrumentedStep(p, PassOutput(p), inp, m, y1),
                SightStep(InLayoutOrder, p, inp, m, y0), paths[1..])
  {
    hide Sim, Agree, Items, Lowerable, RunItems, Compilable, InstrumentedStep, RecordedIn, AllValid,
         FinalMap, AvailAt, IsPath, StepReturn, SymReturn, PopReturn, Operands, SeenMap, Visible, OperandRegs;
    CompilableParts(p);
    SimTop(p, m, y1, y0, paths);
    var fr, em, result := m.frames[0], SeenMap(p, m.frames[0]), BlockAt(p, m).term.result;
    var seen := Visible(InLayoutOrder, p, m, y0);
    CodeOfNode(p, fr);
    SeenAgrees(p, m, paths[0], y1.frames[0], y0);
    OperandsListed(NodeAtFrame(p, fr));
    InstrumentedTerm(p, inp, m, y1);
    ReturnRun(p, inp, LocalOf(m), em, OperandRegs(NodeAtFrame(p, fr)), result, y1, seen);
    PopSim(p, m, y1, y0, seen, paths, result, RunNode(p, inp, m, y1));
  }

  // ----- Branches -----

  lemma BranchStepSim(p: Program, inp: Input, m: Machine, y1: Sym, y0: Sym, paths: seq<seq<nat>>)
    requires Compilable(p) && Sim(p, m, y1, y0, paths) && AtCode(p, m) && !AtInstr(p, m) && !BlockAt(p, m).term.Return?
    requires Step(p, inp, m).Some? && paths != []
    ensures Step(p, inp, m).value.frames != []
    ensures Sim(p, Step(p, inp, m).value, InstrumentedStep(p, PassOutput(p), inp, m, y1),
                SightStep(InLayoutOrder, p, inp, m, y0),
                [paths[0] + [Step(p, inp, m).value.frames[0].block]] + paths[1..])
  {
    hide Sim, Agree, Items, Lowerable, RunItems, Compilable, InstrumentedStep, RecordedIn, AllValid,
         FinalMap, AvailAt, IsPath, Successor, Operands, TermPath, RunPhis, SymPhis, PhiValues, IsSuccessor, Instrument,
         SeenMap, Visible, OperandRegs;
    CompilableParts(p);
    SimTop(p, m, y1, y0, paths);
    SimParts(p, m, y1, y0, paths);
    var fr, f, em, term := m.frames[0], FunctionAt(p, m), SeenMap(p, m.frames[0]), BlockAt(p, m).term;
    CodeOfNode(p, fr);
    SeenAgrees(p, m, paths[0], y1.frames[0], y0);
    OperandsListed(NodeAtFrame(p, fr));
    InstrumentedTerm(p, inp, m, y1);
    TermSim(p.layout, inp, em, OperandRegs(NodeAtFrame(p, fr)), term, LocalOf(m), y1, Visible(InLayoutOrder, p, m, y0));
    SuccessorIsSuccessor(fr.regs, term);
    var target := Successor(fr.regs, term).value;
    var es1, es0 := y1.frames[0], y0.frames[0];
    var es1' := RunPhis(FinalPhis(f, fr.func == p.main), f.blocks[target].phis, fr.block, es1, es1);
    var es0' := SymPhis(f.blocks[target].phis, fr.block, es0, es0);
    EnterSim(p, m, paths[0], target, es1, es0);
    assert PassOutput(p)[fr.func].phis == FinalPhis(f, fr.func == p.main) by { PhisOfOutput(p, fr.func); }
    var m', y1', y0' := Step(p, inp, m).value, InstrumentedStep(p, PassOutput(p), inp, m, y1),
      SightStep(InLayoutOrder, p, inp, m, y0);
    SimReplaceTop(p, m, y1, y0, paths, m', y1', y0', paths[0] + [target]);
  }

  lemma PhisOfOutput(p: Program, k: nat)
    requires p.layout.ptrBits > 0 && k < |p.functions|
    ensures k < |PassOutput(p)| && PassOutput(p)[k].phis == FinalPhis(p.functions[k], k == p.main)
  {
    hide FinalPhis, FinalCode;
    PassOutputAt(p, |p.functions|, k);
  }

  lemma EnterSim(p: Program, m: Machine, path: seq<nat>, target: nat, es1: Exprs, es0: Exprs)
    requires Compilable(p) && AtCode(p, m) && !AtInstr(p, m) && At(p, m.frames[0], path)
    requires IsSuccessor(BlockAt(p, m).term, target) && Enter(FunctionAt(p, m), m.frames[0], target).Some?
    requires Agree(MapOf(p, m.frames[0].func), Avail(p, m.frames[0], path), es1, es0)
    ensures var f, fr := FunctionAt(p, m), m.frames[0];
      FrameSim(p, Enter(f, fr, target).value, path + [target], {},
               RunPhis(FinalPhis(f, fr.func == p.main), f.blocks[target].phis, fr.block, es1, es1),
               SymPhis(f.blocks[target].phis, fr.block, es0, es0))
  {
    hide Agree, FinalMap, FinalPhis, Ssa, AvailAt, IsPath, PhiValues, IsSuccessor, RunPhis, SymPhis;
    var f, fr := FunctionAt(p, m), m.frames[0];
    PhisSim(f, fr.func == p.main, path, target, es1, es0, fr.regs);
    FrameSimTop(p, Enter(f, fr, target).value, path + [target],
                RunPhis(FinalPhis(f, fr.func == p.main), f.blocks[target].phis, fr.block, es1, es1),
                SymPhis(f.blocks[target].phis, fr.block, es0, es0));
  }

  // ----- All steps and runs -----

  /** One step of the instrumented program does what the rule says for the expressions that it sees. */
  lemma StepSim(p: Program, inp: Input, m: Machine, y1: Sym, y0: Sym, paths: seq<seq<nat>>)
    returns (paths': seq<seq<nat>>)
    requires Compilable(p) && Sim(p, m, y1, y0, paths) && Step(p, inp, m).Some?
    ensures Sim(p, Step(p, inp, m).value, InstrumentedStep(p, PassOutput(p), inp, m, y1),
                SightStep(InLayoutOrder, p, inp, m, y0), paths')
  {
    hide Sim, Compilable, InstrumentedStep, SymStep, Exec, StepCall, StepTerm;
    CompilableParts(p);
    SimParts(p, m, y1, y0, paths);
    if AtInstr(p, m) {
      if InstrAt(p, m).Call? {
        CallStepSim(p, inp, m, y1, y0, paths);
        paths' := [[0]] + paths;
      } else {
        InstrStepSim(p, inp, m, y1, y0, paths);
        paths' := paths;
      }
    } else if BlockAt(p, m).term.Return? {
      ReturnStepSim(p, inp, m, y1, y0, paths);
      paths' := paths[1..];
    } else {
      BranchStepSim(p, inp, m, y1, y0, paths);
      paths' := [paths[0] + [Step(p, inp, m).value.frames[0].block]] + paths[1..];
    }
  }

  /** The symbolic state of the instrumented program after `n` steps. */
  function InstrumentedRun(p: Program, inp: Input, m: Machine, y: Sym, n: nat): Sym
    requires p.layout.ptrBits > 0
  {
    if n == 0 then y else
    var y' := InstrumentedRun(p, inp, m, y, n - 1);
    match Run(p, inp, m, n - 1)
    case None => y'
    case Some(x) => InstrumentedStep(p, PassOutput(p), inp, x, y')
  }

  /** The instrumented program keeps in step with the rule for what it sees, along every run. */
  lemma {:induction false} RunSim(p: Program, inp: Input, args: Regs, mem: Memory, n: nat)
    returns (paths: seq<seq<nat>>)
    requires Compilable(p)
    requires Run(p, inp, Start(p, args, mem), n).Some?
    ensures var m0 := Start(p, args, mem);
      Sim(p, Run(p, inp, m0, n).value, InstrumentedRun(p, inp, m0, BLANK, n),
          SymRun(InLayoutOrder, p, inp, m0, BLANK, n), paths)
  {
    hide Sim, Compilable, InstrumentedStep, SymStep, Step, Start;
    CompilableParts(p);
    var m0 := Start(p, args, mem);
    if n == 0 {
      paths := [[0]];
      StartSim(p, args, mem);
    } else {
      paths := RunSim(p, inp, args, mem, n - 1);
      paths := StepSim(p, inp, Run(p, inp, m0, n - 1).value, InstrumentedRun(p, inp, m0, BLANK, n - 1),
                       SymRun(InLayoutOrder, p, inp, m0, BLANK, n - 1), paths);
    }
  }

  lemma StartSim(p: Program, args: Regs, mem: Memory)
    requires Compilable(p)
    ensures Sim(p, Start(p, args, mem), BLANK, BLANK, [[0]])
  {
    hide FrameSim;
    MainIsThere(p);
    CalleeSim(p, p.main, args, None, map[]);
    MainFrame(p);
  }

  /** The main function fetches no expressions. */
  lemma MainFrame(p: Program)
    requires Compilable(p) && p.main < |p.functions|
    ensures CallFrame(p, PassOutput(p), p.main, map[]) == map[]
  {
    hide FinalPhis, FinalCode, GetParams;
    PassOutputAt(p, |p.functions|, p.main);
  }

  lemma MainIsThere(p: Program)
    requires Compilable(p)
    ensures p.main < |p.functions|
  {
  }
}
