/** A program that compares a byte of its input with 42, as a witness that the premises of the main
    results can be met together by a run that reaches a symbolic branch. */
module Example {
  import opened BitVectors
  import opened Expressions
  import opened Builders
  import opened FlatShadow
  import opened Programs
  import opened Concolic
  import opened Faithfulness
  import opened Replay
  import opened Runs
  import opened ShortCircuit
  import opened Computations
  import opened Symbolizer
  import opened Visibility
  import opened MissedLookups
  import opened Instrumented
  import opened PassFacts
  import opened SsaForm
  import opened Simulation
  import opened PassTheorems
  import opened Solver

  /** A machine with small addresses. */
  const SMALL := Layout(8, true)

  function Number8(n: Byte): (v: Value)
    ensures v.bits == 8 && v.n == n
  {
    assert Pow2(8) == 256;
    Word(8, n)
  }

  function Entry(): Block {
    Block([], [ReadInput(0, Imm(Number8(16)), Imm(Number8(1))),
               Load(1, 8, true, Imm(Number8(16))),
               Compute(2, Cmp(Eq, 8), [Var(1), Imm(Number8(42))])],
          Branch(Var(2), 1, 2))
  }

  function Compare(): Function {
    Function([], [Entry(), Block([], [], Return(None)), Block([], [], Return(None))])
  }

  const PROG: Program := Program(SMALL, [Compare()], 0)

  function Bit1(b: bool): (v: Value)
    ensures v.bits == 1 && v.n == AsNat(b)
  {
    assert Pow2(1) == 2;
    Word(1, AsNat(b))
  }

  function RegsAt(b: Byte, k: nat): Regs {
    if k == 0 then map[] else if k == 1 then map[0 := Number8(1)]
    else if k == 2 then map[0 := Number8(1), 1 := Number8(b)]
    else map[0 := Number8(1), 1 := Number8(b), 2 := Bit1(b == 42)]
  }

  /** The machine on the input `[b]` after `k` steps. */
  function MachineAt(b: Byte, k: nat): Machine {
    Machine([Frame(0, 0, k, RegsAt(b, k), None)], if k == 0 then map[] else map[16 := b], if k == 0 then 0 else 1)
  }

  const CONDITION := CmpExpr(Eq, InputByte(0), Const(42, 8))

  function SymAt(k: nat): Sym {
    Sym([if k < 2 then map[] else if k == 2 then map[1 := InputByte(0)] else map[1 := InputByte(0), 2 := CONDITION]],
        if k == 0 then map[] else map[16 := InputByte(0)], if k == 0 then 0 else 1, [], map[], None)
  }

  function LocalSymAt(k: nat): SymLocal {
    LocalSym(SymAt(k), SymAt(k).frames[0])
  }

  lemma UnfoldStep(m: Machine, y: Sym, inp: Input, i: Instr)
    requires AtInstr(PROG, m) && InstrAt(PROG, m) == i && !i.Call? && y.frames != []
    ensures SightStep(Everything, PROG, inp, m, y)
      == SymAdvance(y, i, SymExec(SMALL, inp, i, LocalOf(m), LocalSym(y, y.frames[0])))
    ensures Exec(SMALL, inp, i, LocalOf(m)).Some? ==>
      Step(PROG, inp, m) == Some(Advance(m, Exec(SMALL, inp, i, LocalOf(m)).value))
  {
    hide SymExec, SymAdvance, Exec, Advance;
  }

  lemma MachineAdvances(b: Byte, k: nat)
    requires k < 3
    ensures Advance(MachineAt(b, k), LocalOf(MachineAt(b, k + 1))) == MachineAt(b, k + 1)
  {
    hide RegsAt;
    var m, m' := MachineAt(b, k), MachineAt(b, k + 1);
    assert [m.frames[0].(pc := k + 1, regs := RegsAt(b, k + 1))] + m.frames[1..] == m'.frames;
  }

  lemma AtEntry(b: Byte, k: nat)
    requires k < 3
    ensures AtInstr(PROG, MachineAt(b, k)) && InstrAt(PROG, MachineAt(b, k)) == Entry().instrs[k]
      && !Entry().instrs[k].Call?
  {
    hide RegsAt;
  }

  lemma FirstEffect(b: Byte)
    ensures Exec(SMALL, [b], Entry().instrs[0], LocalOf(MachineAt(b, 0))) == Some(LocalOf(MachineAt(b, 1)))
    ensures SymExec(SMALL, [b], Entry().instrs[0], LocalOf(MachineAt(b, 0)), LocalSymAt(0)) == LocalSymAt(1)
  {
    assert Pow2(8) == 256;
    assert [b][0..1] == [b];
    assert Wrap(8, 1) == 1;
    assert StoreBytes(map[], 16, [b]) == map[16 := b];
    assert WriteInput(map[], 16, 0, 1) == map[16 := InputByte(0)];
    var none: Exprs := map[];
    assert SetExpr(none, 0, None) == none;
  }

  lemma FirstStep(b: Byte)
    ensures Step(PROG, [b], MachineAt(b, 0)) == Some(MachineAt(b, 1))
    ensures SightStep(Everything, PROG, [b], MachineAt(b, 0), SymAt(0)) == SymAt(1)
  {
    hide Exec, SymExec;
    FirstEffect(b);
    AdvanceTo(SymAt(0), Entry().instrs[0], SymAt(1));
    MachineAdvances(b, 0);
    AtEntry(b, 0);
    UnfoldStep(MachineAt(b, 0), SymAt(0), [b], Entry().instrs[0]);
  }

  lemma AdvanceTo(y: Sym, i: Instr, y': Sym)
    requires |y.frames| == 1 && y'.frames != [] && Assigned(y.frames[0], i, y'.frames[0]) == y'.frames[0]
    requires |y.frames| == |y'.frames| == 1 && y.params == y'.params && y.ret == y'.ret
    ensures SymAdvance(y, i, LocalSym(y', y'.frames[0])) == y'
  {
    assert [y'.frames[0]] + y.frames[1..] == y'.frames;
  }

  lemma SecondStep(b: Byte)
    ensures Step(PROG, [b], MachineAt(b, 1)) == Some(MachineAt(b, 2))
    ensures SightStep(Everything, PROG, [b], MachineAt(b, 1), SymAt(1)) == SymAt(2)
  {
    var mem: Memory, sh: ShadowMap := map[16 := b], map[16 := InputByte(0)];
    assert Pow2(8) == 256;
    assert Bytes(mem, 16, 1) == [b];
    FromOneByte(true, [b]);
    assert Wrap(8, b) == b by { ModSmall(b, 256); }
    assert Cells(sh, 16, 1)[0] == Some(InputByte(0));
    assert ByteExprs(sh, mem, 16, 1) == [InputByte(0)];
    assert ReadShadow(sh, mem, 16, 1, true) == Some(InputByte(0));
    assert SymExec(SMALL, [b], Entry().instrs[1], LocalOf(MachineAt(b, 1)), LocalSymAt(1)) == LocalSymAt(2);
    AdvanceTo(SymAt(1), Entry().instrs[1], SymAt(2));
    assert Exec(SMALL, [b], Entry().instrs[1], LocalOf(MachineAt(b, 1))) == Some(LocalOf(MachineAt(b, 2)));
    MachineAdvances(b, 1);
    AtEntry(b, 1);
    UnfoldStep(MachineAt(b, 1), SymAt(1), [b], Entry().instrs[1]);
  }

  lemma ThirdStep(b: Byte)
    ensures Step(PROG, [b], MachineAt(b, 2)) == Some(MachineAt(b, 3))
    ensures SightStep(Everything, PROG, [b], MachineAt(b, 2), SymAt(2)) == SymAt(3)
  {
    var regs, es := RegsAt(b, 2), SymAt(2).frames[0];
    var args := Entry().instrs[2].args;
    assert Pow2(8) == 256 && Pow2(1) == 2;
    TwoValues(regs, args[0], args[1]);
    assert args == [args[0], args[1]];
    assert ExprsOf(es, args) == [Some(InputByte(0)), None];
    assert ExprsOf(es, args)[0] == Some(InputByte(0));
    assert LiftedAll([Number8(b), Number8(42)], ExprsOf(es, args)) == [InputByte(0), Const(42, 8)];
    assert Wrap(1, AsNat(b == 42)) == AsNat(b == 42);
    assert ComputeExpr(SMALL, Cmp(Eq, 8), args, regs, es) == Some(CONDITION);
    assert SymExec(SMALL, [b], Entry().instrs[2], LocalOf(MachineAt(b, 2)), LocalSymAt(2)) == LocalSymAt(3);
    AdvanceTo(SymAt(2), Entry().instrs[2], SymAt(3));
    assert Exec(SMALL, [b], Entry().instrs[2], LocalOf(MachineAt(b, 2))) == Some(LocalOf(MachineAt(b, 3)));
    MachineAdvances(b, 2);
    AtEntry(b, 2);
    UnfoldStep(MachineAt(b, 2), SymAt(2), [b], Entry().instrs[2]);
  }

  /** Everything is defined before it is visited. */
  lemma EntrySeen(b: Byte, k: nat)
    requires k <= 3
    ensures AtCode(PROG, MachineAt(b, k))
    ensures SeesAll(InLayoutOrder, PROG, MachineAt(b, k), SymAt(k))
  {
    hide RegsAt, DefinitionsFirst, MissedAt;
    CompareFirst();
    FirstSeesAll(PROG, MachineAt(b, k), SymAt(k));
  }

  lemma SameSteps(sight: Sight, b: Byte, k: nat)
    requires k <= 3
    ensures SightStep(sight, PROG, [b], MachineAt(b, k), SymAt(k))
      == SightStep(Everything, PROG, [b], MachineAt(b, k), SymAt(k))
  {
    hide SightStep, SeesAll;
    EntrySeen(b, k);
    if sight.InLayoutOrder? {
      SeesAllSteps(PROG, [b], MachineAt(b, k), SymAt(k));
    }
  }

  lemma RunOf(sight: Sight, b: Byte)
    ensures var m0 := Start(PROG, map[], map[]);
      forall k | 0 <= k <= 3 ::
        Run(PROG, [b], m0, k) == Some(MachineAt(b, k)) && SymRun(sight, PROG, [b], m0, BLANK, k) == SymAt(k)
  {
    hide Step, SightStep;
    var m0 := Start(PROG, map[], map[]);
    assert m0 == MachineAt(b, 0) && BLANK == SymAt(0);
    FirstStep(b);
    SecondStep(b);
    ThirdStep(b);
    SameSteps(sight, b, 0);
    SameSteps(sight, b, 1);
    SameSteps(sight, b, 2);
    assert Run(PROG, [b], m0, 0) == Some(MachineAt(b, 0)) && SymRun(sight, PROG, [b], m0, BLANK, 0) == SymAt(0);
    assert Run(PROG, [b], m0, 1) == Some(MachineAt(b, 1)) && SymRun(sight, PROG, [b], m0, BLANK, 1) == SymAt(1);
    assert Run(PROG, [b], m0, 2) == Some(MachineAt(b, 2)) && SymRun(sight, PROG, [b], m0, BLANK, 2) == SymAt(2);
    assert Run(PROG, [b], m0, 3) == Some(MachineAt(b, 3)) && SymRun(sight, PROG, [b], m0, BLANK, 3) == SymAt(3);
  }

  lemma CompareNodes()
    ensures var f := Compare();
      Nodes(f) == [InstrNode(f.blocks[0].instrs[0]), InstrNode(f.blocks[0].instrs[1]), InstrNode(f.blocks[0].instrs[2]),
                   TermNode(f.blocks[0].term), TermNode(Return(None)), TermNode(Return(None))]
  {
    var f := Compare();
    assert BlockNodes(f.blocks[0]) == [InstrNode(f.blocks[0].instrs[0]), InstrNode(f.blocks[0].instrs[1]),
                                       InstrNode(f.blocks[0].instrs[2]), TermNode(f.blocks[0].term)];
    assert BlockNodes(f.blocks[1]) == [TermNode(Return(None))];
    assert AllInstructions(f.blocks, 1) == BlockNodes(f.blocks[0]);
    assert AllInstructions(f.blocks, 2) == BlockNodes(f.blocks[0]) + BlockNodes(f.blocks[1]);
    assert AllInstructions(f.blocks, 3) == BlockNodes(f.blocks[0]) + BlockNodes(f.blocks[1]) + BlockNodes(f.blocks[2]);
  }

  lemma CompareOnce()
    ensures SingleAssignment(Compare())
  {
    hide Number8, Nodes;
    CompareNodes();
    var nodes := Nodes(Compare());
    assert forall k | 0 <= k < |nodes| :: Defines(nodes[k]) == if k < 3 then Some(k) else None;
  }

  lemma CompareEarlier(k: nat, j: nat)
    requires k < |Nodes(Compare())| && j < |Operands(Nodes(Compare())[k])|
    ensures DefinedEarlier(Compare(), k, Operands(Nodes(Compare())[k])[j])
  {
    hide Number8, Nodes;
    CompareNodes();
    var nodes := Nodes(Compare());
    assert Defines(nodes[1]) == Some(1) && Defines(nodes[2]) == Some(2);
  }

  lemma CompareFirst()
    ensures DefinitionsFirst(Compare())
  {
    hide Nodes, Operands, DefinedEarlier, Compare;
    forall k, j | 0 <= k < |Nodes(Compare())| && 0 <= j < |Operands(Nodes(Compare())[k])|
      ensures DefinedEarlier(Compare(), k, Operands(Nodes(Compare())[k])[j])
    {
      CompareEarlier(k, j);
    }
  }

  lemma CompareUses(path: seq<nat>, pc: nat)
    requires IsPath(Compare(), path) && pc <= |Compare().blocks[Last(path)].instrs|
    ensures UsesDefined(Compare(), path, pc)
  {
    hide DefsUpTo, DefsThrough;
    if Last(path) == 0 {
      EntryDefs(pc);
    }
  }

  lemma EntryDefs(pc: nat)
    requires pc <= 3
    ensures pc >= 2 ==> 1 in DefsUpTo(Entry(), pc)
    ensures pc == 3 ==> 2 in DefsUpTo(Entry(), pc)
  {
    var b := Entry();
    if pc >= 2 {
      assert BlockNodes(b)[1] == InstrNode(b.instrs[1]);
      SiteInDefs(b, pc, 1, 1);
    }
    if pc == 3 {
      assert BlockNodes(b)[2] == InstrNode(b.instrs[2]);
      SiteInDefs(b, pc, 2, 2);
    }
  }

  lemma CompareIsSsa()
    ensures Ssa(Compare())
  {
    hide SingleAssignment, IsSuccessor, UsesDefined, Entry;
    CompareOnce();
    CompareHasNoPhis();
    forall path, pc: nat | IsPath(Compare(), path) && pc <= |Compare().blocks[Last(path)].instrs|
      ensures UsesDefined(Compare(), path, pc)
    {
      CompareUses(path, pc);
    }
    forall path, target: nat | IsPath(Compare(), path) && target < 3
      ensures IncomingDefined(Compare(), path, target)
    {
    }
  }

  lemma CompareHasNoPhis()
    ensures |Compare().blocks| == 3 && forall k | 0 <= k < 3 :: Compare().blocks[k].phis == []
  {
  }

  lemma ProgIsCompilable()
    ensures Compilable(PROG)
  {
    hide Ssa, Compare;
    CompareIsSsa();
  }

  lemma NothingDropped(b: Byte)
    ensures FaithfulRun(InLayoutOrder, PROG, [b], Start(PROG, map[], map[]), BLANK, 3)
    ensures LosslessRun(InLayoutOrder, PROG, [b], Start(PROG, map[], map[]), BLANK, 3)
  {
    hide Run, SymRun, InstrFaithful, MissedAt;
    RunOf(InLayoutOrder, b);
    forall k: nat | k < 3
      ensures StepFaithfulAt(PROG, MachineAt(b, k), AsSeen(InLayoutOrder, PROG, MachineAt(b, k), SymAt(k)))
      ensures Lossless(InLayoutOrder, PROG, MachineAt(b, k), SymAt(k))
    {
      AtEntry(b, k);
      EntrySeen(b, k);
      EntryFaithful(b, k);
    }
  }

  lemma EntryFaithful(b: Byte, k: nat)
    requires k < 3
    ensures InstrFaithful(SMALL, Entry().instrs[k], RegsAt(b, k), LocalSymAt(k))
  {
    if k == 2 {
      var args := Entry().instrs[2].args;
      TwoValues(RegsAt(b, 2), args[0], args[1]);
      assert args == [args[0], args[1]];
    }
  }

  lemma ConditionMeaning(b: Byte)
    ensures SortOf(CONDITION).BoolSort? && Eval(CONDITION, [b]) == AsNat(b == 42)
  {
    assert Pow2(8) == 256;
    assert Wrap(8, 42) == 42;
  }

  lemma BranchIsSeen(b: Byte)
    ensures Compilable(PROG) && AtSymbolicBranch(PROG, [b], Start(PROG, map[], map[]), 3, CONDITION)
    ensures InstrumentedRun(PROG, [b], Start(PROG, map[], map[]), BLANK, 3).path == []
  {
    hide Compilable, Run, SymRun, InstrumentedRun, Eval, SortOf, ViewOf, SeenMap;
    ProgIsCompilable();
    RunOf(InLayoutOrder, b);
    PassRefinesVisibleRule(PROG, [b], map[], map[], 3);
    EntrySeen(b, 3);
    assert Operands(TermNode(Entry().term)) == [Var(2)];
    assert Var(2) in Operands(Next(PROG, MachineAt(b, 3)));
  }

  /** The premises of the theorem on reported inputs hold for the run on any byte but 42 and the input
      42, and the two runs do leave the branch on different sides. */
  lemma FindsFortyTwo(b: Byte)
    requires b != 42
    ensures Compilable(PROG)
    ensures var m0 := Start(PROG, map[], map[]);
      && AtSymbolicBranch(PROG, [b], m0, 3, CONDITION)
      && FaithfulRun(InLayoutOrder, PROG, [b], m0, BLANK, 3) && NothingNeededLost(PROG, [b], m0, 3)
      && PathHolds(InstrumentedRun(PROG, [b], m0, BLANK, 3).path + [Constraint(CONDITION, true)], [42])
      && Run(PROG, [b], m0, 3) == Some(MachineAt(b, 3)) && Run(PROG, [42], m0, 3) == Some(MachineAt(42, 3))
    ensures Successor(MachineAt(b, 3).frames[0].regs, Entry().term) == Some(2)
    ensures Successor(MachineAt(42, 3).frames[0].regs, Entry().term) == Some(1)
  {
    hide Compilable, Run, SymRun, InstrumentedRun, FaithfulRun, LosslessRun, NothingNeededLost, Eval, SortOf,
         AtSymbolicBranch;
    BranchIsSeen(b);
    RunOf(InLayoutOrder, b);
    RunOf(InLayoutOrder, 42);
    NothingDropped(b);
    LosslessNeedsNothing(PROG, [b], Start(PROG, map[], map[]), 3);
    ConditionMeaning(42);
  }
}
