/** The compiler pass: it visits all instructions of a function, records symbolic computations and
    phi nodes on the way, then finalizes the phi nodes and short-circuits the computations. */
module Symbolizer {
  import opened BitVectors
  import opened Expressions
  import opened Builders
  import opened FlatShadow
  import opened Programs
  import opened Concolic
  import opened ShortCircuit
  import opened Computations

  /** What the pass visits: `instructions(F)`, in layout order. */
  datatype Node = PhiNode(phi: Phi) | InstrNode(i: Instr) | TermNode(t: Term)

  /** Code that the visitors emit beside an instruction.  A `Comp` is a recorded expression use. */
  datatype Item =
    | Comp(c: Computation, result: Option<Reg>)
    | ReadMem(dst: Reg, addr: Operand, size: nat, le: bool)
    | WriteMem(addr: Operand, size: nat, op: SymOperand, le: bool)
    | CopyMem(dest: Operand, src: Operand, len: Operand)
    | FillMem(dest: Operand, op: SymOperand, len: Operand)
    | ReadFile(dst: Reg, buf: Operand, len: Operand)
    | SwitchPush(op: SymOperand, cond: Operand, cases: seq<(Value, nat)>)
    | SetParam(index: nat, op: SymOperand)
    | SetReturn(op: SymOperand)

  datatype Stmt = Plain(item: Item) | Guarded(code: seq<Code>)

  /** A symbolic phi node, keyed by the block that control comes from. */
  type SymPhi = map<nat, SymOperand>

  /** An instrumented function: whether it fetches its parameters' expressions on entry, the
      symbolic phi nodes, and the code emitted for each visited node. */
  datatype SymFunction = SymFunction(symbolicParams: set<Reg>, phis: map<Reg, SymPhi>, code: seq<seq<Stmt>>)

  // ----- Nodes -----

  function BlockNodes(b: Block): (nodes: seq<Node>)
    ensures |nodes| == |b.phis| + |b.instrs| + 1
  {
    seq(|b.phis|, k requires 0 <= k < |b.phis| => PhiNode(b.phis[k]))
    + seq(|b.instrs|, k requires 0 <= k < |b.instrs| => InstrNode(b.instrs[k]))
    + [TermNode(b.term)]
  }

  function AllInstructions(blocks: seq<Block>, n: nat): seq<Node>
    requires n <= |blocks|
  {
    if n == 0 then [] else AllInstructions(blocks, n - 1) + BlockNodes(blocks[n - 1])
  }

  /** The position of the instruction at `pc` in block `b` (the terminator comes after the last one). */
  function NodeIndex(blocks: seq<Block>, b: nat, pc: nat): nat
    requires b < |blocks|
  {
    |AllInstructions(blocks, b)| + |blocks[b].phis| + pc
  }

  function PhiIndex(blocks: seq<Block>, b: nat, k: nat): nat
    requires b < |blocks|
  {
    |AllInstructions(blocks, b)| + k
  }

  /** The node at position `pc` of a block, phi nodes aside. */
  function NodeIn(b: Block, pc: nat): Node {
    if pc < |b.instrs| then InstrNode(b.instrs[pc]) else TermNode(b.term)
  }

  function Defines(node: Node): Option<Reg> {
    match node
    case PhiNode(phi) => Some(phi.dst)
    case InstrNode(i) => Target(i)
    case TermNode(_) => None
  }

  /** The operands whose expressions the pass looks up while visiting a node. */
  function Operands(node: Node): seq<Operand> {
    match node
    case PhiNode(_) => []
    case InstrNode(Compute(_, _, args)) => args
    case InstrNode(Gep(_, base, steps)) => [base] + IndexOperands(steps)
    case InstrNode(Copy(_, src, _)) => [src]
    case InstrNode(Select(_, cond, _, _)) => [cond]
    case InstrNode(Load(_, _, _, addr)) => [addr]
    case InstrNode(Store(val, _, _, addr)) => [val, addr]
    case InstrNode(MemCpy(dest, src, len)) => [dest, src, len]
    case InstrNode(MemMove(dest, src, len)) => [dest, src, len]
    case InstrNode(MemSet(dest, val, len)) => [dest, val, len]
    case InstrNode(ReadInput(_, buf, len)) => [buf, len]
    case InstrNode(Call(_, _, args)) => args
    case TermNode(Branch(cond, _, _)) => [cond]
    case TermNode(Switch(cond, _, _)) => [cond]
    case TermNode(Return(Some(o))) => [o]
    case TermNode(_) => []
  }

  // ----- Emitting code -----

  const TRUE_IMM: Operand := Imm(MakeValue(1, 1))

  /** `tryAlternative`. */
  function AlternativeComp(em: ExprMap, o: Operand): Computation {
    Computation([RtCall(LiftOf(o), []),
                 RtCall(Build(RtCmp(Eq)), [GetExprOrNull(em, o), Temp(0)]),
                 RtCall(PushConstraint(TRUE_IMM), [Temp(1)])],
                [SymInput(o, 0, 1)])
  }

  function AlternativeItems(em: ExprMap, o: Operand): seq<Item> {
    if GetExpr(em, o).None? then [] else [Comp(AlternativeComp(em, o), None)]
  }

  function PushComp(em: ExprMap, cond: Operand): Computation {
    AppendCall(em, EMPTY_COMPUTATION, PushConstraint(cond), [Symbolic(cond)])
  }

  function PushItems(em: ExprMap, cond: Operand): seq<Item> {
    if GetExpr(em, cond).None? then [] else [Comp(PushComp(em, cond), None)]
  }

  function SymbolicArgs(os: seq<Operand>): (r: seq<Arg>)
    ensures |r| == |os|
  {
    seq(|os|, k requires 0 <= k < |os| => Symbolic(os[k]))
  }

  predicate NoneSymbolic(em: ExprMap, os: seq<Operand>) {
    forall k | 0 <= k < |os| :: GetExpr(em, os[k]).None?
  }

  function OpComp(lay: Layout, em: ExprMap, op: Op, args: seq<Operand>): Computation
    requires ValidOp(op)
  {
    AppendCall(em, EMPTY_COMPUTATION, Build(RtOf(lay, op)), SymbolicArgs(args))
  }

  function PtrImm(lay: Layout, n: nat): Operand
    requires lay.ptrBits > 0
  {
    Imm(MakeValue(lay.ptrBits, n))
  }

  datatype GepState = GepState(c: Computation, current: Arg)

  /** The calls for one index; the sum so far is `current`. */
  function GepStepComp(lay: Layout, em: ExprMap, step: GepStep, g: GepState): GepState
    requires lay.ptrBits > 0
  {
    match step
    case Field(_, offset) =>
      GepState(AppendCall(em, g.c, Build(RtBin(Add)), [Symbolic(PtrImm(lay, offset)), g.current]), Earlier(|g.c.calls|))
    case Element(index, indexBits, size) =>
      if IsZeroIndex(step) then g else
      var n := |g.c.calls|;
      var scaled :=
        if indexBits != lay.ptrBits then
          AppendCall(em, AppendCall(em, g.c, Build(RtZExt((lay.ptrBits - indexBits) % 256)), [Symbolic(index)]),
                     Build(RtBin(Mul)), [Earlier(n), Symbolic(PtrImm(lay, size))])
        else AppendCall(em, g.c, Build(RtBin(Mul)), [Symbolic(index), Symbolic(PtrImm(lay, size))]);
      GepState(AppendCall(em, scaled, Build(RtBin(Add)), [Earlier(|scaled.calls| - 1), g.current]),
               Earlier(|scaled.calls|))
  }

  function GepSteps(lay: Layout, em: ExprMap, base: Operand, steps: seq<GepStep>, n: nat): GepState
    requires lay.ptrBits > 0 && n <= |steps|
  {
    if n == 0 then GepState(EMPTY_COMPUTATION, Symbolic(base))
    else GepStepComp(lay, em, steps[n - 1], GepSteps(lay, em, base, steps, n - 1))
  }

  function GepComp(lay: Layout, em: ExprMap, base: Operand, steps: seq<GepStep>): Computation
    requires lay.ptrBits > 0
  {
    GepSteps(lay, em, base, steps, |steps|).c
  }

  function ParamItems(em: ExprMap, args: seq<Operand>, n: nat): seq<Item>
    requires n <= |args|
  {
    if n == 0 then [] else ParamItems(em, args, n - 1) + [SetParam(n - 1, GetExprOrNull(em, args[n - 1]))]
  }

  /** The code emitted for a node, given the expressions known when it is visited. */
  function Items(lay: Layout, em: ExprMap, node: Node): seq<Item>
    requires lay.ptrBits > 0
  {
    match node
    case PhiNode(_) => []
    case InstrNode(i) => InstrItems(lay, em, i)
    case TermNode(Jump(_)) => []
    case TermNode(Branch(cond, _, _)) => PushItems(em, cond)
    case TermNode(Switch(cond, cases, _)) =>
      if GetExpr(em, cond).None? then [] else [SwitchPush(GetExprOrNull(em, cond), cond, cases)]
    case TermNode(Return(Some(o))) => [SetReturn(GetExprOrNull(em, o))]
    case TermNode(Return(None)) => []
  }

  function InstrItems(lay: Layout, em: ExprMap, i: Instr): seq<Item>
    requires lay.ptrBits > 0
  {
    match i
    case Compute(dst, op, args) =>
      if NoneSymbolic(em, args) || !ValidOp(op) then [] else [Comp(OpComp(lay, em, op, args), Some(dst))]
    case Gep(dst, base, steps) =>
      if NoneSymbolic(em, [base] + IndexOperands(steps)) || AllZero(steps) then []
      else [Comp(GepComp(lay, em, base, steps), Some(dst))]
    case Copy(_, _, _) => []
    case Select(_, cond, _, _) => PushItems(em, cond)
    case Load(dst, bits, scalar, addr) =>
      AlternativeItems(em, addr) + [ReadMem(dst, addr, StoreSize(bits), IsLittleEndian(lay, scalar))]
    case Store(val, bits, _, addr) =>
      AlternativeItems(em, addr) + [WriteMem(addr, StoreSize(bits), GetExprOrNull(em, val), lay.littleEndian)]
    case MemCpy(dest, src, len) => TransferItems(em, dest, src, len)
    case MemMove(dest, src, len) => TransferItems(em, dest, src, len)
    case MemSet(dest, val, len) =>
      AlternativeItems(em, dest) + AlternativeItems(em, len) + [FillMem(dest, GetExprOrNull(em, val), len)]
    case ReadInput(dst, buf, len) =>
      AlternativeItems(em, buf) + AlternativeItems(em, len) + [ReadFile(dst, buf, len)]
    case Call(result, _, args) =>
      ParamItems(em, args, |args|) + if result.Some? then [SetReturn(Null)] else []
  }

  function TransferItems(em: ExprMap, dest: Operand, src: Operand, len: Operand): seq<Item> {
    AlternativeItems(em, dest) + AlternativeItems(em, src) + AlternativeItems(em, len) + [CopyMem(dest, src, len)]
  }

  /** The operand recorded for the value that a node defines, if any. */
  function Recorded(em: ExprMap, node: Node): Option<SymOperand> {
    match node
    case PhiNode(phi) => Some(SymReg(phi.dst))
    case InstrNode(Compute(dst, op, args)) =>
      if NoneSymbolic(em, args) || !ValidOp(op) then None else Some(SymReg(dst))
    case InstrNode(Gep(dst, base, steps)) =>
      if NoneSymbolic(em, [base] + IndexOperands(steps)) then None
      else if AllZero(steps) then GetExpr(em, base)
      else Some(SymReg(dst))
    case InstrNode(Copy(_, src, _)) => GetExpr(em, src)
    case InstrNode(Load(dst, _, _, _)) => Some(SymReg(dst))
    case InstrNode(ReadInput(dst, _, _)) => Some(SymReg(dst))
    case InstrNode(Call(result, _, _)) => if result.Some? then Some(SymReg(result.value)) else None
    case InstrNode(_) => None
    case TermNode(_) => None
  }

  function Record(em: ExprMap, node: Node): ExprMap {
    match (Defines(node), Recorded(em, node))
    case (Some(r), Some(op)) => em[r := op]
    case _ => em
  }

  /** The map after the first `n` nodes have been visited. */
  function MapAfter(em: ExprMap, nodes: seq<Node>, n: nat): ExprMap
    requires n <= |nodes|
  {
    if n == 0 then em else Record(MapAfter(em, nodes, n - 1), nodes[n - 1])
  }

  /** A symbolic phi node whose incoming values are to be filled in later. */
  function DummyPhi(phi: Phi): SymPhi {
    map b | b in phi.incoming :: Null
  }

  function ParamMap(params: set<Reg>): ExprMap {
    map r | r in params :: SymReg(r)
  }

  /** Besides the operands that are looked up, a node uses what a phi node receives and what a select
      instruction chooses from. */
  predicate Uses(node: Node, o: Operand) {
    match node
    case PhiNode(phi) => o in phi.incoming.Values
    case InstrNode(Select(_, cond, ifTrue, ifFalse)) => o in [cond, ifTrue, ifFalse]
    case _ => o in Operands(node)
  }

  predicate HasUses(f: Function, r: Reg) {
    exists k | 0 <= k < |Nodes(f)| :: Uses(Nodes(f)[k], Var(r))
  }

  /** The parameters that have uses. */
  function Params(f: Function): set<Reg> {
    set r | r in f.params && HasUses(f, r)
  }

  /** The parameters that have expressions: none in the main function. */
  function SymbolicParams(f: Function, isMain: bool): set<Reg> {
    if isMain then {} else Params(f)
  }

  /** A parameter that is an operand has uses. */
  lemma OperandHasUses(f: Function, k: nat, r: Reg)
    requires k < |Nodes(f)| && Uses(Nodes(f)[k], Var(r))
    ensures r in f.params ==> r in Params(f)
  {
  }

  // ----- Finalizing phi nodes -----

  /** A phi node that receives only values known to be concrete at compile time. */
  predicate OnlyConcrete(em: ExprMap, phi: Phi) {
    forall b | b in phi.incoming :: GetExpr(em, phi.incoming[b]).None?
  }

  function PhisOf(nodes: seq<Node>, n: nat): seq<Phi>
    requires n <= |nodes|
  {
    if n == 0 then [] else PhisOf(nodes, n - 1) + if nodes[n - 1].PhiNode? then [nodes[n - 1].phi] else []
  }

  function Erased(em: ExprMap, phis: seq<Phi>, n: nat): set<Reg>
    requires n <= |phis|
  {
    if n == 0 then {} else Erased(em, phis, n - 1) + if OnlyConcrete(em, phis[n - 1]) then {phis[n - 1].dst} else {}
  }

  function IncomingExprs(em: ExprMap, phi: Phi): SymPhi {
    map b | b in phi.incoming :: GetExprOrNull(em, phi.incoming[b])
  }

  function PatchedPhis(em: ExprMap, phis: seq<Phi>, n: nat): map<Reg, SymPhi>
    requires n <= |phis|
  {
    if n == 0 then map[] else
    var rest := PatchedPhis(em, phis, n - 1);
    if OnlyConcrete(em, phis[n - 1]) then rest else rest[phis[n - 1].dst := IncomingExprs(em, phis[n - 1])]
  }

  // ----- Replacing all uses of erased symbolic phi nodes by null -----

  function Subst(gone: set<Reg>, op: SymOperand): SymOperand {
    if op.SymReg? && op.r in gone then Null else op
  }

  function SubstArgs(gone: set<Reg>, args: seq<SymOperand>): (r: seq<SymOperand>)
    ensures |r| == |args|
  {
    seq(|args|, k requires 0 <= k < |args| => Subst(gone, args[k]))
  }

  function SubstCalls(gone: set<Reg>, calls: seq<RtCall>): (r: seq<RtCall>)
    ensures |r| == |calls|
  {
    seq(|calls|, k requires 0 <= k < |calls| => calls[k].(args := SubstArgs(gone, calls[k].args)))
  }

  function SubstItem(gone: set<Reg>, item: Item): Item {
    match item
    case Comp(c, dst) => Comp(c.(calls := SubstCalls(gone, c.calls)), dst)
    case WriteMem(addr, size, op, le) => WriteMem(addr, size, Subst(gone, op), le)
    case FillMem(dest, op, len) => FillMem(dest, Subst(gone, op), len)
    case SwitchPush(op, cond, cases) => SwitchPush(Subst(gone, op), cond, cases)
    case SetParam(index, op) => SetParam(index, Subst(gone, op))
    case SetReturn(op) => SetReturn(Subst(gone, op))
    case _ => item
  }

  function SubstItems(gone: set<Reg>, items: seq<Item>): (r: seq<Item>)
    ensures |r| == |items|
  {
    seq(|items|, k requires 0 <= k < |items| => SubstItem(gone, items[k]))
  }

  function SubstPhi(gone: set<Reg>, phi: SymPhi): SymPhi {
    map b | b in phi :: Subst(gone, phi[b])
  }

  function SubstMap(gone: set<Reg>, em: ExprMap): ExprMap {
    map r | r in em :: Subst(gone, em[r])
  }

  // ----- Short-circuiting -----

  predicate LowerableItem(item: Item) {
    item.Comp? ==> WellFormed(item.c)
  }

  function LowerItem(item: Item): Stmt
    requires LowerableItem(item)
  {
    match item
    case Comp(c, dst) => Guarded(Lower(c, dst))
    case _ => Plain(item)
  }

  predicate Lowerable(items: seq<Item>) {
    forall k | 0 <= k < |items| :: LowerableItem(items[k])
  }

  function LowerItems(items: seq<Item>): (r: seq<Stmt>)
    requires Lowerable(items)
    ensures |r| == |items|
  {
    seq(|items|, k requires 0 <= k < |items| => LowerItem(items[k]))
  }

  // ----- Every emitted computation is well-formed -----

  lemma AppendWellFormed(em: ExprMap, c: Computation, callee: Callee, args: seq<Arg>)
    requires Ordered(c) && NoTemps(em)
    requires forall i | 0 <= i < |args| :: args[i].Earlier? ==> args[i].k < |c.calls|
    requires exists i :: 0 <= i < |args| && args[i].Symbolic?
    ensures WellFormed(AppendCall(em, c, callee, args)) && Ordered(AppendCall(em, c, callee, args))
  {
    AppendCallOrdered(em, c, callee, args);
    var i :| 0 <= i < |args| && args[i].Symbolic?;
    var k := FindNewIndex(em, c, callee, args, |args|, i);
    OrderedIsWellFormed(AppendCall(em, c, callee, args));
  }

  lemma AlternativeWellFormed(em: ExprMap, o: Operand)
    requires NoTemps(em)
    ensures WellFormed(AlternativeComp(em, o)) && Ordered(AlternativeComp(em, o))
  {
    var c := AlternativeComp(em, o);
    assert c.calls[1].args == [GetExprOrNull(em, o), Temp(0)];
    assert OperandAt(c.calls, c.inputs[0]) == GetExprOrNull(em, o);
    OrderedIsWellFormed(c);
  }

  lemma PushWellFormed(em: ExprMap, cond: Operand)
    requires NoTemps(em)
    ensures WellFormed(PushComp(em, cond)) && Ordered(PushComp(em, cond))
  {
    var args := [Symbolic(cond)];
    assert args[0].Symbolic?;
    AppendWellFormed(em, EMPTY_COMPUTATION, PushConstraint(cond), args);
  }

  lemma OpWellFormed(lay: Layout, em: ExprMap, op: Op, args: seq<Operand>)
    requires NoTemps(em) && ValidOp(op) && args != []
    ensures WellFormed(OpComp(lay, em, op, args)) && Ordered(OpComp(lay, em, op, args))
  {
    assert SymbolicArgs(args)[0].Symbolic?;
    AppendWellFormed(em, EMPTY_COMPUTATION, Build(RtOf(lay, op)), SymbolicArgs(args));
  }

  predicate GepStateOk(g: GepState) {
    && Ordered(g.c)
    && (g.current.Earlier? ==> g.current.k < |g.c.calls|)
    && (g.c.calls == [] <==> g.current.Symbolic?)
    && (g.c.calls != [] ==> g.c.inputs != [])
  }

  lemma GepStepOk(lay: Layout, em: ExprMap, step: GepStep, g: GepState)
    requires lay.ptrBits > 0 && NoTemps(em) && GepStateOk(g)
    ensures GepStateOk(GepStepComp(lay, em, step, g))
    ensures !(step.Element? && IsZeroIndex(step)) ==> GepStepComp(lay, em, step, g).c.calls != []
  {
    hide Ordered, WellFormed, AppendCall, PtrImm;
    match step
    case Field(_, offset) =>
      AppendOk(em, g.c, Build(RtBin(Add)), [Symbolic(PtrImm(lay, offset)), g.current], 0);
    case Element(index, indexBits, size) =>
      if !IsZeroIndex(step) {
        var n := |g.c.calls|;
        var scaled;
        if indexBits != lay.ptrBits {
          var fn := Build(RtZExt((lay.ptrBits - indexBits) % 256));
          AppendOk(em, g.c, fn, [Symbolic(index)], 0);
          var wide := AppendCall(em, g.c, fn, [Symbolic(index)]);
          AppendOk(em, wide, Build(RtBin(Mul)), [Earlier(n), Symbolic(PtrImm(lay, size))], 1);
          scaled := AppendCall(em, wide, Build(RtBin(Mul)), [Earlier(n), Symbolic(PtrImm(lay, size))]);
        } else {
          AppendOk(em, g.c, Build(RtBin(Mul)), [Symbolic(index), Symbolic(PtrImm(lay, size))], 0);
          scaled := AppendCall(em, g.c, Build(RtBin(Mul)), [Symbolic(index), Symbolic(PtrImm(lay, size))]);
        }
        AppendCallOrdered(em, scaled, Build(RtBin(Add)), [Earlier(|scaled.calls| - 1), g.current]);
        AppendGrows(em, scaled, Build(RtBin(Add)), [Earlier(|scaled.calls| - 1), g.current]);
      }
  }

  lemma AppendGrows(em: ExprMap, c: Computation, callee: Callee, args: seq<Arg>)
    ensures |AppendCall(em, c, callee, args).calls| == |c.calls| + 1
    ensures |AppendCall(em, c, callee, args).inputs| >= |c.inputs|
  {
  }

  lemma AppendOk(em: ExprMap, c: Computation, callee: Callee, args: seq<Arg>, i: nat)
    requires Ordered(c) && NoTemps(em)
    requires forall j | 0 <= j < |args| :: args[j].Earlier? ==> args[j].k < |c.calls|
    requires i < |args| && args[i].Symbolic?
    ensures var c' := AppendCall(em, c, callee, args);
      Ordered(c') && |c'.calls| == |c.calls| + 1 && c'.inputs != []
  {
    AppendWellFormed(em, c, callee, args);
  }

  lemma {:induction false} GepStepsOk(lay: Layout, em: ExprMap, base: Operand, steps: seq<GepStep>, n: nat)
    requires lay.ptrBits > 0 && NoTemps(em) && n <= |steps|
    ensures GepStateOk(GepSteps(lay, em, base, steps, n))
    ensures (exists i :: 0 <= i < n && !(steps[i].Element? && IsZeroIndex(steps[i]))) ==>
      GepSteps(lay, em, base, steps, n).c.calls != []
  {
    hide GepStepComp, Ordered, IsZeroIndex;
    if n == 0 {
      EmptyOk(base);
    } else {
      GepStepsOk(lay, em, base, steps, n - 1);
      GepStepOk(lay, em, steps[n - 1], GepSteps(lay, em, base, steps, n - 1));
      GepStepKeepsCalls(lay, em, steps[n - 1], GepSteps(lay, em, base, steps, n - 1));
    }
  }

  lemma EmptyOk(base: Operand)
    ensures GepStateOk(GepState(EMPTY_COMPUTATION, Symbolic(base)))
  {
  }

  lemma GepStepKeepsCalls(lay: Layout, em: ExprMap, step: GepStep, g: GepState)
    requires lay.ptrBits > 0
    ensures |GepStepComp(lay, em, step, g).c.calls| >= |g.c.calls|
  {
  }

  lemma GepWellFormed(lay: Layout, em: ExprMap, base: Operand, steps: seq<GepStep>)
    requires lay.ptrBits > 0 && NoTemps(em) && !AllZero(steps)
    ensures WellFormed(GepComp(lay, em, base, steps)) && Ordered(GepComp(lay, em, base, steps))
  {
    hide Ordered, WellFormed, GepSteps;
    GepStepsOk(lay, em, base, steps, |steps|);
    var i :| 0 <= i < |steps| && !IsZeroIndex(steps[i]);
    OrderedIsWellFormed(GepComp(lay, em, base, steps));
  }

  lemma ItemsLowerable(lay: Layout, em: ExprMap, node: Node)
    requires lay.ptrBits > 0 && NoTemps(em)
    ensures Lowerable(Items(lay, em, node))
  {
    hide WellFormed, OpComp, GepComp, AlternativeItems, PushComp, ParamItems;
    forall o
      ensures Lowerable(AlternativeItems(em, o))
    {
      AlternativeLowerable(em, o);
    }
    match node
    case InstrNode(Compute(_, op, args)) =>
      if !NoneSymbolic(em, args) && ValidOp(op) {
        OpWellFormed(lay, em, op, args);
      }
    case InstrNode(Gep(_, base, steps)) =>
      if !AllZero(steps) {
        GepWellFormed(lay, em, base, steps);
      }
    case InstrNode(Select(_, cond, _, _)) => PushWellFormed(em, cond);
    case InstrNode(Call(_, _, args)) => ParamItemsLowerable(em, args, |args|);
    case TermNode(Branch(cond, _, _)) => PushWellFormed(em, cond);
    case _ =>
  }

  lemma AlternativeLowerable(em: ExprMap, o: Operand)
    requires NoTemps(em)
    ensures Lowerable(AlternativeItems(em, o))
  {
    AlternativeWellFormed(em, o);
  }

  lemma {:induction false} ParamItemsLowerable(em: ExprMap, args: seq<Operand>, n: nat)
    requires n <= |args|
    ensures Lowerable(ParamItems(em, args, n))
  {
    if n > 0 {
      ParamItemsLowerable(em, args, n - 1);
    }
  }

  lemma SubstKeepsWellFormed(gone: set<Reg>, c: Computation)
    requires WellFormed(c)
    ensures WellFormed(c.(calls := SubstCalls(gone, c.calls)))
  {
    var c' := c.(calls := SubstCalls(gone, c.calls));
    forall k | 0 <= k < |c'.inputs|
      ensures HasLocation(c'.calls, c'.inputs[k]) && !OperandAt(c'.calls, c'.inputs[k]).Temp?
    {
      assert HasLocation(c.calls, c.inputs[k]) && !OperandAt(c.calls, c.inputs[k]).Temp?;
    }
    forall j, i | 0 <= j < |c'.calls| && 0 <= i < |c'.calls[j].args|
      ensures TempBelow(c'.calls[j].args[i], |c'.calls|)
    {
      assert TempBelow(c.calls[j].args[i], |c.calls|);
    }
  }

  lemma SubstLowerable(gone: set<Reg>, items: seq<Item>)
    requires Lowerable(items)
    ensures Lowerable(SubstItems(gone, items))
  {
    hide WellFormed;
    forall k | 0 <= k < |items|
      ensures LowerableItem(SubstItems(gone, items)[k])
    {
      assert LowerableItem(items[k]);
      if items[k].Comp? {
        SubstKeepsWellFormed(gone, items[k].c);
      }
    }
  }

  lemma {:induction false} MapHasNoTemps(em: ExprMap, nodes: seq<Node>, n: nat)
    requires NoTemps(em) && n <= |nodes|
    ensures NoTemps(MapAfter(em, nodes, n))
  {
    if n > 0 {
      MapHasNoTemps(em, nodes, n - 1);
    }
  }

  // ----- The whole pass -----

  function StartMap(f: Function, isMain: bool): (em: ExprMap)
    ensures NoTemps(em)
  {
    ParamMap(SymbolicParams(f, isMain))
  }

  function Nodes(f: Function): seq<Node> {
    AllInstructions(f.blocks, |f.blocks|)
  }

  function EndMap(f: Function, isMain: bool): ExprMap {
    MapAfter(StartMap(f, isMain), Nodes(f), |Nodes(f)|)
  }

  function ErasedPhis(f: Function, isMain: bool): set<Reg> {
    Erased(EndMap(f, isMain), PhisOf(Nodes(f), |Nodes(f)|), |PhisOf(Nodes(f), |Nodes(f)|)|)
  }

  /** The code emitted for the first `n` nodes. */
  function Visited(lay: Layout, em: ExprMap, nodes: seq<Node>, n: nat): (items: seq<seq<Item>>)
    requires lay.ptrBits > 0 && n <= |nodes|
    ensures |items| == n
  {
    if n == 0 then [] else Visited(lay, em, nodes, n - 1) + [Items(lay, MapAfter(em, nodes, n - 1), nodes[n - 1])]
  }

  predicate AllLowerable(items: seq<seq<Item>>) {
    forall k | 0 <= k < |items| :: Lowerable(items[k])
  }

  function SubstAll(gone: set<Reg>, items: seq<seq<Item>>): (r: seq<seq<Item>>)
    ensures |r| == |items|
  {
    seq(|items|, k requires 0 <= k < |items| => SubstItems(gone, items[k]))
  }

  function LowerAll(items: seq<seq<Item>>): (r: seq<seq<Stmt>>)
    requires AllLowerable(items)
    ensures |r| == |items|
  {
    seq(|items|, k requires 0 <= k < |items| => LowerItems(items[k]))
  }

  lemma {:induction false} VisitedAt(lay: Layout, em: ExprMap, nodes: seq<Node>, n: nat, k: nat)
    requires lay.ptrBits > 0 && k < n <= |nodes|
    ensures Visited(lay, em, nodes, n)[k] == Items(lay, MapAfter(em, nodes, k), nodes[k])
  {
    hide Items, MapAfter;
    if k < n - 1 {
      VisitedAt(lay, em, nodes, n - 1, k);
    }
  }

  lemma VisitedLowerable(lay: Layout, em: ExprMap, nodes: seq<Node>, n: nat, gone: set<Reg>)
    requires lay.ptrBits > 0 && n <= |nodes| && NoTemps(em)
    ensures AllLowerable(SubstAll(gone, Visited(lay, em, nodes, n)))
  {
    hide Lowerable, Items, Visited;
    forall k | 0 <= k < n
      ensures Lowerable(SubstAll(gone, Visited(lay, em, nodes, n))[k])
    {
      VisitedAt(lay, em, nodes, n, k);
      MapHasNoTemps(em, nodes, k);
      ItemsLowerable(lay, MapAfter(em, nodes, k), nodes[k]);
      SubstLowerable(gone, Visited(lay, em, nodes, n)[k]);
    }
  }

  /** The code of the function after all phases. */
  function FinalCode(lay: Layout, f: Function, isMain: bool): seq<seq<Stmt>>
    requires lay.ptrBits > 0
  {
    var nodes, gone := Nodes(f), ErasedPhis(f, isMain);
    VisitedLowerable(lay, StartMap(f, isMain), nodes, |nodes|, gone);
    LowerAll(SubstAll(gone, Visited(lay, StartMap(f, isMain), nodes, |nodes|)))
  }

  /** The symbolic phi nodes that remain, with the expressions of their incoming values. */
  function FinishedPhis(em: ExprMap, phis: seq<Phi>): map<Reg, SymPhi> {
    var gone, patched := Erased(em, phis, |phis|), PatchedPhis(em, phis, |phis|);
    map r | r in patched && r !in gone :: SubstPhi(gone, patched[r])
  }

  function FinalPhis(f: Function, isMain: bool): map<Reg, SymPhi> {
    FinishedPhis(EndMap(f, isMain), PhisOf(Nodes(f), |Nodes(f)|))
  }

  /** The instrumented function that the pass produces. */
  function Instrument(lay: Layout, f: Function, isMain: bool): SymFunction
    requires lay.ptrBits > 0
  {
    SymFunction(SymbolicParams(f, isMain), FinalPhis(f, isMain), FinalCode(lay, f, isMain))
  }

  // ----- The pass, step by step -----

  class Symbolizer {
    const layout: Layout
    var symbolicExpressions: ExprMap
    var phiNodes: seq<Phi>
    /** The code emitted for each node visited so far, before short-circuiting. */
    var emitted: seq<seq<Item>>
    var symbolicPhis: map<Reg, SymPhi>

    constructor (lay: Layout)
      ensures layout == lay && symbolicExpressions == map[] && phiNodes == [] && emitted == [] && symbolicPhis == map[]
    {
      layout := lay;
      symbolicExpressions, phiNodes, emitted, symbolicPhis := map[], [], [], map[];
    }

    /** `symbolizeFunctionArguments`: the parameters for which code is emitted that fetches their
        expressions.  The main function gets none, and neither do parameters without uses. */
    method SymbolizeFunctionArguments(f: Function, isMain: bool) returns (fetched: set<Reg>)
      modifies this`symbolicExpressions
      ensures fetched == SymbolicParams(f, isMain)
      ensures symbolicExpressions == old(symbolicExpressions) + ParamMap(fetched)
    {
      hide HasUses;
      fetched := {};
      if isMain {
        assert ParamMap(fetched) == map[] && symbolicExpressions + map[] == symbolicExpressions;
        return;
      }
      for k := 0 to |f.params|
        invariant fetched == set r | r in f.params[..k] && HasUses(f, r)
        invariant symbolicExpressions == old(symbolicExpressions) + ParamMap(fetched)
      {
        var r := f.params[k];
        assert f.params[..k + 1] == f.params[..k] + [r];
        if HasUses(f, r) {
          symbolicExpressions := symbolicExpressions[r := SymReg(r)];
          assert ParamMap(fetched + {r}) == ParamMap(fetched)[r := SymReg(r)];
          fetched := fetched + {r};
        }
      }
      assert f.params[..|f.params|] == f.params;
    }

    /** `forceBuildRuntimeCall`, merged into a computation. */
    method ForceBuildRuntimeCall(c: Computation, callee: Callee, args: seq<Arg>) returns (merged: Computation)
      ensures merged == AppendCall(symbolicExpressions, c, callee, args) && |merged.calls| == |c.calls| + 1
    {
      var functionArgs: seq<SymOperand> := [];
      for i := 0 to |args|
        invariant |functionArgs| == i
        invariant forall k | 0 <= k < i :: functionArgs[k] == ArgOperand(symbolicExpressions, args[k])
      {
        match args[i]
        case Symbolic(o) => functionArgs := functionArgs + [GetExprOrNull(symbolicExpressions, o)];
        case Earlier(k) => functionArgs := functionArgs + [Temp(k)];
      }
      var inputs: seq<SymInput> := [];
      for i := 0 to |args|
        invariant inputs == ArgInputs(args, i, |c.calls|)
      {
        if args[i].Symbolic? {
          inputs := inputs + [SymInput(args[i].o, i, |c.calls|)];
        }
      }
      merged := Computation(c.calls + [RtCall(callee, functionArgs)], c.inputs + inputs);
      assert merged.calls[|c.calls|] == AppendCall(symbolicExpressions, c, callee, args).calls[|c.calls|];
    }

    /** `buildRuntimeCall`: nothing if all arguments are known to be concrete at compile time. */
    method BuildRuntimeCall(callee: Callee, args: seq<Operand>) returns (c: Option<Computation>)
      ensures c == if NoneSymbolic(symbolicExpressions, args) then None
                   else Some(AppendCall(symbolicExpressions, EMPTY_COMPUTATION, callee, SymbolicArgs(args)))
    {
      var concrete := true;
      for k := 0 to |args|
        invariant concrete <==> forall j | 0 <= j < k :: GetExpr(symbolicExpressions, args[j]).None?
      {
        concrete := concrete && GetExpr(symbolicExpressions, args[k]).None?;
      }
      if concrete {
        return None;
      }
      var call := ForceBuildRuntimeCall(EMPTY_COMPUTATION, callee, SymbolicArgs(args));
      c := Some(call);
    }

    method TryAlternative(o: Operand) returns (items: seq<Item>)
      ensures items == AlternativeItems(symbolicExpressions, o)
    {
      match GetExpr(symbolicExpressions, o)
      case None => items := [];
      case Some(destExpr) =>
        items := [Comp(Computation([RtCall(LiftOf(o), []), RtCall(Build(RtCmp(Eq)), [destExpr, Temp(0)]),
                                    RtCall(PushConstraint(TRUE_IMM), [Temp(1)])], [SymInput(o, 0, 1)]), None)];
    }

    /** Pushes a condition, unless it is known to be concrete at compile time. */
    method PushCondition(cond: Operand) returns (items: seq<Item>)
      ensures items == PushItems(symbolicExpressions, cond)
    {
      var args := [cond];
      assert NoneSymbolic(symbolicExpressions, args) <==> GetExpr(symbolicExpressions, cond).None?
          by { assert args[0] == cond; }
      assert SymbolicArgs(args) == [Symbolic(cond)];
      var call := BuildRuntimeCall(PushConstraint(cond), args);
      items := if call.Some? then [Comp(call.value, None)] else [];
    }

    method VisitComputation(i: Instr) returns (items: seq<Item>, recorded: Option<SymOperand>)
      requires layout.ptrBits > 0 && i.Compute?
      ensures items == InstrItems(layout, symbolicExpressions, i)
        && recorded == Recorded(symbolicExpressions, InstrNode(i))
    {
      items, recorded := [], None;
      if ValidOp(i.op) {
        var call := BuildRuntimeCall(Build(RtOf(layout, i.op)), i.args);
        if call.Some? {
          items, recorded := [Comp(call.value, Some(i.dst))], Some(SymReg(i.dst));
        }
      }
    }

    /** `visitGetElementPtrInst`: starts from the pointer operand and adds the contribution of each
        index to the address so far. */
    method VisitGetElementPtrInst(i: Instr) returns (items: seq<Item>, recorded: Option<SymOperand>)
      requires layout.ptrBits > 0 && i.Gep?
      ensures items == InstrItems(layout, symbolicExpressions, i)
        && recorded == Recorded(symbolicExpressions, InstrNode(i))
    {
      hide AppendCall, PtrImm;
      var Gep(dst, base, steps) := i;
      if NoneSymbolic(symbolicExpressions, [base] + IndexOperands(steps)) {
        return [], None;
      }
      if AllZero(steps) {
        return [], GetExpr(symbolicExpressions, base);
      }
      var computation, currentAddress := EMPTY_COMPUTATION, Symbolic(base);
      for k := 0 to |steps|
        invariant GepState(computation, currentAddress) == GepSteps(layout, symbolicExpressions, base, steps, k)
      {
        var n, contribution := |computation.calls|, currentAddress;
        match steps[k] {
        case Field(_, offset) =>
          contribution := Symbolic(PtrImm(layout, offset));
        case Element(index, indexBits, size) =>
          if index.Imm? && index.v.n == 0 {
            // An index of zero means that no calculations are performed.
            continue;
          }
          var elementSize := Symbolic(PtrImm(layout, size));
          if indexBits != layout.ptrBits {
            var widen := Build(RtZExt((layout.ptrBits - indexBits) % 256));
            computation := ForceBuildRuntimeCall(computation, widen, [Symbolic(index)]);
            computation := ForceBuildRuntimeCall(computation, Build(RtBin(Mul)), [Earlier(n), elementSize]);
          } else {
            computation := ForceBuildRuntimeCall(computation, Build(RtBin(Mul)), [Symbolic(index), elementSize]);
          }
          contribution := Earlier(|computation.calls| - 1);
        }
        n := |computation.calls|;
        computation := ForceBuildRuntimeCall(computation, Build(RtBin(Add)), [contribution, currentAddress]);
        currentAddress := Earlier(n);
      }
      return [Comp(computation, Some(dst))], Some(SymReg(dst));
    }

    /** The argument loop of `handleFunctionCall`. */
    method VisitCall(i: Instr) returns (items: seq<Item>, recorded: Option<SymOperand>)
      requires layout.ptrBits > 0 && i.Call?
      ensures items == InstrItems(layout, symbolicExpressions, i)
        && recorded == Recorded(symbolicExpressions, InstrNode(i))
    {
      items, recorded := [], None;
      for k := 0 to |i.args|
        invariant items == ParamItems(symbolicExpressions, i.args, k)
      {
        items := items + [SetParam(k, GetExprOrNull(symbolicExpressions, i.args[k]))];
      }
      if i.result.Some? {
        // Ensure that the expression is reset before the call.
        items := items + [SetReturn(Null)];
        recorded := Some(SymReg(i.result.value));
      }
    }

    method VisitMemory(i: Instr) returns (items: seq<Item>, recorded: Option<SymOperand>)
      requires layout.ptrBits > 0 && !i.Compute? && !i.Gep? && !i.Call?
      ensures items == InstrItems(layout, symbolicExpressions, i)
        && recorded == Recorded(symbolicExpressions, InstrNode(i))
    {
      hide AlternativeItems, PushItems;
      items, recorded := [], None;
      match i
      case Copy(_, src, _) =>
        recorded := GetExpr(symbolicExpressions, src);
      case Select(_, cond, _, _) =>
        items := PushCondition(cond);
      case Load(dst, bits, scalar, addr) =>
        items := TryAlternative(addr);
        items := items + [ReadMem(dst, addr, StoreSize(bits), IsLittleEndian(layout, scalar))];
        recorded := Some(SymReg(dst));
      case Store(val, bits, _, addr) =>
        items := TryAlternative(addr);
        var stored := GetExprOrNull(symbolicExpressions, val);
        items := items + [WriteMem(addr, StoreSize(bits), stored, layout.littleEndian)];
      case MemCpy(dest, src, len) =>
        items := VisitTransfer(dest, src, len);
      case MemMove(dest, src, len) =>
        items := VisitTransfer(dest, src, len);
      case MemSet(dest, val, len) =>
        items := TryAlternative(dest);
        var more := TryAlternative(len);
        items := items + more + [FillMem(dest, GetExprOrNull(symbolicExpressions, val), len)];
      case ReadInput(dst, buf, len) =>
        items := TryAlternative(buf);
        var more := TryAlternative(len);
        items := items + more + [ReadFile(dst, buf, len)];
        recorded := Some(SymReg(dst));
    }

    method VisitTransfer(dest: Operand, src: Operand, len: Operand) returns (items: seq<Item>)
      ensures items == TransferItems(symbolicExpressions, dest, src, len)
    {
      hide AlternativeItems;
      var a := TryAlternative(dest);
      var b := TryAlternative(src);
      var c := TryAlternative(len);
      items := a + b + c + [CopyMem(dest, src, len)];
    }

    method VisitTerminator(t: Term) returns (items: seq<Item>)
      requires layout.ptrBits > 0
      ensures items == Items(layout, symbolicExpressions, TermNode(t))
    {
      hide PushItems;
      items := [];
      match t
      case Branch(cond, _, _) =>
        items := PushCondition(cond);
      case Switch(cond, cases, _) =>
        if GetExpr(symbolicExpressions, cond).Some? {
          items := [SwitchPush(GetExprOrNull(symbolicExpressions, cond), cond, cases)];
        }
      case Return(Some(o)) =>
        items := [SetReturn(GetExprOrNull(symbolicExpressions, o))];
      case _ =>
    }

    /** Visits one node: emits its code and records the operand of the value it defines.  Phi nodes
        get a dummy symbolic phi and are put aside. */
    method Visit(node: Node)
      requires layout.ptrBits > 0
      modifies this`symbolicExpressions, this`phiNodes, this`emitted, this`symbolicPhis
      ensures symbolicExpressions == Record(old(symbolicExpressions), node)
      ensures emitted == old(emitted) + [Items(layout, old(symbolicExpressions), node)]
      ensures phiNodes == old(phiNodes) + if node.PhiNode? then [node.phi] else []
      ensures symbolicPhis
           == if node.PhiNode? then old(symbolicPhis)[node.phi.dst := DummyPhi(node.phi)] else old(symbolicPhis)
    {
      hide InstrItems;
      var items: seq<Item>, recorded: Option<SymOperand> := [], None;
      match node {
      case PhiNode(phi) =>
        phiNodes := phiNodes + [phi];
        symbolicPhis := symbolicPhis[phi.dst := DummyPhi(phi)];
        recorded := Some(SymReg(phi.dst));
      case InstrNode(i) =>
        if i.Compute? {
          items, recorded := VisitComputation(i);
        } else if i.Gep? {
          items, recorded := VisitGetElementPtrInst(i);
        } else if i.Call? {
          items, recorded := VisitCall(i);
        } else {
          items, recorded := VisitMemory(i);
        }
      case TermNode(t) =>
        items := VisitTerminator(t);
      }
      emitted := emitted + [items];
      if recorded.Some? && Defines(node).Some? {
        symbolicExpressions := symbolicExpressions[Defines(node).value := recorded.value];
      }
    }

    /** Patches the dummy symbolic phi nodes, and replaces those with only compile-time concrete
        inputs by null wherever they are used. */
    method FinalizePHINodes()
      modifies this`symbolicExpressions, this`emitted, this`symbolicPhis
      ensures symbolicPhis == FinishedPhis(old(symbolicExpressions), phiNodes)
      ensures emitted == SubstAll(Erased(old(symbolicExpressions), phiNodes, |phiNodes|), old(emitted))
      ensures symbolicExpressions == map[]
    {
      var em, phis := symbolicExpressions, phiNodes;
      var nodesToErase: set<Reg> := {};
      var patched: map<Reg, SymPhi> := map[];
      for k := 0 to |phis|
        invariant nodesToErase == Erased(em, phis, k)
        invariant patched == PatchedPhis(em, phis, k)
      {
        if forall b | b in phis[k].incoming :: GetExpr(em, phis[k].incoming[b]).None? {
          nodesToErase := nodesToErase + {phis[k].dst};
          continue;
        }
        patched := patched[phis[k].dst := IncomingExprs(em, phis[k])];
      }
      symbolicPhis := map r | r in patched && r !in nodesToErase :: SubstPhi(nodesToErase, patched[r]);
      var items: seq<seq<Item>> := [];
      for k := 0 to |emitted|
        invariant items == SubstAll(nodesToErase, emitted)[..k]
      {
        items := items + [SubstItems(nodesToErase, emitted[k])];
      }
      emitted := items;
      // The map cannot be used after this point.
      symbolicExpressions := map[];
    }

    method ShortCircuitExpressionUses() returns (code: seq<seq<Stmt>>)
      requires AllLowerable(emitted)
      ensures code == LowerAll(emitted)
    {
      code := [];
      for k := 0 to |emitted|
        invariant code == LowerAll(emitted)[..k]
      {
        var stmts := ShortCircuitItems(emitted[k]);
        code := code + [stmts];
      }
    }
  }

  method ShortCircuitItems(items: seq<Item>) returns (stmts: seq<Stmt>)
    requires Lowerable(items)
    ensures stmts == LowerItems(items)
  {
    stmts := [];
    for j := 0 to |items|
      invariant stmts == LowerItems(items)[..j]
    {
      assert LowerableItem(items[j]);
      if items[j].Comp? {
        var lowered := ShortCircuitExpressionUse(items[j].c, items[j].result);
        stmts := stmts + [Guarded(lowered)];
      } else {
        stmts := stmts + [Plain(items[j])];
      }
    }
  }

  /** `runOnFunction`: the pass produces the instrumented function. */
  method RunOnFunction(lay: Layout, f: Function, isMain: bool) returns (sf: SymFunction)
    requires lay.ptrBits > 0
    ensures sf == Instrument(lay, f, isMain)
  {
    hide Items, Record, Lowerable, Erased, PatchedPhis, SubstItems, LowerItems;
    var nodes := Nodes(f);
    var symbolizer := new Symbolizer(lay);
    var symbolicParams := symbolizer.SymbolizeFunctionArguments(f, isMain);
    assert symbolizer.symbolicExpressions == StartMap(f, isMain);
    for k := 0 to |nodes|
      invariant symbolizer.symbolicExpressions == MapAfter(StartMap(f, isMain), nodes, k)
      invariant symbolizer.phiNodes == PhisOf(nodes, k)
      invariant symbolizer.emitted == Visited(lay, StartMap(f, isMain), nodes, k)
    {
      symbolizer.Visit(nodes[k]);
    }
    symbolizer.FinalizePHINodes();
    VisitedLowerable(lay, StartMap(f, isMain), nodes, |nodes|, ErasedPhis(f, isMain));
    var code := symbolizer.ShortCircuitExpressionUses();
    sf := SymFunction(symbolicParams, symbolizer.symbolicPhis, code);
  }
}
