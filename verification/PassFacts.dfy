/** What the output of the pass looks like when seen through one final map: two-phase phi handling
    and visiting order included. */
module PassFacts {
  import opened BitVectors
  import opened Expressions
  import opened Builders
  import opened FlatShadow
  import opened Programs
  import opened Concolic
  import opened ShortCircuit
  import opened Computations
  import opened Symbolizer
  import opened Visibility
  import opened Instrumented

  /** Every register is defined once. */
  predicate SingleAssignment(f: Function) {
    var nodes := Nodes(f);
    && (forall k, l | 0 <= k < l < |nodes| :: Defines(nodes[k]).Some? ==> Defines(nodes[k]) != Defines(nodes[l]))
    && (forall k | 0 <= k < |nodes| :: Defines(nodes[k]).Some? ==> Defines(nodes[k]).value !in f.params)
  }

  /** The map after all visits, with erased phi nodes replaced. */
  function FinalMap(f: Function, isMain: bool): ExprMap {
    SubstMap(ErasedPhis(f, isMain), EndMap(f, isMain))
  }

  // ----- The map only grows -----

  lemma {:induction false} MapKeys(em: ExprMap, nodes: seq<Node>, n: nat, r: Reg)
    requires n <= |nodes| && r in MapAfter(em, nodes, n)
    ensures r in em || exists k :: 0 <= k < n && Defines(nodes[k]) == Some(r)
  {
    if n > 0 {
      if Defines(nodes[n - 1]) != Some(r) {
        MapKeys(em, nodes, n - 1, r);
      }
    }
  }

  lemma {:induction false} MapGrows(f: Function, isMain: bool, k: nat, n: nat, r: Reg)
    requires SingleAssignment(f) && k <= n <= |Nodes(f)|
    requires r in MapAfter(StartMap(f, isMain), Nodes(f), k)
    ensures r in MapAfter(StartMap(f, isMain), Nodes(f), n)
    ensures MapAfter(StartMap(f, isMain), Nodes(f), n)[r] == MapAfter(StartMap(f, isMain), Nodes(f), k)[r]
  {
    hide Recorded;
    if k < n {
      MapGrows(f, isMain, k, n - 1, r);
      MapKeys(StartMap(f, isMain), Nodes(f), k, r);
    }
  }

  /** A register that node `k` defines without recording an operand never gets one. */
  lemma {:induction false} NeverRecorded(f: Function, isMain: bool, k: nat, n: nat)
    requires SingleAssignment(f) && k < |Nodes(f)| && n <= |Nodes(f)|
    requires Defines(Nodes(f)[k]).Some?
    requires n > k ==> Recorded(MapAfter(StartMap(f, isMain), Nodes(f), k), Nodes(f)[k]).None?
    ensures Defines(Nodes(f)[k]).value !in MapAfter(StartMap(f, isMain), Nodes(f), n)
  {
    hide Recorded;
    if n > 0 {
      NeverRecorded(f, isMain, k, n - 1);
    }
  }

  lemma {:induction false} FoundWhenDefined(f: Function, isMain: bool, k: nat, r: Reg)
    requires SingleAssignment(f) && k <= |Nodes(f)| && DefinedEarlier(f, k, Var(r))
    requires r in EndMap(f, isMain)
    ensures r in MapAfter(StartMap(f, isMain), Nodes(f), k)
  {
    hide Recorded;
    var nodes, start := Nodes(f), StartMap(f, isMain);
    if r in Params(f) {
      MapKeys(start, nodes, |nodes|, r);
      MapGrows(f, isMain, 0, k, r);
    } else {
      var l :| 0 <= l < k && l < |nodes| && Defines(nodes[l]) == Some(r);
      if Recorded(MapAfter(start, nodes, l), nodes[l]).Some? {
        MapGrows(f, isMain, l + 1, k, r);
      } else {
        NeverRecorded(f, isMain, l, |nodes|);
      }
    }
  }

  lemma DefinedWhenFound(f: Function, isMain: bool, k: nat, r: Reg)
    requires k <= |Nodes(f)| && r in MapAfter(StartMap(f, isMain), Nodes(f), k)
    ensures DefinedEarlier(f, k, Var(r))
  {
    hide Recorded;
    MapKeys(StartMap(f, isMain), Nodes(f), k, r);
  }

  /** While node `k` is visited, the operands defined earlier in layout order are found, with the
      expression that is recorded for them in the end, and no others. */
  lemma LookupFinds(f: Function, isMain: bool, k: nat, o: Operand)
    requires SingleAssignment(f) && k <= |Nodes(f)|
    ensures GetExpr(MapAfter(StartMap(f, isMain), Nodes(f), k), o)
         == if DefinedEarlier(f, k, o) then GetExpr(EndMap(f, isMain), o) else None
  {
    hide EndMap, DefinedEarlier, SingleAssignment;
    if o.Var? {
      if o.r in MapAfter(StartMap(f, isMain), Nodes(f), k) {
        DefinedWhenFound(f, isMain, k, o.r);
        MapGrows(f, isMain, k, |Nodes(f)|, o.r);
        assert EndMap(f, isMain) == MapAfter(StartMap(f, isMain), Nodes(f), |Nodes(f)|) by { EndMapIs(f, isMain); }
      } else if DefinedEarlier(f, k, o) && o.r in EndMap(f, isMain) {
        FoundWhenDefined(f, isMain, k, o.r);
      }
    }
  }

  lemma EndMapIs(f: Function, isMain: bool)
    ensures EndMap(f, isMain) == MapAfter(StartMap(f, isMain), Nodes(f), |Nodes(f)|)
  {
  }

  /** The expressions known when node `k` is visited, with erased phi nodes replaced. */
  function NodeMap(f: Function, isMain: bool, k: nat): ExprMap
    requires k <= |Nodes(f)|
  {
    SubstMap(ErasedPhis(f, isMain), MapAfter(StartMap(f, isMain), Nodes(f), k))
  }

  lemma NodeLookup(f: Function, isMain: bool, k: nat, o: Operand)
    requires SingleAssignment(f) && k <= |Nodes(f)|
    ensures GetExpr(NodeMap(f, isMain, k), o)
         == if DefinedEarlier(f, k, o) then GetExpr(FinalMap(f, isMain), o) else None
  {
    hide EndMap, DefinedEarlier, SingleAssignment, ErasedPhis, Subst;
    LookupFinds(f, isMain, k, o);
  }

  // ----- Emitted code depends on the map through its operands, and commutes with substitution -----

  predicate SameLookup(gone: set<Reg>, em: ExprMap, em': ExprMap, o: Operand) {
    match GetExpr(em, o)
    case None => GetExpr(em', o) == None
    case Some(op) => GetExpr(em', o) == Some(Subst(gone, op))
  }

  predicate SameLookups(gone: set<Reg>, em: ExprMap, em': ExprMap, os: seq<Operand>) {
    forall j | 0 <= j < |os| :: SameLookup(gone, em, em', os[j])
  }

  function SubstComp(gone: set<Reg>, c: Computation): Computation {
    c.(calls := SubstCalls(gone, c.calls))
  }

  predicate ArgCorresponds(gone: set<Reg>, em: ExprMap, em': ExprMap, a: Arg) {
    a.Symbolic? ==> SameLookup(gone, em, em', a.o)
  }

  lemma AppendCorresponds(gone: set<Reg>, em: ExprMap, em': ExprMap, c: Computation, callee: Callee, args: seq<Arg>)
    requires forall i | 0 <= i < |args| :: ArgCorresponds(gone, em, em', args[i])
    ensures SubstComp(gone, AppendCall(em, c, callee, args)) == AppendCall(em', SubstComp(gone, c), callee, args)
  {
    hide ArgInputs;
    var a, b := SubstComp(gone, AppendCall(em, c, callee, args)), AppendCall(em', SubstComp(gone, c), callee, args);
    forall i | 0 <= i < |args|
      ensures Subst(gone, ArgOperand(em, args[i])) == ArgOperand(em', args[i])
    {
      assert ArgCorresponds(gone, em, em', args[i]);
    }
    assert a.calls[|c.calls|].args == b.calls[|c.calls|].args;
    assert a.calls == b.calls;
  }

  lemma AlternativeCorresponds(gone: set<Reg>, em: ExprMap, em': ExprMap, o: Operand)
    requires SameLookup(gone, em, em', o)
    ensures SubstItems(gone, AlternativeItems(em, o)) == AlternativeItems(em', o)
  {
    if GetExpr(em, o).Some? {
      var a, b := SubstCalls(gone, AlternativeComp(em, o).calls), AlternativeComp(em', o).calls;
      assert a[0].args == b[0].args && a[1].args == b[1].args && a[2].args == b[2].args;
      assert a == b;
    }
  }

  lemma PushCorresponds(gone: set<Reg>, em: ExprMap, em': ExprMap, cond: Operand)
    requires SameLookup(gone, em, em', cond)
    ensures SubstItems(gone, PushItems(em, cond)) == PushItems(em', cond)
  {
    hide AppendCall;
    assert ArgCorresponds(gone, em, em', Symbolic(cond));
    AppendCorresponds(gone, em, em', EMPTY_COMPUTATION, PushConstraint(cond), [Symbolic(cond)]);
    assert SubstComp(gone, EMPTY_COMPUTATION) == EMPTY_COMPUTATION;
    if GetExpr(em, cond).Some? {
      assert SubstItem(gone, Comp(PushComp(em, cond), None)) == Comp(PushComp(em', cond), None);
    }
  }

  lemma {:induction false} GepStepsCorrespond(gone: set<Reg>, lay: Layout, em: ExprMap, em': ExprMap, base: Operand,
                                              steps: seq<GepStep>, n: nat)
    requires lay.ptrBits > 0 && n <= |steps|
    requires SameLookups(gone, em, em', [base] + IndexOperands(steps))
    ensures var g, g' := GepSteps(lay, em, base, steps, n), GepSteps(lay, em', base, steps, n);
      g'.c == SubstComp(gone, g.c) && g'.current == g.current && ArgCorresponds(gone, em, em', g.current)
  {
    hide GepStepComp;
    if n == 0 {
      assert ([base] + IndexOperands(steps))[0] == base;
      assert SubstComp(gone, EMPTY_COMPUTATION) == EMPTY_COMPUTATION;
    } else {
      GepStepsCorrespond(gone, lay, em, em', base, steps, n - 1);
      if steps[n - 1].Element? {
        var j := IndexOperandAt(steps, n - 1);
        assert ([base] + IndexOperands(steps))[j + 1] == steps[n - 1].index;
      }
      GepStepCorresponds(gone, lay, em, em', steps[n - 1], GepSteps(lay, em, base, steps, n - 1));
    }
  }

  lemma {:induction false} IndexOperandAt(steps: seq<GepStep>, k: nat) returns (j: nat)
    requires k < |steps| && steps[k].Element?
    ensures j < |IndexOperands(steps)| && IndexOperands(steps)[j] == steps[k].index
  {
    if k == 0 {
      j := 0;
    } else {
      j := IndexOperandAt(steps[1..], k - 1);
      j := j + |IndexOperands(steps)| - |IndexOperands(steps[1..])|;
    }
  }

  lemma GepStepCorresponds(gone: set<Reg>, lay: Layout, em: ExprMap, em': ExprMap, step: GepStep, g: GepState)
    requires lay.ptrBits > 0
    requires step.Element? ==> SameLookup(gone, em, em', step.index)
    requires ArgCorresponds(gone, em, em', g.current)
    ensures var g' := GepState(SubstComp(gone, g.c), g.current);
      var h, h' := GepStepComp(lay, em, step, g), GepStepComp(lay, em', step, g');
      h'.c == SubstComp(gone, h.c) && h'.current == h.current && ArgCorresponds(gone, em, em', h.current)
  {
    hide AppendCall, PtrImm;
    SubstSameLength(gone, g.c);
    match step
    case Field(_, offset) =>
      assert PtrImm(lay, offset).Imm? by { PtrImmIsImm(lay, offset); }
      AppendCorresponds(gone, em, em', g.c, Build(RtBin(Add)), [Symbolic(PtrImm(lay, offset)), g.current]);
    case Element(index, indexBits, size) =>
      if !IsZeroIndex(step) {
        PtrImmIsImm(lay, size);
        var n := |g.c.calls|;
        var scaled;
        if indexBits != lay.ptrBits {
          var fn := Build(RtZExt((lay.ptrBits - indexBits) % 256));
          AppendCorresponds(gone, em, em', g.c, fn, [Symbolic(index)]);
          var wide := AppendCall(em, g.c, fn, [Symbolic(index)]);
          AppendCorresponds(gone, em, em', wide, Build(RtBin(Mul)), [Earlier(n), Symbolic(PtrImm(lay, size))]);
          scaled := AppendCall(em, wide, Build(RtBin(Mul)), [Earlier(n), Symbolic(PtrImm(lay, size))]);
        } else {
          AppendCorresponds(gone, em, em', g.c, Build(RtBin(Mul)), [Symbolic(index), Symbolic(PtrImm(lay, size))]);
          scaled := AppendCall(em, g.c, Build(RtBin(Mul)), [Symbolic(index), Symbolic(PtrImm(lay, size))]);
        }
        SubstSameLength(gone, scaled);
        AppendGrows(em, g.c, Build(RtBin(Mul)), [Symbolic(index), Symbolic(PtrImm(lay, size))]);
        assert |scaled.calls| > 0 by { ScaledNonEmpty(lay, em, step, g); }
        AppendCorresponds(gone, em, em', scaled, Build(RtBin(Add)), [Earlier(|scaled.calls| - 1), g.current]);
      }
  }

  lemma ScaledNonEmpty(lay: Layout, em: ExprMap, step: GepStep, g: GepState)
    requires lay.ptrBits > 0 && step.Element?
    ensures |AppendCall(em, g.c, Build(RtBin(Mul)), [Symbolic(step.index), Symbolic(PtrImm(lay, step.size))]).calls| > 0
    ensures var widened := AppendCall(em, g.c, Build(RtZExt((lay.ptrBits - step.indexBits) % 256)),
                                      [Symbolic(step.index)]);
      |AppendCall(em, widened, Build(RtBin(Mul)),
                  [Earlier(|g.c.calls|), Symbolic(PtrImm(lay, step.size))]).calls| > 0
  {
  }

  lemma PtrImmIsImm(lay: Layout, n: nat)
    requires lay.ptrBits > 0
    ensures PtrImm(lay, n).Imm?
  {
  }

  lemma SubstSameLength(gone: set<Reg>, c: Computation)
    ensures |SubstComp(gone, c).calls| == |c.calls| && SubstComp(gone, c).inputs == c.inputs
  {
  }

  lemma SubstItemsAppend(gone: set<Reg>, a: seq<Item>, b: seq<Item>)
    ensures SubstItems(gone, a + b) == SubstItems(gone, a) + SubstItems(gone, b)
  {
    hide SubstItem;
  }

  lemma {:induction false} ParamsCorrespond(gone: set<Reg>, em: ExprMap, em': ExprMap, args: seq<Operand>, n: nat)
    requires n <= |args| && SameLookups(gone, em, em', args)
    ensures SubstItems(gone, ParamItems(em, args, n)) == ParamItems(em', args, n)
  {
    if n > 0 {
      ParamsCorrespond(gone, em, em', args, n - 1);
      var last := [SetParam(n - 1, GetExprOrNull(em, args[n - 1]))];
      SubstItemsAppend(gone, ParamItems(em, args, n - 1), last);
      assert SameLookup(gone, em, em', args[n - 1]);
      assert SubstItems(gone, last) == [SetParam(n - 1, GetExprOrNull(em', args[n - 1]))];
    }
  }

  lemma OperandCorresponds(gone: set<Reg>, em: ExprMap, em': ExprMap, os: seq<Operand>, j: nat)
    requires SameLookups(gone, em, em', os) && j < |os|
    ensures SubstItems(gone, AlternativeItems(em, os[j])) == AlternativeItems(em', os[j])
    ensures Subst(gone, GetExprOrNull(em, os[j])) == GetExprOrNull(em', os[j])
  {
    hide AlternativeItems;
    assert SameLookup(gone, em, em', os[j]);
    AlternativeCorresponds(gone, em, em', os[j]);
  }

  lemma LastItemCorresponds(gone: set<Reg>, before: seq<Item>, before': seq<Item>, last: Item)
    requires SubstItems(gone, before) == before'
    ensures SubstItems(gone, before + [last]) == before' + [SubstItem(gone, last)]
  {
    hide SubstItem;
    SubstItemsAppend(gone, before, [last]);
  }

  lemma LoadItemsCorrespond(gone: set<Reg>, lay: Layout, em: ExprMap, em': ExprMap, i: Instr)
    requires lay.ptrBits > 0 && i.Load? && SameLookups(gone, em, em', Operands(InstrNode(i)))
    ensures SubstItems(gone, InstrItems(lay, em, i)) == InstrItems(lay, em', i)
  {
    hide AlternativeItems, SubstItems;
    OperandCorresponds(gone, em, em', Operands(InstrNode(i)), 0);
    LastItemCorresponds(gone, AlternativeItems(em, i.addr), AlternativeItems(em', i.addr),
                        ReadMem(i.dst, i.addr, StoreSize(i.bits), IsLittleEndian(lay, i.scalar)));
  }

  lemma StoreItemsCorrespond(gone: set<Reg>, lay: Layout, em: ExprMap, em': ExprMap, i: Instr)
    requires lay.ptrBits > 0 && i.Store? && SameLookups(gone, em, em', Operands(InstrNode(i)))
    ensures SubstItems(gone, InstrItems(lay, em, i)) == InstrItems(lay, em', i)
  {
    hide AlternativeItems, SubstItems, GetExprOrNull;
    OperandCorresponds(gone, em, em', Operands(InstrNode(i)), 0);
    OperandCorresponds(gone, em, em', Operands(InstrNode(i)), 1);
    LastItemCorresponds(gone, AlternativeItems(em, i.addr), AlternativeItems(em', i.addr),
                        WriteMem(i.addr, StoreSize(i.bits), GetExprOrNull(em, i.val), lay.littleEndian));
  }

  lemma FillItemsCorrespond(gone: set<Reg>, lay: Layout, em: ExprMap, em': ExprMap, i: Instr)
    requires lay.ptrBits > 0 && i.MemSet? && SameLookups(gone, em, em', Operands(InstrNode(i)))
    ensures SubstItems(gone, InstrItems(lay, em, i)) == InstrItems(lay, em', i)
  {
    hide AlternativeItems, SubstItems, GetExprOrNull;
    var os := Operands(InstrNode(i));
    OperandCorresponds(gone, em, em', os, 0);
    OperandCorresponds(gone, em, em', os, 1);
    OperandCorresponds(gone, em, em', os, 2);
    var a, b := AlternativeItems(em, i.dest), AlternativeItems(em, i.len);
    SubstItemsAppend(gone, a, b);
    LastItemCorresponds(gone, a + b, AlternativeItems(em', i.dest) + AlternativeItems(em', i.len),
                        FillMem(i.dest, GetExprOrNull(em, i.val), i.len));
  }

  lemma ReadItemsCorrespond(gone: set<Reg>, lay: Layout, em: ExprMap, em': ExprMap, i: Instr)
    requires lay.ptrBits > 0 && i.ReadInput? && SameLookups(gone, em, em', Operands(InstrNode(i)))
    ensures SubstItems(gone, InstrItems(lay, em, i)) == InstrItems(lay, em', i)
  {
    hide AlternativeItems, SubstItems;
    var os := Operands(InstrNode(i));
    OperandCorresponds(gone, em, em', os, 0);
    OperandCorresponds(gone, em, em', os, 1);
    var a, b := AlternativeItems(em, i.buf), AlternativeItems(em, i.len);
    SubstItemsAppend(gone, a, b);
    LastItemCorresponds(gone, a + b, AlternativeItems(em', i.buf) + AlternativeItems(em', i.len),
                        ReadFile(i.dst, i.buf, i.len));
  }

  lemma MoveItemsCorrespond(gone: set<Reg>, lay: Layout, em: ExprMap, em': ExprMap, i: Instr)
    requires lay.ptrBits > 0 && (i.MemCpy? || i.MemMove?) && SameLookups(gone, em, em', Operands(InstrNode(i)))
    ensures SubstItems(gone, InstrItems(lay, em, i)) == InstrItems(lay, em', i)
  {
    hide AlternativeItems, SubstItems, TransferItems;
    var os := Operands(InstrNode(i));
    OperandCorresponds(gone, em, em', os, 0);
    OperandCorresponds(gone, em, em', os, 1);
    OperandCorresponds(gone, em, em', os, 2);
    TransferItemsCorrespond(gone, em, em', i.dest, i.src, i.len);
  }

  lemma MemoryItemsCorrespond(gone: set<Reg>, lay: Layout, em: ExprMap, em': ExprMap, i: Instr)
    requires lay.ptrBits > 0
    requires SameLookups(gone, em, em', Operands(InstrNode(i)))
    requires i.Load? || i.Store? || i.MemCpy? || i.MemMove? || i.MemSet? || i.ReadInput?
    ensures SubstItems(gone, InstrItems(lay, em, i)) == InstrItems(lay, em', i)
  {
    hide SubstItems, InstrItems, SameLookups, Operands;
    match i
    case Load(_, _, _, _) => LoadItemsCorrespond(gone, lay, em, em', i);
    case Store(_, _, _, _) => StoreItemsCorrespond(gone, lay, em, em', i);
    case MemSet(_, _, _) => FillItemsCorrespond(gone, lay, em, em', i);
    case ReadInput(_, _, _) => ReadItemsCorrespond(gone, lay, em, em', i);
    case MemCpy(_, _, _) => MoveItemsCorrespond(gone, lay, em, em', i);
    case MemMove(_, _, _) => MoveItemsCorrespond(gone, lay, em, em', i);
  }

  lemma TransferItemsCorrespond(gone: set<Reg>, em: ExprMap, em': ExprMap, dest: Operand, src: Operand, len: Operand)
    requires SubstItems(gone, AlternativeItems(em, dest)) == AlternativeItems(em', dest)
    requires SubstItems(gone, AlternativeItems(em, src)) == AlternativeItems(em', src)
    requires SubstItems(gone, AlternativeItems(em, len)) == AlternativeItems(em', len)
    ensures SubstItems(gone, TransferItems(em, dest, src, len)) == TransferItems(em', dest, src, len)
  {
    hide AlternativeItems;
    var a, b, c := AlternativeItems(em, dest), AlternativeItems(em, src), AlternativeItems(em, len);
    SubstItemsAppend(gone, a, b);
    SubstItemsAppend(gone, a + b, c);
    SubstItemsAppend(gone, a + b + c, [CopyMem(dest, src, len)]);
    assert SubstItems(gone, [CopyMem(dest, src, len)]) == [CopyMem(dest, src, len)];
  }

  lemma NoneSymbolicSame(gone: set<Reg>, em: ExprMap, em': ExprMap, os: seq<Operand>)
    requires SameLookups(gone, em, em', os)
    ensures NoneSymbolic(em, os) == NoneSymbolic(em', os)
  {
    forall j | 0 <= j < |os|
      ensures GetExpr(em, os[j]).None? == GetExpr(em', os[j]).None?
    {
      assert SameLookup(gone, em, em', os[j]);
    }
  }

  lemma ComputeItemsCorrespond(gone: set<Reg>, lay: Layout, em: ExprMap, em': ExprMap, i: Instr)
    requires lay.ptrBits > 0 && i.Compute? && SameLookups(gone, em, em', Operands(InstrNode(i)))
    ensures SubstItems(gone, InstrItems(lay, em, i)) == InstrItems(lay, em', i)
  {
    hide AppendCall, SubstCalls, SameLookup, RtOf;
    var Compute(_, op, args) := i;
    NoneSymbolicSame(gone, em, em', args);
    if ValidOp(op) {
      forall k | 0 <= k < |args|
        ensures ArgCorresponds(gone, em, em', SymbolicArgs(args)[k])
      {
        assert SameLookup(gone, em, em', args[k]);
      }
      AppendCorresponds(gone, em, em', EMPTY_COMPUTATION, Build(RtOf(lay, op)), SymbolicArgs(args));
      SubstEmpty(gone);
    }
  }

  lemma CallItemsCorrespond(gone: set<Reg>, lay: Layout, em: ExprMap, em': ExprMap, i: Instr)
    requires lay.ptrBits > 0 && i.Call? && SameLookups(gone, em, em', Operands(InstrNode(i)))
    ensures SubstItems(gone, InstrItems(lay, em, i)) == InstrItems(lay, em', i)
  {
    hide SameLookup, ParamItems;
    ParamsCorrespond(gone, em, em', i.args, |i.args|);
    var tail: seq<Item> := if i.result.Some? then [SetReturn(Null)] else [];
    SubstItemsAppend(gone, ParamItems(em, i.args, |i.args|), tail);
  }

  lemma {:induction false} GepItemsCorrespond(gone: set<Reg>, lay: Layout, em: ExprMap, em': ExprMap, i: Instr)
    requires lay.ptrBits > 0 && i.Gep? && SameLookups(gone, em, em', Operands(InstrNode(i)))
    ensures SubstItems(gone, InstrItems(lay, em, i)) == InstrItems(lay, em', i)
  {
    hide GepSteps, SubstCalls, SameLookup, AllZero, IndexOperands, NoneSymbolic;
    var Gep(_, base, steps) := i;
    NoneSymbolicSame(gone, em, em', [base] + IndexOperands(steps));
    GepStepsCorrespond(gone, lay, em, em', base, steps, |steps|);
  }

  lemma ItemsCorrespond(gone: set<Reg>, lay: Layout, em: ExprMap, em': ExprMap, node: Node)
    requires lay.ptrBits > 0
    requires SameLookups(gone, em, em', Operands(node))
    ensures SubstItems(gone, Items(lay, em, node)) == Items(lay, em', node)
  {
    hide SameLookup, PushItems;
    match node
    case PhiNode(_) =>
    case InstrNode(Compute(_, op, args)) => ComputeItemsCorrespond(gone, lay, em, em', node.i);
    case InstrNode(Gep(_, base, steps)) => GepItemsCorrespond(gone, lay, em, em', node.i);
    case InstrNode(Copy(_, _, _)) =>
    case InstrNode(Select(_, cond, _, _)) =>
      assert SameLookup(gone, em, em', Operands(node)[0]);
      PushCorresponds(gone, em, em', cond);
    case InstrNode(Call(result, _, args)) => CallItemsCorrespond(gone, lay, em, em', node.i);
    case InstrNode(i) => MemoryItemsCorrespond(gone, lay, em, em', i);
    case TermNode(t) => TermItemsCorrespond(gone, lay, em, em', t);
  }

  lemma SubstEmpty(gone: set<Reg>)
    ensures SubstComp(gone, EMPTY_COMPUTATION) == EMPTY_COMPUTATION
  {
  }

  lemma TermItemsCorrespond(gone: set<Reg>, lay: Layout, em: ExprMap, em': ExprMap, t: Term)
    requires lay.ptrBits > 0
    requires SameLookups(gone, em, em', Operands(TermNode(t)))
    ensures SubstItems(gone, Items(lay, em, TermNode(t))) == Items(lay, em', TermNode(t))
  {
    hide PushItems;
    var os := Operands(TermNode(t));
    if os != [] {
      assert SameLookup(gone, em, em', os[0]);
      if t.Branch? {
        PushCorresponds(gone, em, em', t.cond);
      }
    }
  }

  // ----- The pass, through the final map -----

  lemma FinalLookup(f: Function, isMain: bool, o: Operand)
    ensures SameLookup(ErasedPhis(f, isMain), EndMap(f, isMain), FinalMap(f, isMain), o)
  {
    hide ErasedPhis, EndMap;
  }

  lemma FinalHasNoTemps(f: Function, isMain: bool)
    ensures NoTemps(FinalMap(f, isMain))
  {
    hide ErasedPhis;
    MapHasNoTemps(StartMap(f, isMain), Nodes(f), |Nodes(f)|);
  }

  lemma NodeMapHasNoTemps(f: Function, isMain: bool, k: nat)
    requires k <= |Nodes(f)|
    ensures NoTemps(NodeMap(f, isMain, k))
  {
    hide ErasedPhis;
    MapHasNoTemps(StartMap(f, isMain), Nodes(f), k);
  }

  lemma NodeLookups(f: Function, isMain: bool, k: nat, os: seq<Operand>)
    requires k <= |Nodes(f)|
    ensures SameLookups(ErasedPhis(f, isMain), MapAfter(StartMap(f, isMain), Nodes(f), k), NodeMap(f, isMain, k), os)
  {
    hide ErasedPhis;
  }

  /** The code of every node is what the visitor emits for it, with erased phi nodes replaced. */
  lemma CodeThroughNodeMap(lay: Layout, f: Function, isMain: bool, k: nat)
    requires lay.ptrBits > 0 && k < |Nodes(f)|
    ensures Lowerable(Items(lay, NodeMap(f, isMain, k), Nodes(f)[k]))
    ensures CodeAt(Instrument(lay, f, isMain), k) == LowerItems(Items(lay, NodeMap(f, isMain, k), Nodes(f)[k]))
  {
    hide Items, ErasedPhis, SubstItems, LowerItems, NodeMap, Visited, Lowerable;
    var nodes, gone, em := Nodes(f), ErasedPhis(f, isMain), NodeMap(f, isMain, k);
    NodeMapHasNoTemps(f, isMain, k);
    ItemsLowerable(lay, em, nodes[k]);
    NodeLookups(f, isMain, k, Operands(nodes[k]));
    ItemsCorrespond(gone, lay, MapAfter(StartMap(f, isMain), nodes, k), em, nodes[k]);
    VisitedAt(lay, StartMap(f, isMain), nodes, |nodes|, k);
    VisitedLowerable(lay, StartMap(f, isMain), nodes, |nodes|, gone);
    assert SubstAll(gone, Visited(lay, StartMap(f, isMain), nodes, |nodes|))[k] == Items(lay, em, nodes[k]);
  }

  lemma {:induction false} ErasedArePhis(em: ExprMap, nodes: seq<Node>, n: nat, r: Reg)
    requires n <= |PhisOf(nodes, |nodes|)| && r in Erased(em, PhisOf(nodes, |nodes|), n)
    ensures exists k :: 0 <= k < |nodes| && nodes[k].PhiNode? && nodes[k].phi.dst == r
                        && OnlyConcrete(em, nodes[k].phi)
  {
    var phis := PhisOf(nodes, |nodes|);
    if OnlyConcrete(em, phis[n - 1]) && phis[n - 1].dst == r {
      var k := PhiNodeOf(nodes, |nodes|, n - 1);
    } else {
      ErasedArePhis(em, nodes, n - 1, r);
    }
  }

  lemma {:induction false} PhiNodeOf(nodes: seq<Node>, n: nat, j: nat) returns (k: nat)
    requires n <= |nodes| && j < |PhisOf(nodes, n)|
    ensures k < n && nodes[k] == PhiNode(PhisOf(nodes, n)[j])
  {
    if j < |PhisOf(nodes, n - 1)| {
      k := PhiNodeOf(nodes, n - 1, j);
    } else {
      k := n - 1;
    }
  }

  lemma {:induction false} PhiOfNode(nodes: seq<Node>, n: nat, k: nat) returns (j: nat)
    requires k < n <= |nodes| && nodes[k].PhiNode?
    ensures j < |PhisOf(nodes, n)| && PhisOf(nodes, n)[j] == nodes[k].phi
  {
    if k < n - 1 {
      j := PhiOfNode(nodes, n - 1, k);
    } else {
      j := |PhisOf(nodes, n)| - 1;
    }
  }

  lemma OnlyPhisErased(f: Function, isMain: bool, k: nat)
    requires SingleAssignment(f) && k < |Nodes(f)| && Defines(Nodes(f)[k]).Some?
    requires Defines(Nodes(f)[k]).value in ErasedPhis(f, isMain)
    ensures Nodes(f)[k].PhiNode? && OnlyConcrete(EndMap(f, isMain), Nodes(f)[k].phi)
  {
    hide EndMap, OnlyConcrete, Recorded;
    var r := Defines(Nodes(f)[k]).value;
    var phis := PhisOf(Nodes(f), |Nodes(f)|);
    ErasedArePhis(EndMap(f, isMain), Nodes(f), |phis|, r);
    var l :| 0 <= l < |Nodes(f)| && Nodes(f)[l].PhiNode? && Nodes(f)[l].phi.dst == r
             && OnlyConcrete(EndMap(f, isMain), Nodes(f)[l].phi);
    assert Defines(Nodes(f)[l]) == Defines(Nodes(f)[k]);
  }

  /** The operand of the value defined by an instruction is what the visitor records for it. */
  lemma RecordedThroughNodeMap(f: Function, isMain: bool, k: nat)
    requires SingleAssignment(f) && k < |Nodes(f)|
    requires Defines(Nodes(f)[k]).Some? && !Nodes(f)[k].PhiNode?
    ensures GetExpr(FinalMap(f, isMain), Var(Defines(Nodes(f)[k]).value))
      == Recorded(NodeMap(f, isMain, k), Nodes(f)[k])
  {
    hide ErasedPhis, FinalMap, NodeMap;
    var node, r := Nodes(f)[k], Defines(Nodes(f)[k]).value;
    var gone, before := ErasedPhis(f, isMain), MapAfter(StartMap(f, isMain), Nodes(f), k);
    NodeLookups(f, isMain, k, Operands(node));
    RecordedCorresponds(gone, before, NodeMap(f, isMain, k), node);
    FinalLookup(f, isMain, Var(r));
    if Recorded(before, node).Some? {
      assert MapAfter(StartMap(f, isMain), Nodes(f), k + 1)[r] == Recorded(before, node).value;
      MapGrows(f, isMain, k + 1, |Nodes(f)|, r);
      if r in gone {
        OnlyPhisErased(f, isMain, k);
      }
    } else {
      NeverRecorded(f, isMain, k, |Nodes(f)|);
    }
  }

  lemma RecordedCorresponds(gone: set<Reg>, em: ExprMap, em': ExprMap, node: Node)
    requires SameLookups(gone, em, em', Operands(node))
    requires !node.PhiNode?
    ensures Recorded(em, node).Some? <==> Recorded(em', node).Some?
    ensures Recorded(em, node).Some? && Defines(node).Some? && Defines(node).value !in gone ==>
      Recorded(em', node).value == Subst(gone, Recorded(em, node).value)
  {
    hide Subst;
    match node
    case InstrNode(Compute(dst, _, args)) =>
      NoneSymbolicSame(gone, em, em', args);
      SubstKept(gone, dst);
    case InstrNode(Gep(dst, base, steps)) =>
      NoneSymbolicSame(gone, em, em', [base] + IndexOperands(steps));
      assert SameLookup(gone, em, em', Operands(node)[0]);
      SubstKept(gone, dst);
      if AllZero(steps) && !NoneSymbolic(em, [base] + IndexOperands(steps)) {
        ZeroIndicesNotSymbolic(em, steps);
        assert GetExpr(em, base).Some?;
      }
    case InstrNode(Copy(_, src, _)) =>
      assert SameLookup(gone, em, em', Operands(node)[0]);
    case InstrNode(Load(dst, _, _, _)) => SubstKept(gone, dst);
    case InstrNode(ReadInput(dst, _, _)) => SubstKept(gone, dst);
    case InstrNode(Call(result, _, _)) =>
      if result.Some? {
        SubstKept(gone, result.value);
      }
    case _ =>
  }

  lemma SubstKept(gone: set<Reg>, r: Reg)
    ensures r !in gone ==> Subst(gone, SymReg(r)) == SymReg(r)
  {
  }

  /** Constant indices have no expressions. */
  lemma {:induction false} ZeroIndicesNotSymbolic(em: ExprMap, steps: seq<GepStep>)
    requires AllZero(steps)
    ensures NoneSymbolic(em, IndexOperands(steps))
  {
    if steps != [] {
      assert IsZeroIndex(steps[0]);
      forall i | 0 <= i < |steps[1..]|
        ensures IsZeroIndex(steps[1..][i])
      {
        assert steps[1..][i] == steps[i + 1];
      }
      ZeroIndicesNotSymbolic(em, steps[1..]);
    }
  }

  lemma {:induction false} PatchedFind(em: ExprMap, phis: seq<Phi>, n: nat, j: nat)
    requires j < n <= |phis|
    requires forall a, b | 0 <= a < b < |phis| :: phis[a].dst != phis[b].dst
    ensures !OnlyConcrete(em, phis[j]) ==>
      phis[j].dst in PatchedPhis(em, phis, n) && PatchedPhis(em, phis, n)[phis[j].dst] == IncomingExprs(em, phis[j])
    ensures phis[j].dst in Erased(em, phis, n) <==> OnlyConcrete(em, phis[j])
  {
    hide OnlyConcrete, IncomingExprs;
    if j < n - 1 {
      PatchedFind(em, phis, n - 1, j);
    } else {
      NotErasedBefore(em, phis, n - 1, phis[j].dst);
    }
  }

  lemma {:induction false} NotErasedBefore(em: ExprMap, phis: seq<Phi>, n: nat, r: Reg)
    requires n <= |phis|
    requires forall a | 0 <= a < n :: phis[a].dst != r
    ensures r !in Erased(em, phis, n)
  {
    hide OnlyConcrete;
    if n > 0 {
      NotErasedBefore(em, phis, n - 1, r);
    }
  }

  lemma {:induction false} PhisDistinct(nodes: seq<Node>, n: nat, a: nat, b: nat)
    requires n <= |nodes|
    requires forall k, l | 0 <= k < l < n :: Defines(nodes[k]).Some? ==> Defines(nodes[k]) != Defines(nodes[l])
    requires a < b < |PhisOf(nodes, n)|
    ensures PhisOf(nodes, n)[a].dst != PhisOf(nodes, n)[b].dst
  {
    if b < |PhisOf(nodes, n - 1)| {
      PhisDistinct(nodes, n - 1, a, b);
    } else {
      var k := PhiNodeOf(nodes, n - 1, a);
      assert Defines(nodes[k]) != Defines(nodes[n - 1]);
    }
  }

  /** A phi node either gets a symbolic phi that selects the expressions of its incoming values, or,
      if none of them can have one, is null everywhere. */
  lemma PhiThroughFinalMap(f: Function, isMain: bool, k: nat)
    requires SingleAssignment(f) && k < |Nodes(f)| && Nodes(f)[k].PhiNode?
    ensures var em, phi := FinalMap(f, isMain), Nodes(f)[k].phi;
      if phi.dst in ErasedPhis(f, isMain)
      then GetExpr(em, Var(phi.dst)) == Some(Null) && OnlyConcrete(em, phi) && phi.dst !in FinalPhis(f, isMain)
      else GetExpr(em, Var(phi.dst)) == Some(SymReg(phi.dst))
           && phi.dst in FinalPhis(f, isMain) && FinalPhis(f, isMain)[phi.dst] == IncomingExprs(em, phi)
  {
    hide Recorded, Erased, PatchedPhis, EndMap, PhisOf;
    var nodes, phi := Nodes(f), Nodes(f)[k].phi;
    var phis, gone, end := PhisOf(nodes, |nodes|), ErasedPhis(f, isMain), EndMap(f, isMain);
    PhiRecorded(f, isMain, k);
    FinalLookup(f, isMain, Var(phi.dst));
    var j := PhiOfNode(nodes, |nodes|, k);
    forall a, b | 0 <= a < b < |phis|
      ensures phis[a].dst != phis[b].dst
    {
      PhisDistinct(nodes, |nodes|, a, b);
    }
    PatchedFind(end, phis, |phis|, j);
    forall b | b in phi.incoming
      ensures SameLookup(gone, end, FinalMap(f, isMain), phi.incoming[b])
    {
      FinalLookup(f, isMain, phi.incoming[b]);
    }
    if phi.dst !in gone {
      assert SubstPhi(gone, IncomingExprs(end, phi)) == IncomingExprs(FinalMap(f, isMain), phi);
    }
  }

  lemma PhiRecorded(f: Function, isMain: bool, k: nat)
    requires SingleAssignment(f) && k < |Nodes(f)| && Nodes(f)[k].PhiNode?
    ensures GetExpr(EndMap(f, isMain), Var(Nodes(f)[k].phi.dst)) == Some(SymReg(Nodes(f)[k].phi.dst))
  {
    var r := Nodes(f)[k].phi.dst;
    assert MapAfter(StartMap(f, isMain), Nodes(f), k + 1)[r] == SymReg(r);
    MapGrows(f, isMain, k + 1, |Nodes(f)|, r);
  }

  /** Parameters with uses are symbolic registers, except in the main function. */
  lemma ParamThroughFinalMap(f: Function, isMain: bool, r: Reg)
    requires SingleAssignment(f) && r in Params(f)
    ensures GetExpr(FinalMap(f, isMain), Var(r)) == if isMain then None else Some(SymReg(r))
  {
    hide Recorded;
    var gone := ErasedPhis(f, isMain);
    FinalLookup(f, isMain, Var(r));
    if isMain {
      if r in EndMap(f, isMain) {
        MapKeys(StartMap(f, isMain), Nodes(f), |Nodes(f)|, r);
      }
    } else {
      MapGrows(f, isMain, 0, |Nodes(f)|, r);
      ErasedAreDefined(f, isMain, r);
    }
  }

  lemma ErasedAreDefined(f: Function, isMain: bool, r: Reg)
    ensures r in ErasedPhis(f, isMain) ==> exists k :: 0 <= k < |Nodes(f)| && Defines(Nodes(f)[k]) == Some(r)
  {
    hide EndMap, OnlyConcrete;
    if r in ErasedPhis(f, isMain) {
      var phis := PhisOf(Nodes(f), |Nodes(f)|);
      ErasedArePhis(EndMap(f, isMain), Nodes(f), |phis|, r);
      var l :| 0 <= l < |Nodes(f)| && Nodes(f)[l].PhiNode? && Nodes(f)[l].phi.dst == r;
      assert Defines(Nodes(f)[l]) == Some(r);
    }
  }

  // ----- Positions -----

  lemma {:induction false} NodeAt(blocks: seq<Block>, n: nat, b: nat, j: nat)
    requires b < n <= |blocks| && j < |BlockNodes(blocks[b])|
    ensures |AllInstructions(blocks, b)| + j < |AllInstructions(blocks, n)|
    ensures AllInstructions(blocks, n)[|AllInstructions(blocks, b)| + j] == BlockNodes(blocks[b])[j]
  {
    hide BlockNodes;
    if b < n - 1 {
      NodeAt(blocks, n - 1, b, j);
    }
  }

  lemma InstrNodeAt(f: Function, b: nat, pc: nat)
    requires b < |f.blocks| && pc <= |f.blocks[b].instrs|
    ensures NodeIndex(f.blocks, b, pc) < |Nodes(f)|
    ensures Nodes(f)[NodeIndex(f.blocks, b, pc)]
         == if pc < |f.blocks[b].instrs| then InstrNode(f.blocks[b].instrs[pc]) else TermNode(f.blocks[b].term)
  {
    NodeAt(f.blocks, |f.blocks|, b, |f.blocks[b].phis| + pc);
  }

  lemma PhiNodeAt(f: Function, b: nat, k: nat)
    requires b < |f.blocks| && k < |f.blocks[b].phis|
    ensures PhiIndex(f.blocks, b, k) < |Nodes(f)|
    ensures Nodes(f)[PhiIndex(f.blocks, b, k)] == PhiNode(f.blocks[b].phis[k])
  {
    NodeAt(f.blocks, |f.blocks|, b, k);
  }
}
