/** Functions in SSA form, and why the operands that the pass records stay up to date in them.

    The pass lets a value share the symbolic register of another one (casts and address computations
    with zero offsets), so a definition of the other value also overwrites the shared expression. */
module SsaForm {
  import opened BitVectors
  import opened Expressions
  import opened Builders
  import opened FlatShadow
  import opened Programs
  import opened Concolic
  import opened ShortCircuit
  import opened Computations
  import opened Symbolizer
  import opened Visibility
  import opened PassFacts

  // ----- Paths -----

  predicate IsSuccessor(term: Term, target: nat) {
    match term
    case Jump(t) => t == target
    case Branch(_, t, f) => target == t || target == f
    case Switch(_, cases, default) => target == default || exists c :: c in cases && c.1 == target
    case Return(_) => false
  }

  /** A sequence of blocks that control can follow from the entry block. */
  predicate IsPath(f: Function, path: seq<nat>) {
    && path != [] && path[0] == 0
    && InBlocks(f, path)
    && forall k | 0 < k < |path| :: IsSuccessor(f.blocks[path[k - 1]].term, path[k])
  }

  predicate InBlocks(f: Function, path: seq<nat>) {
    forall k | 0 <= k < |path| :: path[k] < |f.blocks|
  }

  function Last(path: seq<nat>): nat
    requires path != []
  {
    path[|path| - 1]
  }

  function DefSet(node: Node): set<Reg> {
    match Defines(node)
    case Some(r) => {r}
    case None => {}
  }

  function NodeDefs(nodes: seq<Node>, n: nat): set<Reg>
    requires n <= |nodes|
  {
    if n == 0 then {} else NodeDefs(nodes, n - 1) + DefSet(nodes[n - 1])
  }

  function PhiDefs(b: Block): set<Reg> {
    NodeDefs(BlockNodes(b), |b.phis|)
  }

  /** What a block has defined before the instruction at `pc`. */
  function DefsUpTo(b: Block, pc: nat): set<Reg>
    requires pc <= |b.instrs|
  {
    NodeDefs(BlockNodes(b), |b.phis| + pc)
  }

  function DefsThrough(f: Function, path: seq<nat>): set<Reg>
    requires InBlocks(f, path)
  {
    if path == [] then {} else
    var b := f.blocks[Last(path)];
    DefsThrough(f, path[..|path| - 1]) + DefsUpTo(b, |b.instrs|)
  }

  /** What has been defined on a path before the instruction at `pc` of its last block. */
  function Defs(f: Function, path: seq<nat>, pc: nat): set<Reg>
    requires path != [] && InBlocks(f, path) && pc <= |f.blocks[Last(path)].instrs|
  {
    DefsThrough(f, path[..|path| - 1]) + DefsUpTo(f.blocks[Last(path)], pc)
  }

  // ----- SSA form -----

  predicate Defined(f: Function, path: seq<nat>, pc: nat, o: Operand)
    requires path != [] && InBlocks(f, path) && pc <= |f.blocks[Last(path)].instrs|
  {
    o.Var? ==> o.r in f.params || o.r in Defs(f, path, pc)
  }

  predicate UsesDefined(f: Function, path: seq<nat>, pc: nat)
    requires path != [] && InBlocks(f, path) && pc <= |f.blocks[Last(path)].instrs|
  {
    forall j | 0 <= j < |Operands(NodeIn(f.blocks[Last(path)], pc))| ::
      Defined(f, path, pc, Operands(NodeIn(f.blocks[Last(path)], pc))[j])
  }

  /** The operands of the phi nodes of `target` that stand for the end of the path. */
  predicate IncomingDefined(f: Function, path: seq<nat>, target: nat)
    requires path != [] && InBlocks(f, path) && target < |f.blocks|
  {
    forall k | 0 <= k < |f.blocks[target].phis| :: var phi := f.blocks[target].phis[k];
      Last(path) in phi.incoming ==> Defined(f, path, |f.blocks[Last(path)].instrs|, phi.incoming[Last(path)])
  }

  /** Every register is defined once, and on every path to a use before the use. */
  ghost predicate Ssa(f: Function) {
    && f.blocks != [] && f.blocks[0].phis == []
    && SingleAssignment(f)
    && (forall path, pc: nat | IsPath(f, path) && pc <= |f.blocks[Last(path)].instrs| :: UsesDefined(f, path, pc))
    && (forall path, target: nat |
          IsPath(f, path) && target < |f.blocks| && IsSuccessor(f.blocks[Last(path)].term, target) ::
          IncomingDefined(f, path, target))
  }

  lemma OperandDefined(f: Function, path: seq<nat>, pc: nat, j: nat)
    requires Ssa(f) && IsPath(f, path) && pc <= |f.blocks[Last(path)].instrs|
    requires j < |Operands(NodeIn(f.blocks[Last(path)], pc))|
    requires Operands(NodeIn(f.blocks[Last(path)], pc))[j].Var?
    ensures Operands(NodeIn(f.blocks[Last(path)], pc))[j].r in Params(f) + Defs(f, path, pc)
  {
    hide SingleAssignment, Defs, Params, IsSuccessor, NodeIndex, Operands;
    var node, k := NodeIn(f.blocks[Last(path)], pc), NodeIndex(f.blocks, Last(path), pc);
    var o := Operands(node)[j];
    assert UsesDefined(f, path, pc);
    assert Defined(f, path, pc, o);
    InstrNodeAt(f, Last(path), pc);
    assert Uses(node, o) by { OperandsAreUsed(node, j); }
    OperandHasUses(f, k, o.r);
  }

  lemma OperandsAreUsed(node: Node, j: nat)
    requires j < |Operands(node)|
    ensures Uses(node, Operands(node)[j])
  {
  }

  lemma IncomingOperandDefined(f: Function, path: seq<nat>, target: nat, k: nat)
    requires Ssa(f) && IsPath(f, path)
    requires target < |f.blocks| && IsSuccessor(f.blocks[Last(path)].term, target)
    requires k < |f.blocks[target].phis| && Last(path) in f.blocks[target].phis[k].incoming
    requires f.blocks[target].phis[k].incoming[Last(path)].Var?
    ensures f.blocks[target].phis[k].incoming[Last(path)].r
         in Params(f) + Defs(f, path, |f.blocks[Last(path)].instrs|)
  {
    hide SingleAssignment, Defs, Params, IsSuccessor, PhiIndex;
    var phi := f.blocks[target].phis[k];
    var o := phi.incoming[Last(path)];
    assert IncomingDefined(f, path, target);
    assert Defined(f, path, |f.blocks[Last(path)].instrs|, o);
    PhiNodeAt(f, target, k);
    OperandHasUses(f, PhiIndex(f.blocks, target, k), o.r);
  }

  // ----- Definition sites -----

  predicate DefinedAt(b: Block, off: nat, r: Reg) {
    off < |BlockNodes(b)| && Defines(BlockNodes(b)[off]) == Some(r)
  }

  lemma {:induction false} FindSite(b: Block, n: nat, r: Reg) returns (off: nat)
    requires n <= |BlockNodes(b)| && r in NodeDefs(BlockNodes(b), n)
    ensures off < n && DefinedAt(b, off, r)
  {
    hide BlockNodes, Defines;
    if r in NodeDefs(BlockNodes(b), n - 1) {
      off := FindSite(b, n - 1, r);
    } else {
      off := n - 1;
    }
  }

  lemma {:induction false} SiteInDefs(b: Block, n: nat, off: nat, r: Reg)
    requires off < n <= |BlockNodes(b)| && DefinedAt(b, off, r)
    ensures r in NodeDefs(BlockNodes(b), n)
  {
    hide BlockNodes, Defines;
    if off < n - 1 {
      SiteInDefs(b, n - 1, off, r);
    }
  }

  lemma {:induction false} BlocksInOrder(blocks: seq<Block>, a: nat, b: nat)
    requires a < b <= |blocks|
    ensures |AllInstructions(blocks, a)| + |BlockNodes(blocks[a])| <= |AllInstructions(blocks, b)|
  {
    hide BlockNodes;
    if a < b - 1 {
      BlocksInOrder(blocks, a, b - 1);
    }
  }

  lemma SiteUnique(f: Function, a: nat, i: nat, b: nat, j: nat, r: Reg)
    requires SingleAssignment(f) && a < |f.blocks| && b < |f.blocks|
    requires DefinedAt(f.blocks[a], i, r) && DefinedAt(f.blocks[b], j, r)
    ensures a == b && i == j
  {
    hide BlockNodes, Defines;
    NodeAt(f.blocks, |f.blocks|, a, i);
    NodeAt(f.blocks, |f.blocks|, b, j);
    var k, l := |AllInstructions(f.blocks, a)| + i, |AllInstructions(f.blocks, b)| + j;
    assert Defines(Nodes(f)[k]) == Some(r) && Defines(Nodes(f)[l]) == Some(r);
    assert k == l;
    if a < b {
      BlocksInOrder(f.blocks, a, b);
    } else if b < a {
      BlocksInOrder(f.blocks, b, a);
    }
  }

  lemma NotAParam(f: Function, b: nat, off: nat, r: Reg)
    requires SingleAssignment(f) && b < |f.blocks| && DefinedAt(f.blocks[b], off, r)
    ensures r !in Params(f)
  {
    hide BlockNodes, Defines;
    NodeAt(f.blocks, |f.blocks|, b, off);
    assert Defines(Nodes(f)[|AllInstructions(f.blocks, b)| + off]) == Some(r);
  }

  lemma {:induction false} FindThrough(f: Function, path: seq<nat>, r: Reg) returns (k: nat, off: nat)
    requires InBlocks(f, path) && r in DefsThrough(f, path)
    ensures k < |path| && off < |f.blocks[path[k]].phis| + |f.blocks[path[k]].instrs|
      && DefinedAt(f.blocks[path[k]], off, r)
  {
    hide BlockNodes, DefinedAt;
    var b := f.blocks[Last(path)];
    if r in DefsUpTo(b, |b.instrs|) {
      k := |path| - 1;
      off := FindSite(b, |b.phis| + |b.instrs|, r);
    } else {
      k, off := FindThrough(f, path[..|path| - 1], r);
    }
  }

  lemma {:induction false} ThroughMono(f: Function, path: seq<nat>, k: nat)
    requires InBlocks(f, path) && k <= |path|
    ensures DefsThrough(f, path[..k]) <= DefsThrough(f, path)
  {
    hide DefsUpTo;
    if k == |path| {
      assert path[..k] == path;
    } else {
      ThroughMono(f, path[..|path| - 1], k);
      assert path[..|path| - 1][..k] == path[..k];
    }
  }

  lemma {:induction false} DefsUpToMono(b: Block, n: nat, m: nat)
    requires n <= m <= |BlockNodes(b)|
    ensures NodeDefs(BlockNodes(b), n) <= NodeDefs(BlockNodes(b), m)
  {
    if n < m {
      DefsUpToMono(b, n, m - 1);
    }
  }

  /** What is defined at a position is defined at all later ones. */
  lemma DefsMono(f: Function, path: seq<nat>, k: nat, pc: nat, pc': nat)
    requires InBlocks(f, path) && k < |path| && pc <= |f.blocks[path[k]].instrs| && pc' <= |f.blocks[Last(path)].instrs|
    requires k < |path| - 1 || pc <= pc'
    ensures Defs(f, path[..k + 1], pc) <= Defs(f, path, pc')
  {
    hide BlockNodes, NodeDefs;
    var before, b := path[..|path| - 1], f.blocks[path[k]];
    assert path[..k + 1][..k] == path[..k];
    if k < |path| - 1 {
      DefsUpToMono(b, |b.phis| + pc, |b.phis| + |b.instrs|);
      ThroughMono(f, before, k + 1);
      assert before[..k + 1] == path[..k + 1];
      assert Last(path[..k + 1]) == path[k];
    } else {
      assert path[..k + 1] == path;
      DefsUpToMono(b, |b.phis| + pc, |b.phis| + pc');
    }
  }

  // ----- Shared registers -----

  /** The symbolic register that holds the expression of a value. */
  function Root(em: ExprMap, r: Reg): Option<Reg> {
    match GetExprOrNull(em, Var(r))
    case SymReg(q) => Some(q)
    case _ => None
  }

  predicate Shares(em: ExprMap, r: Reg, q: Reg) {
    r != q && Root(em, r) == Some(q)
  }

  /** Only casts and address computations make a value share another one's register. */
  lemma SharedBy(f: Function, isMain: bool, b: nat, off: nat, d: Reg, q: Reg) returns (pc: nat, c: Reg)
    requires SingleAssignment(f) && b < |f.blocks|
    requires DefinedAt(f.blocks[b], off, d) && Shares(FinalMap(f, isMain), d, q)
    ensures off == |f.blocks[b].phis| + pc && pc < |f.blocks[b].instrs|
    ensures Root(FinalMap(f, isMain), c) == Some(q)
    ensures exists j :: 0 <= j < |Operands(NodeIn(f.blocks[b], pc))| && Operands(NodeIn(f.blocks[b], pc))[j] == Var(c)
  {
    hide ErasedPhis, FinalMap, NodeMap, SingleAssignment, FinalPhis, DefinedEarlier;
    var node := BlockNodes(f.blocks[b])[off];
    NodeAt(f.blocks, |f.blocks|, b, off);
    if off < |f.blocks[b].phis| {
      PhiThroughFinalMap(f, isMain, |AllInstructions(f.blocks, b)| + off);
      assert false;
    } else {
      var k := |AllInstructions(f.blocks, b)| + off;
      RecordedThroughNodeMap(f, isMain, k);
      pc := off - |f.blocks[b].phis|;
      var source := SharedOperand(NodeMap(f, isMain, k), node, d, q);
      c := source.r;
      NodeLookup(f, isMain, k, source);
      assert Operands(NodeIn(f.blocks[b], pc))[0] == Var(c);
    }
  }

  lemma SharedOperand(em: ExprMap, node: Node, d: Reg, q: Reg) returns (o: Operand)
    requires Defines(node) == Some(d) && Recorded(em, node) == Some(SymReg(q)) && d != q && !node.PhiNode?
    ensures node.InstrNode? && Operands(node) != [] && Operands(node)[0] == o
    ensures o.Var? && Root(em, o.r) == Some(q)
  {
    o := Operands(node)[0];
  }

  lemma ParamsShareNothing(f: Function, isMain: bool, r: Reg, q: Reg)
    requires SingleAssignment(f) && r in Params(f)
    ensures !Shares(FinalMap(f, isMain), r, q)
  {
    hide FinalMap, SingleAssignment;
    ParamThroughFinalMap(f, isMain, r);
  }

  /** Wherever a value is defined that shares a register, the owner of the register has been defined. */
  lemma {:induction false} OwnerDefinedFirst(f: Function, isMain: bool, path: seq<nat>, off: nat, d: Reg, q: Reg)
    returns (pc: nat)
    requires Ssa(f) && IsPath(f, path)
    requires DefinedAt(f.blocks[Last(path)], off, d) && Shares(FinalMap(f, isMain), d, q)
    ensures off == |f.blocks[Last(path)].phis| + pc && pc < |f.blocks[Last(path)].instrs|
    ensures q in Params(f) + Defs(f, path, pc)
    decreases |path|, off
  {
    hide FinalMap, SingleAssignment, DefsUpTo, DefsThrough, Operands, Shares, DefinedAt;
    var c;
    pc, c := SharedBy(f, isMain, Last(path), off, d, q);
    var j :| 0 <= j < |Operands(NodeIn(f.blocks[Last(path)], pc))|
             && Operands(NodeIn(f.blocks[Last(path)], pc))[j] == Var(c);
    OperandDefined(f, path, pc, j);
    if c != q {
      assert Shares(FinalMap(f, isMain), c, q) by { SharesIs(FinalMap(f, isMain), c, q); }
      if c in Params(f) {
        ParamsShareNothing(f, isMain, c, q);
        assert false;
      } else {
        var k, off' := FindOnPath(f, path, pc, c);
        PrefixIsPath(f, path, k);
        var pc' := OwnerDefinedFirst(f, isMain, path[..k + 1], off', c, q);
        DefsMono(f, path, k, pc', pc);
      }
    }
  }

  lemma SharesIs(em: ExprMap, r: Reg, q: Reg)
    requires r != q && Root(em, r) == Some(q)
    ensures Shares(em, r, q)
  {
  }

  lemma PrefixIsPath(f: Function, path: seq<nat>, k: nat)
    requires IsPath(f, path) && k < |path|
    ensures IsPath(f, path[..k + 1]) && Last(path[..k + 1]) == path[k]
  {
  }

  lemma FindOnPath(f: Function, path: seq<nat>, pc: nat, r: Reg) returns (k: nat, off: nat)
    requires path != [] && InBlocks(f, path) && pc <= |f.blocks[Last(path)].instrs|
    requires r in Defs(f, path, pc)
    ensures k < |path| && DefinedAt(f.blocks[path[k]], off, r)
    ensures if k == |path| - 1 then off < |f.blocks[path[k]].phis| + pc
            else off < |f.blocks[path[k]].phis| + |f.blocks[path[k]].instrs|
  {
    hide BlockNodes, DefinedAt, NodeDefs, DefsThrough;
    if r in DefsUpTo(f.blocks[Last(path)], pc) {
      k := |path| - 1;
      off := FindSite(f.blocks[Last(path)], |f.blocks[Last(path)].phis| + pc, r);
    } else {
      k, off := FindThrough(f, path[..|path| - 1], r);
    }
  }

  // ----- Values that are up to date -----

  function Kill(em: ExprMap, avail: set<Reg>, defs: set<Reg>): set<Reg> {
    set r | r in avail && r !in defs && !(Root(em, r).Some? && Root(em, r).value in defs)
  }

  function After(em: ExprMap, avail: set<Reg>, defs: set<Reg>): set<Reg> {
    Kill(em, avail, defs) + defs
  }

  /** The values whose recorded operands hold their current expressions at a position on a path. */
  function AvailAt(f: Function, em: ExprMap, path: seq<nat>, pc: nat): set<Reg>
    requires path != [] && InBlocks(f, path) && pc <= |f.blocks[Last(path)].instrs|
    decreases |path|, pc
  {
    if pc > 0 then After(em, AvailAt(f, em, path, pc - 1), DefSet(InstrNode(f.blocks[Last(path)].instrs[pc - 1])))
    else if |path| == 1 then Params(f)
    else
      var before := path[..|path| - 1];
      After(em, AvailAt(f, em, before, |f.blocks[Last(before)].instrs|), PhiDefs(f.blocks[Last(path)]))
  }

  /** A value that was defined but is not up to date shares a register that was defined again since. */
  ghost predicate StaleSince(f: Function, path: seq<nat>, pc: nat, d: Reg, q: Reg, i: nat, off: nat)
    requires path != [] && InBlocks(f, path) && pc <= |f.blocks[Last(path)].instrs|
  {
    && i < |path| && DefinedAt(f.blocks[path[i]], off, q)
    && d !in Defs(f, path[i..], pc)
  }

  /** Before the first definition of a register there is none of a value that shares it. */
  lemma NoneBeforeFirst(f: Function, isMain: bool, path: seq<nat>, pc: nat, d: Reg, q: Reg, off: nat)
    requires Ssa(f) && IsPath(f, path) && pc <= |f.blocks[Last(path)].instrs|
    requires Last(path) !in path[..|path| - 1]
    requires Shares(FinalMap(f, isMain), d, q) && DefinedAt(f.blocks[Last(path)], off, q)
    requires |f.blocks[Last(path)].phis| + pc <= off || pc == 0
    ensures d !in Defs(f, path, pc)
  {
    hide FinalMap, SingleAssignment, DefsUpTo, DefsThrough, Shares, DefinedAt, Defs;
    if d in Defs(f, path, pc) {
      var k, off' := FindOnPath(f, path, pc, d);
      PrefixIsPath(f, path, k);
      var pc' := OwnerDefinedFirst(f, isMain, path[..k + 1], off', d, q);
      NotAParam(f, Last(path), off, q);
      var k2, off2 := FindOnPath(f, path[..k + 1], pc', q);
      assert k2 < |path| - 1 ==> path[..|path| - 1][k2] == path[k2];
      SiteUnique(f, path[k2], off2, Last(path), off, q);
      assert false;
    }
  }

  lemma {:induction false} FirstOccurrence(path: seq<nat>, i: nat) returns (j: nat)
    requires i < |path|
    ensures j <= i && path[j] == path[i] && path[i] !in path[..j]
  {
    j := 0;
    while path[j] != path[i]
      invariant j <= i && path[i] !in path[..j]
      decreases i - j
    {
      j := j + 1;
    }
  }

  /** No value that shares a register is defined in a block before the register's own definition. */
  lemma NoneBeforeInBlock(f: Function, isMain: bool, path: seq<nat>, k: nat, pc: nat, d: Reg, q: Reg, off: nat)
    requires Ssa(f) && IsPath(f, path) && k < |path| && pc <= |f.blocks[path[k]].instrs|
    requires Shares(FinalMap(f, isMain), d, q) && DefinedAt(f.blocks[path[k]], off, q)
    requires |f.blocks[path[k]].phis| + pc <= off || pc == 0
    ensures d !in DefsUpTo(f.blocks[path[k]], pc)
  {
    hide FinalMap, DefsUpTo, DefsThrough, Shares, DefinedAt, Ssa;
    var j := FirstOccurrence(path, k);
    PrefixIsPath(f, path, j);
    assert path[..j + 1][..j] == path[..j];
    NoneBeforeFirst(f, isMain, path[..j + 1], pc, d, q, off);
  }

  lemma {:induction false} WhyStale(f: Function, isMain: bool, path: seq<nat>, pc: nat, d: Reg)
    returns (q: Reg, i: nat, off: nat)
    requires Ssa(f) && IsPath(f, path) && pc <= |f.blocks[Last(path)].instrs|
    requires d in Params(f) + Defs(f, path, pc) && d !in AvailAt(f, FinalMap(f, isMain), path, pc)
    ensures Shares(FinalMap(f, isMain), d, q)
    ensures StaleSince(f, path, pc, d, q, i, off)
    decreases |path|, pc
  {
    hide FinalMap, SingleAssignment, DefsUpTo, DefsThrough, Shares, DefinedAt, Defs, Ssa, DefSet, Root;
    var em, n, b := FinalMap(f, isMain), |path|, f.blocks[Last(path)];
    if pc > 0 {
      var before := AvailAt(f, em, path, pc - 1);
      var defs := DefSet(InstrNode(b.instrs[pc - 1]));
      DefsStep(f, path, pc);
      if d in before {
        q, off := KilledBy(em, before, b, pc, d);
        i := n - 1;
        NoneBeforeInBlock(f, isMain, path, i, pc - 1, d, q, off);
        DefsOfLast(f, path, pc);
        DefsStep(f, path[i..], pc);
        DefsOfLast(f, path, pc - 1);
      } else {
        q, i, off := WhyStale(f, isMain, path, pc - 1, d);
        DefsStep(f, path[i..], pc);
      }
    } else if n == 1 {
      NoPhisNoDefs(f, path);
      assert false;
    } else {
      var prev := path[..n - 1];
      var before := AvailAt(f, em, prev, |f.blocks[Last(prev)].instrs|);
      PrefixIsPath(f, path, n - 2);
      DefsEnter(f, path);
      if d in before {
        q, off := KilledByPhi(em, before, b, d);
        i := n - 1;
        NoneBeforeInBlock(f, isMain, path, i, 0, d, q, off);
        DefsOfLast(f, path, 0);
      } else {
        q, i, off := WhyStale(f, isMain, prev, |f.blocks[Last(prev)].instrs|, d);
        assert path[i..][..n - 1 - i] == prev[i..];
        DefsEnter(f, path[i..]);
      }
    }
  }

  lemma DefsStep(f: Function, path: seq<nat>, pc: nat)
    requires path != [] && InBlocks(f, path) && 0 < pc <= |f.blocks[Last(path)].instrs|
    ensures Defs(f, path, pc) == Defs(f, path, pc - 1) + DefSet(InstrNode(f.blocks[Last(path)].instrs[pc - 1]))
  {
  }

  lemma DefsEnter(f: Function, path: seq<nat>)
    requires |path| > 1 && InBlocks(f, path)
    ensures var prev := path[..|path| - 1];
      Defs(f, path, 0) == Defs(f, prev, |f.blocks[Last(prev)].instrs|) + PhiDefs(f.blocks[Last(path)])
  {
    hide NodeDefs;
  }

  lemma DefsOfLast(f: Function, path: seq<nat>, pc: nat)
    requires path != [] && InBlocks(f, path) && pc <= |f.blocks[Last(path)].instrs|
    ensures Defs(f, path[|path| - 1..], pc) == DefsUpTo(f.blocks[Last(path)], pc)
  {
    hide NodeDefs;
    assert path[|path| - 1..] == [Last(path)];
  }

  lemma NoPhisNoDefs(f: Function, path: seq<nat>)
    requires Ssa(f) && IsPath(f, path) && |path| == 1
    ensures Defs(f, path, 0) == {}
  {
  }

  lemma KilledBy(em: ExprMap, avail: set<Reg>, b: Block, pc: nat, d: Reg) returns (q: Reg, off: nat)
    requires 0 < pc <= |b.instrs|
    requires d in avail && d !in After(em, avail, DefSet(InstrNode(b.instrs[pc - 1])))
    ensures Shares(em, d, q) && DefinedAt(b, off, q) && off == |b.phis| + pc - 1
    ensures DefSet(InstrNode(b.instrs[pc - 1])) == {q}
  {
    q, off := Root(em, d).value, |b.phis| + pc - 1;
    assert BlockNodes(b)[off] == InstrNode(b.instrs[pc - 1]);
  }

  lemma KilledByPhi(em: ExprMap, avail: set<Reg>, b: Block, d: Reg) returns (q: Reg, off: nat)
    requires d in avail && d !in After(em, avail, PhiDefs(b))
    ensures Shares(em, d, q) && DefinedAt(b, off, q)
  {
    hide NodeDefs, DefinedAt, BlockNodes;
    q := Root(em, d).value;
    off := FindSite(b, |b.phis|, q);
  }

  lemma {:induction false} ThroughJoin(f: Function, a: seq<nat>, b: seq<nat>)
    requires InBlocks(f, a) && InBlocks(f, b)
    ensures DefsThrough(f, a + b) == DefsThrough(f, a) + DefsThrough(f, b)
  {
    hide DefsUpTo;
    if b == [] {
      assert a + b == a;
    } else {
      ThroughJoin(f, a, b[..|b| - 1]);
      assert (a + b)[..|a + b| - 1] == a + b[..|b| - 1];
      assert Last(a + b) == Last(b);
    }
  }

  lemma DefsJoin(f: Function, a: seq<nat>, b: seq<nat>, pc: nat)
    requires InBlocks(f, a) && InBlocks(f, b) && b != [] && pc <= |f.blocks[Last(b)].instrs|
    ensures Last(a + b) == Last(b) && Defs(f, a + b, pc) == DefsThrough(f, a) + Defs(f, b, pc)
  {
    hide DefsUpTo;
    assert (a + b)[..|a + b| - 1] == a + b[..|b| - 1];
    ThroughJoin(f, a, b[..|b| - 1]);
  }

  lemma CutIsPath(f: Function, path: seq<nat>, j: nat, i: nat)
    requires IsPath(f, path) && j <= i < |path| && path[j] == path[i]
    ensures IsPath(f, path[..j] + path[i..]) && Last(path[..j] + path[i..]) == Last(path)
  {
    var cut := path[..j] + path[i..];
    assert cut[0] == path[0];
    forall k | 0 < k < |cut|
      ensures IsSuccessor(f.blocks[cut[k - 1]].term, cut[k])
    {
      if k < j {
        assert cut[k - 1] == path[k - 1] && cut[k] == path[k];
      } else if k == j {
        assert cut[k - 1] == path[j - 1] && cut[k] == path[j];
      } else {
        assert cut[k - 1] == path[i + (k - 1 - j)] && cut[k] == path[i + (k - 1 - j) + 1];
      }
    }
  }

  /** The register's owner and the value that shares it: if a path visits the owner's definition
      after the value's, cutting the path shows a way to the end without the value's definition. */
  lemma CutAvoids(f: Function, isMain: bool, path: seq<nat>, pc: nat, d: Reg, q: Reg, i: nat, off: nat)
    returns (cut: seq<nat>)
    requires Ssa(f) && IsPath(f, path) && pc <= |f.blocks[Last(path)].instrs|
    requires Shares(FinalMap(f, isMain), d, q) && StaleSince(f, path, pc, d, q, i, off)
    ensures IsPath(f, cut) && Last(cut) == Last(path)
    ensures d !in Params(f) + Defs(f, cut, pc)
  {
    hide FinalMap, SingleAssignment, DefsUpTo, DefsThrough, Shares, DefinedAt, Ssa, IsSuccessor;
    var j := FirstOccurrence(path, i);
    cut := path[..j] + path[i..];
    CutIsPath(f, path, j, i);
    DefsJoin(f, path[..j], path[i..], pc);
    PrefixIsPath(f, path, j);
    assert path[..j + 1][..j] == path[..j];
    NoneBeforeFirst(f, isMain, path[..j + 1], 0, d, q, off);
    if d in Params(f) {
      assert SingleAssignment(f) by { SsaAssigns(f); }
      ParamsShareNothing(f, isMain, d, q);
      assert false;
    }
  }

  lemma SsaAssigns(f: Function)
    requires Ssa(f)
    ensures SingleAssignment(f)
  {
  }

  /** A register that is defined on every path to a position is up to date there on every path. */
  lemma UpToDate(f: Function, isMain: bool, path: seq<nat>, pc: nat, d: Reg)
    requires Ssa(f) && IsPath(f, path) && pc <= |f.blocks[Last(path)].instrs|
    requires forall other | IsPath(f, other) && Last(other) == Last(path) :: d in Params(f) + Defs(f, other, pc)
    ensures d in AvailAt(f, FinalMap(f, isMain), path, pc)
  {
    hide FinalMap, Defs, Shares, Ssa, IsSuccessor, AvailAt, StaleSince;
    if d !in AvailAt(f, FinalMap(f, isMain), path, pc) {
      assert d in Params(f) + Defs(f, path, pc);
      var q, i, off := WhyStale(f, isMain, path, pc, d);
      var cut := CutAvoids(f, isMain, path, pc, d, q, i, off);
      assert false;
    }
  }

  predicate ValidAt(avail: set<Reg>, o: Operand) {
    o.Var? ==> o.r in avail
  }

  /** All operands that emitted code reads are up to date when it runs. */
  lemma OperandsUpToDate(f: Function, isMain: bool, path: seq<nat>, pc: nat, j: nat)
    requires Ssa(f) && IsPath(f, path) && pc <= |f.blocks[Last(path)].instrs|
    requires j < |Operands(NodeIn(f.blocks[Last(path)], pc))|
    ensures ValidAt(AvailAt(f, FinalMap(f, isMain), path, pc), Operands(NodeIn(f.blocks[Last(path)], pc))[j])
  {
    hide FinalMap, SingleAssignment, Defs, IsSuccessor, AvailAt, Operands;
    var o := Operands(NodeIn(f.blocks[Last(path)], pc))[j];
    if o.Var? {
      forall other | IsPath(f, other) && Last(other) == Last(path)
        ensures o.r in Params(f) + Defs(f, other, pc)
      {
        OperandDefined(f, other, pc, j);
      }
      UpToDate(f, isMain, path, pc, o.r);
    }
  }

  /** So are the operands of phi nodes when control leaves for their block. */
  lemma IncomingUpToDate(f: Function, isMain: bool, path: seq<nat>, target: nat, k: nat)
    requires Ssa(f) && IsPath(f, path)
    requires target < |f.blocks| && IsSuccessor(f.blocks[Last(path)].term, target)
    requires k < |f.blocks[target].phis| && Last(path) in f.blocks[target].phis[k].incoming
    ensures ValidAt(AvailAt(f, FinalMap(f, isMain), path, |f.blocks[Last(path)].instrs|),
                    f.blocks[target].phis[k].incoming[Last(path)])
  {
    hide FinalMap, SingleAssignment, Defs, IsSuccessor, AvailAt;
    var o, pc := f.blocks[target].phis[k].incoming[Last(path)], |f.blocks[Last(path)].instrs|;
    if o.Var? {
      forall other | IsPath(f, other) && Last(other) == Last(path)
        ensures o.r in Params(f) + Defs(f, other, pc)
      {
        IncomingOperandDefined(f, other, target, k);
      }
      UpToDate(f, isMain, path, pc, o.r);
    }
  }

  // ----- The order in which blocks are laid out -----

  /** Every operand is defined before it is visited, or never has an expression at all. */
  predicate LayoutOrder(f: Function, isMain: bool) {
    forall k, j | 0 <= k < |Nodes(f)| && 0 <= j < |Operands(Nodes(f)[k])| ::
      DefinedEarlier(f, k, Operands(Nodes(f)[k])[j]) || GetExpr(EndMap(f, isMain), Operands(Nodes(f)[k])[j]).None?
  }

  /** The pass finds every expression, as if it knew the final map from the start, exactly in this order. */
  lemma AllFoundIff(f: Function, isMain: bool)
    requires SingleAssignment(f)
    ensures LayoutOrder(f, isMain) <==> forall k, j | 0 <= k < |Nodes(f)| && 0 <= j < |Operands(Nodes(f)[k])| ::
      GetExpr(MapAfter(StartMap(f, isMain), Nodes(f), k), Operands(Nodes(f)[k])[j])
      == GetExpr(EndMap(f, isMain), Operands(Nodes(f)[k])[j])
  {
    hide Operands, DefinedEarlier, EndMap, GetExpr, SingleAssignment;
    forall k: nat, j: nat | k < |Nodes(f)| && j < |Operands(Nodes(f)[k])|
      ensures GetExpr(MapAfter(StartMap(f, isMain), Nodes(f), k), Operands(Nodes(f)[k])[j])
           == if DefinedEarlier(f, k, Operands(Nodes(f)[k])[j])
              then GetExpr(EndMap(f, isMain), Operands(Nodes(f)[k])[j]) else None
    {
      LookupFinds(f, isMain, k, Operands(Nodes(f)[k])[j]);
    }
  }

  /** Then nothing is missed at any instruction. */
  lemma FirstSeesAll(p: Program, m: Machine, y: Sym)
    requires AtCode(p, m) && m.frames[0].pc <= |BlockAt(p, m).instrs| && DefinitionsFirst(FunctionAt(p, m))
    ensures MissedAt(p, m) == {}
    ensures SeesAll(InLayoutOrder, p, m, y)
  {
    hide DefinedEarlier, Operands, NodeIndex;
    var f, fr := FunctionAt(p, m), m.frames[0];
    var k, node := NodeIndex(f.blocks, fr.block, fr.pc), NodeIn(BlockAt(p, m), fr.pc);
    InstrNodeAt(f, fr.block, fr.pc);
    forall o | o in Operands(node)
      ensures DefinedEarlier(f, k, o)
    {
      var j :| 0 <= j < |Operands(node)| && Operands(node)[j] == o;
      assert DefinedEarlier(f, k, Operands(Nodes(f)[k])[j]);
    }
    if y.frames != [] {
      assert y.frames[0] - {} == y.frames[0];
    }
  }

  /** This order can be read off the blocks, without running the pass. */
  lemma DefinitionsFirstSuffices(f: Function, isMain: bool)
    requires DefinitionsFirst(f)
    ensures LayoutOrder(f, isMain)
  {
    hide Operands, DefinedEarlier, EndMap;
  }
}
