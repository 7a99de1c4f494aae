/** Which expressions the emitted code sees.

    The pass visits the instructions of a function in layout order and looks up the operands of each
    one as it gets there; an operand whose definition comes later in that order is not found, and
    the emitted code takes it to be concrete. */
module Visibility {
  import opened BitVectors
  import opened Expressions
  import opened Builders
  import opened FlatShadow
  import opened Programs
  import opened Concolic
  import opened ShortCircuit
  import opened Computations
  import opened Symbolizer

  /** The naive rule sees every expression, the emitted code those of earlier definitions. */
  datatype Sight = Everything | InLayoutOrder

  /** The operand's definition comes before node `k` in layout order.  (A parameter that is an operand
      of some node has a use.) */
  predicate DefinedEarlier(f: Function, k: nat, o: Operand) {
    o.Var? ==> o.r in Params(f) || exists l :: 0 <= l < k && l < |Nodes(f)| && Defines(Nodes(f)[l]) == Some(o.r)
  }

  /** The operands of a node, visited as number `k`, that are defined after it. */
  function Missed(f: Function, k: nat, node: Node): set<Reg> {
    set o | o in Operands(node) && o.Var? && !DefinedEarlier(f, k, o) :: o.r
  }

  /** The operands of the next instruction that are defined after it. */
  function MissedAt(p: Program, m: Machine): set<Reg>
    requires AtCode(p, m)
  {
    var fr, b := m.frames[0], BlockAt(p, m);
    Missed(FunctionAt(p, m),
           NodeIndex(FunctionAt(p, m).blocks, fr.block, if fr.pc < |b.instrs| then fr.pc else |b.instrs|),
           NodeIn(b, fr.pc))
  }

  function Visible(sight: Sight, p: Program, m: Machine, y: Sym): Exprs {
    if y.frames == [] then map[]
    else if sight.Everything? || !AtCode(p, m) then y.frames[0]
    else y.frames[0] - MissedAt(p, m)
  }

  /** One step, as seen. */
  function SightStep(sight: Sight, p: Program, inp: Input, m: Machine, y: Sym): Sym
    requires p.layout.ptrBits > 0
  {
    SymStep(p, inp, m, y, Visible(sight, p, m, y))
  }

  /** No operand of the next instruction has an expression that is not seen. */
  predicate SeesAll(sight: Sight, p: Program, m: Machine, y: Sym) {
    y.frames == [] || Visible(sight, p, m, y) == y.frames[0]
  }

  lemma SeesAllSteps(p: Program, inp: Input, m: Machine, y: Sym)
    requires p.layout.ptrBits > 0 && SeesAll(InLayoutOrder, p, m, y)
    ensures SightStep(InLayoutOrder, p, inp, m, y) == SightStep(Everything, p, inp, m, y)
  {
    hide MissedAt, SymCall, SymAdvance, SymExec, SymTerm;
  }

  lemma SeesAllIff(p: Program, m: Machine, y: Sym)
    requires AtCode(p, m) && y.frames != []
    ensures SeesAll(InLayoutOrder, p, m, y) <==> MissedAt(p, m) !! y.frames[0].Keys
  {
    hide MissedAt;
    var es, lost := y.frames[0], MissedAt(p, m);
    if lost !! es.Keys {
      assert es - lost == es;
    } else {
      var r :| r in lost && r in es;
      assert r !in es - lost;
    }
  }

  // ----- Definitions first -----

  /** Blocks are laid out so that definitions precede uses, phi nodes aside. */
  predicate DefinitionsFirst(f: Function) {
    forall k, j | 0 <= k < |Nodes(f)| && 0 <= j < |Operands(Nodes(f)[k])| ::
      DefinedEarlier(f, k, Operands(Nodes(f)[k])[j])
  }
}
