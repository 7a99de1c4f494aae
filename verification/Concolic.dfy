/** The instrumentation as a rule beside each machine step: which expression every value and every
    memory byte gets, and which path constraints are pushed.

    This is the naive rule: an instruction with only concrete inputs has no expression, any other
    gets the run-time call with expressions made up for its concrete inputs.  Module `Simulation`
    shows that the code emitted by the compiler pass does this with the expressions that it sees. */
module Concolic {
  import opened BitVectors
  import opened Expressions
  import opened Builders
  import opened FlatShadow
  import opened Programs

  /** A register without an entry is concrete (its expression is null). */
  type Exprs = map<Reg, Expr>

  /** A condition that was evaluated, and its outcome. */
  datatype Constraint = Constraint(cond: Expr, taken: bool)

  type Path = seq<Constraint>

  datatype SymLocal = SymLocal(exprs: Exprs, shadow: ShadowMap, offset: nat, path: Path)

  /** The symbolic state; frames, innermost first, run parallel to those of the machine. */
  datatype Sym = Sym(frames: seq<Exprs>, shadow: ShadowMap, offset: nat, path: Path,
                     params: map<nat, Expr>, ret: Option<Expr>)

  // ----- Expressions of operands -----

  function Lookup(es: Exprs, r: Reg): Option<Expr> {
    if r in es then Some(es[r]) else None
  }

  function ExprOf(es: Exprs, o: Operand): Option<Expr> {
    match o
    case Imm(_) => None
    case Var(r) => Lookup(es, r)
  }

  function ExprsOf(es: Exprs, os: seq<Operand>): (r: seq<Option<Expr>>)
    ensures |r| == |os|
  {
    seq(|os|, i requires 0 <= i < |os| => ExprOf(es, os[i]))
  }

  function SetExpr(es: Exprs, r: Reg, e: Option<Expr>): Exprs {
    match e
    case Some(x) => es[r := x]
    case None => es - {r}
  }

  /** The expression of a value, made up from the concrete value if there is none. */
  function Lifted(v: Value, e: Option<Expr>): Expr {
    match e
    case Some(x) => x
    case None => Lift(v)
  }

  function LiftedAll(vs: seq<Value>, es: seq<Option<Expr>>): (r: seq<Expr>)
    requires |vs| == |es|
    ensures |r| == |vs|
  {
    seq(|vs|, i requires 0 <= i < |vs| => Lifted(vs[i], es[i]))
  }

  // ----- The rule for each kind of instruction -----

  function OpExpr(fn: RtFn, vs: seq<Value>, es: seq<Option<Expr>>): Option<Expr>
    requires |vs| == |es|
  {
    if AllNull(es) then None else Some(Apply(fn, LiftedAll(vs, es)))
  }

  function ComputeExpr(lay: Layout, op: Op, args: seq<Operand>, regs: Regs, es: Exprs): Option<Expr> {
    match ValuesOf(regs, args)
    case Some(vs) =>
      if ValidOp(op) && |vs| == |args| then OpExpr(RtOf(lay, op), vs, ExprsOf(es, args)) else None
    case None => None
  }

  function PtrConst(lay: Layout, n: nat): Expr
    requires lay.ptrBits > 0
  {
    Lift(MakeValue(lay.ptrBits, n))
  }

  predicate IsZeroIndex(step: GepStep) {
    match step
    case Field(member, _) => member == 0
    case Element(index, _, _) => index.Imm? && index.v.n == 0
  }

  predicate AllZero(steps: seq<GepStep>) {
    forall i | 0 <= i < |steps| :: IsZeroIndex(steps[i])
  }

  function IndexOperands(steps: seq<GepStep>): seq<Operand> {
    if steps == [] then [] else
    (match steps[0] case Field(_, _) => [] case Element(index, _, _) => [index]) + IndexOperands(steps[1..])
  }

  /** Index times element size; an index of another width is zero-extended by the difference,
      which is passed as an 8-bit number. */
  function ElementExpr(lay: Layout, index: Expr, indexBits: nat, size: nat): Expr
    requires lay.ptrBits > 0
  {
    var wide := if indexBits == lay.ptrBits then index else ZeroExtend((lay.ptrBits - indexBits) % 256, index);
    BinExpr(Mul, wide, PtrConst(lay, size))
  }

  function LiftedOperand(regs: Regs, es: Exprs, o: Operand): Expr {
    match ValueOf(regs, o)
    case Some(v) => Lifted(v, ExprOf(es, o))
    case None => ERROR_EXPR
  }

  function GepStepExpr(lay: Layout, regs: Regs, es: Exprs, step: GepStep, current: Expr): Expr
    requires lay.ptrBits > 0
  {
    match step
    case Field(_, offset) => BinExpr(Add, PtrConst(lay, offset), current)
    case Element(index, indexBits, size) =>
      if IsZeroIndex(step) then current
      else BinExpr(Add, ElementExpr(lay, LiftedOperand(regs, es, index), indexBits, size), current)
  }

  function GepFold(lay: Layout, regs: Regs, es: Exprs, steps: seq<GepStep>, current: Expr): Expr
    requires lay.ptrBits > 0
  {
    if steps == [] then current
    else GepFold(lay, regs, es, steps[1..], GepStepExpr(lay, regs, es, steps[0], current))
  }

  function GepExpr(lay: Layout, regs: Regs, es: Exprs, base: Operand, steps: seq<GepStep>): Option<Expr>
    requires lay.ptrBits > 0
  {
    if AllZero(steps) then ExprOf(es, base)
    else if AllNull(ExprsOf(es, [base] + IndexOperands(steps))) then None
    else Some(GepFold(lay, regs, es, steps, LiftedOperand(regs, es, base)))
  }

  function Push(path: Path, cond: Option<Expr>, taken: bool): Path {
    match cond
    case Some(e) => path + [Constraint(e, taken)]
    case None => path
  }

  /** `tryAlternative`: pins a symbolic address or length to its concrete value. */
  function TryAlternative(regs: Regs, es: Exprs, o: Operand, path: Path): Path {
    match (ValueOf(regs, o), ExprOf(es, o))
    case (Some(v), Some(e)) => path + [Constraint(CmpExpr(Eq, e, Lift(v)), true)]
    case _ => path
  }

  function WriteInput(sh: ShadowMap, addr: nat, offset: nat, len: nat): ShadowMap {
    sh + map a | a in Range(addr, len) :: InputByte(offset + (a - addr))
  }

  function Address(regs: Regs, o: Operand): nat {
    match ValueOf(regs, o)
    case Some(v) => v.n
    case None => 0
  }

  /** The symbolic side of an instruction other than a call; `l` is the state before it. */
  function SymExec(lay: Layout, inp: Input, i: Instr, l: Local, y: SymLocal): SymLocal
    requires lay.ptrBits > 0
  {
    match i
    case Compute(dst, op, args) =>
      y.(exprs := SetExpr(y.exprs, dst, ComputeExpr(lay, op, args, l.regs, y.exprs)))
    case Gep(dst, base, steps) =>
      y.(exprs := SetExpr(y.exprs, dst, GepExpr(lay, l.regs, y.exprs, base, steps)))
    case Copy(dst, src, _) =>
      y.(exprs := SetExpr(y.exprs, dst, ExprOf(y.exprs, src)))
    case Select(dst, cond, _, _) =>
      y.(exprs := SetExpr(y.exprs, dst, None),
         path := Push(y.path, ExprOf(y.exprs, cond), Address(l.regs, cond) == 1))
    case Load(dst, bits, scalar, addr) =>
      var size := StoreSize(bits);
      if size == 0 then y else
      y.(exprs := SetExpr(y.exprs, dst,
                          ReadShadow(y.shadow, l.mem, Address(l.regs, addr), size, IsLittleEndian(lay, scalar))),
         path := TryAlternative(l.regs, y.exprs, addr, y.path))
    case Store(val, bits, scalar, addr) =>
      var e := ExprOf(y.exprs, val);
      y.(shadow := WriteShadow(y.shadow, Address(l.regs, addr), StoreSize(bits), e, lay.littleEndian),
         path := TryAlternative(l.regs, y.exprs, addr, y.path))
    case MemCpy(dest, src, len) => SymTransfer(dest, src, len, l, y)
    case MemMove(dest, src, len) => SymTransfer(dest, src, len, l, y)
    case MemSet(dest, val, len) =>
      y.(shadow := FillShadow(y.shadow, Address(l.regs, dest), Address(l.regs, len), ExprOf(y.exprs, val)),
         path := TryAlternative(l.regs, y.exprs, len, TryAlternative(l.regs, y.exprs, dest, y.path)))
    case ReadInput(dst, buf, len) =>
      var k := ReadCount(inp, l.pos, Address(l.regs, len));
      y.(exprs := SetExpr(y.exprs, dst, None),
         shadow := WriteInput(y.shadow, Address(l.regs, buf), y.offset, k),
         offset := y.offset + k,
         path := TryAlternative(l.regs, y.exprs, len, TryAlternative(l.regs, y.exprs, buf, y.path)))
    case Call(_, _, _) => y
  }

  function SymTransfer(dest: Operand, src: Operand, len: Operand, l: Local, y: SymLocal): SymLocal {
    y.(shadow := CopyShadow(y.shadow, Address(l.regs, dest), Address(l.regs, src), Address(l.regs, len)),
       path := TryAlternative(l.regs, y.exprs, len,
                 TryAlternative(l.regs, y.exprs, src, TryAlternative(l.regs, y.exprs, dest, y.path))))
  }

  function SymPhis(phis: seq<Phi>, from: nat, before: Exprs, news: Exprs): Exprs {
    if phis == [] then news else
    var k := |phis| - 1;
    var rest := SymPhis(phis[..k], from, before, news);
    if from in phis[k].incoming
    then SetExpr(rest, phis[k].dst, ExprOf(before, phis[k].incoming[from])) else rest
  }

  function SwitchPath(cases: seq<(Value, nat)>, v: Value, e: Expr, path: Path): Path {
    if cases == [] then path
    else SwitchPath(cases[1..], v, e, path + [Constraint(CmpExpr(Eq, e, Lift(cases[0].0)), v == cases[0].0)])
  }

  /** The path constraints pushed by a terminator. */
  function TermPath(regs: Regs, es: Exprs, term: Term, path: Path): Path {
    match term
    case Branch(cond, _, _) => Push(path, ExprOf(es, cond), Address(regs, cond) == 1)
    case Switch(cond, cases, _) =>
      (match (ValueOf(regs, cond), ExprOf(es, cond))
       case (Some(v), Some(e)) => SwitchPath(cases, v, e, path)
       case _ => path)
    case _ => path
  }

  /** Fills the parameter slots; indices are 8-bit numbers. */
  function SetParams(slots: map<nat, Expr>, es: seq<Option<Expr>>): map<nat, Expr> {
    if es == [] then slots else
    var k := |es| - 1;
    SetExpr(SetParams(slots, es[..k]), k % 256, es[k])
  }

  function GetParams(slots: map<nat, Expr>, params: seq<Reg>): Exprs {
    if params == [] then map[] else
    var k := |params| - 1;
    SetExpr(GetParams(slots, params[..k]), params[k], Lookup(slots, k % 256))
  }

  // ----- The rule for machine steps -----

  /* The pass looks up the operands of an instruction when it visits it, and may not find all of
     them (see module `Visibility`).  In the functions below, `seen` are the expressions of the
     innermost frame that the emitted code sees; the naive rule sees all of them. */

  function SymCall(p: Program, y: Sym, seen: Exprs, result: Option<Reg>, callee: nat, args: seq<Operand>): Sym {
    var slots := SetParams(y.params, ExprsOf(seen, args));
    y.(frames := [CalleeExprs(p, callee, slots)] + y.frames,
       params := slots,
       ret := if result.Some? then None else y.ret)
  }

  /** The expressions that a callee finds in its parameter slots; the main function does not receive
      symbolic arguments. */
  function CalleeExprs(p: Program, callee: nat, slots: map<nat, Expr>): Exprs {
    if callee < |p.functions| && callee != p.main then GetParams(slots, p.functions[callee].params) else map[]
  }

  function SymReturn(y: Sym, seen: Exprs, returnTo: Option<Reg>, result: Option<Operand>): Sym
    requires y.frames != []
  {
    var ret := if result.Some? then ExprOf(seen, result.value) else y.ret;
    var rest := y.frames[1..];
    match returnTo
    case Some(r) =>
      if rest == [] then y.(frames := rest, ret := ret)
      else y.(frames := [SetExpr(rest[0], r, ret)] + rest[1..], ret := None)
    case None => y.(frames := rest, ret := ret)
  }

  function LocalSym(y: Sym, seen: Exprs): SymLocal {
    SymLocal(seen, y.shadow, y.offset, y.path)
  }

  /** A frame after an instruction that leaves `es'` behind where it ran. */
  function Assigned(es: Exprs, i: Instr, es': Exprs): Exprs {
    match Target(i)
    case Some(r) => SetExpr(es, r, Lookup(es', r))
    case None => es
  }

  function SymAdvance(y: Sym, i: Instr, l: SymLocal): Sym
    requires y.frames != []
  {
    y.(frames := [Assigned(y.frames[0], i, l.exprs)] + y.frames[1..],
       shadow := l.shadow, offset := l.offset, path := l.path)
  }

  /** Phi nodes are completed at the end of the pass, when all expressions are known. */
  function SymTerm(p: Program, m: Machine, y: Sym, seen: Exprs): Sym
    requires AtCode(p, m) && y.frames != []
  {
    var fr, term := m.frames[0], BlockAt(p, m).term;
    if term.Return? then SymReturn(y, seen, fr.returnTo, term.result) else
    var pushed := y.(path := TermPath(fr.regs, seen, term, y.path));
    match Successor(fr.regs, term)
    case Some(target) =>
      if target >= |FunctionAt(p, m).blocks| then pushed else
      var phis := FunctionAt(p, m).blocks[target].phis;
      pushed.(frames := [SymPhis(phis, fr.block, y.frames[0], y.frames[0])] + y.frames[1..])
    case None => pushed
  }

  /** The symbolic side of a machine step that starts in `m`. */
  function SymStep(p: Program, inp: Input, m: Machine, y: Sym, seen: Exprs): Sym
    requires p.layout.ptrBits > 0
  {
    if !AtCode(p, m) || y.frames == [] then y
    else if AtInstr(p, m) then
      var i := InstrAt(p, m);
      if i.Call? then SymCall(p, y, seen, i.result, i.callee, i.args)
      else SymAdvance(y, i, SymExec(p.layout, inp, i, LocalOf(m), LocalSym(y, seen)))
    else SymTerm(p, m, y, seen)
  }
}
