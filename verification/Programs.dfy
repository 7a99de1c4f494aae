/** A small SSA language in the image of LLVM's and its execution: functions of basic blocks with
    phi nodes, memory, calls, and reads from the input file. */
module Programs {
  import opened BitVectors
  import opened Expressions
  import opened Builders
  import opened FlatShadow

  type Reg = nat

  datatype Operand = Imm(v: Value) | Var(r: Reg)

  /** One index of a getelementptr instruction. */
  datatype GepStep =
    | Field(member: nat, offset: nat)
    | Element(index: Operand, indexBits: nat, size: nat)

  datatype Instr =
    | Compute(dst: Reg, op: Op, args: seq<Operand>)
    | Gep(dst: Reg, base: Operand, steps: seq<GepStep>)
    | Copy(dst: Reg, src: Operand, to: nat)
    | Select(dst: Reg, cond: Operand, ifTrue: Operand, ifFalse: Operand)
    | Load(dst: Reg, bits: nat, scalar: bool, addr: Operand)
    | Store(val: Operand, bits: nat, scalar: bool, addr: Operand)
    | MemCpy(dest: Operand, src: Operand, len: Operand)
    | MemMove(dest: Operand, src: Operand, len: Operand)
    | MemSet(dest: Operand, val: Operand, len: Operand)
    | ReadInput(dst: Reg, buf: Operand, len: Operand)
    | Call(result: Option<Reg>, callee: nat, args: seq<Operand>)

  datatype Term =
    | Jump(target: nat)
    | Branch(cond: Operand, ifTrue: nat, ifFalse: nat)
    | Switch(cond: Operand, cases: seq<(Value, nat)>, default: nat)
    | Return(result: Option<Operand>)

  datatype Phi = Phi(dst: Reg, incoming: map<nat, Operand>)

  datatype Block = Block(phis: seq<Phi>, instrs: seq<Instr>, term: Term)

  datatype Function = Function(params: seq<Reg>, blocks: seq<Block>)

  datatype Program = Program(layout: Layout, functions: seq<Function>, main: nat)

  type Regs = map<Reg, Value>

  /** What an instruction other than a call can read and change. */
  datatype Local = Local(regs: Regs, mem: Memory, pos: nat)

  /** `returnTo` is the register of the calling frame that receives the result. */
  datatype Frame = Frame(func: nat, block: nat, pc: nat, regs: Regs, returnTo: Option<Reg>)

  /** The innermost frame comes first. */
  datatype Machine = Machine(frames: seq<Frame>, mem: Memory, pos: nat)

  predicate ValidLayout(lay: Layout) {
    8 <= lay.ptrBits <= 64 && lay.ptrBits % 8 == 0
  }

  /** The register that an instruction assigns. */
  function Target(i: Instr): Option<Reg> {
    match i
    case Compute(dst, _, _) => Some(dst)
    case Gep(dst, _, _) => Some(dst)
    case Copy(dst, _, _) => Some(dst)
    case Select(dst, _, _, _) => Some(dst)
    case Load(dst, _, _, _) => Some(dst)
    case ReadInput(dst, _, _) => Some(dst)
    case Call(result, _, _) => result
    case _ => None
  }

  // ----- Operands -----

  function ValueOf(regs: Regs, o: Operand): Option<Value> {
    match o
    case Imm(v) => Some(v)
    case Var(r) => if r in regs then Some(regs[r]) else None
  }

  function ValuesOf(regs: Regs, os: seq<Operand>): Option<seq<Value>> {
    if os == [] then Some([]) else
    match (ValueOf(regs, os[0]), ValuesOf(regs, os[1..]))
    case (Some(v), Some(vs)) => Some([v] + vs)
    case _ => None
  }

  predicate HasValue(regs: Regs, o: Operand) {
    ValueOf(regs, o).Some?
  }

  function IsPointer(lay: Layout, regs: Regs, o: Operand): bool {
    HasValue(regs, o) && ValueOf(regs, o).value.bits == lay.ptrBits
  }

  /** A length argument of a memory intrinsic: an integer of at most 64 bits. */
  predicate IsLength(regs: Regs, o: Operand) {
    HasValue(regs, o) && ValueOf(regs, o).value.bits <= 64
  }

  function Number(regs: Regs, o: Operand): nat
    requires HasValue(regs, o)
  {
    ValueOf(regs, o).value.n
  }

  /** The range lies in the address space and does not wrap around its end. */
  predicate InAddressSpace(lay: Layout, addr: nat, len: nat) {
    addr + len < Pow2(lay.ptrBits)
  }

  // ----- Address computations -----

  /** The contribution of one index to an address, before wrapping; indices are signed, and the
      first member of a structure has offset zero. */
  function StepOffset(regs: Regs, step: GepStep): Option<int> {
    match step
    case Field(member, offset) => if member == 0 && offset != 0 then None else Some(offset)
    case Element(index, indexBits, size) =>
      match ValueOf(regs, index)
      case None => None
      case Some(v) => if v.bits == indexBits then Some(Signed(indexBits, v.n) * size) else None
  }

  function StepsOffset(regs: Regs, steps: seq<GepStep>): Option<int> {
    if steps == [] then Some(0) else
    match (StepOffset(regs, steps[0]), StepsOffset(regs, steps[1..]))
    case (Some(x), Some(y)) => Some(x + y)
    case _ => None
  }

  // ----- Instructions -----

  function Write(l: Local, r: Reg, v: Value): Local {
    l.(regs := l.regs[r := v])
  }

  function LoadResult(lay: Layout, bits: nat, scalar: bool, mem: Memory, addr: nat): Value
    requires bits > 0
  {
    MakeValue(bits, FromBytes(IsLittleEndian(lay, scalar), Bytes(mem, addr, StoreSize(bits))))
  }

  predicate Disjoint(a: nat, b: nat, len: nat) {
    a + len <= b || b + len <= a
  }

  function ReadCount(inp: Input, pos: nat, len: nat): (k: nat)
    ensures pos <= |inp| ==> pos + k <= |inp|
  {
    if pos + len <= |inp| then len else if pos <= |inp| then |inp| - pos else 0
  }

  /** One instruction other than a call; `None` for traps, undefined behaviour and type errors. */
  function Exec(lay: Layout, inp: Input, i: Instr, l: Local): Option<Local> {
    match i
    case Compute(dst, op, args) => ExecCompute(lay, dst, op, args, l)
    case Gep(dst, base, steps) => ExecGep(lay, dst, base, steps, l)
    case Copy(dst, src, to) =>
      if to > 0 && HasValue(l.regs, src) then Some(Write(l, dst, MakeValue(to, Number(l.regs, src)))) else None
    case Select(dst, cond, a, b) => ExecSelect(dst, cond, a, b, l)
    case Load(dst, bits, scalar, addr) =>
      if bits > 0 && IsPointer(lay, l.regs, addr) && InAddressSpace(lay, Number(l.regs, addr), StoreSize(bits))
      then Some(Write(l, dst, LoadResult(lay, bits, scalar, l.mem, Number(l.regs, addr)))) else None
    case Store(val, bits, scalar, addr) => ExecStore(lay, val, bits, scalar, addr, l)
    case MemCpy(dest, src, len) => ExecTransfer(lay, dest, src, len, true, l)
    case MemMove(dest, src, len) => ExecTransfer(lay, dest, src, len, false, l)
    case MemSet(dest, val, len) => ExecMemSet(lay, dest, val, len, l)
    case ReadInput(dst, buf, len) => ExecReadInput(lay, inp, dst, buf, len, l)
    case Call(_, _, _) => None
  }

  function ExecCompute(lay: Layout, dst: Reg, op: Op, args: seq<Operand>, l: Local): Option<Local> {
    match ValuesOf(l.regs, args)
    case None => None
    case Some(vs) =>
      match OpResult(lay, op, vs)
      case None => None
      case Some(v) => Some(Write(l, dst, v))
  }

  function ExecGep(lay: Layout, dst: Reg, base: Operand, steps: seq<GepStep>, l: Local): Option<Local> {
    match StepsOffset(l.regs, steps)
    case None => None
    case Some(offset) =>
      if lay.ptrBits > 0 && IsPointer(lay, l.regs, base)
      then Some(Write(l, dst, Word(lay.ptrBits, Wrap(lay.ptrBits, Number(l.regs, base) + offset)))) else None
  }

  /** The operand that a select instruction picks. */
  function Chosen(regs: Regs, cond: Operand, a: Operand, b: Operand): Operand
    requires HasValue(regs, cond)
  {
    if Number(regs, cond) == 1 then a else b
  }

  function ExecSelect(dst: Reg, cond: Operand, a: Operand, b: Operand, l: Local): Option<Local> {
    if HasValue(l.regs, cond) && ValueOf(l.regs, cond).value.bits == 1 && HasValue(l.regs, a) && HasValue(l.regs, b)
      && ValueOf(l.regs, a).value.bits == ValueOf(l.regs, b).value.bits
    then Some(Write(l, dst, ValueOf(l.regs, Chosen(l.regs, cond, a, b)).value)) else None
  }

  function ExecStore(lay: Layout, val: Operand, bits: nat, scalar: bool, addr: Operand, l: Local): Option<Local> {
    if HasValue(l.regs, val) && ValueOf(l.regs, val).value.bits == bits && (!scalar ==> bits % 8 == 0)
      && IsPointer(lay, l.regs, addr) && InAddressSpace(lay, Number(l.regs, addr), StoreSize(bits))
    then
      var bs := ToBytes(IsLittleEndian(lay, scalar), StoreSize(bits), Number(l.regs, val));
      Some(l.(mem := StoreBytes(l.mem, Number(l.regs, addr), bs)))
    else None
  }

  /** memcpy has undefined behaviour when its ranges overlap without being equal. */
  function ExecTransfer(lay: Layout, dest: Operand, src: Operand, len: Operand, distinct: bool, l: Local)
    : Option<Local>
  {
    if !(IsPointer(lay, l.regs, dest) && IsPointer(lay, l.regs, src) && IsLength(l.regs, len)) then None else
    var d, s, n := Number(l.regs, dest), Number(l.regs, src), Number(l.regs, len);
    if InAddressSpace(lay, d, n) && InAddressSpace(lay, s, n) && (distinct ==> d == s || Disjoint(d, s, n))
    then Some(l.(mem := StoreBytes(l.mem, d, Bytes(l.mem, s, n)))) else None
  }

  function ExecMemSet(lay: Layout, dest: Operand, val: Operand, len: Operand, l: Local): Option<Local> {
    if !(IsPointer(lay, l.regs, dest) && IsLength(l.regs, len)) then None else
    if !(HasValue(l.regs, val) && ValueOf(l.regs, val).value.bits == 8) then None else
    var d, n := Number(l.regs, dest), Number(l.regs, len);
    if InAddressSpace(lay, d, n) then
      assert Pow2(8) == 256;
      Some(l.(mem := StoreBytes(l.mem, d, Replicate(Number(l.regs, val), n))))
    else None
  }

  function ExecReadInput(lay: Layout, inp: Input, dst: Reg, buf: Operand, len: Operand, l: Local): Option<Local> {
    if !(lay.ptrBits > 0 && IsPointer(lay, l.regs, buf) && IsLength(l.regs, len) && l.pos <= |inp|) then None else
    var d, k := Number(l.regs, buf), ReadCount(inp, l.pos, Number(l.regs, len));
    if InAddressSpace(lay, d, Number(l.regs, len)) then
      Some(Local(l.regs[dst := MakeValue(lay.ptrBits, k)], StoreBytes(l.mem, d, inp[l.pos..l.pos + k]), l.pos + k))
    else None
  }

  // ----- Control flow -----

  function PhiValues(phis: seq<Phi>, from: nat, regs: Regs): Option<Regs> {
    if phis == [] then Some(map[]) else
    var k := |phis| - 1;
    match PhiValues(phis[..k], from, regs)
    case None => None
    case Some(rest) =>
      if from in phis[k].incoming && HasValue(regs, phis[k].incoming[from])
      then Some(rest[phis[k].dst := ValueOf(regs, phis[k].incoming[from]).value]) else None
  }

  function CaseTarget(cases: seq<(Value, nat)>, v: Value, default: nat): nat {
    if cases == [] then default
    else if cases[0].0 == v then cases[0].1
    else CaseTarget(cases[1..], v, default)
  }

  /** The block that a terminator continues with. */
  function Successor(regs: Regs, term: Term): Option<nat> {
    match term
    case Jump(t) => Some(t)
    case Branch(cond, t, f) =>
      if HasValue(regs, cond) && ValueOf(regs, cond).value.bits == 1
      then Some(if Number(regs, cond) == 1 then t else f) else None
    case Switch(cond, cases, default) =>
      if HasValue(regs, cond) && forall c | c in cases :: c.0.bits == ValueOf(regs, cond).value.bits
      then Some(CaseTarget(cases, ValueOf(regs, cond).value, default)) else None
    case Return(_) => None
  }

  /** Leaves a block for `target`, whose phi nodes all read the registers as they were. */
  function Enter(f: Function, fr: Frame, target: nat): Option<Frame> {
    if target >= |f.blocks| then None else
    match PhiValues(f.blocks[target].phis, fr.block, fr.regs)
    case None => None
    case Some(news) => Some(fr.(block := target, pc := 0, regs := fr.regs + news))
  }

  function BindParams(params: seq<Reg>, vs: seq<Value>): Regs
    requires |params| == |vs|
  {
    if params == [] then map[] else
    var k := |params| - 1;
    BindParams(params[..k], vs[..k])[params[k] := vs[k]]
  }

  // ----- Machine steps -----

  predicate AtCode(p: Program, m: Machine) {
    m.frames != [] && m.frames[0].func < |p.functions| && m.frames[0].block < |p.functions[m.frames[0].func].blocks|
  }

  function FunctionAt(p: Program, m: Machine): Function
    requires AtCode(p, m)
  {
    p.functions[m.frames[0].func]
  }

  function BlockAt(p: Program, m: Machine): Block
    requires AtCode(p, m)
  {
    FunctionAt(p, m).blocks[m.frames[0].block]
  }

  predicate AtInstr(p: Program, m: Machine) {
    AtCode(p, m) && m.frames[0].pc < |BlockAt(p, m).instrs|
  }

  function InstrAt(p: Program, m: Machine): Instr
    requires AtInstr(p, m)
  {
    BlockAt(p, m).instrs[m.frames[0].pc]
  }

  function LocalOf(m: Machine): Local
    requires m.frames != []
  {
    Local(m.frames[0].regs, m.mem, m.pos)
  }

  /** Replaces the registers of the innermost frame and moves to the next instruction. */
  function Advance(m: Machine, l: Local): Machine
    requires m.frames != []
  {
    var fr := m.frames[0];
    Machine([fr.(pc := fr.pc + 1, regs := l.regs)] + m.frames[1..], l.mem, l.pos)
  }

  function StepCall(p: Program, m: Machine, result: Option<Reg>, callee: nat, args: seq<Operand>): Option<Machine>
    requires m.frames != []
  {
    match ValuesOf(m.frames[0].regs, args)
    case None => None
    case Some(vs) =>
      if callee < |p.functions| && |p.functions[callee].params| == |vs| <= 256 then
        var next := Advance(m, LocalOf(m));
        var fr := Frame(callee, 0, 0, BindParams(p.functions[callee].params, vs), result);
        Some(next.(frames := [fr] + next.frames))
      else None
  }

  function StepReturn(m: Machine, result: Option<Operand>): Option<Machine>
    requires m.frames != []
  {
    var fr, rest := m.frames[0], m.frames[1..];
    match (result, fr.returnTo)
    case (Some(o), Some(r)) =>
      if rest != [] && HasValue(fr.regs, o)
      then Some(m.(frames := [rest[0].(regs := rest[0].regs[r := ValueOf(fr.regs, o).value])] + rest[1..]))
      else None
    case (Some(o), None) => if HasValue(fr.regs, o) then Some(m.(frames := rest)) else None
    case (None, None) => Some(m.(frames := rest))
    case (None, Some(_)) => None
  }

  function StepTerm(p: Program, m: Machine): Option<Machine>
    requires AtCode(p, m)
  {
    var fr, term := m.frames[0], BlockAt(p, m).term;
    if term.Return? then StepReturn(m, term.result) else
    match Successor(fr.regs, term)
    case None => None
    case Some(target) =>
      match Enter(FunctionAt(p, m), fr, target)
      case None => None
      case Some(fr') => Some(m.(frames := [fr'] + m.frames[1..]))
  }

  /** One step of the program on an input; `None` when it has ended or cannot continue. */
  function Step(p: Program, inp: Input, m: Machine): Option<Machine> {
    if !AtCode(p, m) then None
    else if AtInstr(p, m) then
      var i := InstrAt(p, m);
      if i.Call? then StepCall(p, m, i.result, i.callee, i.args) else
      match Exec(p.layout, inp, i, LocalOf(m))
      case None => None
      case Some(l) => Some(Advance(m, l))
    else StepTerm(p, m)
  }
}
