/** Execution of an instrumented program: the original instructions on the concrete side, and the
    code emitted by the pass, with the run-time library, on the symbolic side. */
module Instrumented {
  import opened BitVectors
  import opened Expressions
  import opened Builders
  import opened FlatShadow
  import opened Programs
  import opened Concolic
  import opened ShortCircuit
  import opened Computations
  import opened Symbolizer

  /** The value of an operand of emitted code outside computations. */
  function OpValue(op: SymOperand, es: Exprs): Option<Expr> {
    EvalOp(op, map[], es)
  }

  /** Runs one emitted statement in the innermost frame; `l` is the concrete state before the
      instruction that the statement belongs to. */
  function ExecStmt(inp: Input, l: Local, st: Stmt, y: Sym): Sym
    requires y.frames != []
  {
    match st
    case Guarded(code) =>
      var t := ExecCode(code, l.regs, CodeState(map[], map[], y.frames[0], y.path));
      y.(frames := [t.exprs] + y.frames[1..], path := t.path)
    case Plain(item) => ExecItem(inp, l, item, y)
  }

  function WithTop(y: Sym, es: Exprs): Sym
    requires y.frames != []
  {
    y.(frames := [es] + y.frames[1..])
  }

  function ExecItem(inp: Input, l: Local, item: Item, y: Sym): (y': Sym)
    requires y.frames != []
    ensures y'.frames != []
  {
    var es := y.frames[0];
    match item
    case Comp(_, _) => y
    case ReadMem(dst, addr, size, le) =>
      if size == 0 then y
      else WithTop(y, SetExpr(es, dst, ReadShadow(y.shadow, l.mem, Address(l.regs, addr), size, le)))
    case WriteMem(addr, size, op, le) =>
      y.(shadow := WriteShadow(y.shadow, Address(l.regs, addr), size, OpValue(op, es), le))
    case CopyMem(dest, src, len) =>
      y.(shadow := CopyShadow(y.shadow, Address(l.regs, dest), Address(l.regs, src), Address(l.regs, len)))
    case FillMem(dest, op, len) =>
      y.(shadow := FillShadow(y.shadow, Address(l.regs, dest), Address(l.regs, len), OpValue(op, es)))
    case ReadFile(dst, buf, len) =>
      var k := ReadCount(inp, l.pos, Address(l.regs, len));
      WithTop(y, SetExpr(es, dst, None)).(
        shadow := WriteInput(y.shadow, Address(l.regs, buf), y.offset, k),
        offset := y.offset + k)
    case SwitchPush(op, cond, cases) =>
      (match (ValueOf(l.regs, cond), OpValue(op, es))
       case (Some(v), Some(e)) => y.(path := SwitchPath(cases, v, e, y.path))
       case _ => y)
    case SetParam(index, op) => y.(params := SetExpr(y.params, index % 256, OpValue(op, es)))
    case SetReturn(op) => y.(ret := OpValue(op, es))
  }

  function ExecStmts(inp: Input, l: Local, stmts: seq<Stmt>, y: Sym): (y': Sym)
    requires y.frames != []
    ensures y'.frames != []
  {
    if stmts == [] then y else
    ExecStmt(inp, l, stmts[|stmts| - 1], ExecStmts(inp, l, stmts[..|stmts| - 1], y))
  }

  function CodeAt(sf: SymFunction, k: nat): seq<Stmt> {
    if k < |sf.code| then sf.code[k] else []
  }

  /** Symbolic phi nodes run where the original ones do; erased ones are gone. */
  function RunPhis(sp: map<Reg, SymPhi>, phis: seq<Phi>, from: nat, before: Exprs, news: Exprs): Exprs {
    if phis == [] then news else
    var k := |phis| - 1;
    var rest := RunPhis(sp, phis[..k], from, before, news);
    var r := phis[k].dst;
    if r in sp && from in sp[r] then SetExpr(rest, r, OpValue(sp[r][from], before)) else rest
  }

  function Only(es: Exprs, regs: set<Reg>): Exprs {
    map r | r in es && r in regs :: es[r]
  }

  /** Entering a function, which fetches the expressions of its symbolic parameters. */
  function CallFrame(p: Program, sfs: seq<SymFunction>, callee: nat, slots: map<nat, Expr>): Exprs {
    if callee < |p.functions| && callee < |sfs|
    then Only(GetParams(slots, p.functions[callee].params), sfs[callee].symbolicParams) else map[]
  }

  /** Leaving a function; the caller fetches and clears the return expression if it uses the result. */
  function PopReturn(y: Sym, returnTo: Option<Reg>): Sym
    requires y.frames != []
  {
    var rest := y.frames[1..];
    match returnTo
    case Some(r) =>
      if rest == [] then y.(frames := rest) else y.(frames := [SetExpr(rest[0], r, y.ret)] + rest[1..], ret := None)
    case None => y.(frames := rest)
  }

  /** The symbolic side of a step of the instrumented program that starts in `m`. */
  function InstrumentedStep(p: Program, sfs: seq<SymFunction>, inp: Input, m: Machine, y: Sym): Sym {
    if !AtCode(p, m) || y.frames == [] || m.frames[0].func >= |sfs| then y else
    var fr, f, sf := m.frames[0], FunctionAt(p, m), sfs[m.frames[0].func];
    if AtInstr(p, m) then
      var y' := ExecStmts(inp, LocalOf(m), CodeAt(sf, NodeIndex(f.blocks, fr.block, fr.pc)), y);
      var i := InstrAt(p, m);
      if i.Call? then y'.(frames := [CallFrame(p, sfs, i.callee, y'.params)] + y'.frames) else y'
    else
      var term := BlockAt(p, m).term;
      var y' := ExecStmts(inp, LocalOf(m), CodeAt(sf, NodeIndex(f.blocks, fr.block, |BlockAt(p, m).instrs|)), y);
      if term.Return? then PopReturn(y', fr.returnTo) else
      match Successor(fr.regs, term)
      case None => y'
      case Some(target) =>
        if target >= |f.blocks| then y'
        else WithTop(y', RunPhis(sf.phis, f.blocks[target].phis, fr.block, y'.frames[0], y'.frames[0]))
  }

  /** The instrumented program. */
  function InstrumentAll(p: Program, n: nat): seq<SymFunction>
    requires p.layout.ptrBits > 0 && n <= |p.functions|
  {
    if n == 0 then [] else
    InstrumentAll(p, n - 1) + [Instrument(p.layout, p.functions[n - 1], n - 1 == p.main)]
  }
}
