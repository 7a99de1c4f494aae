/** Soundness and replay of concolic execution over whole runs.

    Soundness: in every reachable state, each expression evaluates under the current input to the
    value or memory byte it accompanies, and every path constraint pushed so far holds.

    Replay: any other input of the same length that satisfies the path constraints drives the
    program through the same states, where each value is the evaluation of its expression, or
    unchanged where there is none. */
module Replay {
  import opened BitVectors
  import opened Expressions
  import opened Builders
  import opened FlatShadow
  import opened Programs
  import opened Concolic
  import opened Faithfulness

  // ----- Conditions on one instruction -----

  /** The emitted code stands for the instruction at these values. */
  predicate InstrFaithful(lay: Layout, i: Instr, regs: Regs, y: SymLocal) {
    match i
    case Compute(_, op, args) =>
      ValuesOf(regs, args).Some? && |ValuesOf(regs, args).value| == |args|
      && ComputeFaithful(op, ValuesOf(regs, args).value, ExprsOf(y.exprs, args))
    case Gep(_, base, steps) => GepFaithful(lay, regs, y.exprs, base, steps)
    case Copy(_, src, to) => ExprOf(y.exprs, src).None? || (HasValue(regs, src) && ValueOf(regs, src).value.bits == to)
    case Load(_, bits, _, addr) => bits % 8 == 0 || IsConcrete(y.shadow, Address(regs, addr), StoreSize(bits))
    case Store(val, bits, scalar, _) =>
      HasValue(regs, val) && StoreFaithful(lay, bits, scalar, ExprOf(y.exprs, val), ValueOf(regs, val).value)
    case _ => true
  }

  /** The bytes of aggregates are stored in address order, but their expression is taken apart in the
      machine's byte order. */
  predicate StoreFaithful(lay: Layout, bits: nat, scalar: bool, e: Option<Expr>, d: Value) {
    e.None?
    || (bits % 8 == 0
        && (IsLittleEndian(lay, scalar) == lay.littleEndian
            || ToBytes(true, StoreSize(bits), d.n) == ToBytes(false, StoreSize(bits), d.n)))
  }

  predicate TermFaithful(regs: Regs, es: Exprs, term: Term) {
    match term
    case Switch(cond, cases, _) =>
      cases == [] || ExprOf(es, cond).None? || (HasValue(regs, cond) && Liftable(ValueOf(regs, cond).value))
    case _ => true
  }

  /** Where the pass drops an expression that a replay would need: the result of a select
      instruction and the arguments of the main function. */
  predicate NothingLost(p: Program, m: Machine, d: Machine) {
    !AtInstr(p, m) || m.frames == [] || d.frames == [] ||
    match InstrAt(p, m)
    case Select(_, cond, a, b) =>
      !HasValue(m.frames[0].regs, cond) ||
      (var o := Chosen(m.frames[0].regs, cond, a, b);
       ValueOf(m.frames[0].regs, o) == ValueOf(d.frames[0].regs, o))
    case Call(_, callee, args) =>
      callee != p.main || ValuesOf(m.frames[0].regs, args) == ValuesOf(d.frames[0].regs, args)
    case _ => true
  }

  // ----- Instructions -----

  lemma ComputeStep(lay: Layout, inp: Input, i: Instr, c: Local, y: SymLocal, d: Local, c': Local, d': Local)
    requires i.Compute? && ValidLayout(lay)
    requires LocalRelated(c, y, d, inp)
    requires ExecCompute(lay, i.dst, i.op, i.args, c) == Some(c')
    requires ExecCompute(lay, i.dst, i.op, i.args, d) == Some(d')
    requires InstrFaithful(lay, i, d.regs, y)
    ensures LocalRelated(c', SymExec(lay, inp, i, c, y), d', inp)
  {
    hide OpResult, RegRelated, MemRelated, OpExpr, RtOf;
    OperandsRelated(c.regs, y.exprs, d.regs, inp, i.args);
    var vs, ws := ValuesOf(c.regs, i.args).value, ValuesOf(d.regs, i.args).value;
    ComputeRelated(lay, i.op, vs, ExprsOf(y.exprs, i.args), ws, inp);
    assert ValidOp(i.op) by { DefinedOpIsValid(lay, i.op, vs); }
    WriteRelated(c.regs, y.exprs, d.regs, inp, i.dst, OpResult(lay, i.op, vs).value,
                 ComputeExpr(lay, i.op, i.args, c.regs, y.exprs), OpResult(lay, i.op, ws).value);
  }

  lemma DefinedOpIsValid(lay: Layout, op: Op, vs: seq<Value>)
    requires OpResult(lay, op, vs).Some?
    ensures ValidOp(op)
  {
  }

  lemma GepAndCopyStep(lay: Layout, inp: Input, i: Instr, c: Local, y: SymLocal, d: Local, c': Local, d': Local)
    requires (i.Gep? || i.Copy?) && ValidLayout(lay)
    requires LocalRelated(c, y, d, inp)
    requires Exec(lay, inp, i, c) == Some(c') && Exec(lay, inp, i, d) == Some(d')
    requires InstrFaithful(lay, i, d.regs, y)
    ensures LocalRelated(c', SymExec(lay, inp, i, c, y), d', inp)
  {
    hide MemRelated, RegRelated, Wrap, GepExpr, GepFaithful, StepsOffset;
    match i
    case Gep(dst, base, steps) =>
      GepRelated(lay, c.regs, y.exprs, d.regs, inp, base, steps);
      WriteRelated(c.regs, y.exprs, d.regs, inp, dst, c'.regs[dst], GepExpr(lay, c.regs, y.exprs, base, steps),
                   d'.regs[dst]);
    case Copy(dst, src, to) =>
      CopyRelatedIff(c.regs, y.exprs, d.regs, inp, src, to);
      WriteRelated(c.regs, y.exprs, d.regs, inp, dst, c'.regs[dst], ExprOf(y.exprs, src), d'.regs[dst]);
  }

  /** A cast that keeps the expression is right for a value that has one if and only if it keeps the
      width. */
  lemma CopyRelatedIff(rc: Regs, es: Exprs, rd: Regs, inp: Input, src: Operand, to: nat)
    requires RegsRelated(rc, es, rd, inp)
    requires HasValue(rc, src) && HasValue(rd, src) && to > 0
    ensures RegRelated(MakeValue(to, Number(rc, src)), ExprOf(es, src), MakeValue(to, Number(rd, src)), inp)
       <==> ExprOf(es, src).None? || ValueOf(rd, src).value.bits == to
  {
    hide Eval, SortOf;
    OperandRelated(rc, es, rd, inp, src);
    if ExprOf(es, src).Some? && ValueOf(rd, src).value.bits == to {
      ModSmall(Number(rd, src), Pow2(to));
    }
  }

  lemma SelectStep(lay: Layout, inp: Input, i: Instr, c: Local, y: SymLocal, d: Local, c': Local, d': Local)
    requires i.Select? && ValidLayout(lay)
    requires LocalRelated(c, y, d, inp)
    requires Exec(lay, inp, i, c) == Some(c') && Exec(lay, inp, i, d) == Some(d')
    requires PathHolds(SymExec(lay, inp, i, c, y).path, inp)
    requires ValueOf(c.regs, Chosen(c.regs, i.cond, i.ifTrue, i.ifFalse))
      == ValueOf(d.regs, Chosen(c.regs, i.cond, i.ifTrue, i.ifFalse))
    ensures LocalRelated(c', SymExec(lay, inp, i, c, y), d', inp)
    ensures PathHolds(y.path, inp)
  {
    hide MemRelated, Eval;
    ConditionPins(c.regs, y.exprs, d.regs, inp, i.cond, y.path);
    WriteRelated(c.regs, y.exprs, d.regs, inp, i.dst, c'.regs[i.dst], None, d'.regs[i.dst]);
  }

  /** Pushing a branch condition pins exactly the inputs under which it keeps its value. */
  lemma ConditionPins(rc: Regs, es: Exprs, rd: Regs, inp: Input, cond: Operand, path: Path)
    requires RegsRelated(rc, es, rd, inp)
    requires HasValue(rc, cond) && ValueOf(rc, cond).value.bits == 1
    ensures HasValue(rd, cond)
    ensures PathHolds(Push(path, ExprOf(es, cond), Address(rc, cond) == 1), inp)
       <==> PathHolds(path, inp) && ValueOf(rd, cond) == ValueOf(rc, cond)
  {
    hide Eval, SortOf, PathHolds;
    OperandRelated(rc, es, rd, inp, cond);
    assert Pow2(1) == 2;
    match ExprOf(es, cond)
    case None =>
    case Some(e) =>
      PathHoldsSnoc(path, Constraint(e, Address(rc, cond) == 1), inp);
  }

  lemma LoadStep(lay: Layout, inp: Input, i: Instr, c: Local, y: SymLocal, d: Local, c': Local, d': Local)
    requires i.Load? && ValidLayout(lay)
    requires LocalRelated(c, y, d, inp)
    requires Exec(lay, inp, i, c) == Some(c') && Exec(lay, inp, i, d) == Some(d')
    requires PathHolds(SymExec(lay, inp, i, c, y).path, inp)
    requires InstrFaithful(lay, i, d.regs, y)
    ensures LocalRelated(c', SymExec(lay, inp, i, c, y), d', inp)
    ensures PathHolds(y.path, inp)
  {
    hide MemRelated, RegRelated, RegsRelated, PathHolds, ReadShadow, LoadResult, IsConcrete;
    TryAlternativePins(c.regs, y.exprs, d.regs, inp, i.addr, y.path);
    var a, size := Number(c.regs, i.addr), StoreSize(i.bits);
    LoadRelated(lay, y.shadow, c.mem, d.mem, inp, i.bits, i.scalar, a);
    WriteRelated(c.regs, y.exprs, d.regs, inp, i.dst, LoadResult(lay, i.bits, i.scalar, c.mem, a),
                 ReadShadow(y.shadow, c.mem, a, size, IsLittleEndian(lay, i.scalar)),
                 LoadResult(lay, i.bits, i.scalar, d.mem, a));
  }

  /** A symbolic load is right exactly when the type fills whole bytes. */
  lemma LoadRelated(lay: Layout, sh: ShadowMap, mc: Memory, md: Memory, inp: Input, bits: nat, scalar: bool, a: nat)
    requires MemRelated(sh, mc, md, inp) && bits > 0
    ensures RegRelated(LoadResult(lay, bits, scalar, mc, a),
                       ReadShadow(sh, mc, a, StoreSize(bits), IsLittleEndian(lay, scalar)),
                       LoadResult(lay, bits, scalar, md, a), inp)
       <==> bits % 8 == 0 || IsConcrete(sh, a, StoreSize(bits))
  {
    hide Eval, SortOf, Denotes, FromBytes, Bytes, IsConcrete, Wrap;
    var size, le := StoreSize(bits), IsLittleEndian(lay, scalar);
    ReadShadowMeaning(sh, mc, md, inp, a, size, le);
    var r := ReadShadow(sh, mc, a, size, le);
    if r.Some? {
      SizedDenotesIff(r.value, bits, FromBytes(le, Bytes(md, a, size)), inp);
    }
  }

  /** What a store leaves in shadow and memory describes the stored value if and only if the value has
      no expression, or it is a whole number of bytes that are the same in the order used for memory
      and in the order used for the shadow. */
  lemma StoreRelatedIff(lay: Layout, sh: ShadowMap, mc: Memory, md: Memory, inp: Input, bits: nat, scalar: bool, a: nat,
                        c: Value, e: Option<Expr>, d: Value)
    requires MemRelated(sh, mc, md, inp) && RegRelated(c, e, d, inp) && d.bits == bits
    ensures var size, le := StoreSize(bits), IsLittleEndian(lay, scalar);
      MemRelated(WriteShadow(sh, a, size, e, lay.littleEndian),
                 StoreBytes(mc, a, ToBytes(le, size, c.n)), StoreBytes(md, a, ToBytes(le, size, d.n)), inp)
      <==> StoreFaithful(lay, bits, scalar, e, d)
  {
    hide MemRelated, WriteShadow, StoreBytes, ToBytes, Eval, SortOf, Pow2;
    var size, le := StoreSize(bits), IsLittleEndian(lay, scalar);
    match e
    case None =>
      WriteShadowMeaning(sh, mc, md, inp, a, size, le, e, c.n, d.n);
      ClearEitherWay(sh, a, size);
    case Some(x) =>
      if bits % 8 == 0 {
        StoredValue(c, e, d, inp);
        WriteShadowMeaningIff(sh, mc, md, inp, a, size, lay.littleEndian, le, x, c.n, d.n);
      } else {
        PartialBytesNeverMean(sh, StoreBytes(mc, a, ToBytes(le, size, c.n)), StoreBytes(md, a, ToBytes(le, size, d.n)),
                              inp, a, size, lay.littleEndian, x);
      }
  }

  /** A two-byte aggregate on a little-endian machine: the value 258 is stored with its bytes the wrong
      way around in the shadow. */
  lemma AggregateStoreFails(sh: ShadowMap, mem: Memory, inp: Input, a: nat, e: Expr)
    requires MemRelated(sh, mem, mem, inp) && SortOf(e) == BitVec(16) && Eval(e, inp) == 258
    ensures var mem' := StoreBytes(mem, a, ToBytes(IsLittleEndian(Layout(64, true), false), 2, 258));
      !MemRelated(WriteShadow(sh, a, 2, Some(e), true), mem', mem', inp)
  {
    hide MemRelated, WriteShadow, StoreBytes, Eval, SortOf, ToBytes, Pow2;
    assert Pow2(16) == 65536 by { PowerOfTwoBytes(); }
    WriteShadowMeaningIff(sh, mem, mem, inp, a, 2, true, false, e, 258, 258);
    ByteOrderMatters();
  }

  lemma PowerOfTwoBytes()
    ensures Pow2(16) == 65536
  {
    assert Pow2(8) == 256;
  }

  /** The low byte of 258 is two, the high byte one. */
  lemma ByteOrderMatters()
    ensures ToBytes(true, 2, 258) != ToBytes(false, 2, 258)
  {
    hide Digit;
    assert ToBytes(true, 2, 258)[0] == Digit(258, 0) && ToBytes(false, 2, 258)[0] == Digit(258, 1);
    DigitsOf258();
  }

  lemma DigitsOf258()
    ensures Digit(258, 0) == 2 && Digit(258, 1) == 1
  {
    assert Pow2(8) == 256 && Pow2(0) == 1;
  }

  lemma StoreStep(lay: Layout, inp: Input, i: Instr, c: Local, y: SymLocal, d: Local, c': Local, d': Local)
    requires i.Store? && ValidLayout(lay)
    requires LocalRelated(c, y, d, inp)
    requires Exec(lay, inp, i, c) == Some(c') && Exec(lay, inp, i, d) == Some(d')
    requires PathHolds(SymExec(lay, inp, i, c, y).path, inp)
    requires InstrFaithful(lay, i, d.regs, y)
    ensures LocalRelated(c', SymExec(lay, inp, i, c, y), d', inp)
    ensures PathHolds(y.path, inp)
  {
    hide MemRelated, RegRelated, PathHolds, WriteShadow, StoreBytes, ToBytes, StoreFaithful;
    TryAlternativePins(c.regs, y.exprs, d.regs, inp, i.addr, y.path);
    OperandRelated(c.regs, y.exprs, d.regs, inp, i.val);
    StoreRelatedIff(lay, y.shadow, c.mem, d.mem, inp, i.bits, i.scalar, Number(c.regs, i.addr),
                    ValueOf(c.regs, i.val).value, ExprOf(y.exprs, i.val), ValueOf(d.regs, i.val).value);
  }

  lemma ClearEitherWay(sh: ShadowMap, a: nat, size: nat)
    ensures WriteShadow(sh, a, size, None, true) == WriteShadow(sh, a, size, None, false)
  {
  }

  lemma StoredValue(c: Value, e: Option<Expr>, d: Value, inp: Input)
    requires RegRelated(c, e, d, inp)
    ensures match e
      case None => c.n == d.n
      case Some(x) => Eval(x, inp) == d.n && (d.bits % 8 == 0 ==> SortOf(x) == BitVec(8 * StoreSize(d.bits)))
  {
    hide Eval, SortOf;
  }

  lemma TransferStep(lay: Layout, inp: Input, i: Instr, c: Local, y: SymLocal, d: Local, c': Local, d': Local)
    requires (i.MemCpy? || i.MemMove?) && ValidLayout(lay)
    requires LocalRelated(c, y, d, inp)
    requires Exec(lay, inp, i, c) == Some(c') && Exec(lay, inp, i, d) == Some(d')
    requires PathHolds(SymExec(lay, inp, i, c, y).path, inp)
    ensures LocalRelated(c', SymExec(lay, inp, i, c, y), d', inp)
    ensures PathHolds(y.path, inp)
  {
    hide MemRelated, RegsRelated, PathHolds, CopyShadow, StoreBytes, Bytes, TryAlternative, Pow2;
    var path1 := TryAlternative(c.regs, y.exprs, i.dest, y.path);
    var path2 := TryAlternative(c.regs, y.exprs, i.src, path1);
    TryAlternativePins(c.regs, y.exprs, d.regs, inp, i.len, path2);
    TryAlternativePins(c.regs, y.exprs, d.regs, inp, i.src, path1);
    TryAlternativePins(c.regs, y.exprs, d.regs, inp, i.dest, y.path);
    CopyShadowMeaning(y.shadow, c.mem, d.mem, inp, Number(c.regs, i.dest), Number(c.regs, i.src),
                      Number(c.regs, i.len));
  }

  lemma MemSetStep(lay: Layout, inp: Input, i: Instr, c: Local, y: SymLocal, d: Local, c': Local, d': Local)
    requires i.MemSet? && ValidLayout(lay)
    requires LocalRelated(c, y, d, inp)
    requires Exec(lay, inp, i, c) == Some(c') && Exec(lay, inp, i, d) == Some(d')
    requires PathHolds(SymExec(lay, inp, i, c, y).path, inp)
    ensures LocalRelated(c', SymExec(lay, inp, i, c, y), d', inp)
    ensures PathHolds(y.path, inp)
  {
    hide MemRelated, PathHolds, FillShadow, StoreBytes, Replicate, TryAlternative, Pow2, Eval, SortOf;
    var path1 := TryAlternative(c.regs, y.exprs, i.dest, y.path);
    TryAlternativePins(c.regs, y.exprs, d.regs, inp, i.len, path1);
    TryAlternativePins(c.regs, y.exprs, d.regs, inp, i.dest, y.path);
    OperandRelated(c.regs, y.exprs, d.regs, inp, i.val);
    assert Pow2(8) == 256 by { PowerOfByte(); }
    FillShadowMeaning(y.shadow, c.mem, d.mem, inp, Number(c.regs, i.dest), Number(c.regs, i.len),
                      ExprOf(y.exprs, i.val), Number(c.regs, i.val), Number(d.regs, i.val));
  }

  lemma PowerOfByte()
    ensures Pow2(8) == 256
  {
  }

  lemma ReadInputStep(lay: Layout, inpC: Input, inp: Input, i: Instr, c: Local, y: SymLocal, d: Local, c': Local,
                      d': Local)
    requires i.ReadInput? && ValidLayout(lay) && |inpC| == |inp|
    requires LocalRelated(c, y, d, inp)
    requires Exec(lay, inpC, i, c) == Some(c') && Exec(lay, inp, i, d) == Some(d')
    requires PathHolds(SymExec(lay, inpC, i, c, y).path, inp)
    ensures LocalRelated(c', SymExec(lay, inpC, i, c, y), d', inp)
    ensures PathHolds(y.path, inp)
  {
    hide MemRelated, RegsRelated, PathHolds, WriteInput, StoreBytes, TryAlternative, Pow2, Wrap;
    var path1 := TryAlternative(c.regs, y.exprs, i.buf, y.path);
    TryAlternativePins(c.regs, y.exprs, d.regs, inp, i.len, path1);
    TryAlternativePins(c.regs, y.exprs, d.regs, inp, i.buf, y.path);
    var k := ReadCount(inp, c.pos, Number(c.regs, i.len));
    WriteInputMeaning(y.shadow, c.mem, d.mem, inpC, inp, Number(c.regs, i.buf), c.pos, k);
    var v := MakeValue(lay.ptrBits, k);
    WriteRelated(c.regs, y.exprs, d.regs, inp, i.dst, v, None, v);
  }

  /** Bytes read from the input file evaluate to the byte of the file at their own offset. */
  lemma WriteInputMeaning(sh: ShadowMap, mc: Memory, md: Memory, inpC: Input, inp: Input, a: nat, pos: nat, k: nat)
    requires MemRelated(sh, mc, md, inp)
    requires pos + k <= |inp| == |inpC|
    ensures MemRelated(WriteInput(sh, a, pos, k), StoreBytes(mc, a, inpC[pos..pos + k]),
                       StoreBytes(md, a, inp[pos..pos + k]), inp)
  {
    hide Denotes, StoreBytes;
    var sh' := WriteInput(sh, a, pos, k);
    var mc', md' := StoreBytes(mc, a, inpC[pos..pos + k]), StoreBytes(md, a, inp[pos..pos + k]);
    forall b: nat
      ensures ByteRelated(sh', mc', md', inp, b)
    {
      assert ByteRelated(sh, mc, md, inp, b);
      StoreBytesAt(mc, a, inpC[pos..pos + k], b);
      StoreBytesAt(md, a, inp[pos..pos + k], b);
      if a <= b < a + k {
        InputByteDenotes(inp, pos + (b - a));
        assert CellAt(sh', b) == Some(InputByte(pos + (b - a)));
      } else {
        assert CellAt(sh', b) == CellAt(sh, b);
      }
    }
  }

  lemma InputByteDenotes(inp: Input, offset: nat)
    requires offset < |inp|
    ensures Denotes(InputByte(offset), inp, ByteValue(inp[offset]))
  {
  }

  /** One instruction other than a call keeps the two runs related. */
  lemma InstrStep(lay: Layout, inpC: Input, inp: Input, i: Instr, c: Local, y: SymLocal, d: Local, c': Local, d': Local)
    requires ValidLayout(lay) && |inpC| == |inp|
    requires LocalRelated(c, y, d, inp)
    requires Exec(lay, inpC, i, c) == Some(c') && Exec(lay, inp, i, d) == Some(d')
    requires PathHolds(SymExec(lay, inpC, i, c, y).path, inp)
    requires InstrFaithful(lay, i, d.regs, y)
    requires i.Select? && HasValue(c.regs, i.cond) ==>
      ValueOf(c.regs, Chosen(c.regs, i.cond, i.ifTrue, i.ifFalse))
      == ValueOf(d.regs, Chosen(c.regs, i.cond, i.ifTrue, i.ifFalse))
    ensures LocalRelated(c', SymExec(lay, inpC, i, c, y), d', inp)
  {
    hide LocalRelated, InstrFaithful;
    assert i.ReadInput? || (Exec(lay, inpC, i, c) == Exec(lay, inp, i, c)
                            && SymExec(lay, inpC, i, c, y) == SymExec(lay, inp, i, c, y));
    if i.Compute? {
      ComputeStep(lay, inp, i, c, y, d, c', d');
    } else if i.Gep? || i.Copy? {
      GepAndCopyStep(lay, inp, i, c, y, d, c', d');
    } else if i.Select? {
      SelectStep(lay, inp, i, c, y, d, c', d');
    } else if i.Load? {
      LoadStep(lay, inp, i, c, y, d, c', d');
    } else if i.Store? {
      StoreStep(lay, inp, i, c, y, d, c', d');
    } else if i.MemCpy? || i.MemMove? {
      TransferStep(lay, inp, i, c, y, d, c', d');
    } else if i.MemSet? {
      MemSetStep(lay, inp, i, c, y, d, c', d');
    } else {
      ReadInputStep(lay, inpC, inp, i, c, y, d, c', d');
    }
  }

  // ----- Machine states -----

  ghost predicate FrameRelated(f: Frame, es: Exprs, g: Frame, inp: Input) {
    && f.func == g.func && f.block == g.block && f.pc == g.pc && f.returnTo == g.returnTo
    && RegsRelated(f.regs, es, g.regs, inp)
  }

  /** Machine `m`, with symbolic state `y`, and machine `d` on input `inp` are at the same point,
      and every value of `d` is the evaluation of its expression, or as in `m` if it has none. */
  ghost predicate Related(m: Machine, y: Sym, d: Machine, inp: Input) {
    && |m.frames| == |y.frames| == |d.frames|
    && (forall i | 0 <= i < |m.frames| :: FrameRelated(m.frames[i], y.frames[i], d.frames[i], inp))
    && MemRelated(y.shadow, m.mem, d.mem, inp)
    && m.pos == d.pos == y.offset
  }

  predicate StepFaithfulAt(p: Program, d: Machine, y: SymLocal) {
    !AtCode(p, d) ||
    if AtInstr(p, d) then InstrFaithful(p.layout, InstrAt(p, d), d.frames[0].regs, y)
    else TermFaithful(d.frames[0].regs, y.exprs, BlockAt(p, d).term)
  }

  lemma TopRelated(m: Machine, y: Sym, d: Machine, inp: Input)
    requires Related(m, y, d, inp) && m.frames != []
    ensures y.frames != [] && d.frames != []
    ensures FrameRelated(m.frames[0], y.frames[0], d.frames[0], inp)
    ensures LocalRelated(LocalOf(m), LocalSym(y, y.frames[0]), LocalOf(d), inp)
  {
  }

  /** Replacing the innermost frame keeps the outer ones related. */
  lemma ReplaceTop(m: Machine, y: Sym, d: Machine, inp: Input, f: Frame, es: Exprs, g: Frame)
    requires Related(m, y, d, inp) && m.frames != []
    requires FrameRelated(f, es, g, inp)
    ensures Related(m.(frames := [f] + m.frames[1..]), y.(frames := [es] + y.frames[1..]),
                    d.(frames := [g] + d.frames[1..]), inp)
  {
    hide FrameRelated, MemRelated;
    var fs, ys, gs := [f] + m.frames[1..], [es] + y.frames[1..], [g] + d.frames[1..];
    forall i | 0 <= i < |fs|
      ensures FrameRelated(fs[i], ys[i], gs[i], inp)
    {
      if i > 0 {
        assert FrameRelated(m.frames[i], y.frames[i], d.frames[i], inp);
      }
    }
  }

  lemma PushFrame(m: Machine, y: Sym, d: Machine, inp: Input, f: Frame, es: Exprs, g: Frame)
    requires Related(m, y, d, inp)
    requires FrameRelated(f, es, g, inp)
    ensures Related(m.(frames := [f] + m.frames), y.(frames := [es] + y.frames), d.(frames := [g] + d.frames), inp)
  {
    hide FrameRelated, MemRelated;
    var fs, ys, gs := [f] + m.frames, [es] + y.frames, [g] + d.frames;
    forall i | 0 <= i < |fs|
      ensures FrameRelated(fs[i], ys[i], gs[i], inp)
    {
      if i > 0 {
        assert FrameRelated(m.frames[i - 1], y.frames[i - 1], d.frames[i - 1], inp);
      }
    }
  }

  lemma PopFrame(m: Machine, y: Sym, d: Machine, inp: Input)
    requires Related(m, y, d, inp) && m.frames != []
    ensures Related(m.(frames := m.frames[1..]), y.(frames := y.frames[1..]), d.(frames := d.frames[1..]), inp)
  {
    hide FrameRelated, MemRelated;
    forall i | 0 <= i < |m.frames[1..]|
      ensures FrameRelated(m.frames[1..][i], y.frames[1..][i], d.frames[1..][i], inp)
    {
      assert FrameRelated(m.frames[i + 1], y.frames[i + 1], d.frames[i + 1], inp);
    }
  }

  // ----- Calls and returns -----

  lemma {:induction false} SetParamsLookup(slots: map<nat, Expr>, es: seq<Option<Expr>>, j: nat)
    requires j < |es| <= 256
    ensures Lookup(SetParams(slots, es), j) == es[j]
  {
    var k := |es| - 1;
    if j < k {
      SetParamsLookup(slots, es[..k], j);
    }
  }

  lemma {:induction false} ParamsRelated(slots: map<nat, Expr>, params: seq<Reg>, vs: seq<Value>, es: seq<Option<Expr>>,
                                         ws: seq<Value>, inp: Input)
    requires |params| == |vs| <= 256 && AllRelated(vs, es, ws, inp)
    requires forall j | 0 <= j < |es| :: Lookup(slots, j) == es[j]
    ensures RegsRelated(BindParams(params, vs), GetParams(slots, params), BindParams(params, ws), inp)
  {
    hide RegRelated, RegsRelated, SetExpr;
    if params == [] {
      SameParamsRelated(params, vs, inp);
    } else {
      var k := |params| - 1;
      ParamsRelated(slots, params[..k], vs[..k], es[..k], ws[..k], inp);
      assert RegRelated(vs[k], es[k], ws[k], inp);
      WriteRelated(BindParams(params[..k], vs[..k]), GetParams(slots, params[..k]), BindParams(params[..k], ws[..k]),
                   inp, params[k], vs[k], es[k], ws[k]);
    }
  }

  lemma {:induction false} SameParamsRelated(params: seq<Reg>, vs: seq<Value>, inp: Input)
    requires |params| == |vs|
    ensures RegsRelated(BindParams(params, vs), map[], BindParams(params, vs), inp)
  {
  }

  lemma {:induction false} CalleeRelated(p: Program, inp: Input, rc: Regs, es: Exprs, rd: Regs, slots: map<nat, Expr>,
                                         callee: nat, args: seq<Operand>)
    requires RegsRelated(rc, es, rd, inp) && callee < |p.functions|
    requires ValuesOf(rc, args).Some? && ValuesOf(rd, args).Some?
    requires |p.functions[callee].params| == |ValuesOf(rc, args).value| <= 256
    requires callee == p.main ==> ValuesOf(rc, args) == ValuesOf(rd, args)
    ensures |ValuesOf(rd, args).value| == |ValuesOf(rc, args).value|
    ensures var params := p.functions[callee].params;
      RegsRelated(BindParams(params, ValuesOf(rc, args).value),
                  CalleeExprs(p, callee, SetParams(slots, ExprsOf(es, args))),
                  BindParams(params, ValuesOf(rd, args).value), inp)
  {
    hide RegsRelated, AllRelated, BindParams, GetParams, SetParams, ValuesOf;
    OperandsRelated(rc, es, rd, inp, args);
    var vs, ws := ValuesOf(rc, args).value, ValuesOf(rd, args).value;
    var params, after := p.functions[callee].params, SetParams(slots, ExprsOf(es, args));
    ArgumentCount(rc, args);
    ArgumentCount(rd, args);
    if callee == p.main {
      SameParamsRelated(params, vs, inp);
    } else {
      forall j | 0 <= j < |ExprsOf(es, args)|
        ensures Lookup(after, j) == ExprsOf(es, args)[j]
      {
        SetParamsLookup(slots, ExprsOf(es, args), j);
      }
      ParamsRelated(after, params, vs, ExprsOf(es, args), ws, inp);
    }
  }

  lemma CallStep(p: Program, inp: Input, m: Machine, y: Sym, seen: Exprs, d: Machine, result: Option<Reg>, callee: nat,
                 args: seq<Operand>, m': Machine, d': Machine)
    requires Related(m, y, d, inp) && m.frames != [] && d.frames != []
    requires RegsRelated(m.frames[0].regs, seen, d.frames[0].regs, inp)
    requires StepCall(p, m, result, callee, args) == Some(m') && StepCall(p, d, result, callee, args) == Some(d')
    requires callee == p.main ==> ValuesOf(m.frames[0].regs, args) == ValuesOf(d.frames[0].regs, args)
    ensures Related(m', SymCall(p, y, seen, result, callee, args), d', inp)
  {
    hide MemRelated, RegsRelated, FrameRelated, BindParams, CalleeExprs, SetParams, ValuesOf, Advance;
    var y' := SymCall(p, y, seen, result, callee, args);
    CalleeRelated(p, inp, m.frames[0].regs, seen, d.frames[0].regs, y.params, callee, args);
    FrameFromParts(m'.frames[0], y'.frames[0], d'.frames[0], inp);
    AfterCall(m, y, d, inp);
    PushFrame(Advance(m, LocalOf(m)), y, Advance(d, LocalOf(d)), inp, m'.frames[0], y'.frames[0], d'.frames[0]);
  }

  lemma AfterCall(m: Machine, y: Sym, d: Machine, inp: Input)
    requires Related(m, y, d, inp) && m.frames != [] && d.frames != []
    ensures Related(Advance(m, LocalOf(m)), y, Advance(d, LocalOf(d)), inp)
  {
    hide MemRelated, RegsRelated;
    TopRelated(m, y, d, inp);
    var f, es, g := m.frames[0], y.frames[0], d.frames[0];
    assert y.frames == [es] + y.frames[1..];
    ReplaceTop(m, y, d, inp, f.(pc := f.pc + 1), es, g.(pc := g.pc + 1));
  }

  lemma ArgumentCount(regs: Regs, os: seq<Operand>)
    requires ValuesOf(regs, os).Some?
    ensures |ValuesOf(regs, os).value| == |os|
  {
  }

  lemma ReturnStep(inp: Input, m: Machine, y: Sym, seen: Exprs, d: Machine, result: Option<Operand>, m': Machine,
                   d': Machine)
    requires Related(m, y, d, inp) && m.frames != [] && d.frames != []
    requires RegsRelated(m.frames[0].regs, seen, d.frames[0].regs, inp)
    requires StepReturn(m, result) == Some(m') && StepReturn(d, result) == Some(d')
    requires y.frames != []
    ensures Related(m', SymReturn(y, seen, m.frames[0].returnTo, result), d', inp)
  {
    hide MemRelated, RegsRelated, FrameRelated;
    TopRelated(m, y, d, inp);
    var f, es, g := m.frames[0], y.frames[0], d.frames[0];
    assert f.returnTo == g.returnTo && RegsRelated(f.regs, es, g.regs, inp) by { FrameParts(f, es, g, inp); }
    PopFrame(m, y, d, inp);
    if f.returnTo.Some? {
      var r, o := f.returnTo.value, result.value;
      OperandRelated(f.regs, seen, g.regs, inp, o);
      var f1, es1, g1 := m.frames[1], y.frames[1], d.frames[1];
      FrameParts(f1, es1, g1, inp);
      WriteRelated(f1.regs, es1, g1.regs, inp, r, ValueOf(f.regs, o).value, ExprOf(seen, o), ValueOf(g.regs, o).value);
      var f2, es2, g2 := f1.(regs := f1.regs[r := ValueOf(f.regs, o).value]), SetExpr(es1, r, ExprOf(seen, o)),
        g1.(regs := g1.regs[r := ValueOf(g.regs, o).value]);
      FrameFromParts(f2, es2, g2, inp);
      ReplaceTop(m.(frames := m.frames[1..]), y.(frames := y.frames[1..]), d.(frames := d.frames[1..]), inp, f2, es2,
                 g2);
    }
  }

  lemma FrameParts(f: Frame, es: Exprs, g: Frame, inp: Input)
    requires FrameRelated(f, es, g, inp)
    ensures f.func == g.func && f.block == g.block && f.pc == g.pc && f.returnTo == g.returnTo
    ensures RegsRelated(f.regs, es, g.regs, inp)
  {
  }

  lemma FrameFromParts(f: Frame, es: Exprs, g: Frame, inp: Input)
    requires f.func == g.func && f.block == g.block && f.pc == g.pc && f.returnTo == g.returnTo
    requires RegsRelated(f.regs, es, g.regs, inp)
    ensures FrameRelated(f, es, g, inp)
  {
  }

  // ----- Branches -----

  lemma {:induction false} SwitchPins(cases: seq<(Value, nat)>, c: Value, e: Expr, d: Value, inp: Input, path: Path)
    requires c.bits == d.bits && Denotes(e, inp, d)
    requires forall k | k in cases :: k.0.bits == c.bits
    requires Liftable(c)
    ensures PathHolds(SwitchPath(cases, c, e, path), inp)
       <==> PathHolds(path, inp) && forall k | k in cases :: (d == k.0) == (c == k.0)
  {
    hide Eval, SortOf, Lift, Holds, PathHolds;
    if cases != [] {
      var v := cases[0].0;
      var constraint := Constraint(CmpExpr(Eq, e, Lift(v)), c == v);
      LiftDenotesIff(v, inp);
      EqualityHoldsIff(e, Lift(v), inp, d, v, c == v);
      PathHoldsSnoc(path, constraint, inp);
      assert forall k | k in cases[1..] :: k in cases;
      SwitchPins(cases[1..], c, e, d, inp, path + [constraint]);
      assert forall k | k in cases :: k == cases[0] || k in cases[1..];
    }
  }

  lemma {:induction false} SameCase(cases: seq<(Value, nat)>, c: Value, d: Value, default: nat)
    requires forall k | k in cases :: (d == k.0) == (c == k.0)
    ensures CaseTarget(cases, c, default) == CaseTarget(cases, d, default)
  {
    if cases != [] {
      assert cases[0] in cases;
      SameCase(cases[1..], c, d, default);
    }
  }

  /** The constraints of a terminator pin the block that is entered next. */
  lemma TermPins(rc: Regs, es: Exprs, rd: Regs, inp: Input, term: Term, path: Path)
    requires RegsRelated(rc, es, rd, inp)
    requires Successor(rc, term).Some? && Successor(rd, term).Some?
    requires TermFaithful(rd, es, term)
    requires PathHolds(TermPath(rc, es, term, path), inp)
    ensures Successor(rd, term) == Successor(rc, term)
    ensures PathHolds(path, inp)
  {
    hide PathHolds, RegsRelated;
    match term
    case Jump(_) =>
    case Branch(cond, _, _) =>
      ConditionPins(rc, es, rd, inp, cond, path);
    case Switch(cond, cases, default) =>
      OperandRelated(rc, es, rd, inp, cond);
      var c, d := ValueOf(rc, cond).value, ValueOf(rd, cond).value;
      if ExprOf(es, cond).Some? && cases != [] {
        SwitchPins(cases, c, ExprOf(es, cond).value, d, inp, path);
        SameCase(cases, c, d, default);
      }
  }

  lemma {:induction false} PhisRelated(phis: seq<Phi>, from: nat, rc: Regs, es: Exprs, rd: Regs, inp: Input)
    requires RegsRelated(rc, es, rd, inp)
    requires PhiValues(phis, from, rc).Some? && PhiValues(phis, from, rd).Some?
    ensures RegsRelated(rc + PhiValues(phis, from, rc).value, SymPhis(phis, from, es, es),
                        rd + PhiValues(phis, from, rd).value, inp)
  {
    hide RegsRelated, ExprOf, ValueOf;
    if phis == [] {
      assert rc + map[] == rc && rd + map[] == rd;
    } else {
      var k := |phis| - 1;
      var phi := phis[k];
      PhisRelated(phis[..k], from, rc, es, rd, inp);
      var o := phi.incoming[from];
      OperandRelated(rc, es, rd, inp, o);
      var nc, nd := PhiValues(phis[..k], from, rc).value, PhiValues(phis[..k], from, rd).value;
      WriteRelated(rc + nc, SymPhis(phis[..k], from, es, es), rd + nd, inp, phi.dst,
                   ValueOf(rc, o).value, ExprOf(es, o), ValueOf(rd, o).value);
      UpdateLast(rc, nc, phi.dst, ValueOf(rc, o).value);
      UpdateLast(rd, nd, phi.dst, ValueOf(rd, o).value);
    }
  }

  lemma UpdateLast(regs: Regs, news: Regs, r: Reg, v: Value)
    ensures (regs + news)[r := v] == regs + news[r := v]
  {
  }

  lemma TermStep(p: Program, inp: Input, m: Machine, y: Sym, seen: Exprs, d: Machine, m': Machine, d': Machine)
    requires Related(m, y, d, inp) && AtCode(p, m) && AtCode(p, d) && y.frames != []
    requires RegsRelated(m.frames[0].regs, seen, d.frames[0].regs, inp)
    requires StepTerm(p, m) == Some(m') && StepTerm(p, d) == Some(d')
    requires TermFaithful(d.frames[0].regs, seen, BlockAt(p, d).term)
    requires PathHolds(SymTerm(p, m, y, seen).path, inp)
    ensures Related(m', SymTerm(p, m, y, seen), d', inp)
    ensures PathHolds(y.path, inp)
  {
    hide MemRelated, RegsRelated, FrameRelated, PathHolds, TermPath, TermFaithful, PhiValues, SymPhis,
         StepReturn, SymReturn;
    TopRelated(m, y, d, inp);
    var f, es, g := m.frames[0], y.frames[0], d.frames[0];
    FrameParts(f, es, g, inp);
    var term := BlockAt(p, m).term;
    if term.Return? {
      ReturnStep(inp, m, y, seen, d, term.result, m', d');
      assert SymReturn(y, seen, f.returnTo, term.result).path == y.path
          by { ReturnKeepsPath(y, seen, f.returnTo, term.result); }
    } else {
      TermPins(f.regs, seen, g.regs, inp, term, y.path);
      var target := Successor(f.regs, term).value;
      var phis := FunctionAt(p, m).blocks[target].phis;
      PhisRelated(phis, f.block, f.regs, es, g.regs, inp);
      FrameFromParts(m'.frames[0], SymPhis(phis, f.block, es, es), d'.frames[0], inp);
      ReplaceTop(m, y, d, inp, m'.frames[0], SymPhis(phis, f.block, es, es), d'.frames[0]);
    }
  }

  lemma ReturnKeepsPath(y: Sym, seen: Exprs, returnTo: Option<Reg>, result: Option<Operand>)
    requires y.frames != []
    ensures SymReturn(y, seen, returnTo, result).path == y.path
  {
  }

  // ----- One step -----

  /** An instruction other than a call changes no register but its target. */
  lemma ExecWritesTarget(lay: Layout, inp: Input, i: Instr, l: Local, l': Local)
    requires Exec(lay, inp, i, l) == Some(l')
    ensures match Target(i)
      case Some(r) => r in l'.regs && l'.regs == l.regs[r := l'.regs[r]]
      case None => l'.regs == l.regs
  {
    hide OpResult, ValuesOf, StepsOffset, InAddressSpace, LoadResult, StoreBytes, ToBytes, Bytes;
  }

  /** What an instruction computes with the expressions it sees is right in the frame with all of
      them, too. */
  lemma AssignedRelated(lay: Layout, inpC: Input, inp: Input, i: Instr, c: Local, es: Exprs, d: Local,
                        c': Local, es': Exprs, d': Local)
    requires Exec(lay, inpC, i, c) == Some(c') && Exec(lay, inp, i, d) == Some(d')
    requires RegsRelated(c.regs, es, d.regs, inp) && RegsRelated(c'.regs, es', d'.regs, inp)
    ensures RegsRelated(c'.regs, Assigned(es, i, es'), d'.regs, inp)
  {
    hide Exec, RegRelated;
    ExecWritesTarget(lay, inpC, i, c, c');
    ExecWritesTarget(lay, inp, i, d, d');
    if Target(i).Some? {
      var r := Target(i).value;
      assert RegRelated(c'.regs[r], Lookup(es', r), d'.regs[r], inp);
      WriteRelated(c.regs, es, d.regs, inp, r, c'.regs[r], Lookup(es', r), d'.regs[r]);
    }
  }

  /** If the other input satisfies the constraints pushed so far, a step leads to related states. */
  lemma StepRelated(p: Program, inpC: Input, inp: Input, m: Machine, y: Sym, seen: Exprs, d: Machine, m': Machine,
                    d': Machine)
    requires ValidLayout(p.layout) && |inpC| == |inp|
    requires Related(m, y, d, inp)
    requires Step(p, inpC, m) == Some(m') && Step(p, inp, d) == Some(d')
    requires RegsRelated(m.frames[0].regs, seen, d.frames[0].regs, inp)
    requires StepFaithfulAt(p, d, LocalSym(y, seen)) && NothingLost(p, m, d)
    requires PathHolds(SymStep(p, inpC, m, y, seen).path, inp)
    ensures Related(m', SymStep(p, inpC, m, y, seen), d', inp)
  {
    hide MemRelated, RegsRelated, PathHolds, LocalRelated, Exec, SymExec, StepTerm, SymTerm, StepCall, SymCall,
         InstrFaithful, TermFaithful;
    TopRelated(m, y, d, inp);
    if AtInstr(p, m) {
      var i := InstrAt(p, m);
      if i.Call? {
        CallStep(p, inp, m, y, seen, d, i.result, i.callee, i.args, m', d');
      } else {
        var c, e := Exec(p.layout, inpC, i, LocalOf(m)).value, Exec(p.layout, inp, i, LocalOf(d)).value;
        SeenLocalRelated(m, y, seen, d, inp);
        InstrStep(p.layout, inpC, inp, i, LocalOf(m), LocalSym(y, seen), LocalOf(d), c, e);
        AdvanceRelated(p, inpC, m, y, d, inp, i, c, SymExec(p.layout, inpC, i, LocalOf(m), LocalSym(y, seen)), e);
      }
    } else {
      TermStep(p, inp, m, y, seen, d, m', d');
    }
  }

  lemma SeenLocalRelated(m: Machine, y: Sym, seen: Exprs, d: Machine, inp: Input)
    requires Related(m, y, d, inp) && m.frames != [] && d.frames != []
    requires RegsRelated(m.frames[0].regs, seen, d.frames[0].regs, inp)
    ensures LocalRelated(LocalOf(m), LocalSym(y, seen), LocalOf(d), inp)
  {
    hide RegsRelated, MemRelated;
  }

  lemma AdvanceRelated(p: Program, inpC: Input, m: Machine, y: Sym, d: Machine, inp: Input, i: Instr,
                       c: Local, yl: SymLocal, e: Local)
    requires Related(m, y, d, inp) && m.frames != [] && y.frames != [] && d.frames != []
    requires Exec(p.layout, inpC, i, LocalOf(m)) == Some(c) && Exec(p.layout, inp, i, LocalOf(d)) == Some(e)
    requires LocalRelated(c, yl, e, inp)
    ensures Related(Advance(m, c), SymAdvance(y, i, yl), Advance(d, e), inp)
  {
    hide MemRelated, RegsRelated, Exec, Assigned;
    TopRelated(m, y, d, inp);
    var f, g := m.frames[0], d.frames[0];
    AssignedRelated(p.layout, inpC, inp, i, LocalOf(m), y.frames[0], LocalOf(d), c, yl.exprs, e);
    ReplaceTop(m, y, d, inp, f.(pc := f.pc + 1, regs := c.regs), Assigned(y.frames[0], i, yl.exprs),
               g.(pc := g.pc + 1, regs := e.regs));
  }
}
