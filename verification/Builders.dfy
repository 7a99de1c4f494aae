/** The expression builders of the run-time library and the LLVM operations they stand for. */
module Builders {
  import opened BitVectors
  import opened Expressions

  /** What the pass needs to know about the target. */
  datatype Layout = Layout(ptrBits: nat, littleEndian: bool)

  // ----- LLVM operations -----

  /** The value-producing instructions that become exactly one run-time call. */
  datatype Op =
    | Bin(op: BinOp, w: nat)
    | Cmp(pred: Pred, w: nat)
    | Trunc(from: nat, to: nat)
    | ZExt(from: nat, to: nat)
    | SExt(from: nat, to: nat)
    | Bswap(w: nat)
    | ExtractField(size: nat, offset: nat, bits: nat, scalar: bool)

  /** The widest integers the run-time library supports. */
  const MAX_INTEGER_BITS := 128

  function StoreSize(bits: nat): nat {
    (bits + 7) / 8
  }

  predicate ValidOp(op: Op) {
    match op
    case Bin(_, w) => 0 < w <= MAX_INTEGER_BITS
    case Cmp(_, w) => 0 < w <= MAX_INTEGER_BITS
    case Trunc(from, to) => 0 < to < from <= MAX_INTEGER_BITS
    case ZExt(from, to) => 0 < from < to <= MAX_INTEGER_BITS
    case SExt(from, to) => 0 < from < to <= MAX_INTEGER_BITS
    case Bswap(w) => 0 < w <= MAX_INTEGER_BITS && w % 16 == 0
    case ExtractField(size, offset, bits, _) => 0 < bits && offset + StoreSize(bits) <= size
  }

  function ArgBits(op: Op): seq<nat> {
    match op
    case Bin(_, w) => [w, w]
    case Cmp(_, w) => [w, w]
    case Trunc(from, _) => [from]
    case ZExt(from, _) => [from]
    case SExt(from, _) => [from]
    case Bswap(w) => [w]
    case ExtractField(size, _, _, _) => [8 * size]
  }

  predicate WellTyped(op: Op, args: seq<Value>) {
    ValidOp(op) && |args| == |ArgBits(op)| && forall i | 0 <= i < |args| :: args[i].bits == ArgBits(op)[i]
  }

  function MakeValue(bits: nat, n: nat): (v: Value)
    requires bits > 0
    ensures v.bits == bits
  {
    Word(bits, Wrap(bits, n))
  }

  /** Is a value of this kind kept in memory with its least significant byte first? */
  predicate IsLittleEndian(lay: Layout, scalar: bool) {
    scalar && lay.littleEndian
  }

  /** The bytes of an aggregate field, read out of the aggregate's bytes in address order. */
  function FieldBytes(size: nat, n: nat, offset: nat, len: nat): seq<Byte>
    requires offset + len <= size
  {
    ToBytes(false, size, n)[offset..offset + len]
  }

  /** The result that LLVM assigns to an operation; `None` for traps, poison and type errors. */
  function OpResult(lay: Layout, op: Op, args: seq<Value>): Option<Value> {
    if !WellTyped(op, args) then None else
    match op
    case Bin(o, w) =>
      var r := LlvmBin(o, w, args[0].n, args[1].n);
      if r.None? then None else Some(Word(w, r.value))
    case Cmp(p, w) => Some(MakeValue(1, AsNat(LlvmCmp(p, w, args[0].n, args[1].n))))
    case Trunc(_, to) => Some(MakeValue(to, args[0].n))
    case ZExt(_, to) => Some(MakeValue(to, args[0].n))
    case SExt(from, to) => Some(Word(to, Wrap(to, Signed(from, args[0].n))))
    case Bswap(w) => Some(MakeValue(w, FromBytes(true, ToBytes(false, w / 8, args[0].n))))
    case ExtractField(size, offset, bits, scalar) =>
      var le := IsLittleEndian(lay, scalar);
      Some(MakeValue(bits, FromBytes(le, FieldBytes(size, args[0].n, offset, StoreSize(bits)))))
  }

  // ----- Run-time functions -----

  datatype RtFn =
    | RtBin(op: BinOp)
    | RtBoolBin(op: BinOp)
    | RtCmp(pred: Pred)
    | RtTrunc(bits: nat)
    | RtZExt(extra: nat)
    | RtSExt(extra: nat)
    | RtBoolToBits(bits: nat)
    | RtExtract(offset: nat, len: nat, le: bool)
    | RtBswap

  /** The run-time function that the pass selects for an operation. */
  function RtOf(lay: Layout, op: Op): RtFn
    requires ValidOp(op)
  {
    match op
    case Bin(o, w) => if w == 1 then RtBoolBin(o) else RtBin(o)
    case Cmp(p, _) => RtCmp(p)
    case Trunc(_, to) => RtTrunc(to)
    case ZExt(from, to) => if from == 1 then RtBoolToBits(to) else RtZExt(to - from)
    case SExt(from, to) => if from == 1 then RtBoolToBits(to) else RtSExt(to - from)
    case Bswap(_) => RtBswap
    case ExtractField(_, offset, bits, scalar) => RtExtract(offset, StoreSize(bits), IsLittleEndian(lay, scalar))
  }

  /** The byte at `position` (counted from the most significant end) of an expression of `size` bytes. */
  function ByteSlice(e: Expr, size: nat, position: nat): Expr
    requires position < size
  {
    Extract(8 * (size - position) - 1, 8 * (size - position) - 8, e)
  }

  /** Bytes `offset`, ..., `offset + len - 1` concatenated with the first one least significant. */
  function LittleEndianSlice(e: Expr, size: nat, offset: nat, len: nat): Expr
    requires 0 < len && offset + len <= size
  {
    var last := ByteSlice(e, size, offset + len - 1);
    if len == 1 then last else Concat(last, LittleEndianSlice(e, size, offset, len - 1))
  }

  function ExtractSlice(e: Expr, size: nat, offset: nat, len: nat, le: bool): Expr
    requires 0 < len && offset + len <= size
  {
    if le then LittleEndianSlice(e, size, offset, len)
    else Extract(8 * (size - offset) - 1, 8 * (size - offset - len), e)
  }

  /** `_sym_build_extract`: the bytes [offset, offset + len) of an aggregate expression. */
  method BuildExtract(e: Expr, offset: nat, len: nat, le: bool) returns (result: Expr)
    requires SortOf(e).BitVec? && SortOf(e).bits % 8 == 0
    requires 0 < len && offset + len <= SortOf(e).bits / 8
    ensures result == ExtractSlice(e, SortOf(e).bits / 8, offset, len, le)
  {
    var totalBits := SortOf(e).bits;
    if le {
      result := Extract(totalBits - offset * 8 - 1, totalBits - offset * 8 - 8, e);
      var i := 1;
      while i < len
        invariant 1 <= i <= len
        invariant result == LittleEndianSlice(e, totalBits / 8, offset, i)
      {
        result := Concat(Extract(totalBits - (offset + i) * 8 - 1, totalBits - (offset + i + 1) * 8, e), result);
        i := i + 1;
      }
    } else {
      result := Extract(totalBits - offset * 8 - 1, totalBits - (offset + len) * 8, e);
    }
  }

  const ERROR_EXPR := Const(0, 0)

  /** The expression that a run-time function builds. */
  function Apply(fn: RtFn, args: seq<Expr>): Expr {
    match fn
    case RtBin(op) => if |args| == 2 then BinExpr(op, args[0], args[1]) else ERROR_EXPR
    case RtBoolBin(op) => if |args| == 2 then BoolBin(op, args[0], args[1]) else ERROR_EXPR
    case RtCmp(Ne) => if |args| == 2 then NotExpr(CmpExpr(Eq, args[0], args[1])) else ERROR_EXPR
    case RtCmp(p) => if |args| == 2 then CmpExpr(p, args[0], args[1]) else ERROR_EXPR
    case RtTrunc(bits) => if |args| == 1 && bits > 0 then Extract(bits - 1, 0, args[0]) else ERROR_EXPR
    case RtZExt(extra) => if |args| == 1 then ZeroExtend(extra, args[0]) else ERROR_EXPR
    case RtSExt(extra) => if |args| == 1 then SignExtend(extra, args[0]) else ERROR_EXPR
    case RtBoolToBits(bits) => if |args| == 1 then BoolToBits(args[0], bits) else ERROR_EXPR
    case RtExtract(offset, len, le) =>
      if |args| == 1 && SortOf(args[0]).BitVec? && 0 < len && offset + len <= SortOf(args[0]).bits / 8
      then ExtractSlice(args[0], SortOf(args[0]).bits / 8, offset, len, le) else ERROR_EXPR
    case RtBswap =>
      if |args| == 1 && SortOf(args[0]).BitVec? && 8 <= SortOf(args[0]).bits
      then ExtractSlice(args[0], SortOf(args[0]).bits / 8, 0, SortOf(args[0]).bits / 8, true) else ERROR_EXPR
  }

  /** `createValueExpression`: an expression for a concrete value. */
  function Lift(v: Value): Expr {
    if v.bits == 1 then BoolConst(v.n == 1)
    else if v.bits <= 64 then Const(v.n, v.bits)
    else LiftHalves(64, v.n)
  }

  function LiftHalves(half: nat, n: nat): Expr
    requires half > 0
  {
    Concat(Const(SmtExtract(half + half - 1, half, n), half), Const(SmtExtract(half - 1, 0, n), half))
  }

  predicate Liftable(v: Value) {
    v.bits <= 64 || v.bits == 128
  }

  /** Concrete values become correct expressions exactly up to 64 bits and at 128 bits. */
  lemma LiftDenotesIff(v: Value, inp: Input)
    ensures Denotes(Lift(v), inp, v) <==> Liftable(v)
  {
    if v.bits == 1 {
      assert Pow2(1) == 2;
    } else if v.bits <= 64 {
      ModSmall(v.n, Pow2(v.bits));
    } else if v.bits == 128 {
      LiftHalvesDenotes(64, v.n, inp);
    }
  }

  lemma LiftHalvesDenotes(half: nat, n: nat, inp: Input)
    requires half > 0 && n < Pow2(half + half)
    ensures SortOf(LiftHalves(half, n)) == BitVec(half + half)
    ensures Eval(LiftHalves(half, n), inp) == n
  {
    ConcatOfExtracts(half + half - 1, half, 0, n);
    ExtractAll(half + half, n);
    ModSmall(SmtExtract(half + half - 1, half, n), Pow2(half));
    ModSmall(SmtExtract(half - 1, 0, n), Pow2(half));
  }

  // ----- Soundness of one operation -----

  /** When the run-time call stands for the operation: the pass handles one-bit integers as
      Booleans, and it forgets that while sign-extending, truncating and ordering them. */
  predicate Faithful(op: Op, args: seq<Value>)
    requires WellTyped(op, args)
  {
    match op
    case Bin(o, w) => w == 1 ==> IsLogical(o)
    case Cmp(p, w) => w == 1 ==> p.Eq? || p.Ne?
    case Trunc(_, to) => to > 1
    case ZExt(_, _) => true
    case SExt(from, _) => from == 1 ==> args[0].n == 0
    case Bswap(_) => true
    case ExtractField(_, _, bits, _) => bits % 8 == 0
  }

  ghost predicate AllDenote(es: seq<Expr>, inp: Input, args: seq<Value>) {
    |es| == |args| && forall i | 0 <= i < |es| :: Denotes(es[i], inp, args[i])
  }

  /** The expression built for an operation on correct operands is correct exactly when the
      operation is faithful. */
  lemma OperationDenotesIff(lay: Layout, op: Op, es: seq<Expr>, inp: Input, args: seq<Value>)
    requires OpResult(lay, op, args).Some?
    requires AllDenote(es, inp, args)
    ensures Denotes(Apply(RtOf(lay, op), es), inp, OpResult(lay, op, args).value) <==> Faithful(op, args)
  {
    assert Denotes(es[0], inp, args[0]);
    if op.Bin? || op.Cmp? {
      assert Denotes(es[1], inp, args[1]);
      if op.Cmp? {
        CmpDenotesIff(op.pred, es[0], es[1], inp, args[0], args[1]);
      } else if op.w == 1 {
        BoolBinDenotesIff(op.op, es[0], es[1], inp, args[0], args[1]);
      } else {
        BinDenotes(op.op, es[0], es[1], inp, args[0], args[1]);
      }
    } else {
      UnaryDenotesIff(lay, op, es[0], inp, args[0]);
      assert es == [es[0]] && args == [args[0]];
    }
  }

  lemma UnaryDenotesIff(lay: Layout, op: Op, x: Expr, inp: Input, a: Value)
    requires !op.Bin? && !op.Cmp?
    requires OpResult(lay, op, [a]).Some?
    requires Denotes(x, inp, a)
    ensures Denotes(Apply(RtOf(lay, op), [x]), inp, OpResult(lay, op, [a]).value) <==> Faithful(op, [a])
  {
    match op
    case Trunc(from, to) => TruncCase(lay, from, to, x, inp, a);
    case ZExt(from, to) => ZExtCase(lay, from, to, x, inp, a);
    case SExt(from, to) => SExtCase(lay, from, to, x, inp, a);
    case Bswap(w) => BswapCase(lay, w, x, inp, a);
    case ExtractField(size, offset, bits, scalar) => FieldCase(lay, size, offset, bits, scalar, x, inp, a);
  }

  lemma TruncCase(lay: Layout, from: nat, to: nat, x: Expr, inp: Input, a: Value)
    requires OpResult(lay, Trunc(from, to), [a]).Some?
    requires Denotes(x, inp, a)
    ensures Denotes(Apply(RtOf(lay, Trunc(from, to)), [x]), inp, OpResult(lay, Trunc(from, to), [a]).value)
       <==> Faithful(Trunc(from, to), [a])
  {
    TruncDenotesIff(from, to, x, inp, a);
  }

  lemma ZExtCase(lay: Layout, from: nat, to: nat, x: Expr, inp: Input, a: Value)
    requires OpResult(lay, ZExt(from, to), [a]).Some?
    requires Denotes(x, inp, a)
    ensures Denotes(Apply(RtOf(lay, ZExt(from, to)), [x]), inp, OpResult(lay, ZExt(from, to), [a]).value)
       <==> Faithful(ZExt(from, to), [a])
  {
    ZExtDenotes(from, to, x, inp, a);
  }

  lemma SExtCase(lay: Layout, from: nat, to: nat, x: Expr, inp: Input, a: Value)
    requires OpResult(lay, SExt(from, to), [a]).Some?
    requires Denotes(x, inp, a)
    ensures Denotes(Apply(RtOf(lay, SExt(from, to)), [x]), inp, OpResult(lay, SExt(from, to), [a]).value)
       <==> Faithful(SExt(from, to), [a])
  {
    hide Eval, SortOf, Wrap, Pow2, Signed;
    SExtDenotesIff(from, to, x, inp, a);
  }

  lemma BswapCase(lay: Layout, w: nat, x: Expr, inp: Input, a: Value)
    requires OpResult(lay, Bswap(w), [a]).Some?
    requires Denotes(x, inp, a)
    ensures Denotes(Apply(RtOf(lay, Bswap(w)), [x]), inp, OpResult(lay, Bswap(w), [a]).value)
       <==> Faithful(Bswap(w), [a])
  {
    assert Apply(RtOf(lay, Bswap(w)), [x]) == BswapExpr(x);
    BswapDenotes(w, x, inp, a);
  }

  lemma FieldCase(lay: Layout, size: nat, offset: nat, bits: nat, scalar: bool, x: Expr, inp: Input, a: Value)
    requires OpResult(lay, ExtractField(size, offset, bits, scalar), [a]).Some?
    requires Denotes(x, inp, a)
    ensures Denotes(Apply(RtOf(lay, ExtractField(size, offset, bits, scalar)), [x]), inp,
                    OpResult(lay, ExtractField(size, offset, bits, scalar), [a]).value)
       <==> Faithful(ExtractField(size, offset, bits, scalar), [a])
  {
    hide Eval, FromBytes, FieldBytes, Pow2;
    var le := IsLittleEndian(lay, scalar);
    assert SortOf(x) == BitVec(8 * size);
    assert Apply(RtExtract(offset, StoreSize(bits), le), [x]) == ExtractSlice(x, size, offset, StoreSize(bits), le);
    FieldDenotesIff(size, offset, bits, le, x, inp, a);
  }

  lemma SExtDenotesIff(from: nat, to: nat, x: Expr, inp: Input, a: Value)
    requires 0 < from == a.bits < to && Denotes(x, inp, a)
    ensures Denotes(if from == 1 then BoolToBits(x, to) else SignExtend(to - from, x), inp,
                    Word(to, Wrap(to, Signed(from, a.n))))
       <==> (from == 1 ==> a.n == 0)
  {
    if from == 1 {
      BoolSExtDenotesIff(to, x, inp, a);
    } else {
      SignExtendAgrees(from, to - from, a.n);
    }
  }

  lemma BinDenotes(o: BinOp, x: Expr, y: Expr, inp: Input, a: Value, b: Value)
    requires a.bits == b.bits > 1
    requires Denotes(x, inp, a) && Denotes(y, inp, b)
    requires LlvmBin(o, a.bits, a.n, b.n).Some?
    ensures Denotes(BinExpr(o, x, y), inp, Word(a.bits, LlvmBin(o, a.bits, a.n, b.n).value))
  {
    BinAgrees(o, a.bits, a.n, b.n);
  }

  lemma TruncDenotesIff(from: nat, to: nat, x: Expr, inp: Input, a: Value)
    requires 0 < to < from == a.bits && Denotes(x, inp, a)
    ensures Denotes(Extract(to - 1, 0, x), inp, MakeValue(to, a.n)) <==> to > 1
  {
    assert Pow2(0) == 1;
  }

  lemma ZExtDenotes(from: nat, to: nat, x: Expr, inp: Input, a: Value)
    requires 0 < from == a.bits < to && Denotes(x, inp, a)
    ensures Denotes(if from == 1 then BoolToBits(x, to) else ZeroExtend(to - from, x), inp, MakeValue(to, a.n))
  {
    ZeroExtendRange(from, to - from, a.n);
    ModSmall(a.n, Pow2(to));
  }

  lemma BswapDenotes(w: nat, x: Expr, inp: Input, a: Value)
    requires a.bits == w && w % 16 == 0 && Denotes(x, inp, a)
    ensures Denotes(BswapExpr(x), inp, MakeValue(w, FromBytes(true, ToBytes(false, w / 8, a.n))))
  {
    hide Denotes, ToBytes, FromBytes, BswapExpr;
    assert w == 8 * (w / 8) by { WholeBytes(w); }
    BswapOfBytes(w / 8, x, inp, a);
  }

  lemma WholeBytes(w: nat)
    requires w % 16 == 0
    ensures w == 8 * (w / 8)
  {
  }

  lemma BswapOfBytes(size: nat, x: Expr, inp: Input, a: Value)
    requires a.bits == 8 * size && Denotes(x, inp, a)
    ensures Denotes(BswapExpr(x), inp, MakeValue(8 * size, FromBytes(true, ToBytes(false, size, a.n))))
  {
    hide Eval, SortOf, ToBytes, FromBytes, Pow2, BswapExpr;
    BswapExprIs(x, size, inp);
    ModSmall(FromBytes(true, ToBytes(false, size, a.n)), Pow2(8 * size));
  }

  lemma BoolBinDenotesIff(o: BinOp, x: Expr, y: Expr, inp: Input, a: Value, b: Value)
    requires a.bits == b.bits == 1
    requires Denotes(x, inp, a) && Denotes(y, inp, b)
    requires LlvmBin(o, 1, a.n, b.n).Some?
    ensures Denotes(BoolBin(o, x, y), inp, Word(1, LlvmBin(o, 1, a.n, b.n).value)) <==> IsLogical(o)
  {
    assert Pow2(1) == 2 && Pow2(0) == 1;
    if IsLogical(o) {
      assert Bitwise(o, 1, a.n, b.n) == 2 * Bitwise(o, 0, a.n / 2, b.n / 2) + BitOf(o, a.n, b.n);
    }
  }

  lemma {:induction false} CmpDenotesIff(p: Pred, x: Expr, y: Expr, inp: Input, a: Value, b: Value)
    requires a.bits == b.bits
    requires Denotes(x, inp, a) && Denotes(y, inp, b)
    ensures Denotes(Apply(RtCmp(p), [x, y]), inp, MakeValue(1, AsNat(LlvmCmp(p, a.bits, a.n, b.n))))
       <==> (a.bits == 1 ==> p.Eq? || p.Ne?)
  {
    hide Eval, SortOf, LlvmCmp, Pow2;
    CmpEval(p, x, y, inp, a, b);
    BitValue(LlvmCmp(p, a.bits, a.n, b.n));
    if p == Ne {
      CmpEval(Eq, x, y, inp, a, b);
      NotEval(CmpExpr(Eq, x, y), inp);
      EqualOrNot(a, b);
      assert Apply(RtCmp(p), [x, y]) == NotExpr(CmpExpr(Eq, x, y));
    } else {
      assert Apply(RtCmp(p), [x, y]) == CmpExpr(p, x, y);
    }
  }

  lemma BitValue(b: bool)
    ensures MakeValue(1, AsNat(b)) == Word(1, AsNat(b))
  {
    assert Pow2(1) == 2;
  }

  lemma EqualOrNot(a: Value, b: Value)
    ensures LlvmCmp(Eq, a.bits, a.n, b.n) == !LlvmCmp(Ne, a.bits, a.n, b.n)
  {
  }

  lemma CmpEval(p: Pred, x: Expr, y: Expr, inp: Input, a: Value, b: Value)
    requires a.bits == b.bits
    requires Denotes(x, inp, a) && Denotes(y, inp, b)
    ensures SortOf(CmpExpr(p, x, y)) == if a.bits == 1 && !p.Eq? && !p.Ne? then IllSorted else BoolSort
    ensures SortOf(CmpExpr(p, x, y)).BoolSort? ==> Eval(CmpExpr(p, x, y), inp) == AsNat(LlvmCmp(p, a.bits, a.n, b.n))
  {
    hide LlvmCmp, SmtCmp, Pow2;
    CmpAgrees(p, a.bits, a.n, b.n);
    assert Width(SortOf(x)) == a.bits;
  }

  /** Sign extension of a Boolean yields one instead of minus one. */
  lemma BoolSExtDenotesIff(to: nat, x: Expr, inp: Input, a: Value)
    requires a.bits == 1 < to && Denotes(x, inp, a)
    ensures Denotes(BoolToBits(x, to), inp, Word(to, Wrap(to, Signed(1, a.n)))) <==> a.n == 0
  {
    assert Pow2(1) == 2 && Pow2(0) == 1;
    Pow2Monotone(2, to);
    assert Pow2(2) == 4;
    if a.n == 1 {
      WrapIs(to, -1, 1);
    } else {
      WrapIs(to, 0, 0);
    }
  }

  lemma ByteSliceEval(e: Expr, size: nat, position: nat, inp: Input)
    requires SortOf(e) == BitVec(8 * size)
    requires position < size
    ensures SortOf(ByteSlice(e, size, position)) == BitVec(8)
    ensures Eval(ByteSlice(e, size, position), inp) == ToBytes(false, size, Eval(e, inp))[position]
  {
  }

  lemma FieldBytesSnoc(size: nat, n: nat, offset: nat, len: nat)
    requires 0 < len && offset + len <= size
    ensures var bs := FieldBytes(size, n, offset, len);
      |bs| == len && bs[len - 1] == ToBytes(false, size, n)[offset + len - 1]
      && bs[..len - 1] == FieldBytes(size, n, offset, len - 1)
  {
  }

  lemma {:induction false} LittleEndianSliceEval(e: Expr, size: nat, offset: nat, len: nat, inp: Input)
    requires SortOf(e) == BitVec(8 * size)
    requires 0 < len && offset + len <= size
    ensures SortOf(LittleEndianSlice(e, size, offset, len)) == BitVec(8 * len)
    ensures Eval(LittleEndianSlice(e, size, offset, len), inp)
         == FromBytes(true, FieldBytes(size, Eval(e, inp), offset, len))
  {
    hide Eval, FromBytes, FieldBytes, Digit, ByteSlice;
    var last := ByteSlice(e, size, offset + len - 1);
    ByteSliceEval(e, size, offset + len - 1, inp);
    FieldBytesSnoc(size, Eval(e, inp), offset, len);
    var bs := FieldBytes(size, Eval(e, inp), offset, len);
    if len == 1 {
      FromOneByte(true, bs);
    } else {
      var rest := LittleEndianSlice(e, size, offset, len - 1);
      LittleEndianSliceEval(e, size, offset, len - 1, inp);
      ConcatEval(last, rest, inp);
      FromBytesSnoc(true, bs);
    }
  }

  /** Extracting bytes from a big-endian aggregate expression agrees with memory: it is what a
      load of the same bytes yields, in either byte order. */
  lemma ExtractSliceEval(e: Expr, size: nat, offset: nat, len: nat, le: bool, inp: Input)
    requires SortOf(e) == BitVec(8 * size)
    requires 0 < len && offset + len <= size
    ensures SortOf(ExtractSlice(e, size, offset, len, le)) == BitVec(8 * len)
    ensures Eval(ExtractSlice(e, size, offset, len, le), inp)
         == FromBytes(le, FieldBytes(size, Eval(e, inp), offset, len))
  {
    hide FromBytes, ToBytes, Pow2;
    if le {
      LittleEndianSliceEval(e, size, offset, len, inp);
    } else {
      FromBytesOfSlice(false, size, Eval(e, inp), offset, len);
    }
  }

  lemma BswapExprIs(e: Expr, size: nat, inp: Input)
    requires SortOf(e) == BitVec(8 * size)
    ensures SortOf(BswapExpr(e)) == BitVec(8 * size)
    ensures Eval(BswapExpr(e), inp) == FromBytes(true, ToBytes(false, size, Eval(e, inp)))
  {
    hide Eval, FromBytes, Digit;
    ExtractSliceEval(e, size, 0, size, true, inp);
    assert FieldBytes(size, Eval(e, inp), 0, size) == ToBytes(false, size, Eval(e, inp));
  }

  function BswapExpr(e: Expr): Expr {
    Apply(RtBswap, [e])
  }

  lemma FieldDenotesIff(size: nat, offset: nat, bits: nat, le: bool, x: Expr, inp: Input, a: Value)
    requires a.bits == 8 * size && Denotes(x, inp, a)
    requires 0 < bits && offset + StoreSize(bits) <= size
    ensures var v := MakeValue(bits, FromBytes(le, FieldBytes(size, a.n, offset, StoreSize(bits))));
      Denotes(ExtractSlice(x, size, offset, StoreSize(bits), le), inp, v) <==> bits % 8 == 0
  {
    var len := StoreSize(bits);
    ExtractSliceEval(x, size, offset, len, le, inp);
    SizedDenotesIff(ExtractSlice(x, size, offset, len, le), bits, FromBytes(le, FieldBytes(size, a.n, offset, len)),
                    inp);
  }

  /** A whole number of bytes stands for a value of `bits` bits only if that is its exact width. */
  lemma SizedDenotesIff(e: Expr, bits: nat, n: nat, inp: Input)
    requires bits > 0 && SortOf(e) == BitVec(8 * StoreSize(bits)) && Eval(e, inp) == n
    ensures Denotes(e, inp, MakeValue(bits, n)) <==> bits % 8 == 0
  {
    hide Eval, SortOf, Pow2;
    StoreSizeIs(bits);
    if bits % 8 == 0 {
      ModSmall(n, Pow2(bits));
    }
  }

  lemma StoreSizeIs(bits: nat)
    ensures bits == 8 * StoreSize(bits) <==> bits % 8 == 0
    ensures bits == 1 ==> StoreSize(bits) == 1
  {
  }

  // ----- Further laws of extract and bswap -----

  /** Extracting from an extracted aggregate adds the offsets. */
  lemma ExtractsCompose(e: Expr, size: nat, offset1: nat, len1: nat, offset2: nat, len2: nat, le: bool, inp: Input)
    requires SortOf(e) == BitVec(8 * size)
    requires 0 < len1 && offset1 + len1 <= size
    requires 0 < len2 && offset2 + len2 <= len1
    ensures Eval(ExtractSlice(ExtractSlice(e, size, offset1, len1, false), len1, offset2, len2, le), inp)
         == Eval(ExtractSlice(e, size, offset1 + offset2, len2, le), inp)
  {
    hide Eval, FromBytes, FieldBytes, ExtractSlice;
    var inner := ExtractSlice(e, size, offset1, len1, false);
    ExtractSliceEval(e, size, offset1, len1, false, inp);
    ExtractSliceEval(inner, len1, offset2, len2, le, inp);
    ExtractSliceEval(e, size, offset1 + offset2, len2, le, inp);
    FieldOfField(size, Eval(e, inp), offset1, len1, offset2, len2);
  }

  lemma FieldOfField(size: nat, n: nat, offset1: nat, len1: nat, offset2: nat, len2: nat)
    requires offset1 + len1 <= size && offset2 + len2 <= len1
    ensures FieldBytes(len1, FromBytes(false, FieldBytes(size, n, offset1, len1)), offset2, len2)
         == FieldBytes(size, n, offset1 + offset2, len2)
  {
    hide FromBytes, ToBytes;
    var all, field := ToBytes(false, size, n), FieldBytes(size, n, offset1, len1);
    ToBytesOfFromBytes(false, field);
    SliceOfSlice(all, offset1, len1, offset2, len2);
  }

  lemma SliceOfSlice(s: seq<Byte>, a: nat, m: nat, b: nat, n: nat)
    requires a + m <= |s| && b + n <= m
    ensures s[a..a + m][b..b + n] == s[a + b..a + b + n]
  {
    var left, right := s[a..a + m][b..b + n], s[a + b..a + b + n];
    forall i | 0 <= i < |left|
      ensures left[i] == right[i]
    {
      assert s[a..a + m][b + i] == s[a + (b + i)];
    }
    assert left == right;
  }

  function Reverse(bs: seq<Byte>): (r: seq<Byte>)
    ensures |r| == |bs|
  {
    seq(|bs|, i requires 0 <= i < |bs| => bs[|bs| - 1 - i])
  }

  lemma EndiannessReverses(size: nat, n: nat)
    ensures ToBytes(true, size, n) == Reverse(ToBytes(false, size, n))
    ensures ToBytes(false, size, n) == Reverse(ToBytes(true, size, n))
  {
  }

  /** Swapping reverses the bytes, whichever byte order they are counted in. */
  lemma BswapReverses(e: Expr, size: nat, le: bool, inp: Input)
    requires SortOf(e) == BitVec(8 * size)
    ensures SortOf(BswapExpr(e)) == BitVec(8 * size)
    ensures ToBytes(le, size, Eval(BswapExpr(e), inp)) == Reverse(ToBytes(le, size, Eval(e, inp)))
  {
    var x, y := Eval(e, inp), Eval(BswapExpr(e), inp);
    BswapExprIs(e, size, inp);
    ToBytesOfFromBytes(true, ToBytes(false, size, x));
    EndiannessReverses(size, x);
    EndiannessReverses(size, y);
  }

  lemma BswapInvolutive(e: Expr, size: nat, inp: Input)
    requires SortOf(e) == BitVec(8 * size)
    ensures Eval(BswapExpr(BswapExpr(e)), inp) == Eval(e, inp)
  {
    hide Eval, SortOf, BswapExpr, ToBytes, Pow2;
    BswapReverses(e, size, true, inp);
    BswapReverses(BswapExpr(e), size, true, inp);
    var bs := ToBytes(true, size, Eval(e, inp));
    assert Reverse(Reverse(bs)) == bs;
    BytesRoundTrip(true, size, Eval(e, inp));
    BytesRoundTrip(true, size, Eval(BswapExpr(BswapExpr(e)), inp));
  }
}
