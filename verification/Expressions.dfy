/** Symbolic expressions: what the runtime's builder functions construct, the
    sorts the solver would give them, and their meaning under a program input. */
module Expressions {
  import opened BitVectors

  type Byte = n: nat | n < 256

  /** The contents of the symbolic input file. */
  type Input = seq<Byte>

  datatype Word = Word(bits: nat, n: nat)

  /** An LLVM integer or pointer (or the bytes of an aggregate, most significant first). */
  type Value = w: Word | w.bits > 0 && w.n < Pow2(w.bits) witness Word(1, 0)

  /** The solver keeps Booleans apart from bit vectors of length one. */
  datatype Sort = BoolSort | BitVec(bits: nat) | IllSorted

  datatype Expr =
    | Const(value: nat, bits: nat)
    | BoolConst(truth: bool)
    | InputByte(offset: nat)
    | BinExpr(op: BinOp, left: Expr, right: Expr)
    | BoolBin(op: BinOp, left: Expr, right: Expr)
    | CmpExpr(pred: Pred, left: Expr, right: Expr)
    | NotExpr(operand: Expr)
    | Concat(high: Expr, low: Expr)
    | Extract(hi: nat, lo: nat, operand: Expr)
    | ZeroExtend(extra: nat, operand: Expr)
    | SignExtend(extra: nat, operand: Expr)
    | BoolToBits(operand: Expr, bits: nat)

  predicate IsLogical(op: BinOp) {
    op.And? || op.Or? || op.Xor?
  }

  function SortOf(e: Expr): (s: Sort)
    ensures s.BitVec? ==> s.bits > 0
  {
    match e
    case Const(_, bits) => if bits > 0 then BitVec(bits) else IllSorted
    case BoolConst(_) => BoolSort
    case InputByte(_) => BitVec(8)
    case BinExpr(_, a, b) => if SortOf(a) == SortOf(b) && SortOf(a).BitVec? then SortOf(a) else IllSorted
    case BoolBin(op, a, b) =>
      if SortOf(a).BoolSort? && SortOf(b).BoolSort? && IsLogical(op) then BoolSort else IllSorted
    case CmpExpr(p, a, b) =>
      if SortOf(a) == SortOf(b) && (SortOf(a).BitVec? || (SortOf(a).BoolSort? && (p.Eq? || p.Ne?)))
      then BoolSort else IllSorted
    case NotExpr(a) => if SortOf(a).BoolSort? then BoolSort else IllSorted
    case Concat(a, b) =>
      if SortOf(a).BitVec? && SortOf(b).BitVec? then BitVec(SortOf(a).bits + SortOf(b).bits) else IllSorted
    case Extract(hi, lo, a) =>
      if SortOf(a).BitVec? && lo <= hi < SortOf(a).bits then BitVec(hi - lo + 1) else IllSorted
    case ZeroExtend(k, a) => if SortOf(a).BitVec? then BitVec(SortOf(a).bits + k) else IllSorted
    case SignExtend(k, a) => if SortOf(a).BitVec? then BitVec(SortOf(a).bits + k) else IllSorted
    case BoolToBits(a, bits) => if SortOf(a).BoolSort? && bits > 0 then BitVec(bits) else IllSorted
  }

  function Width(s: Sort): nat {
    match s
    case BoolSort => 1
    case BitVec(n) => n
    case IllSorted => 0
  }

  function AsNat(b: bool): (n: nat)
    ensures n < 2
  {
    if b then 1 else 0
  }

  /** The most that an expression of this sort can evaluate to, plus one. */
  function Bound(e: Expr): (p: nat)
    ensures p > 0
  {
    Pow2(Width(SortOf(e)))
  }

  /** The meaning of a node with two operands, given theirs. */
  function EvalBinary(e: Expr, x: nat, y: nat): (r: nat)
    requires e.BinExpr? || e.BoolBin? || e.CmpExpr?
    requires x < Bound(e.left) && y < Bound(e.right)
    ensures r < Bound(e)
  {
    assert Pow2(1) == 2;
    if SortOf(e).IllSorted? then 0 else
    match e
    case BinExpr(op, a, _) => SmtBin(op, SortOf(a).bits, x, y)
    case BoolBin(op, _, _) => BitOf(op, x, y)
    case CmpExpr(p, a, _) => AsNat(SmtCmp(p, Width(SortOf(a)), x, y))
  }

  function EvalConcat(a: Expr, b: Expr, x: nat, y: nat): (r: nat)
    requires x < Bound(a) && y < Bound(b)
    ensures r < Bound(Concat(a, b))
  {
    if SortOf(Concat(a, b)).IllSorted? then 0 else
    ConcatRange(SortOf(a).bits, SortOf(b).bits, x, y);
    SmtConcat(SortOf(b).bits, x, y)
  }

  /** The meaning of a node with one operand, given its value. */
  function EvalUnary(e: Expr, x: nat): (r: nat)
    requires e.NotExpr? || e.Extract? || e.ZeroExtend? || e.SignExtend? || e.BoolToBits?
    requires x < Bound(e.operand)
    ensures r < Bound(e)
  {
    assert Pow2(1) == 2 && Pow2(0) == 1;
    if SortOf(e).IllSorted? then 0 else
    match e
    case NotExpr(_) => 1 - x
    case Extract(hi, lo, a) => SmtExtract(hi, lo, x)
    case ZeroExtend(k, a) =>
      ZeroExtendRange(SortOf(a).bits, k, x);
      x
    case SignExtend(k, a) =>
      SignExtendAgrees(SortOf(a).bits, k, x);
      SmtSignExtend(SortOf(a).bits, k, x)
    case BoolToBits(a, bits) =>
      Pow2Monotone(1, bits);
      x
  }

  /** The value of an expression under an input; ill-sorted expressions have no meaning (zero). */
  function Eval(e: Expr, inp: Input): (r: nat)
    ensures r < Bound(e)
  {
    match e
    case Const(n, bits) => Wrap(bits, n)
    case BoolConst(b) => assert Pow2(1) == 2; AsNat(b)
    case InputByte(k) => assert Pow2(8) == 256; if k < |inp| then inp[k] else 0
    case BinExpr(_, a, b) => EvalBinary(e, Eval(a, inp), Eval(b, inp))
    case BoolBin(_, a, b) => EvalBinary(e, Eval(a, inp), Eval(b, inp))
    case CmpExpr(_, a, b) => EvalBinary(e, Eval(a, inp), Eval(b, inp))
    case Concat(a, b) => EvalConcat(a, b, Eval(a, inp), Eval(b, inp))
    case NotExpr(a) => EvalUnary(e, Eval(a, inp))
    case Extract(_, _, a) => EvalUnary(e, Eval(a, inp))
    case ZeroExtend(_, a) => EvalUnary(e, Eval(a, inp))
    case SignExtend(_, a) => EvalUnary(e, Eval(a, inp))
    case BoolToBits(a, _) => EvalUnary(e, Eval(a, inp))
  }

  /** Booleans are LLVM's one-bit integers. */
  function SortFor(bits: nat): Sort {
    if bits == 1 then BoolSort else BitVec(bits)
  }

  /** The expression is well-sorted for the value's type and evaluates to the value. */
  predicate Denotes(e: Expr, inp: Input, v: Value) {
    SortOf(e) == SortFor(v.bits) && Eval(e, inp) == v.n
  }

  lemma ConcatEval(a: Expr, b: Expr, inp: Input)
    requires SortOf(a).BitVec? && SortOf(b).BitVec?
    ensures SortOf(Concat(a, b)) == BitVec(SortOf(a).bits + SortOf(b).bits)
    ensures Eval(Concat(a, b), inp) == SmtConcat(SortOf(b).bits, Eval(a, inp), Eval(b, inp))
  {
  }

  lemma NotEval(x: Expr, inp: Input)
    requires SortOf(x).BoolSort?
    ensures SortOf(NotExpr(x)).BoolSort? && Eval(NotExpr(x), inp) == 1 - Eval(x, inp)
  {
  }

  // ----- Values and their bytes -----

  /** Reassembles a number from its bytes in address order. */
  function FromBytes(le: bool, bs: seq<Byte>): (n: nat)
    ensures n < Pow2(8 * |bs|)
  {
    if bs == [] then 0 else
    var k := |bs| - 1;
    var rest := FromBytes(le, bs[..k]);
    assert Pow2(8) == 256;
    ConcatRange(8, 8 * k, bs[k], rest);
    ConcatRange(8 * k, 8, rest, bs[k]);
    if le then SmtConcat(8 * k, bs[k], rest) else SmtConcat(8, rest, bs[k])
  }

  /** The place value, in bytes, of position `i` among `len` bytes. */
  function PlaceOf(le: bool, len: nat, i: nat): (p: nat)
    requires i < len
    ensures p < len
  {
    if le then i else len - 1 - i
  }

  /** The byte of `n` with the given place value. */
  function Digit(n: nat, place: nat): Byte {
    assert Pow2(8) == 256;
    SmtExtract(8 * place + 7, 8 * place, n)
  }

  /** The bytes in which a number is stored, in address order. */
  function ToBytes(le: bool, len: nat, n: nat): (bs: seq<Byte>)
    ensures |bs| == len
  {
    seq(len, i requires 0 <= i < len => Digit(n, PlaceOf(le, len, i)))
  }

  /** A run of consecutive bytes of a stored number holds a slice of its bits. */
  lemma {:induction false} FromBytesOfSlice(le: bool, len: nat, n: nat, from: nat, k: nat)
    requires 0 < k && from + k <= len
    ensures FromBytes(le, ToBytes(le, len, n)[from..from + k])
         == if le then SmtExtract(8 * (from + k) - 1, 8 * from, n)
                  else SmtExtract(8 * (len - from) - 1, 8 * (len - from - k), n)
  {
    hide SmtExtract, SmtConcat, FromBytes, Pow2;
    var bs := ToBytes(le, len, n)[from..from + k];
    if k > 1 {
      FromBytesOfSlice(le, len, n, from, k - 1);
      assert bs[..k - 1] == ToBytes(le, len, n)[from..from + (k - 1)];
      FromBytesSnoc(le, bs);
      if le {
        ConcatOfExtracts(8 * (from + k) - 1, 8 * (from + k - 1), 8 * from, n);
      } else {
        ConcatOfExtracts(8 * (len - from) - 1, 8 * (len - from - k) + 8, 8 * (len - from - k), n);
      }
    } else {
      FromOneByte(le, bs);
    }
  }

  lemma FromOneByte(le: bool, bs: seq<Byte>)
    requires |bs| == 1
    ensures FromBytes(le, bs) == bs[0]
  {
    assert Pow2(0) == 1;
    assert FromBytes(le, bs[..0]) == 0;
  }

  /** Storing a number and loading it again is the identity, in either byte order. */
  lemma BytesRoundTrip(le: bool, len: nat, n: nat)
    requires n < Pow2(8 * len)
    ensures FromBytes(le, ToBytes(le, len, n)) == n
  {
    if len > 0 {
      FromBytesOfSlice(le, len, n, 0, len);
      assert ToBytes(le, len, n)[0..len] == ToBytes(le, len, n);
      ExtractAll(8 * len, n);
    }
  }

  lemma DigitOfConcat(high: nat, low: nat, lowBytes: nat, place: nat)
    requires low < Pow2(8 * lowBytes)
    ensures Digit(SmtConcat(8 * lowBytes, high, low), place)
         == if place < lowBytes then Digit(low, place) else Digit(high, place - lowBytes)
  {
    var n, p := SmtConcat(8 * lowBytes, high, low), Pow2(8 * lowBytes);
    DivModUnique(n, p, high, low);
    if place < lowBytes {
      ExtractOfExtract(8 * lowBytes - 1, 0, 8 * place + 7, 8 * place, n);
    } else {
      Pow2Add(8 * (place - lowBytes), 8 * lowBytes);
      SplitDigits(n, Pow2(8 * (place - lowBytes)), p);
    }
  }

  /** Loading bytes and storing them again is the identity. */
  lemma {:induction false} DigitOfFromBytes(le: bool, bs: seq<Byte>, i: nat)
    requires i < |bs|
    ensures Digit(FromBytes(le, bs), PlaceOf(le, |bs|, i)) == bs[i]
  {
    var k := |bs| - 1;
    var init := bs[..k];
    var rest := FromBytes(le, init);
    if i < k {
      DigitOfFromBytes(le, init, i);
    } else {
      DigitOfByte(bs[k]);
    }
    FromBytesSnoc(le, bs);
    if le {
      DigitOfConcat(bs[k], rest, k, i);
    } else {
      DigitOfConcat(rest, bs[k], 1, k - i);
    }
  }

  lemma FromBytesSnoc(le: bool, bs: seq<Byte>)
    requires bs != []
    ensures bs[|bs| - 1] < Pow2(8)
    ensures var k := |bs| - 1;
      FromBytes(le, bs) == if le then SmtConcat(8 * k, bs[k], FromBytes(le, bs[..k]))
                                 else SmtConcat(8, FromBytes(le, bs[..k]), bs[k])
  {
    assert Pow2(8) == 256;
  }

  lemma DigitOfByte(b: Byte)
    ensures Digit(b, 0) == b
  {
    assert Pow2(8) == 256;
    ExtractAll(8, b);
  }

  lemma ToBytesOfFromBytes(le: bool, bs: seq<Byte>)
    ensures ToBytes(le, |bs|, FromBytes(le, bs)) == bs
  {
    forall i | 0 <= i < |bs|
      ensures ToBytes(le, |bs|, FromBytes(le, bs))[i] == bs[i]
    {
      DigitOfFromBytes(le, bs, i);
    }
  }
}
