/** Shadow memory as a flat map from addresses to byte expressions, and concrete memory beside it.

    The paged implementation refines the functions of this module (see module `Shadow`); the
    concolic machine is defined with them. */
module FlatShadow {
  import opened BitVectors
  import opened Expressions

  /** An absent address has no expression: the byte is concrete. */
  type ShadowMap = map<nat, Expr>

  /** Memory that was never written reads as zero. */
  type Memory = map<nat, Byte>

  function CellAt(sh: ShadowMap, a: nat): Option<Expr> {
    if a in sh then Some(sh[a]) else None
  }

  function MemAt(mem: Memory, a: nat): Byte {
    if a in mem then mem[a] else 0
  }

  function Range(addr: nat, len: nat): (s: set<nat>)
    ensures forall a :: a in s <==> addr <= a < addr + len
  {
    if len == 0 then {} else Range(addr, len - 1) + {addr + len - 1}
  }

  function Cells(sh: ShadowMap, addr: nat, len: nat): (cells: seq<Option<Expr>>)
    ensures |cells| == len
  {
    seq(len, i requires 0 <= i < len => CellAt(sh, addr + i))
  }

  /** No byte of the range has an expression. */
  predicate IsConcrete(sh: ShadowMap, addr: nat, len: nat) {
    AllNull(Cells(sh, addr, len))
  }

  predicate AllNull(cells: seq<Option<Expr>>) {
    forall i | 0 <= i < |cells| :: cells[i] == None
  }

  // ----- Concrete memory -----

  function Bytes(mem: Memory, addr: nat, len: nat): (bs: seq<Byte>)
    ensures |bs| == len
  {
    seq<Byte>(len, i requires 0 <= i < len => MemAt(mem, addr + i))
  }

  function StoreBytes(mem: Memory, addr: nat, bs: seq<Byte>): Memory {
    mem + map a | a in Range(addr, |bs|) :: bs[a - addr]
  }

  // ----- Shadow operations -----

  /** What a non-null iterator yields: the shadow byte, or an expression for the concrete one. */
  function ByteExpr(sh: ShadowMap, mem: Memory, a: nat): Expr {
    match CellAt(sh, a)
    case Some(e) => e
    case None => Const(MemAt(mem, a), 8)
  }

  function ByteExprs(sh: ShadowMap, mem: Memory, addr: nat, len: nat): (es: seq<Expr>)
    ensures |es| == len
  {
    seq(len, i requires 0 <= i < len => ByteExpr(sh, mem, addr + i))
  }

  /** Concatenates byte expressions in address order. */
  function ConcatBytes(le: bool, es: seq<Expr>): Expr
    requires es != []
  {
    var k := |es| - 1;
    if k == 0 then es[0]
    else if le then Concat(es[k], ConcatBytes(le, es[..k]))
    else Concat(ConcatBytes(le, es[..k]), es[k])
  }

  /** `_sym_read_memory`. */
  function ReadShadow(sh: ShadowMap, mem: Memory, addr: nat, len: nat, le: bool): Option<Expr>
    requires len > 0
  {
    if IsConcrete(sh, addr, len) then None else Some(ConcatBytes(le, ByteExprs(sh, mem, addr, len)))
  }

  /** The expression of byte `i` of a value stored in `len` bytes. */
  function StoredByte(e: Expr, le: bool, len: nat, i: nat): Expr
    requires i < len
  {
    Extract(8 * PlaceOf(le, len, i) + 7, 8 * PlaceOf(le, len, i), e)
  }

  function Clear(sh: ShadowMap, addr: nat, len: nat): ShadowMap {
    sh - Range(addr, len)
  }

  /** `_sym_write_memory`. */
  function WriteShadow(sh: ShadowMap, addr: nat, len: nat, value: Option<Expr>, le: bool): ShadowMap {
    match value
    case None => Clear(sh, addr, len)
    case Some(e) => sh + map a | a in Range(addr, len) :: StoredByte(e, le, len, a - addr)
  }

  /** `_sym_memset`. */
  function FillShadow(sh: ShadowMap, addr: nat, len: nat, value: Option<Expr>): ShadowMap {
    match value
    case None => Clear(sh, addr, len)
    case Some(e) => sh + map a | a in Range(addr, len) :: e
  }

  /** All cells of [src, src + len) copied at once to [dest, dest + len). */
  function CopyShadow(sh: ShadowMap, dest: nat, src: nat, len: nat): ShadowMap {
    Clear(sh, dest, len) + map a | a in Range(dest, len) && a - dest + src in sh :: sh[a - dest + src]
  }

  // ----- Cell by cell -----

  lemma StoreBytesAt(mem: Memory, addr: nat, bs: seq<Byte>, a: nat)
    ensures MemAt(StoreBytes(mem, addr, bs), a) == if addr <= a < addr + |bs| then bs[a - addr] else MemAt(mem, a)
  {
  }

  lemma WriteShadowAt(sh: ShadowMap, addr: nat, len: nat, value: Option<Expr>, le: bool, a: nat)
    ensures CellAt(WriteShadow(sh, addr, len, value, le), a)
         == if !(addr <= a < addr + len) then CellAt(sh, a)
            else if value.None? then None
            else Some(StoredByte(value.value, le, len, a - addr))
  {
  }

  lemma FillShadowAt(sh: ShadowMap, addr: nat, len: nat, value: Option<Expr>, a: nat)
    ensures CellAt(FillShadow(sh, addr, len, value), a) == if addr <= a < addr + len then value else CellAt(sh, a)
  {
  }

  lemma CopyShadowAt(sh: ShadowMap, dest: nat, src: nat, len: nat, a: nat)
    ensures CellAt(CopyShadow(sh, dest, src, len), a)
         == if dest <= a < dest + len then CellAt(sh, a - dest + src) else CellAt(sh, a)
  {
  }

  // ----- Meaning -----

  function ByteValue(b: Byte): (v: Value)
    ensures v.bits == 8 && v.n == b
  {
    assert Pow2(8) == 256;
    Word(8, b)
  }

  /** The shadow describes memory `md` under input `inp`: symbolic bytes evaluate to their value in
      `md`, and the others are as in `mc`, the memory of the run that built the shadow. */
  ghost predicate MemRelated(sh: ShadowMap, mc: Memory, md: Memory, inp: Input) {
    forall a: nat :: ByteRelated(sh, mc, md, inp, a)
  }

  ghost predicate ByteRelated(sh: ShadowMap, mc: Memory, md: Memory, inp: Input, a: nat) {
    match CellAt(sh, a)
    case Some(e) => Denotes(e, inp, ByteValue(MemAt(md, a)))
    case None => MemAt(mc, a) == MemAt(md, a)
  }

  lemma ByteExprDenotes(sh: ShadowMap, mc: Memory, md: Memory, inp: Input, a: nat)
    requires ByteRelated(sh, mc, md, inp, a)
    ensures Denotes(ByteExpr(sh, mc, a), inp, ByteValue(MemAt(md, a)))
  {
    assert Pow2(8) == 256;
  }

  /** Concatenating correct byte expressions yields the number that a load assembles. */
  lemma {:induction false} ConcatBytesEval(le: bool, es: seq<Expr>, bs: seq<Byte>, inp: Input)
    requires |es| == |bs| > 0
    requires forall i | 0 <= i < |es| :: Denotes(es[i], inp, ByteValue(bs[i]))
    ensures SortOf(ConcatBytes(le, es)) == BitVec(8 * |es|)
    ensures Eval(ConcatBytes(le, es), inp) == FromBytes(le, bs)
  {
    hide Eval, FromBytes, Pow2;
    var k := |es| - 1;
    assert Denotes(es[k], inp, ByteValue(bs[k]));
    if k == 0 {
      FromOneByte(le, bs);
    } else {
      ConcatBytesEval(le, es[..k], bs[..k], inp);
      FromBytesSnoc(le, bs);
      var rest := ConcatBytes(le, es[..k]);
      ConcatEval(es[k], rest, inp);
      ConcatEval(rest, es[k], inp);
    }
  }

  /** A read of symbolic or mixed memory evaluates to the bytes in memory, weighted by byte order;
      a read of concrete memory has no expression. */
  lemma ReadShadowMeaning(sh: ShadowMap, mc: Memory, md: Memory, inp: Input, addr: nat, len: nat, le: bool)
    requires len > 0
    requires MemRelated(sh, mc, md, inp)
    ensures var r := ReadShadow(sh, mc, addr, len, le);
      match r
      case None => Bytes(mc, addr, len) == Bytes(md, addr, len)
      case Some(e) => SortOf(e) == BitVec(8 * len) && Eval(e, inp) == FromBytes(le, Bytes(md, addr, len))
  {
    hide Eval, FromBytes, Pow2, ConcatBytes, Denotes, ByteExpr;
    forall i | 0 <= i < len
      ensures ByteRelated(sh, mc, md, inp, addr + i)
      ensures Denotes(ByteExprs(sh, mc, addr, len)[i], inp, ByteValue(Bytes(md, addr, len)[i]))
    {
      ByteExprDenotes(sh, mc, md, inp, addr + i);
    }
    if IsConcrete(sh, addr, len) {
      forall i | 0 <= i < len
        ensures Bytes(mc, addr, len)[i] == Bytes(md, addr, len)[i]
      {
        assert Cells(sh, addr, len)[i] == None;
      }
    } else {
      ConcatBytesEval(le, ByteExprs(sh, mc, addr, len), Bytes(md, addr, len), inp);
    }
  }

  lemma StoredByteDenotes(e: Expr, le: bool, len: nat, i: nat, inp: Input)
    requires i < len && SortOf(e) == BitVec(8 * len)
    ensures Denotes(StoredByte(e, le, len, i), inp, ByteValue(ToBytes(le, len, Eval(e, inp))[i]))
  {
  }

  /** Storing a value and its expression keeps the shadow a description of memory. */
  lemma WriteShadowMeaning(sh: ShadowMap, mc: Memory, md: Memory, inp: Input, addr: nat, len: nat, le: bool,
                           value: Option<Expr>, c: nat, d: nat)
    requires MemRelated(sh, mc, md, inp)
    requires match value
      case None => c == d
      case Some(e) => SortOf(e) == BitVec(8 * len) && Eval(e, inp) == d
    ensures MemRelated(WriteShadow(sh, addr, len, value, le),
                       StoreBytes(mc, addr, ToBytes(le, len, c)), StoreBytes(md, addr, ToBytes(le, len, d)), inp)
  {
    hide Eval, SortOf, Pow2, Denotes, Digit, WriteShadow, StoreBytes, StoredByte;
    var sh', mc', md' := WriteShadow(sh, addr, len, value, le),
      StoreBytes(mc, addr, ToBytes(le, len, c)), StoreBytes(md, addr, ToBytes(le, len, d));
    forall a: nat
      ensures ByteRelated(sh', mc', md', inp, a)
    {
      assert ByteRelated(sh, mc, md, inp, a);
      WriteShadowAt(sh, addr, len, value, le, a);
      StoreBytesAt(mc, addr, ToBytes(le, len, c), a);
      StoreBytesAt(md, addr, ToBytes(le, len, d), a);
      if addr <= a < addr + len && value.Some? {
        StoredByteDenotes(value.value, le, len, a - addr, inp);
      }
    }
  }

  lemma DenotesUnique(e: Expr, inp: Input, a: Byte, b: Byte)
    requires Denotes(e, inp, ByteValue(a))
    ensures Denotes(e, inp, ByteValue(b)) <==> a == b
  {
  }

  /** Storing a value in one byte order and its expression in another keeps the shadow a description
      of memory if and only if both orders give the same bytes. */
  lemma WriteShadowMeaningIff(sh: ShadowMap, mc: Memory, md: Memory, inp: Input, addr: nat, len: nat,
                              shadowOrder: bool, memoryOrder: bool, e: Expr, c: nat, d: nat)
    requires MemRelated(sh, mc, md, inp)
    requires SortOf(e) == BitVec(8 * len) && Eval(e, inp) == d
    ensures MemRelated(WriteShadow(sh, addr, len, Some(e), shadowOrder),
                       StoreBytes(mc, addr, ToBytes(memoryOrder, len, c)),
                       StoreBytes(md, addr, ToBytes(memoryOrder, len, d)), inp)
       <==> ToBytes(shadowOrder, len, d) == ToBytes(memoryOrder, len, d)
  {
    hide Eval, SortOf, Pow2, Denotes, Digit, WriteShadow, StoreBytes, StoredByte, ByteValue;
    var bs, bs' := ToBytes(shadowOrder, len, d), ToBytes(memoryOrder, len, d);
    var sh', mc', md' := WriteShadow(sh, addr, len, Some(e), shadowOrder),
      StoreBytes(mc, addr, ToBytes(memoryOrder, len, c)), StoreBytes(md, addr, bs');
    forall a: nat
      ensures !(addr <= a < addr + len) ==> ByteRelated(sh', mc', md', inp, a)
      ensures addr <= a < addr + len ==> (ByteRelated(sh', mc', md', inp, a) <==> bs[a - addr] == bs'[a - addr])
    {
      assert ByteRelated(sh, mc, md, inp, a);
      WriteShadowAt(sh, addr, len, Some(e), shadowOrder, a);
      StoreBytesAt(mc, addr, ToBytes(memoryOrder, len, c), a);
      StoreBytesAt(md, addr, bs', a);
      if addr <= a < addr + len {
        StoredByteDenotes(e, shadowOrder, len, a - addr, inp);
        DenotesUnique(StoredByte(e, shadowOrder, len, a - addr), inp, bs[a - addr], bs'[a - addr]);
      }
    }
    if MemRelated(sh', mc', md', inp) {
      forall i | 0 <= i < len
        ensures bs[i] == bs'[i]
      {
        assert ByteRelated(sh', mc', md', inp, addr + i);
      }
    }
  }

  lemma {:induction false} TopByteIllSorted(e: Expr, le: bool, len: nat, i: nat)
    requires i < len && PlaceOf(le, len, i) == len - 1
    requires SortOf(e).BitVec? ==> SortOf(e).bits < 8 * len
    ensures SortOf(StoredByte(e, le, len, i)).IllSorted?
  {
  }

  /** An expression of another width than the stored bytes describes none of their values. */
  lemma PartialBytesNeverMean(sh: ShadowMap, mc: Memory, md: Memory, inp: Input, addr: nat, len: nat, le: bool, e: Expr)
    requires len > 0 && (SortOf(e).BitVec? ==> SortOf(e).bits < 8 * len)
    ensures !MemRelated(WriteShadow(sh, addr, len, Some(e), le), mc, md, inp)
  {
    hide Eval, SortOf, StoredByte, WriteShadow;
    var i := if le then len - 1 else 0;
    WriteShadowAt(sh, addr, len, Some(e), le, addr + i);
    TopByteIllSorted(e, le, len, i);
    assert !ByteRelated(WriteShadow(sh, addr, len, Some(e), le), mc, md, inp, addr + i);
  }

  /** Copying memory and shadow together keeps the shadow a description of memory. */
  lemma CopyShadowMeaning(sh: ShadowMap, mc: Memory, md: Memory, inp: Input, dest: nat, src: nat, len: nat)
    requires MemRelated(sh, mc, md, inp)
    ensures MemRelated(CopyShadow(sh, dest, src, len),
                       StoreBytes(mc, dest, Bytes(mc, src, len)), StoreBytes(md, dest, Bytes(md, src, len)), inp)
  {
    hide Denotes, CopyShadow, StoreBytes;
    var sh', mc', md' := CopyShadow(sh, dest, src, len),
      StoreBytes(mc, dest, Bytes(mc, src, len)), StoreBytes(md, dest, Bytes(md, src, len));
    forall a: nat
      ensures ByteRelated(sh', mc', md', inp, a)
    {
      assert ByteRelated(sh, mc, md, inp, a);
      CopyShadowAt(sh, dest, src, len, a);
      StoreBytesAt(mc, dest, Bytes(mc, src, len), a);
      StoreBytesAt(md, dest, Bytes(md, src, len), a);
      if dest <= a < dest + len {
        assert ByteRelated(sh, mc, md, inp, a - dest + src);
      }
    }
  }

  function Replicate(b: Byte, len: nat): (bs: seq<Byte>)
    ensures |bs| == len
  {
    seq(len, i => b)
  }

  lemma FillShadowMeaning(sh: ShadowMap, mc: Memory, md: Memory, inp: Input, addr: nat, len: nat,
                          value: Option<Expr>, c: Byte, d: Byte)
    requires MemRelated(sh, mc, md, inp)
    requires match value
      case None => c == d
      case Some(e) => Denotes(e, inp, ByteValue(d))
    ensures MemRelated(FillShadow(sh, addr, len, value),
                       StoreBytes(mc, addr, Replicate(c, len)), StoreBytes(md, addr, Replicate(d, len)), inp)
  {
    hide Denotes, FillShadow, StoreBytes;
    var sh', mc', md' := FillShadow(sh, addr, len, value),
      StoreBytes(mc, addr, Replicate(c, len)), StoreBytes(md, addr, Replicate(d, len));
    forall a: nat
      ensures ByteRelated(sh', mc', md', inp, a)
    {
      assert ByteRelated(sh, mc, md, inp, a);
      FillShadowAt(sh, addr, len, value, a);
      StoreBytesAt(mc, addr, Replicate(c, len), a);
      StoreBytesAt(md, addr, Replicate(d, len), a);
    }
  }

  // ----- Round trips -----

  /** Writing an expression and reading any part of it back gives that slice of the expression. */
  lemma WriteThenRead(sh: ShadowMap, mem: Memory, inp: Input, addr: nat, size: nat, e: Expr,
                      offset: nat, len: nat, le: bool)
    requires SortOf(e) == BitVec(8 * size)
    requires 0 < len && offset + len <= size
    ensures var r := ReadShadow(WriteShadow(sh, addr, size, Some(e), le), mem, addr + offset, len, le);
      r.Some? && SortOf(r.value) == BitVec(8 * len)
      && Eval(r.value, inp) == if le then SmtExtract(8 * (offset + len) - 1, 8 * offset, Eval(e, inp))
                                     else SmtExtract(8 * (size - offset) - 1, 8 * (size - offset - len), Eval(e, inp))
  {
    hide Eval, FromBytes, Pow2, ConcatBytes, Denotes, SortOf, ByteValue, WriteShadow, StoredByte;
    var sh', bs := WriteShadow(sh, addr, size, Some(e), le), ToBytes(le, size, Eval(e, inp))[offset..offset + len];
    var es := ByteExprs(sh', mem, addr + offset, len);
    forall i | 0 <= i < len
      ensures Denotes(es[i], inp, ByteValue(bs[i]))
    {
      var a := addr + offset + i;
      WriteShadowAt(sh, addr, size, Some(e), le, a);
      assert a - addr == offset + i;
      assert CellAt(sh', a) == Some(StoredByte(e, le, size, offset + i));
      assert es[i] == ByteExpr(sh', mem, a);
      StoredByteDenotes(e, le, size, offset + i, inp);
    }
    WriteShadowAt(sh, addr, size, Some(e), le, addr + offset);
    assert Cells(sh', addr + offset, len)[0].Some?;
    ConcatBytesEval(le, es, bs, inp);
    FromBytesOfSlice(le, size, Eval(e, inp), offset, len);
  }

  /** Reading back the whole of what was written evaluates to what was written. */
  lemma WriteThenReadAll(sh: ShadowMap, mem: Memory, inp: Input, addr: nat, len: nat, e: Expr, le: bool)
    requires 0 < len && SortOf(e) == BitVec(8 * len)
    ensures var r := ReadShadow(WriteShadow(sh, addr, len, Some(e), le), mem, addr, len, le);
      r.Some? && SortOf(r.value) == SortOf(e) && Eval(r.value, inp) == Eval(e, inp)
  {
    hide ReadShadow, WriteShadow, Eval;
    WriteThenRead(sh, mem, inp, addr, len, e, 0, len, le);
    ExtractAll(8 * len, Eval(e, inp));
  }

  /** Copying and then reading at the destination is reading at the source. */
  lemma CopyThenRead(sh: ShadowMap, mem: Memory, dest: nat, src: nat, len: nat, le: bool)
    requires 0 < len
    ensures ReadShadow(CopyShadow(sh, dest, src, len), StoreBytes(mem, dest, Bytes(mem, src, len)), dest, len, le)
         == ReadShadow(sh, mem, src, len, le)
  {
    hide CopyShadow, StoreBytes, ConcatBytes;
    var sh', mem' := CopyShadow(sh, dest, src, len), StoreBytes(mem, dest, Bytes(mem, src, len));
    forall i | 0 <= i < len
      ensures Cells(sh', dest, len)[i] == Cells(sh, src, len)[i]
      ensures ByteExprs(sh', mem', dest, len)[i] == ByteExprs(sh, mem, src, len)[i]
    {
      var a, b := dest + i, src + i;
      CopyShadowAt(sh, dest, src, len, a);
      StoreBytesAt(mem, dest, Bytes(mem, src, len), a);
      assert a - dest + src == b && a - dest == i;
      assert ByteExprs(sh', mem', dest, len)[i] == ByteExpr(sh', mem', a);
      assert ByteExprs(sh, mem, src, len)[i] == ByteExpr(sh, mem, b);
    }
    assert Cells(sh', dest, len) == Cells(sh, src, len);
    assert ByteExprs(sh', mem', dest, len) == ByteExprs(sh, mem, src, len);
  }
}
