/** Extracting members from aggregates agrees with loading them from memory. */
module Aggregates {
  import opened BitVectors
  import opened Expressions
  import opened Builders
  import opened FlatShadow

  /** Part of a region of memory, by reading the whole region big-endian as aggregates are read and
      extracting, or by reading the part alone: the same bytes, in either byte order. */
  lemma ExtractAgreesWithLoad(sh: ShadowMap, mc: Memory, md: Memory, inp: Input, addr: nat, size: nat,
                              offset: nat, len: nat, le: bool)
    requires MemRelated(sh, mc, md, inp) && 0 < len && offset + len <= size
    requires ReadShadow(sh, mc, addr, size, false).Some?
    ensures var member := ExtractSlice(ReadShadow(sh, mc, addr, size, false).value, size, offset, len, le);
      && SortOf(member) == BitVec(8 * len)
      && Eval(member, inp) == FromBytes(le, Bytes(md, addr + offset, len))
      && match ReadShadow(sh, mc, addr + offset, len, le)
         case Some(part) => SortOf(part) == SortOf(member) && Eval(part, inp) == Eval(member, inp)
         case None => Eval(member, inp) == FromBytes(le, Bytes(mc, addr + offset, len))
  {
    hide Eval, FromBytes, SortOf, ReadShadow, MemRelated, ExtractSlice;
    var whole := ReadShadow(sh, mc, addr, size, false).value;
    var bytes := Bytes(md, addr, size);
    ReadShadowMeaning(sh, mc, md, inp, addr, size, false);
    ReadShadowMeaning(sh, mc, md, inp, addr + offset, len, le);
    ExtractSliceEval(whole, size, offset, len, le, inp);
    ToBytesOfFromBytes(false, bytes);
    assert FieldBytes(size, FromBytes(false, bytes), offset, len) == bytes[offset..offset + len];
    assert bytes[offset..offset + len] == Bytes(md, addr + offset, len);
  }
}
