/** Symbolic versions of memcmp, strchr, memset and strncpy: which constraints they push, and what they do to
    the shadow. */
module LibcWrappers {
  import opened BitVectors
  import opened Expressions
  import opened Builders
  import opened FlatShadow
  import opened Programs
  import opened Concolic
  import opened Faithfulness
  import opened Pins
  import opened Shadow

  // ----- memcmp -----

  function SameByte(sh: ShadowMap, mem: Memory, a: nat, b: nat): Expr {
    CmpExpr(Eq, ByteExpr(sh, mem, a), ByteExpr(sh, mem, b))
  }

  function SameBytes(sh: ShadowMap, mem: Memory, a: nat, b: nat, n: nat): Expr
    requires n > 0
  {
    if n == 1 then SameByte(sh, mem, a, b)
    else BoolBin(And, SameBytes(sh, mem, a, b, n - 1), SameByte(sh, mem, a + (n - 1), b + (n - 1)))
  }

  /** Iterators over two ranges of bytes, at the same distance from their starts. */
  ghost predicate Walks(store: ShadowPages, it: ReadShadowIterator, addr: nat, keys: set<nat>)
    reads store, store.repr, it
  {
    && it.store == store && store.Valid() && it.Points(store.pages) && it.NullOnlyIfAbsent(keys) && it.address == addr
    && keys == store.pages.Keys && OnPages(store.flat, keys)
  }

  method BeginRead(store: ShadowPages, addr: nat) returns (it: ReadShadowIterator)
    requires store.Valid()
    ensures fresh(it) && Walks(store, it, addr, store.pages.Keys)
  {
    it := new ReadShadowIterator(store, addr);
    FlatIsOnPages(store);
  }

  method ReadByte(store: ShadowPages, it: ReadShadowIterator, mem: Memory) returns (e: Expr)
    requires Walks(store, it, it.address, store.pages.Keys)
    ensures e == ByteExpr(store.flat, mem, it.address)
  {
    e := ReadNonNull(store, it, mem, store.pages.Keys);
  }

  method NextByte(store: ShadowPages, it: ReadShadowIterator, ghost addr: nat)
    requires Walks(store, it, addr, store.pages.Keys) && addr + 1 < ADDRESS_LIMIT
    modifies it
    ensures Walks(store, it, addr + 1, store.pages.Keys)
  {
    it.Next(store.pages.Keys);
  }

  /** The constraints that memcmp pushes: pins for its arguments and, unless both ranges are concrete,
      the condition that the bytes are equal, with its outcome. */
  function MemcmpPath(sh: ShadowMap, mem: Memory, a: nat, b: nat, n: nat, exprs: seq<Option<Expr>>): Path
    requires |exprs| == 3
  {
    PinAll([Wide(a, exprs[0]), Wide(b, exprs[1]), Wide(n, exprs[2])])
    + if IsConcrete(sh, a, n) && IsConcrete(sh, b, n) then []
      else [Constraint(MemcmpCondition(sh, mem, a, b, n), Bytes(mem, a, n) == Bytes(mem, b, n))]
  }

  /** `memcmp`; `exprs` are the parameter expressions. */
  method Memcmp(store: ShadowPages, mem: Memory, a: nat, b: nat, n: nat, exprs: seq<Option<Expr>>)
    returns (pushed: Path)
    requires store.Valid() && a + n < ADDRESS_LIMIT && b + n < ADDRESS_LIMIT && |exprs| == 3
    ensures pushed == MemcmpPath(store.flat, mem, a, b, n, exprs)
  {
    hide IsConcrete, SameBytes, Bytes, PinAll;
    pushed := PushPins([Wide(a, exprs[0]), Wide(b, exprs[1]), Wide(n, exprs[2])]);
    var aConcrete := IsConcreteRange(store, a, n);
    if aConcrete {
      var bConcrete := IsConcreteRange(store, b, n);
      if bConcrete {
        assert pushed + [] == pushed;
        return;
      }
    }
    NoBytesAreConcrete(store.flat, a, b);
    var allEqual := BuildAllEqual(store, mem, a, b, n);
    pushed := pushed + [Constraint(allEqual, Bytes(mem, a, n) == Bytes(mem, b, n))];
  }

  method BuildAllEqual(store: ShadowPages, mem: Memory, a: nat, b: nat, n: nat) returns (allEqual: Expr)
    requires store.Valid() && n > 0 && a + n < ADDRESS_LIMIT && b + n < ADDRESS_LIMIT
    ensures allEqual == SameBytes(store.flat, mem, a, b, n)
  {
    hide Walks, SameByte;
    var aIt := BeginRead(store, a);
    var bIt := BeginRead(store, b);
    WalkAddress(store, aIt, a);
    WalkAddress(store, bIt, b);
    allEqual := EqualHere(store, aIt, bIt, mem);
    for i := 1 to n
      invariant aIt != bIt
      invariant Walks(store, aIt, a + (i - 1), store.pages.Keys) && Walks(store, bIt, b + (i - 1), store.pages.Keys)
      invariant allEqual == SameBytes(store.flat, mem, a, b, i)
      modifies aIt, bIt
    {
      var equal := EqualNext(store, aIt, bIt, mem, a + (i - 1), b + (i - 1));
      allEqual := BoolBin(And, allEqual, equal);
    }
  }

  lemma WalkAddress(store: ShadowPages, it: ReadShadowIterator, addr: nat)
    requires Walks(store, it, addr, store.pages.Keys)
    ensures it.address == addr && Walks(store, it, it.address, store.pages.Keys)
  {
  }

  lemma NoBytesAreConcrete(sh: ShadowMap, a: nat, b: nat)
    ensures IsConcrete(sh, a, 0) && IsConcrete(sh, b, 0)
  {
  }

  method EqualHere(store: ShadowPages, aIt: ReadShadowIterator, bIt: ReadShadowIterator, mem: Memory) returns (e: Expr)
    requires Walks(store, aIt, aIt.address, store.pages.Keys) && Walks(store, bIt, bIt.address, store.pages.Keys)
    ensures e == SameByte(store.flat, mem, aIt.address, bIt.address)
  {
    hide Walks;
    var x := ReadByte(store, aIt, mem);
    var y := ReadByte(store, bIt, mem);
    e := CmpExpr(Eq, x, y);
  }

  method EqualNext(store: ShadowPages, aIt: ReadShadowIterator, bIt: ReadShadowIterator, mem: Memory, ghost a: nat,
                   ghost b: nat)
    returns (e: Expr)
    requires Walks(store, aIt, a, store.pages.Keys) && Walks(store, bIt, b, store.pages.Keys) && aIt != bIt
    requires a + 1 < ADDRESS_LIMIT && b + 1 < ADDRESS_LIMIT
    modifies aIt, bIt
    ensures Walks(store, aIt, a + 1, store.pages.Keys) && Walks(store, bIt, b + 1, store.pages.Keys)
    ensures e == SameByte(store.flat, mem, a + 1, b + 1)
  {
    hide Walks, SameByte;
    NextByte(store, aIt, a);
    NextByte(store, bIt, b);
    WalkAddress(store, aIt, a + 1);
    WalkAddress(store, bIt, b + 1);
    e := EqualHere(store, aIt, bIt, mem);
  }

  /** The conjunction over all bytes; never used for empty ranges. */
  function MemcmpCondition(sh: ShadowMap, mem: Memory, a: nat, b: nat, n: nat): Expr {
    if n == 0 then BoolConst(true) else SameBytes(sh, mem, a, b, n)
  }

  lemma SameByteMeaning(sh: ShadowMap, mc: Memory, md: Memory, inp: Input, a: nat, b: nat)
    requires MemRelated(sh, mc, md, inp)
    ensures SortOf(SameByte(sh, mc, a, b)).BoolSort?
    ensures Eval(SameByte(sh, mc, a, b), inp) == AsNat(MemAt(md, a) == MemAt(md, b))
  {
    hide ByteExpr;
    assert ByteRelated(sh, mc, md, inp, a) && ByteRelated(sh, mc, md, inp, b);
    ByteExprDenotes(sh, mc, md, inp, a);
    ByteExprDenotes(sh, mc, md, inp, b);
  }

  lemma BytesSnoc(mem: Memory, a: nat, b: nat, n: nat)
    ensures Bytes(mem, a, n + 1) == Bytes(mem, b, n + 1)
       <==> Bytes(mem, a, n) == Bytes(mem, b, n) && MemAt(mem, a + n) == MemAt(mem, b + n)
  {
    hide MemAt;
    assert Bytes(mem, a, n + 1) == Bytes(mem, a, n) + [MemAt(mem, a + n)];
    assert Bytes(mem, b, n + 1) == Bytes(mem, b, n) + [MemAt(mem, b + n)];
    if Bytes(mem, a, n + 1) == Bytes(mem, b, n + 1) {
      assert Bytes(mem, a, n + 1)[..n] == Bytes(mem, a, n) && Bytes(mem, a, n + 1)[n] == MemAt(mem, a + n);
      assert Bytes(mem, b, n + 1)[..n] == Bytes(mem, b, n) && Bytes(mem, b, n + 1)[n] == MemAt(mem, b + n);
    }
  }

  lemma {:induction false} AndMeaning(x: Expr, y: Expr, inp: Input)
    requires SortOf(x).BoolSort? && SortOf(y).BoolSort?
    ensures SortOf(BoolBin(And, x, y)).BoolSort?
    ensures Eval(BoolBin(And, x, y), inp) == AsNat(Eval(x, inp) == 1 && Eval(y, inp) == 1)
  {
    hide Pow2, BitOf;
    BelowTwo(x, inp);
    BelowTwo(y, inp);
    AndOfBits(Eval(x, inp), Eval(y, inp));
  }

  lemma {:induction false} BelowTwo(x: Expr, inp: Input)
    requires SortOf(x).BoolSort?
    ensures Eval(x, inp) < 2
  {
    hide Eval, SortOf;
    assert Pow2(1) == 2;
  }

  lemma AndOfBits(a: nat, b: nat)
    requires a < 2 && b < 2
    ensures BitOf(And, a, b) == AsNat(a == 1 && b == 1)
  {
  }

  /** Under every input, the condition that memcmp pushes says that the two ranges are equal. */
  lemma {:induction false} SameBytesMeaning(sh: ShadowMap, mc: Memory, md: Memory, inp: Input, a: nat, b: nat, n: nat)
    requires n > 0 && MemRelated(sh, mc, md, inp)
    ensures SortOf(SameBytes(sh, mc, a, b, n)).BoolSort?
    ensures Eval(SameBytes(sh, mc, a, b, n), inp) == AsNat(Bytes(md, a, n) == Bytes(md, b, n))
  {
    hide SameByte, MemRelated, Bytes, Eval, SortOf;
    SameByteMeaning(sh, mc, md, inp, a + (n - 1), b + (n - 1));
    BytesSnoc(md, a, b, n - 1);
    if n == 1 {
      NoBytes(md, a, b);
    } else {
      SameBytesMeaning(sh, mc, md, inp, a, b, n - 1);
      AndMeaning(SameBytes(sh, mc, a, b, n - 1), SameByte(sh, mc, a + (n - 1), b + (n - 1)), inp);
    }
  }

  lemma NoBytes(mem: Memory, a: nat, b: nat)
    ensures Bytes(mem, a, 0) == Bytes(mem, b, 0)
  {
  }

  /** What memcmp pushes is exact: an input satisfies it if and only if the comparison has the same
      outcome on it, and the current input does. */
  lemma MemcmpIsExact(sh: ShadowMap, mc: Memory, md: Memory, inp: Input, a: nat, b: nat, n: nat)
    requires n > 0 && MemRelated(sh, mc, md, inp)
    ensures var c := Constraint(MemcmpCondition(sh, mc, a, b, n), Bytes(mc, a, n) == Bytes(mc, b, n));
      Holds(c, inp) <==> (Bytes(md, a, n) == Bytes(md, b, n)) == (Bytes(mc, a, n) == Bytes(mc, b, n))
  {
    hide SameBytes, MemRelated, Bytes, Eval, SortOf;
    SameBytesMeaning(sh, mc, md, inp, a, b, n);
  }

  lemma ConcreteSame(sh: ShadowMap, mc: Memory, md: Memory, inp: Input, a: nat, n: nat)
    requires MemRelated(sh, mc, md, inp) && IsConcrete(sh, a, n)
    ensures Bytes(mc, a, n) == Bytes(md, a, n)
  {
    hide Denotes;
    forall i | 0 <= i < n
      ensures Bytes(mc, a, n)[i] == Bytes(md, a, n)[i]
    {
      assert Cells(sh, a, n)[i] == None;
      assert ByteRelated(sh, mc, md, inp, a + i);
    }
  }

  /** All that memcmp pushes, for every input: it holds if and only if the arguments are unchanged and
      the comparison has the same outcome. */
  lemma MemcmpPathIff(sh: ShadowMap, mc: Memory, md: Memory, inp: Input, a: nat, b: nat, n: nat,
                      exprs: seq<Option<Expr>>, ds: seq<Value>)
    requires |exprs| == 3 && MemRelated(sh, mc, md, inp)
    requires ArgumentsRelated([Wide(a, exprs[0]), Wide(b, exprs[1]), Wide(n, exprs[2])], ds, inp)
    ensures PathHolds(MemcmpPath(sh, mc, a, b, n, exprs), inp)
       <==> Unchanged([Wide(a, exprs[0]), Wide(b, exprs[1]), Wide(n, exprs[2])], ds)
            && (Bytes(md, a, n) == Bytes(md, b, n)) == (Bytes(mc, a, n) == Bytes(mc, b, n))
  {
    hide PathHolds, Bytes, IsConcrete, MemRelated, PinAll, Unchanged, ArgumentsRelated, MemcmpCondition, Holds;
    var args := [Wide(a, exprs[0]), Wide(b, exprs[1]), Wide(n, exprs[2])];
    PinsHoldIff(args, ds, inp);
    if IsConcrete(sh, a, n) && IsConcrete(sh, b, n) {
      ConcreteSame(sh, mc, md, inp, a, n);
      ConcreteSame(sh, mc, md, inp, b, n);
      assert PinAll(args) + [] == PinAll(args);
    } else {
      NoBytesAreConcrete(sh, a, b);
      MemcmpIsExact(sh, mc, md, inp, a, b, n);
      PathHoldsSnoc(PinAll(args), Constraint(MemcmpCondition(sh, mc, a, b, n), Bytes(mc, a, n) == Bytes(mc, b, n)),
                    inp);
    }
  }

  // ----- strchr -----

  predicate NoMatch(mem: Memory, s: nat, n: nat, c: nat) {
    forall a | s <= a < s + n :: MemAt(mem, a) != c
  }

  /** How far the first `c` or null byte is from `s`, within `fuel` bytes. */
  function Scan(mem: Memory, s: nat, c: Byte, fuel: nat): (n: nat)
    ensures n <= fuel
    ensures NoMatch(mem, s, n, c) && NoMatch(mem, s, n, 0)
    ensures n < fuel ==> MemAt(mem, s + n) == c || MemAt(mem, s + n) == 0
    decreases fuel
  {
    if fuel == 0 || MemAt(mem, s) == c || MemAt(mem, s) == 0 then 0 else 1 + Scan(mem, s + 1, c, fuel - 1)
  }

  /** The character that is searched for; strchr converts its argument to a char. */
  function CharExpr(c: nat, cExpr: Option<Expr>): Expr {
    match cExpr
    case None => Const(c, 8)
    case Some(e) => Extract(7, 0, e)
  }

  function Differs(x: Expr, y: Expr): Constraint {
    Constraint(NotExpr(CmpExpr(Eq, x, y)), true)
  }

  /** One inequality for each byte before the end of the search. */
  function StrchrPath(sh: ShadowMap, mem: Memory, s: nat, target: Expr, n: nat): Path {
    if n == 0 then []
    else StrchrPath(sh, mem, s, target, n - 1) + [Differs(ByteExpr(sh, mem, s + (n - 1)), target)]
  }

  /** The arguments of strchr; the character is passed as an int. */
  function StrchrArgs(s: nat, c: nat, sExpr: Option<Expr>, cExpr: Option<Expr>): seq<Argument> {
    [Wide(s, sExpr), Argument(MakeValue(32, c), cExpr)]
  }

  /** What strchr pushes. */
  function WholeStrchrPath(sh: ShadowMap, mem: Memory, s: nat, c: nat, sExpr: Option<Expr>, cExpr: Option<Expr>,
                           length: nat): Path {
    PinAll(StrchrArgs(s, c, sExpr, cExpr))
    + if IsConcrete(sh, s, length) && cExpr == None then [] else StrchrPath(sh, mem, s, CharExpr(c, cExpr), length)
  }

  /** `strchr` on a string whose search ends after `length` bytes. */
  method Strchr(store: ShadowPages, mem: Memory, s: nat, c: nat, sExpr: Option<Expr>, cExpr: Option<Expr>, length: nat)
    returns (pushed: Path)
    requires store.Valid() && s + length < ADDRESS_LIMIT
    ensures pushed == WholeStrchrPath(store.flat, mem, s, c, sExpr, cExpr, length)
  {
    hide IsConcrete, Walks, ByteExpr, PinAll;
    var pins := PushPins(StrchrArgs(s, c, sExpr, cExpr));
    pushed := pins;
    var concrete := IsConcreteRange(store, s, length);
    if concrete && cExpr == None {
      assert pins + [] == pins;
      return;
    }
    var differences := PushDifferences(store, mem, s, CharExpr(c, cExpr), length);
    pushed := pins + differences;
  }

  /** The loop of strchr. */
  method PushDifferences(store: ShadowPages, mem: Memory, s: nat, target: Expr, length: nat) returns (pushed: Path)
    requires store.Valid() && s + length < ADDRESS_LIMIT
    ensures pushed == StrchrPath(store.flat, mem, s, target, length)
  {
    hide Walks, ByteExpr, ShadowPages.Valid;
    pushed := [];
    var it := BeginRead(store, s);
    for i := 0 to length
      invariant Walks(store, it, s + i, store.pages.Keys)
      invariant pushed == StrchrPath(store.flat, mem, s, target, i)
      modifies it
    {
      WalkAddress(store, it, s + i);
      var byte := ReadByte(store, it, mem);
      pushed := pushed + [Differs(byte, target)];
      NextByte(store, it, s + i);
    }
  }

  /** The low byte of the argument. */
  lemma CharMeaning(c: nat, cExpr: Option<Expr>, inp: Input, d: nat)
    requires match cExpr
      case None => c == d
      case Some(e) => SortOf(e) == BitVec(32) && Eval(e, inp) == d
    ensures SortOf(CharExpr(c, cExpr)) == BitVec(8) && Eval(CharExpr(c, cExpr), inp) == d % 256
  {
    hide Eval;
    assert Pow2(8) == 256 && Pow2(0) == 1;
    match cExpr
    case None => assert Eval(Const(c, 8), inp) == Wrap(8, c) by { ConstMeaning(c, inp); }
    case Some(e) => LowByteMeaning(e, inp);
  }

  lemma ConstMeaning(c: nat, inp: Input)
    ensures Eval(Const(c, 8), inp) == Wrap(8, c)
  {
  }

  lemma LowByteMeaning(e: Expr, inp: Input)
    requires SortOf(e) == BitVec(32)
    ensures SortOf(Extract(7, 0, e)) == BitVec(8) && Eval(Extract(7, 0, e), inp) == Eval(e, inp) % 256
  {
    assert Pow2(8) == 256 && Pow2(0) == 1;
  }

  lemma DiffersMeaning(x: Expr, y: Expr, inp: Input)
    requires SortOf(x) == BitVec(8) && SortOf(y) == BitVec(8)
    ensures Holds(Differs(x, y), inp) <==> Eval(x, inp) != Eval(y, inp)
  {
    hide Eval;
    var same := CmpExpr(Eq, x, y);
    assert SortOf(NotExpr(same)) == BoolSort;
    assert Eval(same, inp) == AsNat(Eval(x, inp) == Eval(y, inp)) by { EqualMeaning(x, y, inp); }
    NotEval(same, inp);
  }

  lemma EqualMeaning(x: Expr, y: Expr, inp: Input)
    requires SortOf(x) == BitVec(8) && SortOf(y) == BitVec(8)
    ensures Eval(CmpExpr(Eq, x, y), inp) == AsNat(Eval(x, inp) == Eval(y, inp))
  {
  }

  /** Under every input, the constraints that strchr pushes say that no byte of the prefix matches;
      in particular they hold under the current one. */
  lemma {:induction false} StrchrIsExact(sh: ShadowMap, mc: Memory, md: Memory, inp: Input, s: nat, target: Expr,
                                         d: nat, n: nat)
    requires MemRelated(sh, mc, md, inp)
    requires SortOf(target) == BitVec(8) && Eval(target, inp) == d
    ensures PathHolds(StrchrPath(sh, mc, s, target, n), inp) <==> NoMatch(md, s, n, d)
  {
    hide ByteExpr, MemRelated, PathHolds, Eval, SortOf;
    if n == 0 {
      EmptyPathHolds(inp);
    } else {
      var k := n - 1;
      StrchrIsExact(sh, mc, md, inp, s, target, d, k);
      var byte := ByteExpr(sh, mc, s + k);
      PathHoldsSnoc(StrchrPath(sh, mc, s, target, k), Differs(byte, target), inp);
      ByteMeaning(sh, mc, md, inp, s + k);
      DiffersMeaning(byte, target, inp);
      assert NoMatch(md, s, n, d) == (NoMatch(md, s, k, d) && MemAt(md, s + k) != d);
    }
  }

  lemma EmptyPathHolds(inp: Input)
    ensures PathHolds([], inp)
  {
  }

  lemma ByteMeaning(sh: ShadowMap, mc: Memory, md: Memory, inp: Input, a: nat)
    requires MemRelated(sh, mc, md, inp)
    ensures SortOf(ByteExpr(sh, mc, a)) == BitVec(8) && Eval(ByteExpr(sh, mc, a), inp) == MemAt(md, a)
  {
    assert ByteRelated(sh, mc, md, inp, a);
    ByteExprDenotes(sh, mc, md, inp, a);
  }

  /** The search found nothing before its end, so the constraints hold now. */
  lemma StrchrHoldsNow(sh: ShadowMap, mem: Memory, inp: Input, s: nat, c: nat, cExpr: Option<Expr>, fuel: nat)
    requires MemRelated(sh, mem, mem, inp)
    requires cExpr.Some? ==> SortOf(cExpr.value) == BitVec(32) && Eval(cExpr.value, inp) == c
    ensures PathHolds(StrchrPath(sh, mem, s, CharExpr(c, cExpr), Scan(mem, s, c % 256, fuel)), inp)
  {
    hide MemRelated, PathHolds, Eval, SortOf, CharExpr;
    CharMeaning(c, cExpr, inp, c);
    StrchrIsExact(sh, mem, mem, inp, s, CharExpr(c, cExpr), c % 256, Scan(mem, s, c % 256, fuel));
  }

  /** All that strchr pushes, for every input: it holds if and only if the arguments are unchanged and
      no byte of the prefix is the character. */
  lemma {:induction false} StrchrPathIff(sh: ShadowMap, mc: Memory, md: Memory, inp: Input, s: nat, c: nat,
                                         sExpr: Option<Expr>, cExpr: Option<Expr>, n: nat, ds: seq<Value>)
    requires MemRelated(sh, mc, md, inp) && NoMatch(mc, s, n, c % 256) && c < Pow2(32)
    requires ArgumentsRelated(StrchrArgs(s, c, sExpr, cExpr), ds, inp)
    ensures PathHolds(WholeStrchrPath(sh, mc, s, c, sExpr, cExpr, n), inp)
       <==> Unchanged(StrchrArgs(s, c, sExpr, cExpr), ds) && NoMatch(md, s, n, c % 256)
  {
    hide PathHolds, IsConcrete, MemRelated, PinAll, ArgumentRelated, Holds, StrchrPath, CharExpr, Pow2, Eval, SortOf,
         Unchanged;
    var args := StrchrArgs(s, c, sExpr, cExpr);
    PinsHoldIff(args, ds, inp);
    if IsConcrete(sh, s, n) && cExpr == None {
      SamePrefix(sh, mc, md, inp, s, n, c % 256);
      assert PinAll(args) + [] == PinAll(args);
    } else {
      PathHoldsJoin(PinAll(args), StrchrPath(sh, mc, s, CharExpr(c, cExpr), n), inp);
      if Unchanged(args, ds) {
        CharArgument(s, c, sExpr, cExpr, ds, inp);
        CharMeaning(c, cExpr, inp, c);
        StrchrIsExact(sh, mc, md, inp, s, CharExpr(c, cExpr), c % 256, n);
      }
    }
  }

  lemma CharArgument(s: nat, c: nat, sExpr: Option<Expr>, cExpr: Option<Expr>, ds: seq<Value>, inp: Input)
    requires ArgumentsRelated(StrchrArgs(s, c, sExpr, cExpr), ds, inp) && Unchanged(StrchrArgs(s, c, sExpr, cExpr), ds)
    requires c < Pow2(32)
    ensures cExpr.Some? ==> SortOf(cExpr.value) == BitVec(32) && Eval(cExpr.value, inp) == c
  {
    hide Pow2, Eval, SortOf;
    var args := StrchrArgs(s, c, sExpr, cExpr);
    assert ArgumentRelated(args[1], ds[1], inp) && args[1].v == ds[1];
    ModSmall(c, Pow2(32));
  }

  lemma SamePrefix(sh: ShadowMap, mc: Memory, md: Memory, inp: Input, s: nat, n: nat, c: nat)
    requires MemRelated(sh, mc, md, inp) && IsConcrete(sh, s, n) && NoMatch(mc, s, n, c)
    ensures NoMatch(md, s, n, c)
  {
    hide MemRelated, IsConcrete, MemAt;
    ConcreteSame(sh, mc, md, inp, s, n);
    forall a | s <= a < s + n
      ensures MemAt(md, a) != c
    {
      assert Bytes(mc, s, n)[a - s] == Bytes(md, s, n)[a - s];
    }
  }

  /** The search ends after `n` bytes if and only if neither the character nor a null byte comes
      before and one of them comes then. */
  lemma {:induction false} ScanIff(mem: Memory, s: nat, c: Byte, fuel: nat, n: nat)
    requires n < fuel
    ensures Scan(mem, s, c, fuel) == n
       <==> NoMatch(mem, s, n, c) && NoMatch(mem, s, n, 0) && (MemAt(mem, s + n) == c || MemAt(mem, s + n) == 0)
  {
    hide Scan, MemAt;
    var m := Scan(mem, s, c, fuel);
    if m < n {
      assert !(NoMatch(mem, s, n, c) && NoMatch(mem, s, n, 0)) by {
        assert s <= s + m < s + n;
      }
    } else if n < m {
      assert MemAt(mem, s + n) != c && MemAt(mem, s + n) != 0;
    }
  }

  /** Which inputs that satisfy the constraints keep the end of the search: those with no null byte in
      the prefix and the character or a null byte after it. */
  lemma SameSearchIff(sh: ShadowMap, mc: Memory, md: Memory, inp: Input, s: nat, target: Expr, c: Byte, n: nat,
                      fuel: nat)
    requires MemRelated(sh, mc, md, inp) && Scan(mc, s, c, fuel) == n < fuel
    requires SortOf(target) == BitVec(8) && Eval(target, inp) == c
    requires PathHolds(StrchrPath(sh, mc, s, target, n), inp)
    ensures Scan(md, s, c, fuel) == n <==> NoMatch(md, s, n, 0) && (MemAt(md, s + n) == c || MemAt(md, s + n) == 0)
  {
    hide MemRelated, PathHolds, Eval, SortOf, Scan, StrchrPath;
    StrchrIsExact(sh, mc, md, inp, s, target, c, n);
    ScanIff(md, s, c, fuel, n);
  }

  // ----- memset -----

  /** memset passes the expression of its int argument on as that of each byte.  So the shadow describes
      memory afterwards if and only if the argument has no expression or no byte is set. */
  lemma MemsetRelatedIff(sh: ShadowMap, mc: Memory, md: Memory, inp: Input, s: nat, c: nat, cExpr: Option<Expr>, d: nat,
                         n: nat)
    requires MemRelated(sh, mc, md, inp)
    requires match cExpr
      case None => c == d
      case Some(e) => SortOf(e) == BitVec(32) && Eval(e, inp) == d
    ensures MemRelated(FillShadow(sh, s, n, cExpr), StoreBytes(mc, s, Replicate(c % 256, n)),
                       StoreBytes(md, s, Replicate(d % 256, n)), inp)
       <==> cExpr.None? || n == 0
  {
    hide MemRelated, FillShadow, StoreBytes, Replicate, Eval, SortOf;
    match cExpr
    case None => FillShadowMeaning(sh, mc, md, inp, s, n, None, c % 256, d % 256);
    case Some(e) =>
      var mc', md' := StoreBytes(mc, s, Replicate(c % 256, n)), StoreBytes(md, s, Replicate(d % 256, n));
      if n == 0 {
        NothingFilled(sh, mc, s, e, c % 256);
        NothingFilled(sh, md, s, e, d % 256);
      } else {
        FillShadowAt(sh, s, n, cExpr, s);
        WideCellFails(FillShadow(sh, s, n, cExpr), mc', md', inp, s, e);
      }
  }

  lemma WideCellFails(sh: ShadowMap, mc: Memory, md: Memory, inp: Input, a: nat, e: Expr)
    requires CellAt(sh, a) == Some(e) && SortOf(e) == BitVec(32)
    ensures !MemRelated(sh, mc, md, inp)
  {
    hide Eval, SortOf;
    assert !ByteRelated(sh, mc, md, inp, a);
  }

  lemma NothingFilled(sh: ShadowMap, mem: Memory, a: nat, e: Expr, b: Byte)
    ensures FillShadow(sh, a, 0, Some(e)) == sh && StoreBytes(mem, a, Replicate(b, 0)) == mem
  {
  }

  // ----- strncpy -----

  /** What strncpy does to memory: it copies the string and pads it with null bytes. */
  function StrncpyBytes(mem: Memory, dest: nat, src: nat, copied: nat, n: nat): Memory
    requires copied <= n
  {
    StoreBytes(StoreBytes(mem, dest, Bytes(mem, src, copied)), dest + copied, Replicate(0, n - copied))
  }

  function StrncpyShadow(sh: ShadowMap, dest: nat, src: nat, copied: nat, n: nat): ShadowMap
    requires copied <= n
  {
    Clear(CopyShadow(sh, dest, src, copied), dest + copied, n - copied)
  }

  /** `strncpy` of a string of which `copied` bytes are copied. */
  method Strncpy(store: ShadowPages, dest: nat, src: nat, copied: nat, n: nat, exprs: seq<Option<Expr>>)
    returns (pushed: Path)
    requires store.Valid() && copied <= n && src + copied < ADDRESS_LIMIT && dest + n < ADDRESS_LIMIT
    requires dest <= src || src + copied <= dest
    requires |exprs| == 3
    modifies store, store.repr
    ensures store.Valid() && fresh(store.repr - old(store.repr))
    ensures store.flat == StrncpyShadow(old(store.flat), dest, src, copied, n)
    ensures pushed == PinAll([Wide(dest, exprs[0]), Wide(src, exprs[1]), Wide(n, exprs[2])])
  {
    hide IsConcrete, CopyShadow, Clear, ShadowPages.Valid, PinAll;
    pushed := PushPins([Wide(dest, exprs[0]), Wide(src, exprs[1]), Wide(n, exprs[2])]);
    var srcConcrete := IsConcreteRange(store, src, copied);
    if srcConcrete {
      var destConcrete := IsConcreteRange(store, dest, n);
      if destConcrete {
        ConcreteParts(store.flat, dest, copied, n);
        ConcreteCopy(store.flat, dest, src, copied);
        ConcreteClear(store.flat, dest + copied, n - copied);
        return;
      }
    }
    CopyForward(store, dest, src, copied);
    if copied < n {
      Fill(store, dest + copied, n - copied, None);
    } else {
      ClearNothing(store.flat, dest + copied);
    }
  }

  lemma ConcreteParts(sh: ShadowMap, addr: nat, copied: nat, n: nat)
    requires copied <= n && IsConcrete(sh, addr, n)
    ensures IsConcrete(sh, addr, copied) && IsConcrete(sh, addr + copied, n - copied)
  {
    ConcretePrefix(sh, addr, copied, n);
    assert Cells(sh, addr + copied, n - copied) == Cells(sh, addr, n)[copied..];
  }

  lemma ClearNothing(sh: ShadowMap, addr: nat)
    ensures Clear(sh, addr, 0) == sh
  {
    Extensional(Clear(sh, addr, 0), sh);
  }

  /** How many bytes of the string strncpy copies. */
  function CopyLength(mem: Memory, src: nat, n: nat): (k: nat)
    ensures k <= n
  {
    Scan(mem, src, 0, n)
  }

  /** A byte of memory after strncpy. */
  lemma StrncpyByte(mem: Memory, dest: nat, src: nat, copied: nat, n: nat, a: nat)
    requires copied <= n
    ensures MemAt(StrncpyBytes(mem, dest, src, copied, n), a)
         == if dest <= a < dest + copied then MemAt(mem, src + (a - dest))
            else if dest <= a < dest + n then 0
            else MemAt(mem, a)
  {
    hide StoreBytes, MemAt;
    StoreBytesAt(StoreBytes(mem, dest, Bytes(mem, src, copied)), dest + copied, Replicate(0, n - copied), a);
    StoreBytesAt(mem, dest, Bytes(mem, src, copied), a);
  }

  lemma StrncpyCell(sh: ShadowMap, dest: nat, src: nat, copied: nat, n: nat, a: nat)
    requires copied <= n
    ensures CellAt(StrncpyShadow(sh, dest, src, copied, n), a)
         == if dest <= a < dest + copied then CellAt(sh, src + (a - dest))
            else if dest <= a < dest + n then None
            else CellAt(sh, a)
  {
    hide CopyShadow;
    CopyShadowAt(sh, dest, src, copied, a);
    FillShadowAt(CopyShadow(sh, dest, src, copied), dest + copied, n - copied, None, a);
  }

  /** The copied part of another input's string ends early, in null bytes only, or not at all. */
  predicate EndsInNulls(md: Memory, src: nat, copied: nat, length: nat) {
    length <= copied && forall a | src + length <= a < src + copied :: MemAt(md, a) == 0
  }

  lemma StrncpyByteIff(sh: ShadowMap, mc: Memory, md: Memory, inp: Input, dest: nat, src: nat, copied: nat, length: nat,
                       n: nat, i: nat)
    requires copied == CopyLength(mc, src, n) && length == CopyLength(md, src, n) && i < n
    requires ByteRelated(sh, mc, md, inp, src + i)
    ensures ByteRelated(StrncpyShadow(sh, dest, src, copied, n), StrncpyBytes(mc, dest, src, copied, n),
                        StrncpyBytes(md, dest, src, length, n), inp, dest + i)
       <==> if i < copied then i < length || MemAt(md, src + i) == 0 else i >= length
  {
    hide StrncpyShadow, StrncpyBytes, Scan, Eval, SortOf;
    StrncpyByte(mc, dest, src, copied, n, dest + i);
    StrncpyByte(md, dest, src, length, n, dest + i);
    StrncpyCell(sh, dest, src, copied, n, dest + i);
  }

  /** After strncpy the shadow still describes the memory of another input if and only if the string
      is as long there, or has only null bytes from its end to the end of the part that was copied. */
  lemma {:induction false} StrncpyRelatedIff(sh: ShadowMap, mc: Memory, md: Memory, inp: Input, dest: nat, src: nat,
                                             n: nat)
    requires MemRelated(sh, mc, md, inp)
    ensures var copied, length := CopyLength(mc, src, n), CopyLength(md, src, n);
      MemRelated(StrncpyShadow(sh, dest, src, copied, n), StrncpyBytes(mc, dest, src, copied, n),
                 StrncpyBytes(md, dest, src, length, n), inp)
      <==> EndsInNulls(md, src, copied, length)
  {
    hide StrncpyShadow, StrncpyBytes, ByteRelated, CopyLength, MemAt;
    var copied, length := CopyLength(mc, src, n), CopyLength(md, src, n);
    var sh', mc', md' := StrncpyShadow(sh, dest, src, copied, n), StrncpyBytes(mc, dest, src, copied, n),
      StrncpyBytes(md, dest, src, length, n);
    forall a | dest <= a < dest + n
      ensures ByteRelated(sh', mc', md', inp, a)
         <==> if a < dest + copied then a < dest + length || MemAt(md, src + (a - dest)) == 0 else a >= dest + length
    {
      assert ByteRelated(sh, mc, md, inp, src + (a - dest));
      StrncpyByteIff(sh, mc, md, inp, dest, src, copied, length, n, a - dest);
    }
    forall a: nat | a < dest || dest + n <= a
      ensures ByteRelated(sh', mc', md', inp, a)
    {
      assert ByteRelated(sh, mc, md, inp, a);
      ElsewhereRelated(sh, mc, md, inp, dest, src, copied, length, n, a);
    }
    if EndsInNulls(md, src, copied, length) {
      forall a: nat
        ensures ByteRelated(sh', mc', md', inp, a)
      {
      }
    }
    if MemRelated(sh', mc', md', inp) {
      if copied < length {
        OneByte(sh', mc', md', inp, dest + copied);
      }
      forall a | src + length <= a < src + copied
        ensures MemAt(md, a) == 0
      {
        OneByte(sh', mc', md', inp, dest + (a - src));
      }
    }
  }

  lemma OneByte(sh: ShadowMap, mc: Memory, md: Memory, inp: Input, a: nat)
    requires MemRelated(sh, mc, md, inp)
    ensures ByteRelated(sh, mc, md, inp, a)
  {
  }

  lemma ElsewhereRelated(sh: ShadowMap, mc: Memory, md: Memory, inp: Input, dest: nat, src: nat, copied: nat,
                         length: nat, n: nat, a: nat)
    requires copied <= n && length <= n && (a < dest || dest + n <= a) && ByteRelated(sh, mc, md, inp, a)
    ensures ByteRelated(StrncpyShadow(sh, dest, src, copied, n), StrncpyBytes(mc, dest, src, copied, n),
                        StrncpyBytes(md, dest, src, length, n), inp, a)
  {
    hide StrncpyShadow, StrncpyBytes;
    StrncpyByte(mc, dest, src, copied, n, a);
    StrncpyByte(md, dest, src, length, n, a);
    StrncpyCell(sh, dest, src, copied, n, a);
  }
}
