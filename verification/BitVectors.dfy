/** Fixed-size bit vectors as natural numbers below a power of two.

    Every operation that the runtime hands to the solver is defined here twice:
    once the way the SMT-LIB theory FixedSizeBitVectors defines it (the `Smt`
    functions, built from unsigned arithmetic and case splits on sign bits) and
    once the way LLVM defines it for the compiled program (the `Llvm` functions,
    on signed integers, undefined for traps and poison).  The lemmas say that
    the two agree wherever LLVM defines a result. */
module BitVectors {
  datatype Option<+T> = None | Some(value: T)

  datatype BinOp =
    | Add | Sub | Mul
    | UDiv | SDiv | URem | SRem
    | Shl | LShr | AShr
    | And | Or | Xor

  datatype Pred = Eq | Ne | Ugt | Uge | Ult | Ule | Sgt | Sge | Slt | Sle

  // ----- Powers of two, division with remainder -----

  function Pow2(n: nat): (p: nat)
    ensures p > 0
  {
    if n == 0 then 1 else 2 * Pow2(n - 1)
  }

  lemma {:induction false} Pow2Add(a: nat, b: nat)
    ensures Pow2(a + b) == Pow2(a) * Pow2(b)
  {
    if a > 0 {
      Pow2Add(a - 1, b);
      MulAssociative(2, Pow2(a - 1), Pow2(b));
      assert Pow2(a + b) == 2 * Pow2(a - 1 + b);
    }
  }

  lemma MulAssociative(x: int, y: int, z: int)
    ensures x * (y * z) == (x * y) * z
  {
  }

  lemma Pow2Monotone(a: nat, b: nat)
    requires a <= b
    ensures Pow2(a) <= Pow2(b)
  {
    Pow2Add(a, b - a);
    MulAtLeast(Pow2(a), Pow2(b - a));
  }

  lemma MulAtLeast(x: nat, y: nat)
    requires y >= 1
    ensures x <= x * y
  {
    assert x * y == x * (y - 1) + x;
    MulNonNegative(x, y - 1);
  }

  lemma MulNonNegative(x: nat, y: nat)
    ensures x * y >= 0
  {
  }

  lemma DivModUnique(x: int, d: int, q: int, r: int)
    requires 0 <= r < d
    requires x == q * d + r
    ensures x / d == q
    ensures x % d == r
  {
    var k := q - x / d;
    assert k * d == q * d - x / d * d;
    assert x == x / d * d + x % d;
    MultipleOfAtLeast(k, d);
  }

  lemma MultipleOfAtLeast(k: int, d: nat)
    ensures k >= 1 ==> k * d >= d
    ensures k <= -1 ==> k * d <= 0 - d
  {
    if k >= 1 {
      assert k * d == (k - 1) * d + d;
      MulNonNegative(k - 1, d);
    } else if k <= -1 {
      assert (-k - 1) * d == 0 - k * d - d;
      MulNonNegative(-k - 1, d);
    }
  }

  lemma DigitsBelow(hi: nat, lo: nat, a: nat, b: nat)
    requires hi < a && lo < b
    ensures 0 <= hi * b + lo < a * b
  {
    MulNonNegative(a - 1 - hi, b);
    MulNonNegative(hi, b);
    assert (a - 1 - hi) * b == a * b - b - hi * b;
  }

  lemma RegroupDigits(hi: int, mid: int, lo: int, a: int, b: int)
    ensures (hi * a + mid) * b + lo == hi * (a * b) + (mid * b + lo)
  {
    MulAssociative(hi, a, b);
    assert (hi * a + mid) * b == hi * a * b + mid * b;
  }

  /** Splitting a remainder at an inner modulus: the low digits and the digits above them. */
  lemma SplitDigits(x: nat, a: nat, b: nat)
    requires a > 0 && b > 0
    ensures a * b > 0
    ensures x % (a * b) == x / b % a * b + x % b
    ensures x / (a * b) == x / b / a
  {
    var q, lo := x / b, x % b;
    var hi, mid := q / a, q % a;
    assert a * b > 0 by { MulAtLeast(a, b); }
    DigitsBelow(mid, lo, a, b);
    RegroupDigits(hi, mid, lo, a, b);
    DivModUnique(x, a * b, hi, mid * b + lo);
  }

  lemma ModSmall(x: int, d: int)
    requires 0 <= x < d
    ensures x % d == x
  {
  }

  /** The only value below `a * b` with given high and low digits. */
  lemma JoinDigits(hi: nat, lo: nat, a: nat, b: nat)
    requires hi < a && lo < b
    ensures hi * b + lo < a * b
    ensures (hi * b + lo) / b == hi
    ensures (hi * b + lo) % b == lo
  {
    DigitsBelow(hi, lo, a, b);
    DivModUnique(hi * b + lo, b, hi, lo);
  }

  // ----- Words -----

  function Wrap(w: nat, x: int): (r: nat)
    ensures r < Pow2(w)
  {
    x % Pow2(w)
  }

  lemma WrapIs(w: nat, x: int, k: int)
    requires 0 <= x + k * Pow2(w) < Pow2(w)
    ensures Wrap(w, x) == x + k * Pow2(w)
  {
    DivModUnique(x, Pow2(w), -k, x + k * Pow2(w));
  }

  lemma WrapMultiple(w: nat, x: int, k: int)
    ensures Wrap(w, x + k * Pow2(w)) == Wrap(w, x)
  {
    var p := Pow2(w);
    assert x == x / p * p + x % p;
    assert (x / p + k) * p == x / p * p + k * p;
    DivModUnique(x + k * p, p, x / p + k, x % p);
  }

  /** Wrapping intermediate results does not change a sum. */
  lemma WrapAdd(w: nat, x: int, y: int)
    ensures Wrap(w, Wrap(w, x) + y) == Wrap(w, x + y)
  {
    var p := Pow2(w);
    assert x == x / p * p + x % p;
    WrapMultiple(w, x % p + y, x / p);
  }

  /** Wrapping a factor does not change a product. */
  lemma WrapMul(w: nat, x: int, y: int)
    ensures Wrap(w, Wrap(w, x) * y) == Wrap(w, x * y)
  {
    var p := Pow2(w);
    var q, r := x / p, Wrap(w, x);
    assert x == q * p + r;
    hide Wrap, Pow2;
    MulWrapped(q, p, r, y);
    WrapMultiple(w, r * y, q * y);
  }

  lemma MulWrapped(q: int, p: int, r: int, y: int)
    ensures (q * p + r) * y == r * y + q * y * p
  {
    assert (q * p + r) * y == q * p * y + r * y;
    assert q * p * y == q * y * p;
  }

  /** Two numbers wrap to the same word exactly when their difference wraps to zero. */
  lemma WrapEqualIff(w: nat, x: int, z: int)
    ensures Wrap(w, x - z) == Wrap(w, x) <==> Wrap(w, z) == 0
  {
    hide Wrap;
    WrapAdd(w, z, x - z);
    var r := Wrap(w, x - z);
    WrapAdd(w, x - z, Wrap(w, z));
    WrapAddSmall(w, r, Wrap(w, z));
  }

  lemma WrapAddSmall(w: nat, r: nat, t: nat)
    requires r < Pow2(w) && t < Pow2(w)
    ensures Wrap(w, r + t) == r <==> t == 0
  {
    if r + t < Pow2(w) {
      WrapIs(w, r + t, 0);
    } else {
      WrapIs(w, r + t, -1);
    }
  }

  predicate Negative(w: nat, a: nat)
    requires w > 0
  {
    a >= Pow2(w - 1)
  }

  /** The two's complement reading of a word. */
  function Signed(w: nat, a: nat): int
    requires w > 0
  {
    if Negative(w, a) then a - Pow2(w) else a
  }

  function Bit(a: nat): nat {
    a % 2
  }

  function BitOf(op: BinOp, a: nat, b: nat): (r: nat)
    ensures r < 2
  {
    match op
    case And => if Bit(a) == 1 && Bit(b) == 1 then 1 else 0
    case Or => if Bit(a) == 1 || Bit(b) == 1 then 1 else 0
    case _ => if Bit(a) != Bit(b) then 1 else 0
  }

  /** Bit-by-bit and, or and exclusive or; LLVM and SMT-LIB agree on these by definition. */
  function Bitwise(op: BinOp, w: nat, a: nat, b: nat): (r: nat)
    ensures r < Pow2(w)
  {
    if w == 0 then 0 else 2 * Bitwise(op, w - 1, a / 2, b / 2) + BitOf(op, a, b)
  }

  // ----- The SMT-LIB side -----

  function SmtNot(w: nat, a: nat): nat
    requires a < Pow2(w)
  {
    Pow2(w) - 1 - a
  }

  function SmtNeg(w: nat, a: nat): (r: nat)
    requires a < Pow2(w)
    ensures r < Pow2(w)
  {
    if a == 0 then 0 else Pow2(w) - a
  }

  function SmtUDiv(w: nat, a: nat, b: nat): nat {
    if b == 0 then Pow2(w) - 1 else a / b
  }

  function SmtURem(a: nat, b: nat): nat {
    if b == 0 then a else a % b
  }

  function Magnitude(w: nat, a: nat): nat
    requires w > 0 && a < Pow2(w)
  {
    if Negative(w, a) then SmtNeg(w, a) else a
  }

  /** The result of every binary bit-vector operator, total as in SMT-LIB. */
  function SmtBin(op: BinOp, w: nat, a: nat, b: nat): (r: nat)
    requires w > 0 && a < Pow2(w) && b < Pow2(w)
    ensures r < Pow2(w)
  {
    match op
    case Add => Wrap(w, a + b)
    case Sub => Wrap(w, a + SmtNeg(w, b))
    case Mul => Wrap(w, a * b)
    case UDiv => Wrap(w, SmtUDiv(w, a, b))
    case URem => Wrap(w, SmtURem(a, b))
    case SDiv =>
      var q := Wrap(w, SmtUDiv(w, Magnitude(w, a), Magnitude(w, b)));
      if Negative(w, a) == Negative(w, b) then q else SmtNeg(w, q)
    case SRem =>
      var r := Wrap(w, SmtURem(Magnitude(w, a), Magnitude(w, b)));
      if Negative(w, a) then SmtNeg(w, r) else r
    case Shl => Wrap(w, a * Pow2(b))
    case LShr => Wrap(w, a / Pow2(b))
    case AShr =>
      if Negative(w, a)
      then Wrap(w, Pow2(w) - 1 - SmtNot(w, a) / Pow2(b))
      else Wrap(w, a / Pow2(b))
    case And => Bitwise(op, w, a, b)
    case Or => Bitwise(op, w, a, b)
    case Xor => Bitwise(op, w, a, b)
  }

  predicate SmtCmp(p: Pred, w: nat, a: nat, b: nat)
    requires w > 0
  {
    match p
    case Eq => a == b
    case Ne => a != b
    case Ult => a < b
    case Ule => a <= b
    case Ugt => b < a
    case Uge => b <= a
    case Slt => SmtSlt(w, a, b)
    case Sle => SmtSlt(w, a, b) || a == b
    case Sgt => SmtSlt(w, b, a)
    case Sge => SmtSlt(w, b, a) || a == b
  }

  predicate SmtSlt(w: nat, a: nat, b: nat)
    requires w > 0
  {
    || (Negative(w, a) && !Negative(w, b))
    || (Negative(w, a) == Negative(w, b) && a < b)
  }

  /** Repeats the sign bit `extra` times in front of the word. */
  function SmtSignExtend(w: nat, extra: nat, a: nat): nat
    requires w > 0
  {
    if Negative(w, a) then (Pow2(extra) - 1) * Pow2(w) + a else a
  }

  function SmtExtract(hi: nat, lo: nat, a: nat): (r: nat)
    requires lo <= hi
    ensures r < Pow2(hi - lo + 1)
  {
    a / Pow2(lo) % Pow2(hi - lo + 1)
  }

  function SmtConcat(wb: nat, a: nat, b: nat): nat {
    a * Pow2(wb) + b
  }

  // ----- The LLVM side -----

  /** Division of signed integers, rounding toward zero. */
  function TruncDiv(x: int, y: int): int
    requires y != 0
  {
    var m := Abs(x) / Abs(y);
    if (x < 0) == (y < 0) then m else -m
  }

  /** The remainder of that division, which has the sign of the dividend. */
  function TruncRem(x: int, y: int): int
    requires y != 0
  {
    var m := Abs(x) % Abs(y);
    if x < 0 then 0 - m else m
  }

  function Abs(x: int): nat {
    if x < 0 then -x else x
  }

  /** An LLVM integer instruction; `None` where it traps or yields poison. */
  function LlvmBin(op: BinOp, w: nat, a: nat, b: nat): (r: Option<nat>)
    requires w > 0 && a < Pow2(w) && b < Pow2(w)
    ensures r.Some? ==> r.value < Pow2(w)
  {
    match op
    case Add => Some(Wrap(w, a + b))
    case Sub => Some(Wrap(w, a - b))
    case Mul => Some(Wrap(w, a * b))
    case UDiv => if b == 0 then None else Some(Wrap(w, a / b))
    case URem => if b == 0 then None else Some(Wrap(w, a % b))
    case SDiv =>
      if b == 0 || TruncDiv(Signed(w, a), Signed(w, b)) >= Pow2(w - 1) then None
      else Some(Wrap(w, TruncDiv(Signed(w, a), Signed(w, b))))
    case SRem =>
      if b == 0 || TruncDiv(Signed(w, a), Signed(w, b)) >= Pow2(w - 1) then None
      else Some(Wrap(w, TruncRem(Signed(w, a), Signed(w, b))))
    case Shl => if b >= w then None else Some(Wrap(w, a * Pow2(b)))
    case LShr => if b >= w then None else Some(Wrap(w, a / Pow2(b)))
    case AShr => if b >= w then None else Some(Wrap(w, Signed(w, a) / Pow2(b)))
    case And => Some(Bitwise(op, w, a, b))
    case Or => Some(Bitwise(op, w, a, b))
    case Xor => Some(Bitwise(op, w, a, b))
  }

  predicate LlvmCmp(p: Pred, w: nat, a: nat, b: nat)
    requires w > 0
  {
    match p
    case Eq => a == b
    case Ne => a != b
    case Ult => a < b
    case Ule => a <= b
    case Ugt => a > b
    case Uge => a >= b
    case Slt => Signed(w, a) < Signed(w, b)
    case Sle => Signed(w, a) <= Signed(w, b)
    case Sgt => Signed(w, a) > Signed(w, b)
    case Sge => Signed(w, a) >= Signed(w, b)
  }

  // ----- Agreement -----

  lemma SignedRange(w: nat, a: nat)
    requires w > 0 && a < Pow2(w)
    ensures Pow2(w) == 2 * Pow2(w - 1)
    ensures 0 - Pow2(w - 1) <= Signed(w, a) < Pow2(w - 1)
    ensures Signed(w, a) < 0 <==> Negative(w, a)
    ensures Magnitude(w, a) == Abs(Signed(w, a))
    ensures Signed(w, a) == 0 <==> a == 0
  {
  }

  /** Where LLVM defines a binary operator, the solver's operator computes the same word. */
  lemma BinAgrees(op: BinOp, w: nat, a: nat, b: nat)
    requires w > 0 && a < Pow2(w) && b < Pow2(w)
    requires LlvmBin(op, w, a, b).Some?
    ensures SmtBin(op, w, a, b) == LlvmBin(op, w, a, b).value
  {
    match op
    case Sub => SubAgrees(w, a, b);
    case SDiv => SDivAgrees(w, a, b);
    case SRem => SRemAgrees(w, a, b);
    case AShr => AShrAgrees(w, a, b);
    case _ =>
  }

  lemma SubAgrees(w: nat, a: nat, b: nat)
    requires a < Pow2(w) && b < Pow2(w)
    ensures Wrap(w, a + SmtNeg(w, b)) == Wrap(w, a - b)
  {
    if a >= b {
      WrapIs(w, a - b, 0);
      WrapIs(w, a + SmtNeg(w, b), if b == 0 then 0 else -1);
    } else {
      WrapIs(w, a - b, 1);
      WrapIs(w, a + SmtNeg(w, b), 0);
    }
  }

  /** The two's complement encoding of a signed number in range. */
  lemma WrapSigned(w: nat, m: nat, negative: bool)
    requires w > 0 && m <= Pow2(w - 1) && (m == Pow2(w - 1) ==> negative)
    ensures m < Pow2(w)
    ensures Wrap(w, if negative then 0 - m else m) == if negative then SmtNeg(w, m) else m
  {
    assert Pow2(w) == 2 * Pow2(w - 1);
    if negative && m > 0 {
      WrapIs(w, 0 - m, 1);
    } else {
      WrapIs(w, m, 0);
    }
  }

  lemma QuotientBelow(x: nat, y: nat)
    requires y > 0
    ensures x / y <= x
    ensures x % y <= x
  {
    MulAtLeast(x / y, y);
    assert x == x / y * y + x % y;
  }

  lemma MulNegated(x: int, y: int)
    ensures (0 - x) * y == 0 - x * y
    ensures x * (0 - y) == 0 - x * y
  {
  }

  lemma TruncDivIs(x: int, y: int)
    requires y != 0
    ensures TruncDiv(x, y) == if (x < 0) != (y < 0) then 0 - Abs(x) / Abs(y) else Abs(x) / Abs(y)
  {
  }

  lemma SDivAgrees(w: nat, a: nat, b: nat)
    requires w > 0 && a < Pow2(w) && 0 < b < Pow2(w)
    requires TruncDiv(Signed(w, a), Signed(w, b)) < Pow2(w - 1)
    ensures SmtBin(SDiv, w, a, b) == Wrap(w, TruncDiv(Signed(w, a), Signed(w, b)))
  {
    SignedRange(w, a);
    SignedRange(w, b);
    TruncDivIs(Signed(w, a), Signed(w, b));
    SDivMagnitudes(w, Magnitude(w, a), Magnitude(w, b), Negative(w, a), Negative(w, b));
  }

  lemma SDivMagnitudes(w: nat, m: nat, n: nat, aNegative: bool, bNegative: bool)
    requires w > 0 && m <= Pow2(w - 1) && 0 < n
    requires aNegative != bNegative || m / n < Pow2(w - 1)
    ensures m / n < Pow2(w)
    ensures Wrap(w, m / n) == m / n
    ensures Wrap(w, if aNegative != bNegative then 0 - m / n else m / n)
         == if aNegative == bNegative then m / n else SmtNeg(w, m / n)
  {
    var q := m / n;
    QuotientBelow(m, n);
    WrapSigned(w, q, aNegative != bNegative);
    WrapIs(w, q, 0);
  }

  lemma SRemAgrees(w: nat, a: nat, b: nat)
    requires w > 0 && a < Pow2(w) && 0 < b < Pow2(w)
    ensures SmtBin(SRem, w, a, b) == Wrap(w, TruncRem(Signed(w, a), Signed(w, b)))
  {
    SignedRange(w, a);
    SignedRange(w, b);
    SRemMagnitudes(w, Magnitude(w, a), Magnitude(w, b), Negative(w, a));
  }

  lemma SRemMagnitudes(w: nat, m: nat, n: nat, negative: bool)
    requires w > 0 && m <= Pow2(w - 1) && 0 < n <= Pow2(w - 1)
    ensures m % n < Pow2(w)
    ensures Wrap(w, m % n) == m % n
    ensures Wrap(w, if negative then 0 - m % n else m % n) == if negative then SmtNeg(w, m % n) else m % n
  {
    var r := m % n;
    WrapSigned(w, r, negative);
    WrapIs(w, r, 0);
  }

  lemma AShrAgrees(w: nat, a: nat, b: nat)
    requires w > 0 && a < Pow2(w) && b < Pow2(w)
    ensures SmtBin(AShr, w, a, b) == Wrap(w, Signed(w, a) / Pow2(b))
  {
    SignedRange(w, a);
    if Negative(w, a) {
      FloorOfNegative(w, SmtNot(w, a), Pow2(b));
      assert Signed(w, a) == 0 - SmtNot(w, a) - 1;
    }
  }

  lemma FloorOfNegative(w: nat, c: nat, d: nat)
    requires w > 0 && c < Pow2(w) && d > 0
    ensures Wrap(w, (0 - c - 1) / d) == Wrap(w, Pow2(w) - 1 - c / d)
  {
    var q, r := c / d, c % d;
    QuotientBelow(c, d);
    assert c == q * d + r;
    MulNegated(q, d);
    assert (0 - q - 1) * d == 0 - q * d - d;
    DivModUnique(0 - c - 1, d, 0 - q - 1, d - 1 - r);
    WrapIs(w, 0 - q - 1, 1);
    WrapIs(w, Pow2(w) - 1 - q, 0);
  }

  lemma CmpAgrees(p: Pred, w: nat, a: nat, b: nat)
    requires w > 0 && a < Pow2(w) && b < Pow2(w)
    ensures SmtCmp(p, w, a, b) == LlvmCmp(p, w, a, b)
  {
    SignedRange(w, a);
    SignedRange(w, b);
  }

  lemma MulPredecessor(p: int, q: int)
    ensures (p - 1) * q == p * q - q
  {
  }

  /** Repeating the sign bit preserves the signed reading. */
  lemma SignExtendAgrees(w: nat, extra: nat, a: nat)
    requires w > 0 && a < Pow2(w)
    ensures 0 <= SmtSignExtend(w, extra, a) < Pow2(w + extra)
    ensures SmtSignExtend(w, extra, a) == Wrap(w + extra, Signed(w, a))
  {
    Pow2Monotone(w, w + extra);
    if Negative(w, a) {
      Pow2Add(extra, w);
      MulPredecessor(Pow2(extra), Pow2(w));
      WrapIs(w + extra, a - Pow2(w), 1);
    } else {
      WrapIs(w + extra, a, 0);
    }
  }

  lemma ZeroExtendRange(w: nat, extra: nat, a: nat)
    requires a < Pow2(w)
    ensures a < Pow2(w + extra)
  {
    Pow2Monotone(w, w + extra);
  }

  lemma ConcatRange(wa: nat, wb: nat, a: nat, b: nat)
    requires a < Pow2(wa) && b < Pow2(wb)
    ensures SmtConcat(wb, a, b) < Pow2(wa + wb)
  {
    Pow2Add(wa, wb);
    JoinDigits(a, b, Pow2(wa), Pow2(wb));
  }

  /** Gluing two adjacent slices of a word gives the slice that spans both. */
  lemma ConcatOfExtracts(hi: nat, mid: nat, lo: nat, a: nat)
    requires lo < mid <= hi
    ensures SmtConcat(mid - lo, SmtExtract(hi, mid, a), SmtExtract(mid - 1, lo, a)) == SmtExtract(hi, lo, a)
  {
    var x := a / Pow2(lo);
    Pow2Add(hi - mid + 1, mid - lo);
    Pow2Add(mid - lo, lo);
    SplitDigits(x, Pow2(hi - mid + 1), Pow2(mid - lo));
    SplitDigits(a, Pow2(mid - lo), Pow2(lo));
  }

  /** Dropping low digits commutes with keeping low digits. */
  lemma DivOfMod(x: nat, a: nat, b: nat)
    requires a > 0 && b > 0
    ensures a * b > 0
    ensures x % (a * b) / b == x / b % a
  {
    SplitDigits(x, a, b);
    JoinDigits(x / b % a, x % b, a, b);
  }

  lemma ModOfMod(x: nat, a: nat, b: nat)
    requires a > 0 && b > 0
    ensures a * b > 0
    ensures x % (a * b) % b == x % b
  {
    SplitDigits(x, a, b);
    JoinDigits(x / b % a, x % b, a, b);
  }

  /** A slice of a slice is a slice of the whole. */
  lemma ExtractOfExtract(hi: nat, lo: nat, i: nat, j: nat, a: nat)
    requires j <= i && lo + i <= hi
    ensures SmtExtract(i, j, SmtExtract(hi, lo, a)) == SmtExtract(lo + i, lo + j, a)
  {
    var x, w, n := a / Pow2(lo), hi - lo + 1, i - j + 1;
    Pow2Add(w - j, j);
    DivOfMod(x, Pow2(w - j), Pow2(j));
    Pow2Add(w - j - n, n);
    ModOfMod(x / Pow2(j), Pow2(w - j - n), Pow2(n));
    Pow2Add(j, lo);
    SplitDigits(a, Pow2(j), Pow2(lo));
  }

  /** The slice that covers the whole word is the word. */
  lemma ExtractAll(w: nat, a: nat)
    requires w > 0 && a < Pow2(w)
    ensures SmtExtract(w - 1, 0, a) == a
  {
    ModSmall(a, Pow2(w));
  }
}
