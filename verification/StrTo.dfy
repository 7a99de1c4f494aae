/** strtol and strtoul of the bundled C library model, on machine words of `w` bits. */
module StrTo {
  import opened BitVectors
  import opened Expressions

  /** Memory that holds a string, up to a terminating null byte. */
  type CString = s: seq<Byte> | |s| > 0 && s[|s| - 1] == 0 witness [0]

  datatype Errno = NoError | ERANGE | EINVAL

  /** What a conversion returns, where it sets `endptr`, and what it stores in `errno`. */
  datatype Conversion = Conversion(value: int, end: nat, errno: Errno)

  const MINUS: Byte := 45
  const PLUS: Byte := 43
  const ZERO: Byte := 48

  predicate IsSpace(c: Byte) {
    9 <= c <= 13 || c == 32
  }

  predicate IsX(c: Byte) {
    c == 120 || c == 88
  }

  /** The value of a character as a digit in base 36. */
  function DigitValue(c: Byte): (d: Option<nat>)
    ensures d.Some? ==> d.value < 36
  {
    if 48 <= c <= 57 then Some(c - 48)
    else if 65 <= c <= 90 then Some(c - 55)
    else if 97 <= c <= 122 then Some(c - 87)
    else None
  }

  predicate IsDigit(c: Byte, base: int) {
    DigitValue(c).Some? && DigitValue(c).value < base
  }

  predicate ValidBase(base: int) {
    base == 0 || 2 <= base <= 36
  }

  // ----- Specification -----

  function SpacesEnd(str: CString, i: nat): (j: nat)
    requires i < |str|
    ensures i <= j < |str| && !IsSpace(str[j])
    ensures forall k | i <= k < j :: IsSpace(str[k])
    decreases |str| - i
  {
    if IsSpace(str[i]) then SpacesEnd(str, i + 1) else i
  }

  /** The end of the longest run of digits. */
  function RunEnd(str: CString, i: nat, base: int): (j: nat)
    requires i < |str|
    ensures i <= j < |str| && !IsDigit(str[j], base)
    ensures forall k | i <= k < j :: IsDigit(str[k], base)
    decreases |str| - i
  {
    if IsDigit(str[i], base) then RunEnd(str, i + 1, base) else i
  }

  /** A number with one more digit. */
  function Appended(n: nat, base: nat, d: nat): nat {
    n * base + d
  }

  /** The number that the digits from `i` up to `j` stand for. */
  function RunValue(str: CString, i: nat, j: nat, base: nat): nat
    requires i <= j <= |str|
    requires forall k | i <= k < j :: IsDigit(str[k], base)
  {
    if i == j then 0 else
    assert IsDigit(str[j - 1], base);
    Appended(RunValue(str, i, j - 1, base), base, DigitValue(str[j - 1]).value)
  }

  datatype Prefix = Prefix(neg: bool, base: int, start: nat)

  predicate HasSign(c: Byte) {
    c == MINUS || c == PLUS
  }

  /** Where the number starts, after white space and a sign. */
  function NumberStart(str: CString): (j: nat)
    ensures j < |str|
  {
    var i := SpacesEnd(str, 0);
    if HasSign(str[i]) then i + 1 else i
  }

  predicate HexPrefix(str: CString, base: int) {
    var j := NumberStart(str);
    (base == 0 || base == 16) && str[j] == ZERO && IsX(str[j + 1])
  }

  /** "0x" without a hexadecimal digit after it. */
  predicate DanglingHexPrefix(str: CString, base: int) {
    HexPrefix(str, base) && !IsDigit(str[NumberStart(str) + 2], 16)
  }

  function PrefixWith(str: CString, base: int, hex: bool): (p: Prefix)
    requires hex ==> HexPrefix(str, base)
    ensures p.start < |str|
  {
    var j := NumberStart(str);
    Prefix(str[SpacesEnd(str, 0)] == MINUS,
           if hex then 16 else if base == 0 then (if str[j] == ZERO then 8 else 10) else base,
           if hex then j + 2 else j)
  }

  /** The result for a run of digits, given what to return when it is in range and when it is not. */
  function Converted(str: CString, p: Prefix, limit: nat, inRange: int -> int, outOfRange: int): Conversion
    requires p.start < |str| && 2 <= p.base <= 36
  {
    var end := RunEnd(str, p.start, p.base);
    var v := RunValue(str, p.start, end, p.base);
    if end == p.start then Conversion(0, 0, EINVAL)
    else if v > limit then Conversion(outOfRange, end, ERANGE)
    else Conversion(inRange(v), end, NoError)
  }

  /** The largest magnitude of a long of this sign. */
  function LongLimit(w: nat, neg: bool): nat
    requires w > 0
  {
    if neg then Pow2(w - 1) else Pow2(w - 1) - 1
  }

  function LongResult(w: nat, str: CString, p: Prefix): Conversion
    requires w > 0 && p.start < |str| && 2 <= p.base <= 36
  {
    var limit := LongLimit(w, p.neg);
    Converted(str, p, limit, (v: int) => if p.neg then 0 - v else v, if p.neg then 0 - limit else limit)
  }

  function UnsignedResult(w: nat, str: CString, p: Prefix): Conversion
    requires w > 0 && p.start < |str| && 2 <= p.base <= 36
  {
    Converted(str, p, Pow2(w) - 1, (v: int) => if p.neg then Negated(w, v) else v, Pow2(w) - 1)
  }

  /** Unary minus on an unsigned word. */
  function Negated(w: nat, acc: int): nat {
    Wrap(w, 0 - acc)
  }

  // ----- The loops -----

  /** The part before the digits; `c` is the character before `s`. */
  method ReadPrefix(str: CString, base: int) returns (s: nat, c: Byte, neg: bool, realBase: int)
    ensures 0 < s <= |str| && c == str[s - 1]
    ensures Prefix(neg, realBase, s - 1) == PrefixWith(str, base, HexPrefix(str, base))
  {
    s := 0;
    c := str[s];
    s := s + 1;
    while IsSpace(c)
      invariant 0 < s <= |str| && c == str[s - 1]
      invariant SpacesEnd(str, 0) == SpacesEnd(str, s - 1)
      decreases |str| - s
    {
      c := str[s];
      s := s + 1;
    }
    if c == MINUS {
      neg := true;
      c := str[s];
      s := s + 1;
    } else {
      neg := false;
      if c == PLUS {
        c := str[s];
        s := s + 1;
      }
    }
    assert s - 1 == NumberStart(str);
    realBase := base;
    if (base == 0 || base == 16) && c == ZERO && IsX(str[s]) {
      c := str[s + 1];
      s := s + 2;
      realBase := 16;
    }
    if realBase == 0 {
      realBase := if c == ZERO then 8 else 10;
    }
  }

  /** The comparison with cutoff and cutlim tells exactly when the next number is over the limit. */
  lemma CutoffIsExact(limit: nat, base: nat, acc: nat, c: nat)
    requires c < base
    ensures acc * base + c > limit <==> acc > limit / base || (acc == limit / base && c > limit % base)
  {
    var q, r := limit / base, limit % base;
    assert limit == q * base + r;
    if acc > q {
      MulMono(q + 1, acc, base);
    } else if acc < q {
      MulMono(acc + 1, q, base);
    }
  }

  lemma MulMono(a: nat, b: nat, m: nat)
    requires a <= b
    ensures a * m <= b * m
    ensures (a + 1) * m == a * m + m
  {
  }

  lemma ValueGrows(v: nat, base: nat, d: nat)
    requires base >= 1
    ensures v * base + d >= v
  {
    MulMono(1, base, v);
  }

  /** The loop over the digits.  `any` is negative after an overflow; the accumulator never wraps. */
  method ReadDigits(w: nat, str: CString, s0: nat, c0: Byte, base: int, limit: nat) returns (acc: nat, any: int, s: nat)
    requires w > 0 && limit < Pow2(w) && 2 <= base <= 36
    requires 0 < s0 <= |str| && c0 == str[s0 - 1]
    ensures s == RunEnd(str, s0 - 1, base) + 1
    ensures any == 0 <==> s == s0
    ensures any < 0 <==> RunValue(str, s0 - 1, s - 1, base) > limit
    ensures any >= 0 ==> acc == RunValue(str, s0 - 1, s - 1, base)
  {
    var cutlim := limit % base;
    var cutoff := limit / base;
    var c := c0;
    acc, any, s := 0, 0, s0;
    while true
      invariant s0 <= s <= |str| && c == str[s - 1]
      invariant RunEnd(str, s0 - 1, base) == RunEnd(str, s - 1, base)
      invariant forall k | s0 - 1 <= k < s - 1 :: IsDigit(str[k], base)
      invariant any == 0 <==> s == s0
      invariant any < 0 <==> RunValue(str, s0 - 1, s - 1, base) > limit
      invariant any >= 0 ==> acc == RunValue(str, s0 - 1, s - 1, base)
      decreases |str| - s
    {
      var digit := DigitValue(c);
      if digit == None {
        break;
      }
      if digit.value >= base {
        break;
      }
      ghost var v := RunValue(str, s0 - 1, s - 1, base);
      CutoffIsExact(limit, base, v, digit.value);
      ValueGrows(v, base, digit.value);
      if any < 0 || acc > cutoff || (acc == cutoff && digit.value > cutlim) {
        any := -1;
      } else {
        any := 1;
        // Neither step wraps around.
        assert acc * base + digit.value < Pow2(w);
        NoWrap(w, acc, base, digit.value);
        acc := Wrap(w, acc * base);
        acc := Wrap(w, acc + digit.value);
      }
      c := str[s];
      s := s + 1;
      assert RunValue(str, s0 - 1, s - 1, base) == v * base + digit.value;
    }
  }

  lemma NoWrap(w: nat, acc: nat, base: nat, d: nat)
    requires acc * base + d < Pow2(w)
    ensures Wrap(w, Wrap(w, acc * base) + d) == acc * base + d
  {
    WrapSmall(w, acc * base);
    WrapSmall(w, acc * base + d);
  }

  lemma WrapSmall(w: nat, x: nat)
    requires x < Pow2(w)
    ensures Wrap(w, x) == x
  {
    ModSmall(x, Pow2(w));
  }

  /** A negated magnitude in range is the two's complement of the number. */
  lemma NegatedLong(w: nat, acc: nat)
    requires w > 0 && acc <= Pow2(w - 1)
    ensures Signed(w, Negated(w, acc)) == 0 - acc
  {
    hide Pow2;
    var m := Pow2(w);
    assert m == 2 * Pow2(w - 1) by { HalfOfPow2(w); }
    if acc == 0 {
      ModSmall(0, m);
    } else {
      WrapNegative(w, acc);
    }
  }

  lemma HalfOfPow2(w: nat)
    requires w > 0
    ensures Pow2(w) == 2 * Pow2(w - 1) && Pow2(w - 1) > 0
  {
  }

  lemma WrapNegative(w: nat, acc: nat)
    requires 0 < acc <= Pow2(w)
    ensures acc < Pow2(w) ==> Negated(w, acc) == Pow2(w) - acc
  {
    var m := Pow2(w);
    if acc < m {
      DivModUnique(0 - acc, m, -1, m - acc);
    }
  }

  /** strtol: white space, sign and prefix are skipped, the longest run of digits is converted, and
      the result is exact, or the nearest long with a range error. */
  method Strtol(w: nat, str: CString, base: int) returns (result: Conversion)
    requires w > 0
    ensures ValidBase(base) ==> result == LongResult(w, str, PrefixWith(str, base, HexPrefix(str, base)))
    ensures !ValidBase(base) ==> result == Conversion(0, 0, EINVAL)
  {
    hide Pow2, Signed, Negated, RunEnd, RunValue, PrefixWith;
    var s0, c, neg, realBase := ReadPrefix(str, base);
    PrefixBase(str, base, HexPrefix(str, base));
    if realBase < 2 || realBase > 36 {
      return Conversion(0, 0, EINVAL);
    }
    HalfOfPow2(w);
    var limit := LongLimit(w, neg);
    var acc, any, s := ReadDigits(w, str, s0, c, realBase, limit);
    if any < 0 {
      return Conversion(if neg then 0 - Pow2(w - 1) else Pow2(w - 1) - 1, s - 1, ERANGE);
    } else if any == 0 {
      return Conversion(0, 0, EINVAL);
    }
    if neg {
      NegatedLong(w, acc);
      acc := Negated(w, acc);
    } else {
      PositiveLong(w, acc);
    }
    result := Conversion(Signed(w, acc), s - 1, NoError);
  }

  lemma PositiveLong(w: nat, acc: nat)
    requires w > 0 && acc < Pow2(w - 1)
    ensures acc < Pow2(w) && Signed(w, acc) == acc
  {
    HalfOfPow2(w);
  }

  /** strtoul: like strtol, but a minus sign negates modulo the word size. */
  method Strtoul(w: nat, str: CString, base: int) returns (result: Conversion)
    requires w > 0
    ensures ValidBase(base) ==> result == UnsignedResult(w, str, PrefixWith(str, base, HexPrefix(str, base)))
    ensures !ValidBase(base) ==> result == Conversion(0, 0, EINVAL)
  {
    hide Pow2, Negated, RunEnd, RunValue, PrefixWith;
    var s0, c, neg, realBase := ReadPrefix(str, base);
    PrefixBase(str, base, HexPrefix(str, base));
    if realBase < 2 || realBase > 36 {
      return Conversion(0, 0, EINVAL);
    }
    HalfOfPow2(w);
    var limit := Pow2(w) - 1;
    var acc, any, s := ReadDigits(w, str, s0, c, realBase, limit);
    if any < 0 {
      return Conversion(Pow2(w) - 1, s - 1, ERANGE);
    } else if any == 0 {
      return Conversion(0, 0, EINVAL);
    }
    if neg {
      acc := Negated(w, acc);
    }
    result := Conversion(acc, s - 1, NoError);
  }

  // ----- Section 7.22.1.4 of ISO/IEC 9899:2011 -----

  /** In the standard's subject sequence, "0x" is part of the number only before a hexadecimal digit. */
  function IsoPrefix(str: CString, base: int): (p: Prefix)
    ensures p.start < |str|
  {
    PrefixWith(str, base, HexPrefix(str, base) && !DanglingHexPrefix(str, base))
  }

  /** What the standard prescribes: the value, the end pointer, and whether there is a range error. */
  predicate Conforms(actual: Conversion, iso: Conversion) {
    actual.value == iso.value && actual.end == iso.end && (actual.errno == ERANGE <==> iso.errno == ERANGE)
  }

  lemma PrefixBase(str: CString, base: int, hex: bool)
    requires hex ==> HexPrefix(str, base)
    ensures ValidBase(base) <==> 2 <= PrefixWith(str, base, hex).base <= 36
  {
  }

  /** In the exceptional case, the standard sees the number zero before the "x", and the code sees no
      number. */
  lemma DanglingRuns(str: CString, base: int)
    requires ValidBase(base) && DanglingHexPrefix(str, base)
    ensures var p, iso := PrefixWith(str, base, true), IsoPrefix(str, base);
      && RunEnd(str, p.start, p.base) == p.start
      && iso.start == NumberStart(str) && RunEnd(str, iso.start, iso.base) == iso.start + 1
      && RunValue(str, iso.start, iso.start + 1, iso.base) == 0
  {
    var iso := IsoPrefix(str, base);
    assert IsDigit(str[iso.start], iso.base) && DigitValue(str[iso.start]) == Some(0);
    assert !IsDigit(str[iso.start + 1], iso.base);
    assert RunEnd(str, iso.start + 1, iso.base) == iso.start + 1;
    assert RunValue(str, iso.start, iso.start, iso.base) == 0;
  }

  /** strtol conforms to the standard if and only if there is no dangling "0x". */
  lemma StrtolConformsIff(w: nat, str: CString, base: int)
    requires w > 0 && ValidBase(base)
    ensures var p := PrefixWith(str, base, HexPrefix(str, base));
      2 <= p.base <= 36 && 2 <= IsoPrefix(str, base).base <= 36
      && (Conforms(LongResult(w, str, p), LongResult(w, str, IsoPrefix(str, base))) <==> !DanglingHexPrefix(str, base))
  {
    PrefixBase(str, base, HexPrefix(str, base));
    PrefixBase(str, base, HexPrefix(str, base) && !DanglingHexPrefix(str, base));
    if DanglingHexPrefix(str, base) {
      DanglingRuns(str, base);
    }
  }

  /** So does strtoul. */
  lemma StrtoulConformsIff(w: nat, str: CString, base: int)
    requires w > 0 && ValidBase(base)
    ensures var p := PrefixWith(str, base, HexPrefix(str, base));
      2 <= p.base <= 36 && 2 <= IsoPrefix(str, base).base <= 36
      && (Conforms(UnsignedResult(w, str, p), UnsignedResult(w, str, IsoPrefix(str, base)))
          <==> !DanglingHexPrefix(str, base))
  {
    PrefixBase(str, base, HexPrefix(str, base));
    PrefixBase(str, base, HexPrefix(str, base) && !DanglingHexPrefix(str, base));
    if DanglingHexPrefix(str, base) {
      DanglingRuns(str, base);
    }
  }

  /** What the two results are then. */
  lemma DanglingResults(w: nat, str: CString, base: int)
    requires w > 0 && ValidBase(base) && DanglingHexPrefix(str, base)
    ensures 2 <= IsoPrefix(str, base).base <= 36
    ensures LongResult(w, str, PrefixWith(str, base, true)) == Conversion(0, 0, EINVAL)
    ensures LongResult(w, str, IsoPrefix(str, base)) == Conversion(0, NumberStart(str) + 1, NoError)
  {
    DanglingRuns(str, base);
    PrefixBase(str, base, false);
    HalfOfPow2(w);
  }

  /** "0xg" in base 16: the standard reads the number zero and stops at the "x", the code reports that
      there is no number. */
  lemma DanglingExample(w: nat)
    requires w > 0
    ensures var str: CString := [48, 120, 103, 0];
      && DanglingHexPrefix(str, 16)
      && LongResult(w, str, PrefixWith(str, 16, true)) == Conversion(0, 0, EINVAL)
      && LongResult(w, str, IsoPrefix(str, 16)) == Conversion(0, 1, NoError)
  {
    hide LongResult, PrefixWith, IsoPrefix;
    var str: CString := [48, 120, 103, 0];
    assert SpacesEnd(str, 0) == 0;
    assert NumberStart(str) == 0;
    DanglingResults(w, str, 16);
  }
}
