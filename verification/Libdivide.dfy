/**
Division by an invariant integer. `UnsignedGen` and `SignedGen` turn a divisor into a magic
number and a packed byte; `UnsignedDo` and `SignedDo` then divide by a high multiplication
and shifts. The source has one copy per word size; here `w` is 32 or 64.
*/
module Libdivide {
  import opened Bits
  import opened Magic
  import opened WideArithmetic

  const ADD_MARKER: nat := 0x40
  const UNSIGNED_SHIFT_PATH: nat := 0x80
  const S32_SHIFT_PATH: nat := 0x20
  const NEGATIVE_DIVISOR: nat := 0x80

  datatype Denom = Denom(magic: int, more: nat)

  predicate IsWidth(w: nat) {
    w == 32 || w == 64
  }

  function ShiftMask(w: nat): nat
    requires IsWidth(w)
  {
    if w == 32 then 0x1F else 0x3F
  }

  // ---- The packed byte ---------------------------------------------------------------

  lemma ShiftField(w: nat, more: nat)
    requires IsWidth(w)
    ensures And(more, ShiftMask(w)) == if w == 32 then more % 32 else more % 64
  {
    Pow2Values();
    if w == 32 {
      AndLow(more, 5);
      CutIsDivMod(more, 5);
    } else {
      AndLow(more, 6);
      CutIsDivMod(more, 6);
    }
  }

  lemma Flags(more: nat)
    ensures And(more, 0x20) != 0 <==> more / 0x20 % 2 == 1
    ensures And(more, 0x40) != 0 <==> more / 0x40 % 2 == 1
    ensures And(more, 0x80) != 0 <==> more / 0x80 % 2 == 1
  {
    Pow2Values();
    AndBit(more, 5);
    AndBit(more, 6);
    AndBit(more, 7);
    CutIsDivMod(more, 5);
    CutIsDivMod(more, 6);
    CutIsDivMod(more, 7);
  }

  lemma Packed(shift: nat)
    requires shift < 64
    ensures Or(shift, 0x40) == shift + 0x40 && Or(shift, 0x80) == shift + 0x80
    ensures Or(shift + 0x40, 0x80) == shift + 0xC0
  {
    Pow2Values();
    OrDisjoint(1, shift, 6);
    OrDisjoint(1, shift, 7);
    OrDisjoint(1, shift + 0x40, 7);
  }

  // ---- Unsigned ----------------------------------------------------------------------

  /** The high word of a product: the double-width multiplication of the source where the
      compiler has one. Its portable forms, `MulHiUnsigned64` and `MulHiSigned64`, equal it. */
  function MulHi(w: nat, x: int, y: int): int {
    x * y / Pow2(w)
  }

  function UnsignedDo(w: nat, numer: nat, denom: Denom): (r: int)
    requires IsWidth(w)
  {
    if And(denom.more, UNSIGNED_SHIFT_PATH) != 0 then numer / Pow2(And(denom.more, ShiftMask(w)))
    else UnsignedFinish(w, numer, MulHi(w, denom.magic, numer), denom.more)
  }

  function UnsignedFinish(w: nat, numer: nat, q: int, more: nat): (r: int)
    requires IsWidth(w)
  {
    if And(more, ADD_MARKER) != 0 then
      var t := Unsigned(w, Unsigned(w, numer - q) / 2 + q);
      t / Pow2(And(more, ShiftMask(w)))
    else q / Pow2(more)
  }

  lemma UnsignedShiftPath(w: nat, n: nat, magic: int, shift: nat)
    requires IsWidth(w) && shift < w
    ensures UnsignedDo(w, n, Denom(magic, shift + 0x80)) == n / Pow2(shift)
  {
    hide Bitwise, Pow2, MulHi, UnsignedFinish;
    Flags(shift + 0x80);
    ShiftField(w, shift + 0x80);
  }

  lemma UnsignedOneWordPath(w: nat, n: nat, magic: int, shift: nat)
    requires IsWidth(w) && shift < w
    ensures UnsignedDo(w, n, Denom(magic, shift)) == MulHi(w, magic, n) / Pow2(shift)
  {
    hide Bitwise, Pow2, MulHi;
    Flags(shift);
  }

  lemma AddIsNotShift(shift: nat)
    requires shift < 64
    ensures And(shift + 0x40, UNSIGNED_SHIFT_PATH) == 0
  {
    hide Bitwise;
    Flags(shift + 0x40);
  }

  lemma UnsignedAddPath(w: nat, n: nat, magic: int, shift: nat)
    requires IsWidth(w) && shift < w && IsUnsigned(w, n)
    requires 0 <= MulHi(w, magic, n) <= n
    ensures
      var q := MulHi(w, magic, n);
      UnsignedDo(w, n, Denom(magic, shift + 0x40)) == ((n - q) / 2 + q) / Pow2(shift)
  {
    hide Bitwise, Pow2, MulHi, UnsignedFinish;
    AddIsNotShift(shift);
    AddFinish(w, n, MulHi(w, magic, n), shift);
  }

  lemma AddFinish(w: nat, n: nat, q: nat, shift: nat)
    requires IsWidth(w) && shift < w && IsUnsigned(w, n) && q <= n
    ensures UnsignedFinish(w, n, q, shift + 0x40) == ((n - q) / 2 + q) / Pow2(shift)
  {
    hide Bitwise, Pow2;
    Flags(shift + 0x40);
    ShiftField(w, shift + 0x40);
    Wrapped(Pow2(w), n - q);
    Wrapped(Pow2(w), (n - q) / 2 + q);
  }

  lemma Wrapped(b: int, x: int)
    requires b > 0
    ensures 0 <= x < b ==> x % b == x
    ensures b <= x < 2 * b ==> x % b == x - b
  {
    if 0 <= x < b { ModUnique(x, b, 0, x); }
    if b <= x < 2 * b { ModUnique(x, b, 1, x - b); }
  }

  method CountTrailingZeros(w: nat, value: nat) returns (result: nat)
    requires IsWidth(w) && 0 < value < Pow2(w)
    ensures result == Trailing(value)
  {
    Pow2Values();
    if w == 32 {
      result := CountTrailingZeros32(value);
    } else {
      result := CountTrailingZeros64(value);
    }
  }

  /** Quotient and remainder of `u1 * 2^w` by `v`. */
  method DivideWide(w: nat, u1: nat, v: nat) returns (q: nat, r: nat)
    requires IsWidth(w) && u1 < v < Pow2(w)
    ensures u1 * Pow2(w) == q * v + r && r < v && q < Pow2(w)
  {
    Pow2Values();
    if w == 32 {
      q, r := Div64By32(u1, 0, v);
    } else {
      BitwiseZero(OR, u1);
      ghost var c;
      q, r, c := Div128By64(u1, 0, v);
    }
  }

  /** The position of the top bit of `d`. */
  method FloorLog2(w: nat, d: nat) returns (log: nat)
    requires w > 0 && 0 < d < Pow2(w)
    ensures log < w && Pow2(log) <= d < 2 * Pow2(log)
  {
    var zeros := CountLeadingZeros(w, d);
    log := w - 1 - zeros;
    hide Pow2;
    Pow2Doubles(w - 1);
    Pow2Add(log, zeros);
    BetweenDoubles(d, Pow2(log), Pow2(zeros));
  }

  lemma PowerOfTwoDivisor(d: nat, k: nat)
    requires d > 0 && And(d, d - 1) == 0 && k == Trailing(d)
    ensures d == Pow2(k)
  {
    PowerOfTwoTest(d);
    var j: nat :| Pow2(j) == d;
    TrailingOfPow2(j);
  }

  lemma NotPowerOfTwo(d: nat, log: nat)
    requires d > 0 && And(d, d - 1) != 0
    ensures Pow2(log) != d
  {
    PowerOfTwoTest(d);
  }

  /** `denom` divides every numerator of the word size by `d`. */
  ghost predicate DividesBy(w: nat, denom: Denom, d: nat) {
    && IsWidth(w) && d > 0 && IsUnsigned(w, denom.magic) && denom.more < 0x100
    && forall n: nat :: IsUnsigned(w, n) ==> UnsignedDo(w, n, denom) == n / d
  }

  method UnsignedGen(w: nat, d: nat) returns (denom: Denom)
    requires IsWidth(w) && 0 < d < Pow2(w)
    ensures DividesBy(w, denom, d)
  {
    hide Bitwise, UnsignedDo;
    if And(d, d - 1) == 0 {
      var shift := CountTrailingZeros(w, d);
      UnsignedShift(w, d, shift);
      denom := Denom(0, Or(shift, UNSIGNED_SHIFT_PATH));
    } else {
      var log := FloorLog2(w, d);
      var h := Pow2(log);
      NotPowerOfTwo(d, log);
      var m, rem := DivideWide(w, h, d);
      var e := d - rem;
      if e < h {
        UnsignedOneWord(w, d, log, m, rem);
        denom := Denom(Unsigned(w, 1 + m), log);
      } else {
        UnsignedAdd(w, d, log, m, rem);
        m := Unsigned(w, m + m);
        var twiceRem := Unsigned(w, rem + rem);
        if twiceRem >= d || twiceRem < rem {
          m := Unsigned(w, m + 1);
        }
        denom := Denom(Unsigned(w, 1 + m), Or(log, ADD_MARKER));
      }
    }
  }

  lemma UnsignedShift(w: nat, d: nat, shift: nat)
    requires IsWidth(w) && 0 < d < Pow2(w) && And(d, d - 1) == 0 && shift == Trailing(d)
    ensures DividesBy(w, Denom(0, Or(shift, UNSIGNED_SHIFT_PATH)), d)
  {
    PowerOfTwoDivisor(d, shift);
    if shift >= w { Pow2Mono(w, shift); }
    Packed(shift);
    forall n: nat | IsUnsigned(w, n)
      ensures UnsignedDo(w, n, Denom(0, shift + 0x80)) == n / d
    {
      UnsignedShiftPath(w, n, 0, shift);
    }
  }

  lemma UnsignedOneWord(w: nat, d: nat, log: nat, m: nat, rem: nat)
    requires IsWidth(w) && log < w && Pow2(log) < d < 2 * Pow2(log)
    requires Pow2(log) * Pow2(w) == m * d + rem && rem < d && d - rem < Pow2(log)
    ensures DividesBy(w, Denom(Unsigned(w, 1 + m), log), d)
  {
    hide DividesBy, Pow2;
    var b, h := Pow2(w), Pow2(log);
    Pow2Mono(log, w);
    RoundedBounds(b, h, d, m, rem);
    Wrapped(b, 1 + m);
    UnsignedOneWordAll(w, d, log, m + 1, d - rem);
  }

  lemma UnsignedOneWordAll(w: nat, d: nat, log: nat, m: nat, e: nat)
    requires IsWidth(w) && log < w && d > 0 && m < Pow2(w)
    requires m * d == Pow2(log) * Pow2(w) + e && e < Pow2(log)
    ensures DividesBy(w, Denom(m, log), d)
  {
    hide UnsignedDo, MulHi, Pow2;
    forall n: nat | IsUnsigned(w, n)
      ensures UnsignedDo(w, n, Denom(m, log)) == n / d
    {
      UnsignedOneWordPath(w, n, m, log);
      OneWordHigh(w, Pow2(log), d, m, e, n);
    }
  }

  lemma OneWordHigh(w: nat, h: int, d: int, m: int, e: int, n: int)
    requires d > 0 && m * d == h * Pow2(w) + e && 0 <= e < h && IsUnsigned(w, n)
    ensures MulHi(w, m, n) / h == n / d
  {
    hide Pow2;
    OneWord(Pow2(w), h, d, m, e, n);
  }

  /** What the doubling steps leave, with the overflow they expect. */
  function DoubledMagic(w: nat, m: nat, rem: nat, d: nat): nat {
    var doubled := Unsigned(w, m + m);
    var twiceRem := Unsigned(w, rem + rem);
    Unsigned(w, 1 + if twiceRem >= d || twiceRem < rem then Unsigned(w, doubled + 1) else doubled)
  }

  lemma DoubledMagicIs(w: nat, m: nat, rem: nat, d: nat, big: int)
    requires rem < d < Pow2(w) && Pow2(w) <= 2 * m && big < 2 * Pow2(w)
    requires big == 2 * m + (if 2 * rem >= d then 1 else 0) + 1
    ensures DoubledMagic(w, m, rem, d) == big - Pow2(w)
  {
    var b := Pow2(w);
    Wrapped(b, m + m);
    Wrapped(b, rem + rem);
    Wrapped(b, big - 1 - b);
    Wrapped(b, big - b);
  }

  lemma UnsignedAdd(w: nat, d: nat, log: nat, m: nat, rem: nat)
    requires IsWidth(w) && log < w && Pow2(log) < d < 2 * Pow2(log) && d < Pow2(w)
    requires Pow2(log) * Pow2(w) == m * d + rem && rem < d
    ensures DividesBy(w, Denom(DoubledMagic(w, m, rem, d), Or(log, ADD_MARKER)), d)
  {
    hide DividesBy, DoubledMagic, Bitwise, Pow2;
    var b, h := Pow2(w), Pow2(log);
    Pow2Doubles(w - 1);
    DoubledBounds(b, h, d, m, rem);
    var big := 2 * m + (if 2 * rem >= d then 1 else 0) + 1;
    var e := big * d - b * (2 * h);
    DoubledMagicIs(w, m, rem, d, big);
    Packed(log);
    assert b + (big - b) == big;
    UnsignedAddAll(w, d, log, big - b, e);
  }

  lemma UnsignedAddAll(w: nat, d: nat, log: nat, m: nat, e: nat)
    requires IsWidth(w) && log < w && d > 0 && m < Pow2(w)
    requires (Pow2(w) + m) * d == Pow2(w) * (2 * Pow2(log)) + e && e < 2 * Pow2(log)
    ensures DividesBy(w, Denom(m, log + 0x40), d)
  {
    hide UnsignedDo, MulHi, Pow2;
    forall n: nat | IsUnsigned(w, n)
      ensures UnsignedDo(w, n, Denom(m, log + 0x40)) == n / d
    {
      OneBitMoreHigh(w, Pow2(log), d, m, e, n);
      UnsignedAddPath(w, n, m, log);
    }
  }

  lemma OneBitMoreHigh(w: nat, h: int, d: int, m: int, e: int, n: int)
    requires h > 0 && d > 0 && IsUnsigned(w, m) && (Pow2(w) + m) * d == Pow2(w) * (2 * h) + e && 0 <= e < 2 * h
    requires IsUnsigned(w, n)
    ensures var q := MulHi(w, m, n); 0 <= q <= n && ((n - q) / 2 + q) / h == n / d
  {
    hide Pow2;
    OneBitMore(Pow2(w), h, d, m, e, n);
  }

  // ---- Signed ------------------------------------------------------------------------

  function SignedAnd(w: nat, x: int, y: int): int
    requires w > 0
  {
    Signed(w, And(Unsigned(w, x), Unsigned(w, y)))
  }

  function SignedXor(w: nat, x: int, y: int): int
    requires w > 0
  {
    Signed(w, Xor(Unsigned(w, x), Unsigned(w, y)))
  }

  /** `(int8_t)more >> 7`: minus one for a negative divisor, otherwise zero. */
  function SignByte(more: nat): int {
    (if more < 0x80 then more else more as int - 0x100) / 0x80
  }

  /** `(x ^ sign) - sign`. */
  function NegateIf(w: nat, x: int, sign: int): int
    requires w > 0
  {
    Signed(w, SignedXor(w, x, sign) - sign)
  }

  function SignedDo(w: nat, numer: int, denom: Denom): (r: int)
    requires IsWidth(w)
  {
    var shift := And(denom.more, ShiftMask(w));
    if (if w == 32 then And(denom.more, S32_SHIFT_PATH) != 0 else denom.magic == 0) then
      var lowMask := Signed(w, Signed(w, Pow2(shift)) - 1);
      var q := Signed(w, numer + SignedAnd(w, numer / Pow2(w - 1), lowMask));
      NegateIf(w, q / Pow2(shift), SignByte(denom.more))
    else
      var q := MulHi(w, denom.magic, numer);
      SignedFinish(w, numer, q, denom.more)
  }

  function SignedFinish(w: nat, numer: int, q: int, more: nat): (r: int)
    requires IsWidth(w)
  {
    var q1 := if And(more, ADD_MARKER) != 0 then Signed(w, q + NegateIf(w, numer, SignByte(more))) else q;
    var q2 := q1 / Pow2(And(more, ShiftMask(w)));
    q2 + (if q2 < 0 then 1 else 0)
  }

  /** The C quotient; the one that does not fit wraps. */
  ghost function SignedQuotient(w: nat, n: int, d: int): int
    requires w > 0 && d != 0
  {
    if n + Pow2(w - 1) == 0 && d == -1 then n else Trunc(n, d)
  }

  /** `denom` divides every signed numerator of the word size by `d`. */
  ghost predicate SignedDividesBy(w: nat, denom: Denom, d: int) {
    && IsWidth(w) && d != 0 && IsSigned(w, denom.magic) && denom.more < 0x100
    && forall n :: IsSigned(w, n) ==> SignedDo(w, n, denom) == SignedQuotient(w, n, d)
  }

  lemma NegateIfIs(w: nat, x: int, sign: int)
    requires w > 0 && (sign == 0 || sign == -1) && IsSigned(w, x)
    ensures NegateIf(w, x, sign) == if sign == 0 then x else Signed(w, -x)
  {
    hide Bitwise, Signed, Pow2;
    var p := Pow2(w);
    var u := Unsigned(w, x);
    Pow2Doubles(w - 1);
    DivMod(x, p);
    if sign == 0 {
      ModUnique(0, p, 0, 0);
      BitwiseZero(XOR, u);
      SignedFits(w, u, x, -(x / p));
      SignedFits(w, x, x, 0);
    } else {
      ModUnique(-1, p, -1, p - 1);
      AndOnes(u, w);
      // SignedXor is congruent to -1 - x
      SignedFits(w, p - 1 - u, -1 - x, 1 + x / p);
    }
  }

  lemma LowMask(w: nat, shift: nat)
    requires shift < w
    ensures Signed(w, Signed(w, Pow2(shift)) - 1) == Pow2(shift) - 1
  {
    hide Signed;
    var p: int := Pow2(shift);
    Pow2Mono(shift, w - 1);
    if shift == w - 1 {
      SignedFits(w, p, -p, 1);
      SignedFits(w, -p - 1, p - 1, -1);
    } else {
      Pow2Mono(shift, w - 1);
      SignedFits(w, p, p, 0);
      SignedFits(w, p - 1, p - 1, 0);
    }
  }

  /** Rounding towards zero before an arithmetic shift. */
  lemma RoundingBias(w: nat, n: int, m: nat)
    requires w > 0 && IsSigned(w, n) && m < Pow2(w - 1)
    ensures Signed(w, n + SignedAnd(w, n / Pow2(w - 1), m)) == if n < 0 then n + m else n
  {
    hide Bitwise;
    var half, p := Pow2(w - 1), Pow2(w);
    ModUnique(m, p, 0, m);
    if n < 0 {
      ModUnique(n, half, -1, n + half);
      ModUnique(-1, p, -1, p - 1);
      AndOnesLeft(m, w);
      SignedFits(w, m, m, 0);
      SignedFits(w, n + m, n + m, 0);
    } else {
      ModUnique(n, half, 0, n);
      ModUnique(0, p, 0, 0);
      BitwiseZero(AND, m);
      SignedFits(w, 0, 0, 0);
      SignedFits(w, n, n, 0);
    }
  }

  lemma {:induction false} AndOnesLeft(x: nat, k: nat)
    requires x < Pow2(k)
    ensures And(Pow2(k) - 1, x) == x
  {
    if k == 0 {
    } else {
      AndOnesLeft(x / 2, k - 1);
    }
  }

  lemma BiasedShift(n: int, p: int)
    requires p > 0
    ensures (if n < 0 then n + (p - 1) else n) / p == Trunc(n, p)
  {
    if n < 0 {
      var q, r := -n / p, -n % p;
      DivMod(-n, p);
      assert -q * p == -(q * p);
      ModUnique(n + (p - 1), p, -q, p - 1 - r);
    }
  }

  lemma TruncShrinks(n: int, p: int)
    requires p > 0
    ensures n >= 0 ==> 0 <= Trunc(n, p) <= n
    ensures n < 0 ==> n <= Trunc(n, p) <= 0
    ensures p > 1 && n < 0 ==> n < Trunc(n, p)
  {
    var a := if n < 0 then -n else n;
    DivShrinks(a, p);
    if n < 0 && p > 1 {
      DivMod(a, p);
      MulMono(a / p, 2, p);
    }
  }

  lemma ShiftFields(w: nat, shift: nat, more: nat)
    requires IsWidth(w) && shift < w
    requires more == shift + (if w == 32 then 0x20 else 0) || more == shift + 0x80 + (if w == 32 then 0x20 else 0)
    ensures And(more, ShiftMask(w)) == shift && (w == 32 ==> And(more, S32_SHIFT_PATH) != 0)
  {
    hide Bitwise;
    Flags(more);
    ShiftField(w, more);
  }

  lemma SignedShiftPath(w: nat, n: int, shift: nat, more: nat)
    requires IsWidth(w) && shift < w && IsSigned(w, n)
    requires more == shift + (if w == 32 then 0x20 else 0) || more == shift + 0x80 + (if w == 32 then 0x20 else 0)
    ensures SignedDo(w, n, Denom(0, more)) == NegateIf(w, Trunc(n, Pow2(shift)), SignByte(more))
  {
    hide Bitwise, Pow2, Signed, SignedAnd, NegateIf, Trunc, MulHi, SignedFinish, SignByte;
    ShiftFields(w, shift, more);
    LowMask(w, shift);
    Pow2Mono(shift, w - 1);
    RoundingBias(w, n, Pow2(shift) - 1);
    BiasedShift(n, Pow2(shift));
  }

  lemma NegatedQuotient(w: nat, n: int, p: int, sign: int)
    requires w > 0 && IsSigned(w, n) && p > 0 && (sign == 0 || sign == -1)
    ensures NegateIf(w, Trunc(n, p), sign) == SignedQuotient(w, n, if sign == 0 then p else -p)
  {
    hide Signed, NegateIf;
    TruncShrinks(n, p);
    var q := Trunc(n, p);
    NegateIfIs(w, q, sign);
    if q + Pow2(w - 1) == 0 {
      SignedFits(w, -q, q, 1);
      DivOne(q);
    } else {
      SignedFits(w, -q, -q, 0);
    }
    DivOne(n);
  }

  lemma DivOne(n: int)
    ensures Trunc(n, 1) == n && Trunc(n, -1) == -n
  {
  }

  /** Without the add marker: a signed high multiply, a shift and the correction of the sign. */
  lemma SignedMulPath(w: nat, n: int, magic: int, shift: nat)
    requires IsWidth(w) && shift < w - 1 && magic != 0
    requires w == 32 ==> shift < 32
    ensures
      var f := MulHi(w, magic, n) / Pow2(shift);
      SignedDo(w, n, Denom(magic, shift)) == f + (if f < 0 then 1 else 0)
  {
    hide Bitwise, Pow2, Signed, SignedAnd, NegateIf, MulHi;
    Flags(shift);
    ShiftField(w, shift);
  }

  /** With it: the numerator, negated for a negative divisor, is added back in first. */
  lemma SignedAddPath(w: nat, n: int, magic: int, shift: nat, negative: bool, sum: int)
    requires IsWidth(w) && shift < w && magic != 0 && IsSigned(w, n) && IsSigned(w, sum)
    requires sum == MulHi(w, magic, n) + (if negative then -n else n)
    ensures
      var f := sum / Pow2(shift);
      SignedDo(w, n, Denom(magic, shift + (if negative then 0xC0 else 0x40))) == f + (if f < 0 then 1 else 0)
  {
    hide Bitwise, Pow2, Signed, SignedAnd, NegateIf, MulHi, SignedFinish;
    var more := shift + (if negative then 0xC0 else 0x40);
    Flags(more);
    SignedAddFinish(w, n, MulHi(w, magic, n), shift, negative, sum);
  }

  lemma AddFields(w: nat, shift: nat, negative: bool)
    requires IsWidth(w) && shift < w
    ensures
      var more := shift + (if negative then 0xC0 else 0x40);
      And(more, ADD_MARKER) != 0 && And(more, ShiftMask(w)) == shift && SignByte(more) == if negative then -1 else 0
  {
    hide Bitwise;
    var more := shift + (if negative then 0xC0 else 0x40);
    Flags(more);
    ShiftField(w, more);
  }

  lemma SignedAddFinish(w: nat, n: int, q: int, shift: nat, negative: bool, sum: int)
    requires IsWidth(w) && shift < w && IsSigned(w, n) && IsSigned(w, sum) && sum == q + (if negative then -n else n)
    ensures
      var f := sum / Pow2(shift);
      SignedFinish(w, n, q, shift + (if negative then 0xC0 else 0x40)) == f + (if f < 0 then 1 else 0)
  {
    hide Bitwise, Pow2, Signed, NegateIf, SignByte;
    AddFields(w, shift, negative);
    NegateIfIs(w, n, if negative then -1 else 0);
    SumFits(w, q, if negative then -n else n, sum);
    if !negative { SignedFits(w, q + n, sum, 0); }
  }

  /** Adding after a wrap gives the true sum, when that fits. */
  lemma SumFits(w: nat, x: int, y: int, sum: int)
    requires w > 0
    ensures IsSigned(w, sum) && sum == x + y ==> Signed(w, x + Signed(w, y)) == sum
  {
    if IsSigned(w, sum) && sum == x + y {
      var p := Pow2(w);
      DivMod(y, p);
      var k := if y % p < Pow2(w - 1) then -(y / p) else -(y / p) - 1;
      assert k * p == (if y % p < Pow2(w - 1) then -(y / p * p) else -(y / p * p) - p);
      SignedFits(w, x + Signed(w, y), sum, k);
    }
  }

  lemma HighSumFits(w: nat, big: int, n: int, negative: bool)
    requires w > 0 && 0 < big < Pow2(w) && IsSigned(w, n)
    ensures
      var m := if negative then Pow2(w) - big else big - Pow2(w);
      var sum := MulHi(w, m, n) + (if negative then -n else n);
      && sum == (if negative then -big else big) * n / Pow2(w)
      && IsSigned(w, sum)
  {
    hide Pow2;
    Pow2Doubles(w - 1);
    HighSum(Pow2(w - 1), big, n, negative);
  }

  lemma Pow2Doubles(k: nat)
    ensures Pow2(k + 1) == 2 * Pow2(k)
  {
  }

  lemma SignedOneWordAll(w: nat, d: int, log: nat, m: int, e: nat)
    requires IsWidth(w) && 0 < log < w && (d < -1 || d > 1) && 0 < m < Pow2(w - 1)
    requires m * (if d < 0 then -d else d) == Pow2(w - 1) * (2 * Pow2(log - 1)) + e && 0 < e < 2 * Pow2(log - 1)
    ensures SignedDividesBy(w, Denom(if d < 0 then -m else m, log - 1), d)
  {
    hide SignedDo, MulHi, Pow2, Trunc;
    var magic := if d < 0 then -m else m;
    Pow2Doubles(w - 1);
    forall n | IsSigned(w, n)
      ensures SignedDo(w, n, Denom(magic, log - 1)) == SignedQuotient(w, n, d)
    {
      SignedMulPath(w, n, magic, log - 1);
      SignedHigh(w, Pow2(log - 1), d, m, e, n);
    }
  }

  lemma SignedHigh(w: nat, h: int, d: int, m: int, e: nat, n: int)
    requires w > 0 && h > 0 && d != 0 && m >= 0 && IsSigned(w, n)
    requires m * (if d < 0 then -d else d) == Pow2(w - 1) * (2 * h) + e && 0 < e < 2 * h
    ensures
      var f := MulHi(w, if d < 0 then -m else m, n) / h;
      f + (if f < 0 then 1 else 0) == Trunc(n, d)
  {
    hide Pow2, Trunc;
    Pow2Doubles(w - 1);
    SignedFloor(Pow2(w - 1), h, if d < 0 then -d else d, m, e, n, d < 0);
  }

  lemma SignedAddAll(w: nat, d: int, log: nat, big: int, e: nat)
    requires IsWidth(w) && log < w && (d < -1 || d > 1) && Pow2(w - 1) < big < Pow2(w)
    requires big * (if d < 0 then -d else d) == Pow2(w - 1) * (2 * Pow2(log)) + e && 0 < e < 2 * Pow2(log)
    ensures
      var magic := if d < 0 then Pow2(w) - big else big - Pow2(w);
      SignedDividesBy(w, Denom(magic, log + (if d < 0 then 0xC0 else 0x40)), d)
  {
    hide SignedDo, MulHi, Pow2, Trunc;
    var magic := if d < 0 then Pow2(w) - big else big - Pow2(w);
    Pow2Doubles(w - 1);
    forall n | IsSigned(w, n)
      ensures SignedDo(w, n, Denom(magic, log + (if d < 0 then 0xC0 else 0x40))) == SignedQuotient(w, n, d)
    {
      HighSumFits(w, big, n, d < 0);
      SignedAddPath(w, n, magic, log, d < 0, MulHi(w, magic, n) + (if d < 0 then -n else n));
      SignedHighSum(w, Pow2(log), d, big, e, n, MulHi(w, magic, n) + (if d < 0 then -n else n));
    }
  }

  lemma SignedHighSum(w: nat, h: int, d: int, big: int, e: nat, n: int, sum: int)
    requires w > 0 && h > 0 && d != 0 && big >= 0 && IsSigned(w, n)
    requires big * (if d < 0 then -d else d) == Pow2(w - 1) * (2 * h) + e && 0 < e < 2 * h
    requires sum == (if d < 0 then -big else big) * n / Pow2(w)
    ensures var f := sum / h; f + (if f < 0 then 1 else 0) == Trunc(n, d)
  {
    hide Pow2, Trunc;
    Pow2Doubles(w - 1);
    SignedFloor(Pow2(w - 1), h, if d < 0 then -d else d, big, e, n, d < 0);
  }

  lemma SignedShiftAll(w: nat, d: int, shift: nat)
    requires IsWidth(w) && IsSigned(w, d) && d != 0
    requires var a: nat := if d < 0 then -d else d; And(a, a - 1) == 0 && shift == Trailing(a)
    ensures
      var flags := Or(shift, if d < 0 then NEGATIVE_DIVISOR else 0);
      SignedDividesBy(w, Denom(0, if w == 32 then Or(flags, S32_SHIFT_PATH) else flags), d)
  {
    hide SignedDo, Bitwise, Trailing, Trunc, NegateIf, SignedQuotient;
    var a: nat := if d < 0 then -d else d;
    PowerOfTwoDivisor(a, shift);
    if shift >= w { Pow2Mono(w, shift); }
    ShiftFlags(w, shift);
    var more := shift + (if d < 0 then 0x80 else 0) + (if w == 32 then 0x20 else 0);
    forall n | IsSigned(w, n)
      ensures SignedDo(w, n, Denom(0, more)) == SignedQuotient(w, n, d)
    {
      SignedShiftPath(w, n, shift, more);
      NegatedQuotient(w, n, a, SignByte(more));
    }
  }

  lemma ShiftFlags(w: nat, shift: nat)
    requires IsWidth(w) && shift < w
    ensures Or(shift, 0) == shift && Or(shift, 0x80) == shift + 0x80
    ensures w == 32 ==> Or(shift, 0x20) == shift + 0x20 && Or(shift + 0x80, 0x20) == shift + 0xA0
  {
    hide Bitwise;
    Packed(shift);
    BitwiseZero(OR, shift);
    if w == 32 {
      Pow2Values();
      OrDisjoint(1, shift, 5);
      Split(OR, 5, 4, shift, 1, 0);
      assert Or(4, 1) == 5 by { Unfold(OR, 4, 1, 2, 0, 0, 1); BitwiseZero(OR, 2); }
    }
  }

  /** Every signed numerator is divided exactly by the generated multiplication. */
  method SignedGen(w: nat, d: int) returns (denom: Denom)
    requires IsWidth(w) && IsSigned(w, d) && d != 0
    ensures SignedDividesBy(w, denom, d)
  {
    hide SignedDividesBy, Bitwise, Trailing, Signed, Unsigned, Pow2;
    Pow2Doubles(w - 1);
    AbsoluteValue(w, d);
    var absD := Unsigned(w, if d < 0 then Signed(w, -d) else d);
    if And(absD, absD - 1) == 0 {
      var shift := CountTrailingZeros(w, absD);
      SignedShiftAll(w, d, shift);
      var more := Or(shift, if d < 0 then NEGATIVE_DIVISOR else 0);
      denom := Denom(0, if w == 32 then Or(more, S32_SHIFT_PATH) else more);
    } else {
      var log := FloorLog2(w, absD);
      NotPowerOfTwo(absD, log);
      NotPowerOfTwo(absD, w - 1);
      SignedLog(w, absD, log);
      var m, rem := DivideWide(w, Pow2(log - 1), absD);
      var e := absD - rem;
      var more;
      if e < Pow2(log) {
        SignedOneWord(w, d, absD, log, m, rem);
        more := log - 1;
        m := Unsigned(w, m + 1);
      } else {
        SignedAdd(w, d, absD, log, m, rem);
        m := Unsigned(w, m + m);
        var twiceRem := Unsigned(w, rem + rem);
        if twiceRem >= absD || twiceRem < rem {
          m := Unsigned(w, m + 1);
        }
        more := Or(Or(log, ADD_MARKER), if d < 0 then NEGATIVE_DIVISOR else 0);
        m := Unsigned(w, m + 1);
      }
      denom := Denom(if d < 0 then Signed(w, -Signed(w, m)) else Signed(w, m), more);
    }
  }

  lemma AbsoluteValue(w: nat, d: int)
    requires w > 0 && IsSigned(w, d)
    ensures Unsigned(w, if d < 0 then Signed(w, -d) else d) == if d < 0 then -d else d
  {
    var p := Pow2(w);
    if d + Pow2(w - 1) == 0 {
      SignedFits(w, -d, d, 1);
      ModUnique(d, p, -1, d + p);
    } else if d < 0 {
      SignedFits(w, -d, -d, 0);
      ModUnique(-d, p, 0, -d);
    } else {
      ModUnique(d, p, 0, d);
    }
  }

  lemma SignedLog(w: nat, a: nat, log: nat)
    requires w > 1 && 0 < a <= Pow2(w - 1) && a != Pow2(w - 1) && Pow2(log) < a < 2 * Pow2(log) && log < w
    ensures 0 < log < w - 1 && Pow2(log) == 2 * Pow2(log - 1) && Pow2(log - 1) < a < Pow2(w - 1) && a > 2
  {
    assert log != w - 1;
  }

  lemma SignedOneWord(w: nat, d: int, a: nat, log: nat, m: nat, rem: nat)
    requires IsWidth(w) && 0 < log < w - 1 && a == (if d < 0 then -d else d) && a > 2 && Pow2(log) < a < 2 * Pow2(log)
    requires Pow2(log - 1) * Pow2(w) == m * a + rem && rem < a && a - rem < Pow2(log)
    ensures
      var u := Unsigned(w, m + 1);
      SignedDividesBy(w, Denom(if d < 0 then Signed(w, -Signed(w, u)) else Signed(w, u), log - 1), d)
  {
    OneWordMagic(w, a, log, m, rem);
    hide *;
    SignedFits(w, m + 1, m + 1, 0);
    SignedFits(w, -(m + 1), -(m + 1), 0);
    SignedOneWordAll(w, d, log, m + 1, a - rem);
  }

  lemma OneWordMagic(w: nat, a: nat, log: nat, m: nat, rem: nat)
    requires w > 0 && 0 < log < w - 1 && Pow2(log) < a < 2 * Pow2(log)
    requires Pow2(log - 1) * Pow2(w) == m * a + rem && rem < a && a - rem < Pow2(log)
    ensures m + 1 < Pow2(w - 1) && Unsigned(w, m + 1) == m + 1 && Pow2(log) == 2 * Pow2(log - 1)
    ensures (m + 1) * a == Pow2(w - 1) * (2 * Pow2(log - 1)) + (a - rem)
  {
    hide Pow2;
    var half := Pow2(w - 1);
    Pow2Doubles(w - 1);
    Pow2Doubles(log - 1);
    Pow2Mono(log, w - 1);
    Regroup(half, Pow2(log - 1));
    RoundedBounds(half, Pow2(log), a, m, rem);
    Wrapped(2 * half, m + 1);
  }

  lemma SignedAdd(w: nat, d: int, a: nat, log: nat, m: nat, rem: nat)
    requires IsWidth(w) && 0 < log < w - 1 && a == (if d < 0 then -d else d) && a > 2 && Pow2(log) < a < 2 * Pow2(log)
    requires Pow2(log - 1) * Pow2(w) == m * a + rem && rem < a < Pow2(w - 1)
    ensures
      var u := DoubledMagic(w, m, rem, a);
      var more := Or(Or(log, ADD_MARKER), if d < 0 then NEGATIVE_DIVISOR else 0);
      SignedDividesBy(w, Denom(if d < 0 then Signed(w, -Signed(w, u)) else Signed(w, u), more), d)
  {
    hide SignedDividesBy, Pow2, Signed, DoubledMagic, Bitwise;
    var half, b := Pow2(w - 1), Pow2(w);
    Pow2Doubles(w - 1);
    Pow2Doubles(w - 2);
    DoubledDividend(w, log);
    DoubledBounds(half, Pow2(log), a, m, rem);
    var big := 2 * m + (if 2 * rem >= a then 1 else 0) + 1;
    SmallDoubledMagic(w, m, rem, a, big);
    SignedFits(w, big, big - b, 1);
    SignedFits(w, b - big, b - big, 0);
    Packed(log);
    BitwiseZero(OR, log + 0x40);
    SignedAddAll(w, d, log, big, big * a - half * (2 * Pow2(log)));
  }

  lemma DoubledDividend(w: nat, log: nat)
    requires 0 < log && 0 < w
    ensures Pow2(log - 1) * Pow2(w) == Pow2(log) * Pow2(w - 1)
  {
    Regroup(Pow2(w - 1), Pow2(log - 1));
  }

  lemma SmallDoubledMagic(w: nat, m: nat, rem: nat, d: nat, big: int)
    requires rem < d < Pow2(w) && big < Pow2(w)
    requires big == 2 * m + (if 2 * rem >= d then 1 else 0) + 1
    ensures DoubledMagic(w, m, rem, d) == big
  {
    hide Pow2;
    var b := Pow2(w);
    Wrapped(b, m + m);
    Wrapped(b, rem + rem);
    Wrapped(b, big - 1);
    Wrapped(b, big);
  }
}
