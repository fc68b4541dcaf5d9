/**
The portable helpers of libdivide: high words of products, counts of leading and trailing
zero bits, and division of a two-word dividend by a one-word divisor.
*/
module WideArithmetic {
  import opened Bits
  import opened Magic
  import opened Words

  // ---- High words of products -------------------------------------------------------

  lemma ProductBound(x: int, y: int, xm: int, ym: int)
    requires 0 <= x <= xm && -ym <= y <= ym
    ensures -(xm * ym) <= x * y <= xm * ym
    ensures y >= 0 ==> x * y >= 0
  {
    MulMono(x, y, ym);
    MulMono(x, -ym, y);
    MulMono(ym, x, xm);
    assert x * -ym == -(x * ym);
    if y >= 0 { MulSign(x, y); }
  }

  /** The high word of a product, from the four products of 32-bit limbs. Every intermediate
      has the width it has in the source, so no sum overflows. */
  function HighUnsigned(x1y1: UInt64, x0y1: UInt64, x1y0: UInt64, x0y0: UInt64): (r: int)
    requires x1y0 <= (B32 - 1) * (B32 - 1) && x0y1 <= (B32 - 1) * (B32 - 1)
    ensures (x1y1 * B32 + x0y1 + x1y0) * B32 + x0y0 == r * B64 + Rest(x0y1, x1y0, x0y0)
  {
    var temp: UInt64 := x1y0 + x0y0 / B32;
    var sum: UInt64 := temp % B32 + x0y1;
    x1y1 + temp / B32 + sum / B32
  }

  function HighSigned(x1y1: Int64, x0y1: Int64, x1y0: Int64, x0y0: UInt64): (r: int)
    requires x0y1 <= (B32 / 2 - 1) * (B32 - 1) && x1y0 <= (B32 / 2 - 1) * (B32 - 1)
    ensures (x1y1 * B32 + x0y1 + x1y0) * B32 + x0y0 == r * B64 + Rest(x0y1, x1y0, x0y0)
  {
    var t: Int64 := x1y0 + x0y0 / B32;
    var w1: Int64 := x0y1 + t % B32;
    x1y1 + t / B32 + w1 / B32
  }

  /** The low word that both drop. */
  ghost function Rest(x0y1: int, x1y0: int, x0y0: int): (r: int)
    ensures 0 <= r < B64
  {
    (x0y1 + (x1y0 + x0y0 / B32) % B32) % B32 * B32 + x0y0 % B32
  }

  lemma Schoolbook(x1: int, x0: int, y1: int, y0: int)
    ensures (x1 * B32 + x0) * (y1 * B32 + y0) == (x1 * y1 * B32 + x0 * y1 + x1 * y0) * B32 + x0 * y0
  {
    var y := y1 * B32 + y0;
    assert (x1 * B32 + x0) * y == x1 * y * B32 + x0 * y;
    assert x1 * y == x1 * y1 * B32 + x1 * y0;
    assert x0 * y == x0 * y1 * B32 + x0 * y0;
  }

  function MulHiUnsigned64(x: UInt64, y: UInt64): (r: UInt64)
    ensures r == x * y / B64
  {
    var x0, x1, y0, y1 := x % B32, x / B32, y % B32, y / B32;
    ProductBound(x0, y0, B32 - 1, B32 - 1);
    ProductBound(x0, y1, B32 - 1, B32 - 1);
    ProductBound(x1, y0, B32 - 1, B32 - 1);
    ProductBound(x1, y1, B32 - 1, B32 - 1);
    ProductBound(x, y, B64 - 1, B64 - 1);
    Schoolbook(x1, x0, y1, y0);
    var high := HighUnsigned(x1 * y1, x0 * y1, x1 * y0, x0 * y0);
    ModUnique(x * y, B64, high, Rest(x0 * y1, x1 * y0, x0 * y0));
    high
  }

  function MulHiSigned64(x: Int64, y: Int64): (r: Int64)
    ensures r == x * y / B64
  {
    var x0, x1, y0, y1 := x % B32, x / B32, y % B32, y / B32;
    ProductBound(x0, y0, B32 - 1, B32 - 1);
    MixedBound(x0, y1);
    MixedBound(y0, x1);
    SignedProductBound(x1, y1, B32 / 2);
    SignedProductBound(x, y, B63);
    Schoolbook(x1, x0, y1, y0);
    var high := HighSigned(x1 * y1, x0 * y1, y0 * x1, x0 * y0);
    ModUnique(x * y, B64, high, Rest(x0 * y1, y0 * x1, x0 * y0));
    high
  }

  lemma MixedBound(x: int, y: int)
    requires 0 <= x < B32 && -(B32 / 2) <= y < B32 / 2
    ensures -B63 <= x * y <= (B32 / 2 - 1) * (B32 - 1)
  {
    ProductBound(x, y, B32 - 1, B32 / 2);
    MulMono(x, y, B32 / 2 - 1);
  }

  lemma SignedProductBound(x: int, y: int, m: int)
    requires -m <= x <= m && -m <= y <= m
    ensures -(m * m) <= x * y <= m * m
  {
    ProductSign(x, y);
    if x >= 0 { ProductBound(x, y, m, m); } else { ProductBound(-x, y, m, m); }
  }

  // ---- Counting zero bits ------------------------------------------------------------

  /** The number of zero bits below the lowest one bit. */
  ghost function Trailing(x: nat): (r: nat)
    requires x > 0
  {
    if x % 2 == 1 then 0 else 1 + Trailing(x / 2)
  }

  lemma {:induction false} TrailingOfPow2(k: nat)
    ensures Trailing(Pow2(k)) == k
  {
    if k == 0 {
    } else {
      TrailingOfPow2(k - 1);
    }
  }

  lemma {:induction false} XorPredecessor(x: nat)
    requires x > 0
    ensures Xor(x, x - 1) == Pow2(Trailing(x) + 1) - 1
  {
    if x % 2 == 1 {
      BitwiseSame(x / 2);
    } else {
      XorPredecessor(x / 2);
      Unfold(XOR, x, x - 1, x / 2, 0, x / 2 - 1, 1);
    }
  }

  lemma {:induction false} TrailingCut(x: nat, k: nat)
    requires x > 0
    ensures Low(x, k) != 0 ==> Trailing(Low(x, k)) == Trailing(x)
    ensures Low(x, k) == 0 ==> Shr(x, k) > 0 && Trailing(x) == k + Trailing(Shr(x, k))
  {
    if k == 0 {
    } else if x % 2 == 1 {
      assert Low(x, k) % 2 == 1;
    } else {
      TrailingCut(x / 2, k - 1);
      TrailingEven(x);
      if Low(x, k) != 0 { TrailingEven(Low(x, k)); }
    }
  }

  lemma TrailingEven(x: nat)
    requires x > 0 && x % 2 == 0
    ensures x / 2 > 0 && Trailing(x) == 1 + Trailing(x / 2)
  {
  }

  method CountTrailingZeros32(value: nat) returns (result: nat)
    requires 0 < value < B32
    ensures result == Trailing(value)
  {
    XorPredecessor(value);
    var val := Xor(value, value - 1) / 2;
    result := 0;
    while val != 0
      invariant result <= Trailing(value)
      invariant val == Pow2(Trailing(value) - result) - 1
      decreases val
    {
      val := val / 2;
      result := result + 1;
    }
  }

  method CountTrailingZeros64(value: nat) returns (result: nat)
    requires 0 < value < B64
    ensures result == Trailing(value)
  {
    Pow2Values();
    TrailingCut(value, 32);
    CutIsDivMod(value, 32);
    AndLow(value, 32);
    var lo := And(value, 0xFFFF_FFFF);
    if lo != 0 {
      result := CountTrailingZeros32(lo);
    } else {
      result := CountTrailingZeros32(value / B32);
      result := 32 + result;
    }
  }

  lemma TopBit(x: nat, k: nat)
    requires x < 2 * Pow2(k)
    ensures And(x, Pow2(k)) != 0 <==> x >= Pow2(k)
  {
    AndBit(x, k);
    CutIsDivMod(x, k);
    if x >= Pow2(k) { ModUnique(x, Pow2(k), 1, x - Pow2(k)); } else { ModUnique(x, Pow2(k), 0, x); }
  }

  /** The loop is the same at both word sizes: shift left until the top bit is set. */
  method CountLeadingZeros(w: nat, value: nat) returns (result: nat)
    requires w > 0 && 0 < value < Pow2(w)
    ensures result < w && Pow2(w - 1) <= value * Pow2(result) < Pow2(w)
  {
    hide Bitwise;
    var val := value;
    result := 0;
    TopBit(val, w - 1);
    while And(val, Pow2(w - 1)) == 0
      invariant 0 < val < Pow2(w) && val == value * Pow2(result)
      invariant And(val, Pow2(w - 1)) != 0 <==> val >= Pow2(w - 1)
      decreases Pow2(w) - val
    {
      ModUnique(val * 2, Pow2(w), 0, val * 2);
      assert value * (2 * Pow2(result)) == 2 * (value * Pow2(result));
      val := val * 2 % Pow2(w);
      result := result + 1;
      TopBit(val, w - 1);
    }
    if result >= w {
      Pow2Mono(w, result);
      MulMono(Pow2(result), 1, value);
    }
  }

  // ---- Two words by one --------------------------------------------------------------

  method Div64By32(u1: nat, u0: nat, v: nat) returns (result: nat, r: nat)
    requires u1 < B32 && u0 < B32 && 0 < v < B32
    ensures u1 < v ==> u1 * B32 + u0 == result * v + r && r < v
    ensures result < B32 && r < B32
  {
    Pow2Values();
    OrDisjoint(u1, u0, 32);
    var n := Or(u1 * B32, u0);
    result := n / v % B32;
    r := (n - result * v) % B32;
    if u1 < v {
      DivMod(n, v);
      QuotientFits(u1, u0, v, B32);
      ModUnique(n / v, B32, 0, n / v);
      ModUnique(n - result * v, B32, 0, n % v);
    }
  }

  lemma QuotientFits(u: int, digit: int, v: int, b: int)
    requires 0 <= u < v && 0 <= digit < b
    ensures 0 <= (u * b + digit) / v < b
  {
    var n := u * b + digit;
    DivMod(n, v);
    MulMono(b, u, v - 1);
    MulSign(u, b);
    assert (v - 1) * b == v * b - b;
    DivNonneg(n, v);
    MulCancel(v, n / v, b);
  }

  /** `q` is the quotient of `n` by `v`, without dividing. */
  ghost predicate IsQuotient(n: int, v: int, q: int) {
    q * v <= n < q * v + v
  }

  /** What an `again` loop makes of a digit and its remainder. */
  ghost function Settle(q: int, rhat: int, digit: int, vn1: int, vn0: int): int
    decreases q
  {
    if q <= 0 || (q < B32 && q * vn0 % B64 <= (B32 * rhat + digit) % B64) then q
    else if rhat + vn1 < B32 then Settle(q - 1, rhat + vn1, digit, vn1, vn0)
    else q - 1
  }

  /** The digit found for any partial dividend, also one that is not below the divisor. */
  ghost function DigitFound(un: int, digit: int, vn1: int, vn0: int): int
    requires vn1 > 0
  {
    Settle(un / vn1, un % vn1, digit, vn1, vn0)
  }

  lemma SettleStep(q: int, rhat: int, digit: int, vn1: int, vn0: int)
    requires q >= 0 && (q >= B32 || q * vn0 % B64 > (B32 * rhat + digit) % B64)
    ensures q > 0
    ensures Settle(q, rhat, digit, vn1, vn0) == if rhat + vn1 < B32 then Settle(q - 1, rhat + vn1, digit, vn1, vn0) else q - 1
  {
    assert q == 0 ==> q * vn0 == 0;
  }

  lemma SettleDone(q: int, rhat: int, digit: int, vn1: int, vn0: int)
    requires q < B32 && q * vn0 % B64 <= (B32 * rhat + digit) % B64
    ensures Settle(q, rhat, digit, vn1, vn0) == q
  {
  }

  /** One quotient digit of long division in base 2^32, from the source's `again` loops: the
      trial digit is never too small, and at most two corrections make it exact. */
  method QuotientDigit(un: nat, digit: nat, vn1: nat, vn0: nat) returns (q: nat, ghost corrections: nat)
    requires B32 / 2 <= vn1 < B32 && vn0 < B32 && digit < B32
    ensures corrections <= 2 && q == DigitFound(un, digit, vn1, vn0)
    ensures un < vn1 * B32 + vn0 ==> q < B32 && IsQuotient(un * B32 + digit, vn1 * B32 + vn0, q)
  {
    hide Settle, IsQuotient;
    ghost var fits := un < vn1 * B32 + vn0;
    ghost var exact := ExactDigit(un, digit, vn1 * B32 + vn0);
    DivNonneg(un, vn1);
    q := un / vn1;
    DivMod(un, vn1);
    if fits { TrialBounds(un, digit, vn1, vn0, q, exact); }
    var rhat := un - q * vn1;
    ghost var settled := Settle(q, rhat, digit, vn1, vn0);
    corrections := 0;
    while q >= B32 || q * vn0 % B64 > (B32 * rhat + digit) % B64
      invariant corrections == 0 || (corrections == 1 && rhat >= vn1)
      invariant 0 <= rhat < B32 && q * vn1 + rhat == un
      invariant fits ==> exact <= q <= B32 + 1 - corrections
      invariant Settle(q, rhat, digit, vn1, vn0) == settled
      decreases q
    {
      SettleStep(q, rhat, digit, vn1, vn0);
      if fits {
        NoWrap(q, vn0, rhat, digit);
        TooLarge(un, digit, vn1, vn0, q, rhat, exact);
      }
      Corrected(vn1, q, rhat, un);
      q := q - 1;
      rhat := rhat + vn1;
      corrections := corrections + 1;
      if rhat >= B32 {
        assert q == settled;
        break;
      }
    }
    if rhat < B32 { SettleDone(q, rhat, digit, vn1, vn0); }
    if fits {
      if rhat < B32 && q < B32 { NoWrap(q, vn0, rhat, digit); }
      Settled(un, digit, vn1, vn0, q, rhat, exact);
    }
  }

  ghost function ExactDigit(un: int, digit: int, v: int): (q: int)
    requires v > 0 && un >= 0 && 0 <= digit < B32
    ensures un < v ==> 0 <= q < B32 && IsQuotient(un * B32 + digit, v, q)
  {
    DivMod(un * B32 + digit, v);
    if un < v then QuotientFits(un, digit, v, B32); (un * B32 + digit) / v else 0
  }

  /** Both sides of the loop test are below 2^64, so neither wraps. */
  lemma NoWrap(q: int, vn0: int, rhat: int, digit: int)
    requires 0 <= q <= B32 + 1 && 0 <= vn0 < B32 && 0 <= rhat < B32 && 0 <= digit < B32
    ensures q * vn0 % B64 == q * vn0 && (B32 * rhat + digit) % B64 == B32 * rhat + digit
  {
    ProductBound(q, vn0, B32 + 1, B32 - 1);
  }

  lemma Corrected(vn1: int, q: int, rhat: int, un: int)
    requires q * vn1 + rhat == un
    ensures (q - 1) * vn1 + (rhat + vn1) == un
  {
  }

  /** A product with a two-limb divisor. */
  lemma TimesDivisor(q: int, vn1: int, vn0: int)
    ensures q * (vn1 * B32 + vn0) == q * vn1 * B32 + q * vn0
  {
  }

  lemma TrialBounds(un: int, digit: int, vn1: int, vn0: int, q: int, exact: int)
    requires 0 <= un < vn1 * B32 + vn0 && B32 / 2 <= vn1 < B32 && 0 <= vn0 < B32 && 0 <= digit < B32
    requires q * vn1 <= un < q * vn1 + vn1
    requires 0 <= exact && IsQuotient(un * B32 + digit, vn1 * B32 + vn0, exact)
    ensures exact <= q <= B32 + 1
  {
    TimesDivisor(exact, vn1, vn0);
    MulSign(exact, vn0);
    assert (q + 1) * vn1 == q * vn1 + vn1;
    MulCancel(vn1, exact, q + 1);
    assert (B32 + 2) * vn1 == B32 * vn1 + 2 * vn1;
    MulCancel(vn1, q, B32 + 2);
  }

  lemma TooLarge(un: int, digit: int, vn1: int, vn0: int, q: int, rhat: int, exact: int)
    requires q * vn1 + rhat == un && vn1 > 0 && vn0 >= 0
    requires exact < B32 && IsQuotient(un * B32 + digit, vn1 * B32 + vn0, exact)
    requires q >= B32 || q * vn0 > B32 * rhat + digit
    ensures exact < q
  {
    TimesDivisor(q, vn1, vn0);
    MulCancel(vn1 * B32 + vn0, exact, q);
  }

  lemma Settled(un: int, digit: int, vn1: int, vn0: int, q: int, rhat: int, exact: int)
    requires q * vn1 + rhat == un && vn1 > 0 && 0 <= vn0 < B32 && 0 <= digit
    requires exact <= q && IsQuotient(un * B32 + digit, vn1 * B32 + vn0, exact)
    requires q * vn0 <= B32 * rhat + digit || (rhat >= B32 && 0 <= q <= B32)
    ensures exact == q
  {
    var v := vn1 * B32 + vn0;
    TimesDivisor(q, vn1, vn0);
    if rhat >= B32 && 0 <= q <= B32 { ProductBound(q, vn0, B32, B32 - 1); }
    assert (exact + 1) * v == exact * v + v;
    MulCancel(v, q, exact + 1);
  }

  /** The dividend and the divisor shifted left by `s` and cut into 64-bit halves. */
  lemma Shifted(u1: int, u0: int, v: int, p: int, c: int)
    requires 0 <= u1 < v && 0 <= u0 < B64 && p > 0 && c > 0 && c * p == B64 && v * p < B64
    ensures 0 <= u1 * p < B64 && u1 * p % B64 == u1 * p
    ensures 0 <= u0 / c < p && u1 * p + u0 / c < v * p
    ensures (u1 * p + u0 / c) * B64 + u0 * p % B64 == (u1 * B64 + u0) * p
  {
    var h, l := u0 / c, u0 % c;
    DivMod(u0, c);
    DivNonneg(u0, c);
    HighPart(u0, c, p, h, l);
    MulMono(p, u1 + 1, v);
    assert (u1 + 1) * p == u1 * p + p;
    MulSign(u1, p);
    ModUnique(u1 * p, B64, 0, u1 * p);
    ModUnique(u0 * p, B64, h, l * p);
    assert (u1 * B64 + u0) * p == u1 * p * B64 + u0 * p;
  }

  /** The mask `-s >> 31` converted to 64 bits is all ones for a positive shift. */
  lemma MaskedOr(u1: nat, h: nat, s: int)
    requires 0 < s < 64 && h < Pow2(s)
    ensures Or(u1 * Pow2(s), And(h, Unsigned(64, -s / 0x8000_0000))) == u1 * Pow2(s) + h
  {
    Pow2Values();
    Pow2Mono(s, 64);
    assert -s / 0x8000_0000 == -1;
    assert Unsigned(64, -1) == Pow2(64) - 1;
    AndOnes(h, 64);
    OrDisjoint(u1, h, s);
  }

  lemma HighPart(u0: int, c: int, p: int, h: int, l: int)
    requires c * p == B64 && c > 0 && p > 0 && u0 == h * c + l && 0 <= l < c && 0 <= u0 < B64
    ensures h < p && u0 * p == h * B64 + l * p && 0 <= l * p < B64
  {
    MulCancel(c, h, p);
    assert u0 * p == h * (c * p) + l * p;
    MulMono(p, l, c - 1);
    MulSign(l, p);
    assert p * (c - 1) == c * p - p;
  }

  /** Two quotient digits and a remainder make up the dividend, and wrapping hides nothing. */
  lemma Reassembled(un64: int, un1: int, un0: int, v: int, q1: int, q0: int)
    requires 0 <= q1 < B32 && 0 <= q0 < B32 && 0 < v < B64
    requires IsQuotient(un64 * B32 + un1, v, q1)
    requires IsQuotient((un64 * B32 + un1 - q1 * v) * B32 + un0, v, q0)
    ensures
      var un21 := un64 * B32 + un1 - q1 * v;
      IsExact(un64 * B64 + un1 * B32 + un0, v, (q1 * B32 + q0) % B64, (un21 * B32 + un0 - q0 * v) % B64)
  {
    assert (q1 * B32 + q0) * v == q1 * v * B32 + q0 * v;
  }

  lemma Denormalized(n: int, v: int, p: int, q: int, rest: int)
    requires p > 0 && n * p == q * (v * p) + rest && 0 <= rest < v * p
    ensures rest / p == n - q * v && 0 <= n - q * v < v
  {
    assert q * (v * p) == q * v * p;
    assert (n - q * v) * p == n * p - q * v * p;
    ModUnique(rest, p, n - q * v, 0);
    MulCancel(p, n - q * v, v);
    MulCancel(p, 0, n - q * v + 1);
  }

  ghost predicate IsExact(n: int, v: int, q: int, r: int) {
    n == q * v + r && 0 <= r < v
  }

  /** What the two-digit division returns, on any dividend. */
  ghost function LongQuotient(un64: int, un10: int, v: int): (int, int)
    requires v >= B32
  {
    var vn1, vn0 := v / B32, v % B32;
    var un1, un0 := un10 / B32, un10 % B32;
    var q1 := DigitFound(un64, un1, vn1, vn0);
    var un21 := (un64 * B32 + un1 - q1 * v) % B64;
    var q0 := DigitFound(un21, un0, vn1, vn0);
    ((q1 * B32 + q0) % B64, (un21 * B32 + un0 - q0 * v) % B64)
  }

  /** The remainder always belongs to the quotient, modulo 2^64. */
  lemma WrappedRemainder(un64: int, un1: int, un0: int, v: int, q1: int, q0: int)
    ensures
      var un21, q := (un64 * B32 + un1 - q1 * v) % B64, (q1 * B32 + q0) % B64;
      (un21 * B32 + un0 - q0 * v) % B64 == (un1 * B32 + un0 - q * v) % B64
  {
    var x, y := un64 * B32 + un1 - q1 * v, q1 * B32 + q0;
    var un21, q := x % B64, y % B64;
    DivMod(x, B64);
    DivMod(y, B64);
    var r, k, l := un21 * B32 + un0 - q0 * v, x / B64, y / B64;
    assert y * v == q * v + l * v * B64 by { assert y == l * B64 + q; assert l * B64 * v == l * v * B64; }
    assert y * v == q1 * v * B32 + q0 * v;
    SameRemainder(r, un1 * B32 + un0 - q * v, un64 - k * B32 - l * v);
  }

  lemma SameRemainder(x: int, y: int, k: int)
    requires x == y + k * B64
    ensures x % B64 == y % B64
  {
  }

  /** So a right quotient has the right remainder. */
  lemma RightRemainder(u1: int, u0: int, v: int, q: int, r: int)
    requires 0 <= u1 && 0 <= u0 && 0 < v < B64 && r == (u0 - q * v) % B64
    ensures IsExact(u1 * B64 + u0, v, q, r) <==> q == (u1 * B64 + u0) / v
  {
    var n := u1 * B64 + u0;
    DivMod(n, v);
    if q == n / v { ModUnique(u0 - q * v, B64, -u1, n % v); }
    if IsExact(n, v, q, r) { ModUnique(n, v, q, r); }
  }

  /** Where `u1 | u0` is not below the divisor, a result can be right although `u1 | u0` is not
      `u1`, and it can be wrong: these are dividends 2^63 + 1 and 2^63 + 2, divided by 2^63. */
  lemma RightByCoincidence()
    ensures LongQuotient(B63 + 1, B63 + 1, B63) == (1, 1) && Or(0, B63 + 1) == B63 + 1 && IsExact(B63 + 1, B63, 1, 1)
    ensures LongQuotient(B63 + 2, B63 + 2, B63) == (3, 2) && Or(0, B63 + 2) == B63 + 2 && !IsExact(B63 + 2, B63, 3, 2)
  {
    BitwiseZero(OR, B63 + 1);
    BitwiseZero(OR, B63 + 2);
    hide Bitwise, LongQuotient;
    QuotientOf(1);
    QuotientOf(2);
  }

  lemma QuotientOf(low: nat)
    requires low == 1 || low == 2
    ensures LongQuotient(B63 + low, B63 + low, B63) == (2 * low - 1, low)
  {
    hide DigitFound;
    DigitsOf(low);
    assert B63 / B32 == B32 / 2 && B63 % B32 == 0 && (B63 + low) / B32 == B32 / 2 && (B63 + low) % B32 == low;
  }

  lemma DigitsOf(low: nat)
    requires low == 1 || low == 2
    ensures
      var q1 := DigitFound(B63 + low, B32 / 2, B32 / 2, 0);
      && q1 == B32 - 1
      && DigitFound(B63 + low * B32 + B32 / 2, low, B32 / 2, 0) == B32 + 2 * low - 1
  {
    TwoCorrections(B32, low, B32 / 2, 0);
    TwoCorrections(B32 + 2 * low + 1, 0, low, 0);
  }

  lemma TwoCorrections(q: int, rhat: int, digit: int, vn0: int)
    requires q >= B32 && 0 <= rhat < B32 / 2 && vn0 == 0
    ensures Settle(q, rhat, digit, B32 / 2, vn0) == if q - 1 >= B32 then q - 2 else q - 1
  {
    assert Settle(q, rhat, digit, B32 / 2, vn0) == Settle(q - 1, rhat + B32 / 2, digit, B32 / 2, vn0);
  }

  /** Division of `u1 * 2^64 + u0` by `v`. When the divisor has its top bit set the code takes
      `u1 | u0` for the upper half of the dividend, so it is exact just when the bits of `u0`
      are among those of `u1`; otherwise it is always exact. Addition, subtraction and
      multiplication commute with reduction modulo 2^64, so one reduction stands for all those
      of an expression. */
  method Div128By64(u1: nat, u0: nat, v: nat) returns (q: nat, r: nat, ghost corrections: nat)
    requires u1 < B64 && u0 < B64 && 0 < v < B64
    ensures q < B64 && r < B64 && corrections <= 4
    ensures u1 >= v ==> q == B64 - 1 && r == B64 - 1
    ensures u1 < v < B63 ==> IsExact(u1 * B64 + u0, v, q, r)
    ensures u1 < v && B63 <= v && Or(u1, u0) < v ==>
      (IsExact(u1 * B64 + u0, v, q, r) <==> Or(u1, u0) == u1)
    ensures u1 < v ==> (IsExact(u1 * B64 + u0, v, q, r) <==> q == (u1 * B64 + u0) / v)
    ensures u1 < v && B63 <= v ==> Or(u1, u0) < B64 && (q, r) == LongQuotient(Or(u1, u0), u0, v)
  {
    if u1 >= v {
      return B64 - 1, B64 - 1, 0;
    }
    var s, vn, un64, un10 := Normalize(u1, u0, v);
    q, r, corrections := LongDivide(un64, un10, vn);
    hide LongQuotient;
    if s > 0 {
      Denormalized(u1 * B64 + u0, v, Pow2(s), q, r);
      ModUnique(u1 * B64 + u0, v, q, r / Pow2(s));
    } else {
      assert r / Pow2(s) == r;
      RightRemainder(u1, u0, v, q, r);
    }
    DivShrinks(r, Pow2(s));
    r := r / Pow2(s);
  }

  lemma DivShrinks(x: int, p: int)
    requires x >= 0 && p > 0
    ensures 0 <= x / p <= x
  {
    DivMod(x, p);
    DivNonneg(x, p);
    MulMono(x / p, 1, p);
  }

  /** Shift so that the top bit of the divisor is set. */
  method Normalize(u1: nat, u0: nat, v: nat) returns (s: nat, vn: nat, un64: nat, un10: nat)
    requires u1 < v < B64 && u0 < B64
    ensures B63 <= vn < B64 && un64 < B64 && un10 < B64
    ensures s == 0 <==> B63 <= v
    ensures s == 0 ==> vn == v && un64 == Or(u1, u0) && un10 == u0
    ensures s > 0 ==> vn == v * Pow2(s) && un64 < vn && un64 * B64 + un10 == (u1 * B64 + u0) * Pow2(s)
  {
    Pow2Values();
    s := CountLeadingZeros(64, v);
    var p := Pow2(s);
    if s > 0 {
      var c := Pow2(64 - s);
      Pow2Add(64 - s, s);
      Pow2Mono(1, s);
      MulMono(v, 2, p);
      Shifted(u1, u0, v, p, c);
      MaskedOr(u1, u0 / c, s);
      ModUnique(v * p, B64, 0, v * p);
      vn := v * p % B64;
      un64 := Or(u1 * p % B64, And(u0 / c, Unsigned(64, -(s as int) / 0x8000_0000)));
      un10 := u0 * p % B64;
    } else {
      OrBelow(u1, u0, 64);
      vn, un64, un10 := v, Or(u1, u0), u0;
    }
  }

  /** The two-digit division proper, on a divisor with its top bit set. */
  method LongDivide(un64: nat, un10: nat, v: nat) returns (q: nat, r: nat, ghost corrections: nat)
    requires un64 < B64 && un10 < B64 && B63 <= v < B64
    ensures q < B64 && r < B64 && corrections <= 4
    ensures un64 < v ==> IsExact(un64 * B64 + un10, v, q, r)
    ensures (q, r) == LongQuotient(un64, un10, v) && r == (un10 - q * v) % B64
  {
    hide IsExact, DigitFound, IsQuotient;
    var vn1, vn0 := v / B32, v % B32;
    var un1, un0 := un10 / B32, un10 % B32;
    assert v == vn1 * B32 + vn0 && un10 == un1 * B32 + un0;
    var q1, c1 := QuotientDigit(un64, un1, vn1, vn0);
    var un21 := (un64 * B32 + un1 - q1 * v) % B64;
    var q0, c0 := QuotientDigit(un21, un0, vn1, vn0);
    q := (q1 * B32 + q0) % B64;
    r := (un21 * B32 + un0 - q0 * v) % B64;
    corrections := c1 + c0;
    WrappedRemainder(un64, un1, un0, v, q1, q0);
    if un64 < v {
      NoWrapLeft(un64 * B32 + un1, v, q1);
      Reassembled(un64, un1, un0, v, q1, q0);
    }
  }

  /** What is left after a digit is below the divisor, so it does not wrap. */
  lemma NoWrapLeft(x: int, v: int, q: int)
    requires IsQuotient(x, v, q) && 0 < v < B64
    ensures (x - q * v) % B64 == x - q * v < v
  {
  }
}
