/**
The arithmetic behind division by multiplication. A divisor `d` is replaced by a magic
number `m` with `m * d == p + e` for a power of two `p`; when the error `e` is small
enough, `m * n / p` is `n / d`.
*/
module Magic {
  import opened Bits

  lemma MulCancel(d: int, x: int, y: int)
    requires d > 0
    ensures d * x < d * y ==> x < y
    ensures d * x <= d * y ==> x <= y
  {
    if x >= y { MulMono(d, y, x); }
    if x > y { MulMono(d, y + 1, x); }
  }

  lemma MulSign(x: int, y: int)
    requires x >= 0 && y >= 0
    ensures x * y >= 0
    ensures x > 0 && y > 0 ==> x * y > 0
  {
  }

  lemma MulLess(x: int, xb: int, y: int, yb: int)
    requires 0 <= x < xb && 0 <= y <= yb && yb > 0
    ensures x * y < xb * yb
  {
    MulMono(x, y, yb);
    MulMono(yb, x, xb - 1);
    assert (xb - 1) * yb == xb * yb - yb;
  }

  lemma DivDiv(x: int, a: int, b: int)
    requires a > 0 && b > 0
    ensures a * b > 0 && x / a / b == x / (a * b)
  {
    MulSign(a, b);
    var q1, r1 := x / a, x % a;
    var q2, r2 := q1 / b, q1 % b;
    DivMod(x, a);
    DivMod(q1, b);
    MulMono(a, r2, b - 1);
    MulSign(a, r2);
    calc {
      x;
      (q2 * b + r2) * a + r1;
      q2 * b * a + r2 * a + r1;
      { assert q2 * b * a == q2 * (a * b); }
      q2 * (a * b) + (a * r2 + r1);
    }
    assert a * (b - 1) == a * b - a;
    ModUnique(x, a * b, q2, a * r2 + r1);
  }

  /** Multiplying by the magic number and dropping `p` divides by `d`; the part dropped is
      zero only when the error term is. */
  lemma FloorExact(p: int, m: int, d: int, e: int, n: int)
    requires p > 0 && d > 0 && n >= 0 && m * d == p + e && 0 <= e * n < p
    ensures m * n / p == n / d
    ensures e * n > 0 ==> m * n % p != 0
  {
    var q, r := n / d, n % d;
    DivMod(n, d);
    var rest := m * n - p * q;
    Dropped(p, m, d, e, n, q, r);
    DroppedBounds(p, d, r, e * n, rest);
    ModUnique(m * n, p, q, rest);
  }

  lemma Dropped(p: int, m: int, d: int, e: int, n: int, q: int, r: int)
    requires m * d == p + e && n == q * d + r
    ensures d * (m * n - p * q) == p * r + e * n
  {
    calc {
      d * (m * n - p * q);
      d * (m * n) - d * (p * q);
      { assert d * (m * n) == m * d * n; assert d * (p * q) == p * (q * d); }
      (p + e) * n - p * (q * d);
      p * n - p * (q * d) + e * n;
      { assert p * n - p * (q * d) == p * (n - q * d); }
      p * r + e * n;
    }
  }

  lemma DroppedBounds(p: int, d: int, r: int, error: int, rest: int)
    requires p > 0 && d > 0 && 0 <= r < d && 0 <= error < p && d * rest == p * r + error
    ensures 0 <= rest < p && (error > 0 ==> rest != 0)
  {
    MulMono(p, r, d - 1);
    MulSign(p, r);
    assert p * (d - 1) == d * p - p;
    MulCancel(d, rest, p);
    MulCancel(d, 0, rest);
    assert d * 0 == 0;
  }

  /** Truncating division, as the C operator `/` on signed integers. */
  function Trunc(n: int, d: int): int
    requires d != 0
  {
    var a, b := if n < 0 then -n else n, if d < 0 then -d else d;
    if (n < 0) == (d < 0) then a / b else -(a / b)
  }

  lemma NegatedFloor(x: int, p: int)
    requires p > 0 && x >= 0 && x % p != 0
    ensures x / p >= 0 && -x / p == -(x / p) - 1
  {
    var q := x / p;
    DivMod(x, p);
    assert (-q - 1) * p == -(q * p) - p;
    ModUnique(-x, p, -q - 1, p - x % p);
  }

  lemma ProductSign(m: int, n: int)
    ensures (-m) * n == -(m * n) && m * (-n) == -(m * n) && (-m) * (-n) == m * n
  {
  }

  /** Rounding down and then adding one to a negative quotient truncates, for either sign
      of the product. */
  lemma SignedExact(p: int, m: int, d: int, e: int, n: int, negate: bool)
    requires p > 0 && d > 0 && m * d == p + e && e > 0 && m >= 0
    requires e * (if n < 0 then -n else n) < p
    ensures
      var f := (if negate then -m else m) * n / p;
      f + (if f < 0 then 1 else 0) == Trunc(n, if negate then -d else d)
  {
    var a := if n < 0 then -n else n;
    MulSign(e, a);
    FloorExact(p, m, d, e, a);
    ProductSign(m, n);
    if a == 0 {
      ModUnique(0, p, 0, 0);
      ModUnique(0, d, 0, 0);
    } else {
      MulSign(m, a);
      NegatedFloor(m * a, p);
    }
  }

  /** The quotient of `p` by `d` rounded up is a magic number whose error is at most `d`. */
  lemma RoundUp(p: int, d: int, m: int, rem: int)
    requires d > 0 && p == m * d + rem && 0 <= rem < d
    ensures (m + 1) * d == p + (d - rem)
  {
  }

  /** Doubling a quotient and its remainder gives the quotient of the doubled dividend. */
  lemma DoubleQuotient(p: int, d: int, m: int, rem: int)
    requires d > 0 && p == m * d + rem && 0 <= rem < d
    ensures
      var c := if 2 * rem >= d then 1 else 0;
      2 * p == (2 * m + c) * d + (2 * rem - c * d) && 0 <= 2 * rem - c * d < d
  {
  }

  /** Bounds on a rounded-up quotient of `b * h` by a divisor between `h` and `2 * h`. */
  lemma MagicBounds(b: int, h: int, d: int, m: int, e: int)
    requires b > 0 && h > 0 && h < d < 2 * h && m * d == b * h + e
    ensures e >= 0 ==> 2 * m > b
    ensures e < b ==> m < b
  {
    MulMono(b, d, 2 * h - 1);
    assert b * (2 * h - 1) == 2 * (b * h) - b && d * (2 * m) == 2 * (m * d);
    if e >= 0 { MulCancel(d, b, 2 * m); }
    MulMono(b, h + 1, d);
    assert b * (h + 1) == b * h + b;
    if e < b { MulCancel(d, m, b); }
  }

  /** A magic number of one word: multiply, keep the high word, shift. */
  lemma OneWord(b: int, h: int, d: int, m: int, e: int, n: int)
    requires b > 0 && d > 0 && m * d == b * h + e && 0 <= e < h && 0 <= n < b
    ensures m * n / b / h == n / d
  {
    MulSign(b, h);
    MulLess(e, h, n, b);
    MulSign(e, n);
    FloorExact(b * h, m, d, e, n);
    DivDiv(m * n, b, h);
  }

  /** A magic number of one bit more: the numerator is added back in, and the average is taken
      without overflow. */
  lemma OneBitMore(b: int, h: int, d: int, m: int, e: int, n: int)
    requires b > 0 && h > 0 && d > 0 && 0 <= m < b && (b + m) * d == b * (2 * h) + e && 0 <= e < 2 * h && 0 <= n < b
    ensures
      var q := m * n / b;
      0 <= q <= n && ((n - q) / 2 + q) / h == n / d
  {
    var q := m * n / b;
    HighWordSmall(b, m, n);
    AddedBack(b, m, n, q);
    assert (n - q) / 2 + q == (n + q) / 2;
    DivDiv(n + q, 2, h);
    DivDiv((b + m) * n, b, 2 * h);
    MulSign(b, 2 * h);
    MulLess(e, 2 * h, n, b);
    MulSign(e, n);
    FloorExact(b * (2 * h), b + m, d, e, n);
  }

  lemma HighWordSmall(b: int, m: int, n: int)
    requires 0 <= m < b && 0 <= n
    ensures 0 <= m * n / b <= n
  {
    MulSign(m, n);
    MulMono(n, m, b);
    DivMod(m * n, b);
    DivNonneg(m * n, b);
    MulCancel(b, m * n / b, n);
  }

  lemma AddedBack(b: int, m: int, n: int, q: int)
    requires b > 0 && q == m * n / b
    ensures (b + m) * n / b == n + q
  {
    DivMod(m * n, b);
    assert (b + m) * n == (n + q) * b + m * n % b;
    ModUnique((b + m) * n, b, n + q, m * n % b);
  }

  lemma Regroup(b: int, h: int)
    ensures 2 * (h * b) == 2 * b * h && 2 * b * h == b * (2 * h)
  {
  }

  lemma RoundedBounds(b: int, h: int, d: int, m: int, rem: int)
    requires b > 0 && 0 < h < d < 2 * h && h * b == m * d + rem && 0 <= rem < d && d - rem < b
    ensures (m + 1) * d == h * b + (d - rem) && b < 2 * (m + 1) && m + 1 < b
  {
    RoundUp(h * b, d, m, rem);
    MagicBounds(b, h, d, m + 1, d - rem);
  }

  /** When doubling is needed: the doubled quotient overflows by exactly the word size, and its
      successor is the magic number, less than twice the word size. */
  lemma DoubledBounds(b: int, h: int, d: int, m: int, rem: int)
    requires b % 2 == 0 && 0 < h < d < 2 * h && d < b && h * b == m * d + rem && 0 <= rem < d
    ensures
      var c := if 2 * rem >= d then 1 else 0;
      var big := 2 * m + c + 1;
      && b <= 2 * m && b < big < 2 * b
      && 0 < big * d - b * (2 * h) <= d
  {
    var c := if 2 * rem >= d then 1 else 0;
    var left := if 2 * rem >= d then 2 * rem - d else 2 * rem;
    RoundUp(h * b, d, m, rem);
    MagicBounds(b, h, d, m + 1, d - rem);
    DoubleQuotient(h * b, d, m, rem);
    DoubledMagicBounds(b, h, d, 2 * m + c, left);
  }

  lemma DoubledMagicBounds(b: int, h: int, d: int, m: int, rem: int)
    requires 0 < h < d < 2 * h && d < b && 2 * (h * b) == m * d + rem && 0 <= rem < d
    ensures b < m + 1 < 2 * b && (m + 1) * d - b * (2 * h) == d - rem
  {
    RoundUp(2 * (h * b), d, m, rem);
    Regroup(b, h);
    MagicBounds(2 * b, h, d, m + 1, d - rem);
  }

  /** A common factor does not change where a number lies between a power and its double. */
  lemma BetweenDoubles(d: int, h: int, z: int)
    requires z > 0 && h * z <= d * z < 2 * (h * z)
    ensures h <= d < 2 * h
  {
    assert 2 * (h * z) == z * (2 * h) && h * z == z * h && d * z == z * d;
    MulCancel(z, h, d);
    MulCancel(z, d, 2 * h);
  }

  lemma FloorRange(x: int, b: int, lo: int, hi: int)
    requires b > 0 && b * lo <= x < b * hi
    ensures lo <= x / b < hi
  {
    DivMod(x, b);
    MulCancel(b, x / b, hi);
    assert b * (x / b + 1) == x / b * b + b;
    MulCancel(b, lo, x / b + 1);
  }

  lemma HalfProduct(half: int, big: int, n: int)
    requires 0 < big < 2 * half && -half <= n <= half
    ensures 2 * half * -half <= big * n < 2 * half * half
    ensures 2 * half * -half <= -(big * n) < 2 * half * half
  {
    var a := if n < 0 then -n else n;
    ProductSign(big, n);
    MulMono(a, big, 2 * half - 1);
    MulMono(2 * half - 1, a, half);
    MulSign(big, a);
    assert (2 * half - 1) * half == 2 * half * half - half;
    assert 2 * half * -half == -(2 * half * half);
  }

  /** Signed division with a magic number: multiply, round down, correct a negative quotient. */
  lemma SignedFloor(half: int, h: int, d: int, m: int, e: int, n: int, negate: bool)
    requires half > 0 && h > 0 && d > 0 && m >= 0 && m * d == half * (2 * h) + e && 0 < e < 2 * h
    requires -half <= n <= half
    ensures
      var f := (if negate then -m else m) * n / (2 * half) / h;
      f + (if f < 0 then 1 else 0) == Trunc(n, if negate then -d else d)
  {
    var size := if n < 0 then -n else n;
    MulLess(e, 2 * h, size, half);
    Regroup(half, h);
    MulSign(2 * half, h);
    SignedExact(2 * half * h, m, d, e, n, negate);
    DivDiv((if negate then -m else m) * n, 2 * half, h);
  }

  /** Adding the numerator back turns the stored magic number into the true one. */
  lemma HighSum(half: int, big: int, n: int, negate: bool)
    requires 0 < big < 2 * half && -half <= n <= half
    ensures
      var m := if negate then 2 * half - big else big - 2 * half;
      var sum := m * n / (2 * half) + (if negate then -n else n);
      sum == (if negate then -big else big) * n / (2 * half) && -half <= sum < half
  {
    var b := 2 * half;
    var x := (if negate then -big else big) * n;
    var k := if negate then n else -n;
    AddMultiple(b, big, n);
    ProductSign(big, n);
    ShiftedFloor(x, b, k);
    HalfProduct(half, big, n);
    FloorRange(x, b, -half, half);
  }

  lemma AddMultiple(b: int, big: int, n: int)
    ensures (b - big) * n == (-big) * n + n * b && (big - b) * n == big * n + (-n) * b
  {
  }

  lemma ShiftedFloor(x: int, b: int, k: int)
    requires b > 0
    ensures (x + k * b) / b == x / b + k
  {
    DivMod(x, b);
    assert (x / b + k) * b == x / b * b + k * b;
    ModUnique(x + k * b, b, x / b + k, x % b);
  }
}
