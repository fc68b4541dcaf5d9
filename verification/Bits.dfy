/**
Machine words as natural numbers: powers of two, the bitwise operators `&`, `|` and `^`,
and two's-complement reinterpretation at a given width. Shifts are products with and
quotients by `Pow2`; Dafny's `/` rounds down for a positive divisor, so it is also the
arithmetic right shift of a negative number.
*/
module Bits {

  function Pow2(k: nat): (r: nat)
    ensures r > 0
  {
    if k == 0 then 1 else 2 * Pow2(k - 1)
  }

  lemma {:induction false} Pow2Add(a: nat, b: nat)
    ensures Pow2(a + b) == Pow2(a) * Pow2(b)
  {
    if a == 0 {
    } else {
      Pow2Add(a - 1, b);
      assert 2 * Pow2(a - 1) * Pow2(b) == 2 * (Pow2(a - 1) * Pow2(b));
    }
  }

  lemma {:induction false} Pow2Mono(a: nat, b: nat)
    requires a <= b
    ensures Pow2(a) <= Pow2(b)
    ensures a < b ==> 2 * Pow2(a) <= Pow2(b)
    decreases b - a
  {
    if a == b {
    } else {
      Pow2Mono(a, b - 1);
    }
  }

  lemma Pow2Values()
    ensures Pow2(0) == 1 && Pow2(1) == 2 && Pow2(5) == 0x20 && Pow2(6) == 0x40 && Pow2(7) == 0x80
    ensures Pow2(8) == 0x100 && Pow2(31) == 0x8000_0000 && Pow2(32) == 0x1_0000_0000
    ensures Pow2(63) == 0x8000_0000_0000_0000 && Pow2(64) == 0x1_0000_0000_0000_0000
  {
    assert Pow2(8) == 0x100;
    Pow2Add(8, 8);
    Pow2Add(16, 16);
    Pow2Add(32, 32);
    assert Pow2(32) == 2 * Pow2(31) && Pow2(64) == 2 * Pow2(63);
  }

  datatype Op = AND | OR | XOR

  function OnBit(op: Op, x: nat, y: nat): (r: nat)
    requires x < 2 && y < 2
    ensures r < 2
  {
    match op
    case AND => x * y
    case OR => if x + y > 0 then 1 else 0
    case XOR => if x != y then 1 else 0
  }

  /** The operator `op` applied to every bit position of two naturals of any length. */
  function Bitwise(op: Op, x: nat, y: nat): nat
    decreases x + y
  {
    if x == 0 && y == 0 then 0
    else 2 * Bitwise(op, x / 2, y / 2) + OnBit(op, x % 2, y % 2)
  }

  function And(x: nat, y: nat): nat { Bitwise(AND, x, y) }
  function Or(x: nat, y: nat): nat { Bitwise(OR, x, y) }
  function Xor(x: nat, y: nat): nat { Bitwise(XOR, x, y) }

  lemma Unfold(op: Op, x: nat, y: nat, x2: nat, xb: nat, y2: nat, yb: nat)
    requires x == 2 * x2 + xb && xb < 2 && y == 2 * y2 + yb && yb < 2
    ensures Bitwise(op, x, y) == 2 * Bitwise(op, x2, y2) + OnBit(op, xb, yb)
  {
  }

  /** `x << k`, `x >> k` and `x & ((1 << k) - 1)`, one bit at a time. */
  function Shl(x: nat, k: nat): nat {
    if k == 0 then x else 2 * Shl(x, k - 1)
  }

  function Shr(x: nat, k: nat): nat {
    if k == 0 then x else Shr(x / 2, k - 1)
  }

  function Low(x: nat, k: nat): nat {
    if k == 0 then 0 else 2 * Low(x / 2, k - 1) + x % 2
  }

  /** A bitwise operator works independently above and below any bit position. */
  lemma {:induction false} Cut(op: Op, k: nat, x: nat, y: nat)
    ensures Bitwise(op, x, y) == Shl(Bitwise(op, Shr(x, k), Shr(y, k)), k) + Bitwise(op, Low(x, k), Low(y, k))
    decreases k
  {
    if k == 0 {
    } else {
      Cut(op, k - 1, x / 2, y / 2);
      Unfold(op, x, y, x / 2, x % 2, y / 2, y % 2);
      Unfold(op, Low(x, k), Low(y, k), Low(x / 2, k - 1), x % 2, Low(y / 2, k - 1), y % 2);
    }
  }

  lemma {:induction false} ShlIsTimes(x: nat, k: nat)
    ensures Shl(x, k) == x * Pow2(k)
  {
    if k == 0 {
    } else {
      ShlIsTimes(x, k - 1);
      assert x * (2 * Pow2(k - 1)) == 2 * (x * Pow2(k - 1));
    }
  }

  lemma {:induction false} LowBound(x: nat, k: nat)
    ensures Low(x, k) < Pow2(k)
    ensures x == Shl(Shr(x, k), k) + Low(x, k)
  {
    if k == 0 {
    } else {
      LowBound(x / 2, k - 1);
    }
  }

  lemma CutIsDivMod(x: nat, k: nat)
    ensures Shr(x, k) == x / Pow2(k) && Low(x, k) == x % Pow2(k)
  {
    LowBound(x, k);
    ShlIsTimes(Shr(x, k), k);
    ModUnique(x, Pow2(k), Shr(x, k), Low(x, k));
  }

  lemma CutParts(a: nat, b: nat, k: nat)
    requires b < Pow2(k)
    ensures Shr(a * Pow2(k) + b, k) == a && Low(a * Pow2(k) + b, k) == b
  {
    var x := a * Pow2(k) + b;
    CutIsDivMod(x, k);
    ModUnique(x, Pow2(k), a, b);
  }

  lemma Split(op: Op, k: nat, a: nat, b: nat, c: nat, d: nat)
    requires b < Pow2(k) && d < Pow2(k)
    ensures Bitwise(op, a * Pow2(k) + b, c * Pow2(k) + d) == Bitwise(op, a, c) * Pow2(k) + Bitwise(op, b, d)
  {
    hide Bitwise, Shl, Shr, Low, Pow2;
    CutParts(a, b, k);
    CutParts(c, d, k);
    Cut(op, k, a * Pow2(k) + b, c * Pow2(k) + d);
    ShlIsTimes(Bitwise(op, a, c), k);
  }

  lemma DivMod(x: int, m: int)
    requires m > 0
    ensures x == x / m * m + x % m && 0 <= x % m < m
  {
  }

  lemma DivNonneg(x: int, d: int)
    requires x >= 0 && d > 0
    ensures x / d >= 0
  {
  }

  lemma OnlyZero(k: int, m: int)
    requires -m < k * m < m
    ensures k == 0
  {
    if k >= 1 { MulMono(m, 1, k); }
    if k <= -1 { MulMono(m, k, -1); }
  }

  lemma MulMono(m: int, x: int, y: int)
    requires m >= 0 && x <= y
    ensures m * x <= m * y
    ensures x * m <= y * m
  {
  }

  lemma ModUnique(x: int, m: int, q: int, r: int)
    requires 0 <= r < m && x == q * m + r
    ensures x / m == q && x % m == r
  {
    DivMod(x, m);
    assert (q - x / m) * m == q * m - x / m * m;
    OnlyZero(q - x / m, m);
  }

  lemma {:induction false} BitwiseZero(op: Op, x: nat)
    ensures Bitwise(op, x, 0) == (if op == AND then 0 else x)
    ensures Bitwise(op, 0, x) == (if op == AND then 0 else x)
  {
    if x == 0 {
    } else {
      BitwiseZero(op, x / 2);
    }
  }

  lemma {:induction false} BitwiseSame(x: nat)
    ensures And(x, x) == x && Or(x, x) == x && Xor(x, x) == 0
  {
    if x == 0 {
    } else {
      BitwiseSame(x / 2);
    }
  }

  /** Xor with a constant is its own inverse, on naturals of any length. */
  lemma {:induction false} XorInvolution(x: nat, c: nat)
    ensures Xor(Xor(x, c), c) == x
    decreases x + c
  {
    if x + c == 0 {
    } else {
      XorInvolution(x / 2, c / 2);
    }
  }

  /** The low `k` bits, and bit `k`, of a word. */
  lemma {:induction false} AndLow(x: nat, k: nat)
    ensures And(x, Pow2(k) - 1) == Low(x, k)
  {
    if k == 0 {
      BitwiseZero(AND, x);
    } else {
      AndLow(x / 2, k - 1);
      Unfold(AND, x, Pow2(k) - 1, x / 2, x % 2, Pow2(k - 1) - 1, 1);
    }
  }

  lemma {:induction false} AndOnes(x: nat, k: nat)
    requires x < Pow2(k)
    ensures And(x, Pow2(k) - 1) == x
    ensures Xor(x, Pow2(k) - 1) == Pow2(k) - 1 - x
  {
    if k == 0 {
    } else {
      AndOnes(x / 2, k - 1);
    }
  }

  lemma {:induction false} AndBit(x: nat, k: nat)
    ensures And(x, Pow2(k)) == if Shr(x, k) % 2 == 1 then Pow2(k) else 0
  {
    if k == 0 {
      BitwiseZero(AND, x / 2);
      Unfold(AND, x, 1, x / 2, x % 2, 0, 1);
    } else {
      AndBit(x / 2, k - 1);
      Unfold(AND, x, Pow2(k), x / 2, x % 2, Pow2(k - 1), 0);
    }
  }

  /** Fields that share no bit position are combined by `|` as by `+`. */
  lemma OrDisjoint(a: nat, b: nat, k: nat)
    requires b < Pow2(k)
    ensures Or(a * Pow2(k), b) == a * Pow2(k) + b
    ensures Or(b, a * Pow2(k)) == a * Pow2(k) + b
  {
    hide Bitwise;
    BitwiseZero(OR, a);
    BitwiseZero(OR, b);
    CutParts(a, 0, k);
    CutParts(0, b, k);
    ShlIsTimes(a, k);
    Cut(OR, k, a * Pow2(k), b);
    Cut(OR, k, b, a * Pow2(k));
  }

  lemma {:induction false} OrBelow(x: nat, y: nat, k: nat)
    requires x < Pow2(k) && y < Pow2(k)
    ensures Or(x, y) < Pow2(k)
  {
    if k == 0 {
    } else {
      OrBelow(x / 2, y / 2, k - 1);
    }
  }

  ghost predicate IsPow2(d: nat) {
    exists k: nat :: Pow2(k) == d
  }

  /** `d & (d - 1)` is zero exactly on the powers of two. */
  lemma {:induction false} PowerOfTwoTest(d: nat)
    requires d > 0
    ensures And(d, d - 1) == 0 <==> IsPow2(d)
  {
    if d == 1 {
      assert Pow2(0) == 1;
    } else if d % 2 == 1 {
      BitwiseSame(d / 2);
      assert And(d, d - 1) == 2 * And(d / 2, d / 2);
      assert !IsPow2(d);
    } else {
      PowerOfTwoTest(d / 2);
      assert And(d, d - 1) == 2 * And(d / 2, d / 2 - 1);
      if k: nat :| Pow2(k) == d { assert k > 0 && Pow2(k - 1) == d / 2; }
      if k: nat :| Pow2(k) == d / 2 { assert Pow2(k + 1) == d; }
    }
  }

  /** A value reduced to `w` unsigned bits, and `w` unsigned bits read as two's complement. */
  function Unsigned(w: nat, x: int): (r: nat)
    ensures r < Pow2(w)
  {
    x % Pow2(w)
  }

  function Signed(w: nat, x: int): int
    requires w > 0
  {
    var u := x % Pow2(w);
    if u < Pow2(w - 1) then u else u - Pow2(w)
  }

  predicate IsUnsigned(w: nat, x: int) {
    0 <= x < Pow2(w)
  }

  predicate IsSigned(w: nat, x: int)
    requires w > 0
  {
    0 <= x + Pow2(w - 1) < Pow2(w)
  }

  /** Reinterpreting a value that fits changes nothing, and the result is always congruent. */
  lemma SignedFits(w: nat, x: int, y: int, k: int)
    requires w > 0 && IsSigned(w, y) && x == y + k * Pow2(w)
    ensures Signed(w, x) == y
  {
    var p := Pow2(w);
    if y >= 0 {
      ModUnique(x, p, k, y);
    } else {
      assert (k - 1) * p == k * p - p;
      ModUnique(x, p, k - 1, y + p);
    }
  }
}
