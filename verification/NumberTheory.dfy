/**
The number theory behind the unique number generator: inverses modulo a prime, and the fact
that minus one is not a square modulo a number congruent to 3 modulo 4.
*/
module NumberTheory {
  import opened Bits

  predicate Divides(m: int, x: int) {
    m != 0 && x % m == 0
  }

  ghost predicate IsPrime(p: int) {
    p >= 2 && forall m :: 2 <= m < p ==> !Divides(m, p)
  }

  lemma Quotient(m: int, x: int) returns (k: int)
    requires m > 0 && Divides(m, x)
    ensures x == m * k && k == x / m
  {
    k := x / m;
    DivMod(x, m);
  }

  lemma Multiple(m: int, x: int, k: int)
    requires m > 0 && x == m * k
    ensures Divides(m, x)
  {
    ModUnique(x, m, k, 0);
  }

  lemma MulPositive(x: int, y: int)
    requires x > 0
    ensures x * y > 0 <==> y > 0
  {
  }

  // ---- Minus one is not a square modulo 3 mod 4 --------------------------------------

  /** By descent: an even root leaves a smaller cofactor that is again 3 modulo 4. */
  lemma {:induction false} MinusOneNotSquare(m: int, x: int)
    requires m > 0 && m % 4 == 3
    ensures !Divides(m, x * x + 1)
    decreases m
  {
    if RootOfMinusOneModulo(m, x) {
      var y := EvenRoot(m, x);
      var k := Descend(m, y);
      MinusOneNotSquare(k, y);
      assert false;
    }
  }

  lemma Descend(m: int, y: int) returns (k: int)
    requires m > 0 && m % 4 == 3 && 0 <= y < m && y % 2 == 0 && RootOfMinusOneModulo(m, y)
    ensures 0 < k < m && k % 4 == 3 && RootOfMinusOneModulo(k, y)
  {
    k := Cofactor(m, y);
    hide RootOfMinusOneModulo, Divides;
    EvenSquare(y);
    SmallSquare(m, y);
    CofactorBounds(m, k, y * y);
    CofactorRoot(m, y, k);
  }

  lemma CofactorBounds(m: int, k: int, square: int)
    requires m > 0 && m % 4 == 3 && square % 4 == 0 && square + 1 == m * k && square + 1 < m * m
    ensures k < m && k % 4 == 3
  {
    PlusOneMod4(square);
    CofactorMod4(m, k);
    SmallerCofactor(m, k);
  }

  lemma PlusOneMod4(x: int)
    requires x % 4 == 0
    ensures (x + 1) % 4 == 1
  {
  }

  lemma Cofactor(m: int, y: int) returns (k: int)
    requires m > 0 && RootOfMinusOneModulo(m, y)
    ensures y * y + 1 == m * k && k > 0
  {
    k := Quotient(m, y * y + 1);
    SquareNonneg(y);
    MulPositive(m, k);
  }

  lemma SquareNonneg(y: int)
    ensures y * y >= 0
  {
  }

  lemma CofactorRoot(m: int, y: int, k: int)
    requires k > 0 && y * y + 1 == m * k
    ensures RootOfMinusOneModulo(k, y)
  {
    Multiple(k, y * y + 1, m);
  }

  ghost predicate RootOfMinusOneModulo(m: int, x: int) {
    Divides(m, x * x + 1)
  }

  lemma EvenRoot(m: int, x: int) returns (y: int)
    requires m > 0 && m % 2 == 1 && RootOfMinusOneModulo(m, x)
    ensures 0 <= y <= m && y % 2 == 0 && RootOfMinusOneModulo(m, y) && (m > 1 ==> y < m)
  {
    hide RootOfMinusOneModulo;
    y := ReducedRoot(m, x);
    if y % 2 == 1 {
      OppositeRoot(m, y);
      y := m - y;
    }
  }

  lemma ReducedRoot(m: int, x: int) returns (r: int)
    requires m > 0 && RootOfMinusOneModulo(m, x)
    ensures 0 <= r < m && RootOfMinusOneModulo(m, r)
  {
    r := x % m;
    DivMod(x, m);
    var k := Quotient(m, x * x + 1);
    ShiftRoot(m, x, k, x / m, r);
  }

  lemma OppositeRoot(m: int, r: int)
    requires m > 0 && RootOfMinusOneModulo(m, r)
    ensures RootOfMinusOneModulo(m, m - r)
  {
    var j := Quotient(m, r * r + 1);
    assert (m - r) * (m - r) + 1 == r * r + 1 + m * (m - 2 * r);
    assert m * j + m * (m - 2 * r) == m * (j + m - 2 * r);
    Multiple(m, (m - r) * (m - r) + 1, j + m - 2 * r);
  }

  lemma ShiftRoot(m: int, x: int, k: int, q: int, r: int)
    requires m > 0 && x == q * m + r && x * x + 1 == m * k
    ensures Divides(m, r * r + 1)
  {
    assert x * x == r * r + m * (q * (q * m) + 2 * (q * r));
    assert m * k - m * (q * (q * m) + 2 * (q * r)) == m * (k - (q * (q * m) + 2 * (q * r)));
    Multiple(m, r * r + 1, k - (q * (q * m) + 2 * (q * r)));
  }

  lemma EvenSquare(y: int)
    requires y % 2 == 0
    ensures y * y % 4 == 0
  {
    var h := y / 2;
    assert y * y == 4 * (h * h);
  }

  lemma SmallSquare(m: int, y: int)
    requires 0 <= y < m && m > 1
    ensures y * y + 1 < m * m
  {
    MulMono(y, y, m - 1);
    MulMono(m - 1, y, m - 1);
    assert (m - 1) * (m - 1) == m * m - 2 * m + 1;
  }

  lemma CofactorMod4(m: int, k: int)
    requires m % 4 == 3 && m * k % 4 == 1
    ensures k % 4 == 3
  {
    var a, b, c := m / 4, k / 4, k % 4;
    assert m * k == (4 * a + 3) * (4 * b + c) == 4 * (a * (4 * b + c) + 3 * b) + 3 * c;
  }

  lemma SmallerCofactor(m: int, k: int)
    requires m > 0 && m * k < m * m
    ensures k < m
  {
    if k >= m { MulMono(m, m, k); }
  }

  // ---- Inverses and Euclid's lemma ---------------------------------------------------

  lemma {:induction false} Inverse(p: int, y: int) returns (z: int, k: int)
    requires IsPrime(p) && 0 < y < p
    ensures y * z == 1 + p * k
    decreases y
  {
    if y == 1 {
      z, k := 1, 0;
    } else {
      var q, r := p / y, p % y;
      DivMod(p, y);
      assert !Divides(y, p);
      var z', k' := Inverse(p, r);
      z, k := -(q * z'), k' - z';
      BackSubstitute(p, y, q, r, z', k');
    }
  }

  lemma BackSubstitute(p: int, y: int, q: int, r: int, z: int, k: int)
    requires p == q * y + r && r * z == 1 + p * k
    ensures y * -(q * z) == 1 + p * (k - z)
  {
    assert (p - q * y) * z == p * z - y * (q * z);
    assert p * (k - z) == p * k - p * z;
  }

  lemma Euclid(p: int, a: int, b: int)
    requires IsPrime(p) && Divides(p, a * b) && !Divides(p, a)
    ensures Divides(p, b)
  {
    var q, r := a / p, a % p;
    DivMod(a, p);
    var z, k := Inverse(p, r);
    var j := Quotient(p, a * b);
    hide Divides, IsPrime;
    EuclidIdentity(p, a, b, q, r, z, k, j);
    Multiple(p, b, z * (j - q * b) - k * b);
  }

  lemma EuclidIdentity(p: int, a: int, b: int, q: int, r: int, z: int, k: int, j: int)
    requires a == q * p + r && r * z == 1 + p * k && a * b == p * j
    ensures b == p * (z * (j - q * b) - k * b)
  {
    // b == b * (r * z) - p * k * b, and r * b == a * b - q * p * b
    calc {
      b;
      { assert r * z * b == b + p * k * b; }
      r * z * b - p * k * b;
      { assert r * z * b == z * (r * b); assert r * b == a * b - q * p * b; }
      z * (a * b - q * p * b) - p * k * b;
      { assert z * (p * j - q * p * b) == p * (z * (j - q * b)); }
      p * (z * (j - q * b)) - p * (k * b);
      p * (z * (j - q * b) - k * b);
    }
  }

  /** Minus one times a nonzero square is not a square modulo a prime congruent to 3 modulo 4. */
  lemma NoOppositeSquares(p: int, x: int, y: int)
    requires IsPrime(p) && p % 4 == 3 && 0 < y < p
    ensures !Divides(p, x * x + y * y)
  {
    if Divides(p, x * x + y * y) {
      var z, k := Inverse(p, y);
      var j := Quotient(p, x * x + y * y);
      RootOfMinusOne(p, x, y, z, k, j);
      MinusOneNotSquare(p, x * z);
      assert false;
    }
  }

  lemma RootOfMinusOne(p: int, x: int, y: int, z: int, k: int, j: int)
    requires p > 0 && y * z == 1 + p * k && x * x + y * y == p * j
    ensures Divides(p, x * z * (x * z) + 1)
  {
    var c := k * (2 + p * k);
    UnitSquare(p, k);
    calc {
      x * z * (x * z);
      z * z * (x * x);
      z * z * (p * j - y * y);
      { assert z * z * (p * j) == p * (z * z * j); }
      p * (z * z * j) - z * z * (y * y);
      { assert z * z * (y * y) == y * z * (y * z); }
      p * (z * z * j) - (1 + p * c);
    }
    assert p * (z * z * j - c) == p * (z * z * j) - p * c;
    Multiple(p, x * z * (x * z) + 1, z * z * j - c);
  }

  lemma UnitSquare(p: int, k: int)
    ensures (1 + p * k) * (1 + p * k) == 1 + p * (k * (2 + p * k))
  {
    var u := p * k;
    assert (1 + u) * (1 + u) == 1 + (2 * u + u * u);
    assert p * (k * (2 + u)) == u * (2 + u);
  }
}
