/**
A certificate that 4294967291 is prime. If some power sequence modulo `n` repeats first after
`f` steps modulo every divisor of `n`, then every divisor other than one is at least `f`; when
`f * f > n`, no factorisation is left. The certificate goes through the primes 181 and 22605091.
*/
module Primality {
  import opened Bits
  import opened NumberTheory
  import opened Sets

  function Pow(b: int, e: nat): int {
    if e == 0 then 1 else b * Pow(b, e - 1)
  }

  lemma {:induction false} PowAdd(b: int, x: nat, y: nat)
    ensures Pow(b, x + y) == Pow(b, x) * Pow(b, y)
  {
    if x == 0 {
    } else {
      PowAdd(b, x - 1, y);
      assert b * (Pow(b, x - 1) * Pow(b, y)) == b * Pow(b, x - 1) * Pow(b, y);
    }
  }

  /** Repeated squaring. */
  function ModPow(b: int, e: nat, m: int): int
    requires m > 0
  {
    if e == 0 then 1 % m
    else
      var h := ModPow(b, e / 2, m);
      var s := h * h % m;
      if e % 2 == 1 then s * b % m else s
  }

  ghost predicate Cong(x: int, y: int, m: int) {
    Divides(m, x - y)
  }

  lemma CongMod(x: int, m: int)
    requires m > 0
    ensures Cong(x % m, x, m)
  {
    DivMod(x, m);
    Multiple(m, x % m - x, -(x / m));
  }

  lemma CongMul(x: int, y: int, u: int, v: int, m: int)
    requires m > 0 && Cong(x, y, m) && Cong(u, v, m)
    ensures Cong(x * u, y * v, m)
  {
    var j := Quotient(m, x - y);
    var k := Quotient(m, u - v);
    assert x * u - y * v == (x - y) * u + y * (u - v);
    assert m * j * u + y * (m * k) == m * (j * u + y * k);
    Multiple(m, x * u - y * v, j * u + y * k);
  }

  lemma CongTrans(x: int, y: int, z: int, m: int)
    requires m > 0 && Cong(x, y, m) && Cong(y, z, m)
    ensures Cong(x, z, m) && Cong(z, x, m)
  {
    var j := Quotient(m, x - y);
    var k := Quotient(m, y - z);
    assert m * j + m * k == m * (j + k);
    assert -(m * (j + k)) == m * -(j + k);
    Multiple(m, x - z, j + k);
    Multiple(m, z - x, -(j + k));
  }

  lemma CongSame(x: int, y: int, m: int)
    requires m > 0
    ensures Cong(x, x, m)
    ensures x % m == y % m ==> Cong(x, y, m)
  {
    ModUnique(0, m, 0, 0);
    if x % m == y % m {
      DivMod(x, m);
      DivMod(y, m);
      assert m * (x / m - y / m) == x / m * m - y / m * m;
      Multiple(m, x - y, x / m - y / m);
    }
  }

  lemma {:induction false} ModPowIsPow(b: int, e: nat, m: int)
    requires m > 0
    ensures Cong(ModPow(b, e, m), Pow(b, e), m)
  {
    if e == 0 {
      CongMod(1, m);
    } else {
      var h, k := ModPow(b, e / 2, m), e / 2;
      ModPowIsPow(b, k, m);
      CongMul(h, Pow(b, k), h, Pow(b, k), m);
      PowAdd(b, k, k);
      CongMod(h * h, m);
      CongTrans(h * h % m, h * h, Pow(b, k + k), m);
      if e % 2 == 1 {
        CongSame(b, b, m);
        CongMul(h * h % m, Pow(b, k + k), b, b, m);
        CongMod(h * h % m * b, m);
        assert Pow(b, k + k) * b == Pow(b, e);
        CongTrans(h * h % m * b % m, h * h % m * b, Pow(b, e), m);
      }
    }
  }

  /** A congruence modulo `n` holds modulo every divisor of `n`. */
  lemma CongDivisor(x: int, y: int, n: int, r: int)
    requires n > 0 && r > 0 && Divides(r, n) && Cong(x, y, n)
    ensures Cong(x, y, r)
  {
    var j := Quotient(r, n);
    var k := Quotient(n, x - y);
    assert r * j * k == r * (j * k);
    Multiple(r, x - y, j * k);
  }

  /** Exponents that give one are closed under subtraction, hence under common divisors. */
  lemma {:induction false} CommonExponent(b: int, x: nat, y: nat, r: int) returns (g: nat)
    requires r > 0 && x > 0 && y > 0 && Cong(Pow(b, x), 1, r) && Cong(Pow(b, y), 1, r)
    ensures 0 < g <= x && Divides(g, x) && Divides(g, y) && Cong(Pow(b, g), 1, r)
    decreases x + y
  {
    if x == y {
      g := x;
      Multiple(g, x, 1);
    } else if x > y {
      DropExponent(b, x, y, r);
      g := CommonExponent(b, x - y, y, r);
      SumDivides(g, x - y, y);
    } else {
      DropExponent(b, y, x, r);
      g := CommonExponent(b, x, y - x, r);
      SumDivides(g, y - x, x);
    }
  }

  lemma SumDivides(g: int, x: int, y: int)
    requires g > 0 && Divides(g, x) && Divides(g, y)
    ensures Divides(g, x + y)
  {
    var j := Quotient(g, x);
    var k := Quotient(g, y);
    assert g * j + g * k == g * (j + k);
    Multiple(g, x + y, j + k);
  }

  lemma DropExponent(b: int, x: nat, y: nat, r: int)
    requires r > 0 && x > y && Cong(Pow(b, x), 1, r) && Cong(Pow(b, y), 1, r)
    ensures Cong(Pow(b, x - y), 1, r)
  {
    var d := Pow(b, x - y);
    PowAdd(b, x - y, y);
    CongSame(d, d, r);
    CongMul(d, d, Pow(b, y), 1, r);
    assert d * 1 == d;
    CongSame(1, 1, r);
    CongTrans(Pow(b, x), 1, 1, r);
    CongTrans(1, Pow(b, x), d, r);
  }

  lemma {:induction false} PowOne(b: int, g: nat, k: nat, r: int)
    requires r > 0 && Cong(Pow(b, g), 1, r)
    ensures Cong(Pow(b, g * k), 1, r)
  {
    if k == 0 {
      CongSame(1, 1, r);
    } else {
      PowOne(b, g, k - 1, r);
      assert g * k == g + g * (k - 1);
      PowAdd(b, g, g * (k - 1));
      CongMul(Pow(b, g), 1, Pow(b, g * (k - 1)), 1, r);
    }
  }

  lemma {:induction false} Images(f: nat -> nat, count: nat) returns (image: set<nat>)
    requires forall i: nat, j: nat :: i < j < count ==> f(i) != f(j)
    ensures |image| == count && forall x :: x in image ==> exists i: nat :: i < count && x == f(i)
  {
    if count == 0 {
      image := {};
    } else {
      image := Images(f, count - 1);
      assert f(count - 1) !in image;
      image := image + {f(count - 1)};
    }
  }

  /** An injective function on `count` numbers cannot have all its values below a smaller bound. */
  lemma Pigeonhole(f: nat -> nat, count: nat, bound: nat)
    requires forall i: nat, j: nat :: i < j < count ==> f(i) != f(j)
    requires forall i: nat :: i < count ==> f(i) < bound
    ensures count <= bound
  {
    var image := Images(f, count);
    BelowSize(image, bound);
  }

  /** Modulo `n`, the power `f` of `b` is one and the power `e` is one nowhere: not modulo any
      divisor of `n`. Every proper divisor of `f` divides `e`. */
  ghost predicate IsCertificate(n: int, b: int, f: nat, e: nat, u: int) {
    && n >= 2 && f > 0 && f * f > n
    && Cong(Pow(b, f), 1, n)
    && Cong((Pow(b, e) - 1) * u, 1, n)
    && forall g :: 1 <= g < f && Divides(g, f) ==> Divides(g, e)
  }

  lemma PowersDiffer(n: int, b: int, f: nat, e: nat, u: int, r: int, i: nat, j: nat)
    requires IsCertificate(n, b, f, e, u) && r > 1 && Divides(r, n) && i < j < f
    ensures Pow(b, i) % r != Pow(b, j) % r
  {
    if Pow(b, i) % r == Pow(b, j) % r {
      RepeatGivesOne(n, b, f, r, i, j);
      CongDivisor(Pow(b, f), 1, n, r);
      var g := CommonExponent(b, j - i, f, r);
      assert Divides(g, e);
      var k := Quotient(g, e);
      DivNonneg(e, g);
      PowOne(b, g, k, r);
      NoUnit(n, b, e, u, r);
      assert false;
    }
  }

  lemma RepeatGivesOne(n: int, b: int, f: nat, r: int, i: nat, j: nat)
    requires n > 0 && r > 0 && Divides(r, n) && i < j < f && Cong(Pow(b, f), 1, n)
    requires Pow(b, i) % r == Pow(b, j) % r
    ensures Cong(Pow(b, j - i), 1, r)
  {
    CongDivisor(Pow(b, f), 1, n, r);
    var c, d := Pow(b, f - i), Pow(b, j - i);
    CongSame(Pow(b, i), Pow(b, j), r);
    CongSame(c, c, r);
    CongMul(Pow(b, i), Pow(b, j), c, c, r);
    PowAdd(b, i, f - i);
    PowAdd(b, j, f - i);
    PowAdd(b, j - i, f);
    assert Cong(Pow(b, f), d * Pow(b, f), r);
    CongSame(d, d, r);
    CongMul(d, d, Pow(b, f), 1, r);
    CongTrans(Pow(b, f), d * Pow(b, f), d * 1, r);
    CongTrans(d * 1, Pow(b, f), 1, r);
  }

  lemma NoUnit(n: int, b: int, e: nat, u: int, r: int)
    requires n > 0 && r > 1 && Divides(r, n) && Cong((Pow(b, e) - 1) * u, 1, n)
    ensures !Cong(Pow(b, e), 1, r)
  {
    CongDivisor((Pow(b, e) - 1) * u, 1, n, r);
    if Cong(Pow(b, e), 1, r) {
      var j := Quotient(r, Pow(b, e) - 1);
      var k := Quotient(r, (Pow(b, e) - 1) * u - 1);
      assert r * j * u == r * (j * u);
      assert r * (j * u - k) == r * (j * u) - r * k;
      ModUnique(1, r, 0, 1);
      ModUnique(1, r, j * u - k, 0);
      assert false;
    }
  }

  lemma CofactorBound(m: int, k: int)
    requires m > 1 && k > 0 && m * k > m
    ensures k > 1
  {
  }

  function Residue(b: int, i: nat, r: int): (x: nat)
    ensures r > 0 ==> x < r
  {
    if r > 0 then Pow(b, i) % r else 0
  }

  lemma DivisorIsLarge(n: int, b: int, f: nat, e: nat, u: int, r: int)
    requires IsCertificate(n, b, f, e, u) && r > 1 && Divides(r, n)
    ensures r >= f
  {
    hide IsCertificate, Pow, Divides;
    var residue := (i: nat) => Residue(b, i, r);
    forall i: nat, j: nat | i < j < f
      ensures residue(i) != residue(j)
    {
      PowersDiffer(n, b, f, e, u, r, i, j);
    }
    Pigeonhole(residue, f, r);
  }

  lemma Certified(n: int, b: int, f: nat, e: nat, u: int)
    requires IsCertificate(n, b, f, e, u)
    ensures IsPrime(n)
  {
    forall m | 2 <= m < n
      ensures !Divides(m, n)
    {
      if Divides(m, n) {
        DivisorIsLarge(n, b, f, e, u, m);
        var k := Quotient(m, n);
        MulPositive(m, k);
        CofactorBound(m, k);
        Multiple(k, n, m);
        DivisorIsLarge(n, b, f, e, u, k);
        MulMono(m, f, k);
        MulMono(f, f, m);
        assert false;
      }
    }
  }

  // ---- The certificate ---------------------------------------------------------------

  lemma Prime181()
    ensures IsPrime(181)
  {
    forall m | 2 <= m < 181
      ensures !Divides(m, 181)
    {
      if Divides(m, 181) {
        var k := Quotient(m, 181);
        MulPositive(m, k);
        CofactorBound(m, k);
        Multiple(k, 181, m);
        if m >= 14 && k >= 14 { MulMono(m, 14, k); }
        assert forall i :: 2 <= i < 14 ==> !Divides(i, 181);
        assert false;
      }
    }
  }

  lemma ProperDivisorsOf181Squared(g: int)
    requires 1 <= g < 32761 && Divides(g, 32761)
    ensures Divides(g, 181)
  {
    var h := Quotient(g, 32761);
    MulPositive(g, h);
    Prime181();
    Multiple(181, g * h, 181);
    if Divides(181, g) {
      var g' := Quotient(181, g);
      assert 181 * g' * h == 181 * (g' * h);
      FactorOf181(g', h);
    } else {
      Euclid(181, g, h);
      var h' := Quotient(181, h);
      assert g * (181 * h') == 181 * (g * h');
      Multiple(g, 181, h');
    }
  }

  /** A cofactor of a number below 181 squared is not one, so the other factor is. */
  lemma FactorOf181(g: int, h: int)
    requires g * h == 181 && 1 <= 181 * g < 32761
    ensures Divides(181 * g, 181)
  {
    MulPositive(g, h);
    Multiple(h, 181, g);
    Prime181();
    assert h == 1 || h >= 181;
    MulMono(h, 1, g);
    if g >= 2 && h >= 181 { MulMono(h, 2, g); }
    ModUnique(181, 181, 1, 0);
  }

  lemma FirstModPower(b: int, m: int)
    requires m > 1 && 0 <= b < m
    ensures ModPow(b, 1, m) == b
  {
    ModUnique(1, m, 0, 1);
    ModUnique(b, m, 0, b);
  }

  /** One squaring step, checked by multiplication only: `h * h` is `k * m + s`. */
  lemma Square(b: int, e: nat, m: int, h: int, k: int, s: int)
    requires e > 0 && 0 <= s < m && ModPow(b, e, m) == h && h * h == k * m + s
    ensures ModPow(b, 2 * e, m) == s
  {
    ModUnique(h * h, m, k, s);
  }

  lemma OddPower(b: int, e: nat, m: int)
    requires m > 0
    ensures ModPow(b, 2 * e + 1, m) == ModPow(b, e, m) * ModPow(b, e, m) % m * b % m
  {
    assert (2 * e + 1) / 2 == e && (2 * e + 1) % 2 == 1;
  }

  lemma SquareTimes(b: int, e: nat, m: int, h: int, k: int, s: int, l: int, r: int)
    requires e > 0 && 0 <= s < m && ModPow(b, e, m) == h && h * h == k * m + s
    requires 0 <= r < m && s * b == l * m + r
    ensures ModPow(b, 2 * e + 1, m) == r
  {
    hide ModPow;
    ModUnique(h * h, m, k, s);
    ModUnique(s * b, m, l, r);
    OddPower(b, e, m);
  }

  lemma PowersMod22605091()
    ensures ModPow(18389778, 32761, 22605091) == 1
    ensures ModPow(18389778, 181, 22605091) == 13954217
  {
    hide ModPow;
    FirstModPower(18389778, 22605091);
    SquareTimes(18389778, 1, 22605091, 18389778, 14960520, 18881964, 15360925, 18694817);
    SquareTimes(18389778, 3, 22605091, 18694817, 15460950, 967039, 786709, 3991823);
    SquareTimes(18389778, 7, 22605091, 3991823, 704914, 5746155, 4674633, 10446987);
    SquareTimes(18389778, 15, 22605091, 10446987, 4828095, 10546524, 8579847, 12830595);
    SquareTimes(18389778, 31, 22605091, 12830595, 7282614, 15866151, 12907490, 8572888);
    SquareTimes(18389778, 63, 22605091, 8572888, 3251232, 13438432, 10932483, 8077143);
    SquareTimes(18389778, 127, 22605091, 8077143, 2886086, 2378623, 1935066, 5894688);
    SquareTimes(18389778, 255, 22605091, 5894688, 1537146, 21407058, 17415149, 16329565);
    SquareTimes(18389778, 511, 22605091, 16329565, 11796222, 21323023, 17346785, 5776459);
    SquareTimes(18389778, 1023, 22605091, 5776459, 1476104, 13333217, 10846888, 10349018);
    SquareTimes(18389778, 2047, 22605091, 10349018, 4737966, 20979418, 17067254, 9799090);
    Square(18389778, 4095, 22605091, 9799090, 4247811, 10622299);
    Square(18389778, 8190, 22605091, 10622299, 4991496, 14739265);
    SquareTimes(18389778, 16380, 22605091, 14739265, 9610486, 22155999, 18024431, 1);
    FirstModPower(18389778, 22605091);
    Square(18389778, 1, 22605091, 18389778, 14960520, 18881964);
    SquareTimes(18389778, 2, 22605091, 18881964, 15772047, 6806019, 5536857, 22134795);
    SquareTimes(18389778, 5, 22605091, 22134795, 21674283, 10117272, 8230640, 19857376);
    Square(18389778, 11, 22605091, 19857376, 17443653, 18167953);
    SquareTimes(18389778, 22, 22605091, 18167953, 14601777, 18363502, 14939144, 15500452);
    Square(18389778, 45, 22605091, 15500452, 10628756, 15607508);
    SquareTimes(18389778, 90, 22605091, 15607508, 10776081, 14341693, 11667307, 13954217);
  }

  lemma Prime22605091()
    ensures IsPrime(22605091)
  {
    hide ModPow, Pow, IsPrime;
    var n, b := 22605091, 18389778;
    PowersMod22605091();
    ModPowIsPow(b, 32761, n);
    ModPowIsPow(b, 181, n);
    CongSame(1, 1, n);
    CongTrans(1, 1, Pow(b, 32761), n);
    UnitFrom(Pow(b, 181), 13954217, 19569746, n);
    forall g | 1 <= g < 32761 && Divides(g, 32761)
      ensures Divides(g, 181)
    {
      ProperDivisorsOf181Squared(g);
    }
    Certified(n, b, 32761, 181, 19569746);
  }

  lemma UnitFrom(x: int, y: int, u: int, n: int)
    requires n > 1 && Cong(y, x, n) && (y - 1) * u % n == 1
    ensures Cong((x - 1) * u, 1, n)
  {
    CongSame(u, u, n);
    assert (y - 1) - (x - 1) == y - x;
    CongMul(y - 1, x - 1, u, u, n);
    ModUnique(1, n, 0, 1);
    CongSame(1, (y - 1) * u, n);
    CongTrans(1, (y - 1) * u, (x - 1) * u, n);
  }

  lemma PowerMod4294967291()
    ensures ModPow(1073745729, 22605091, 4294967291) == 1
  {
    hide ModPow;
    FirstModPower(1073745729, 4294967291);
    Square(1073745729, 1, 4294967291, 1073745729, 268437408, 3504919713);
    SquareTimes(1073745729, 2, 4294967291, 3504919713, 2860199243, 148041656, 37010548, 2762101756);
    Square(1073745729, 5, 4294967291, 2762101756, 1776312971, 1474251975);
    SquareTimes(1073745729, 10, 4294967291, 1474251975, 506038518, 2995285887, 748824195, 4065820878);
    SquareTimes(1073745729, 21, 4294967291, 4065820878, 3848899954, 3219286270, 804824495, 1820247785);
    Square(1073745729, 43, 4294967291, 1820247785, 771438237, 3855700258);
    Square(1073745729, 86, 4294967291, 3855700258, 3461359184, 1858816020);
    Square(1073745729, 172, 4294967291, 1858816020, 804475741, 2210652769);
    SquareTimes(1073745729, 344, 4294967291, 2210652769, 1137840019, 1091548832, 272888200, 3255072328);
    SquareTimes(1073745729, 689, 4294967291, 3255072328, 2466956123, 3894166791, 973545239, 2036108090);
    SquareTimes(1073745729, 1379, 4294967291, 2036108090, 965254418, 1360206462, 340052852, 2579436866);
    Square(1073745729, 2759, 4294967291, 2579436866, 1549137419, 1810740027);
    SquareTimes(1073745729, 5518, 4294967291, 1810740027, 763400329, 2386321990, 596582667, 3638735613);
    SquareTimes(1073745729, 11037, 4294967291, 3638735613, 3082770127, 177569812, 44392614, 2142344274);
    Square(1073745729, 22075, 4294967291, 2142344274, 1068608601, 164317185);
    SquareTimes(1073745729, 44150, 4294967291, 164317185, 6286459, 1505111656, 376279282, 3827152162);
    Square(1073745729, 88301, 4294967291, 3827152162, 3410292251, 305512203);
    Square(1073745729, 176602, 4294967291, 305512203, 21731878, 999910711);
    SquareTimes(1073745729, 353204, 4294967291, 999910711, 232789067, 1505118024, 376280874, 3852027162);
    Square(1073745729, 706409, 4294967291, 3852027162, 3454767464, 894754220);
    Square(1073745729, 1412818, 4294967291, 894754220, 186400747, 2824842023);
    Square(1073745729, 2825636, 4294967291, 2824842023, 1857926245, 3541280234);
    SquareTimes(1073745729, 5651272, 4294967291, 3541280234, 2919851269, 779252477, 194813827, 4191888076);
    SquareTimes(1073745729, 11302545, 4294967291, 4191888076, 4091282762, 688844034, 172211635, 1);
  }

  lemma Prime4294967291()
    ensures IsPrime(4294967291)
  {
    hide ModPow, Pow;
    var n, b, f := 4294967291, 1073745729, 22605091;
    Prime22605091();
    PowerMod4294967291();
    ModPowIsPow(b, f, n);
    CongSame(1, 1, n);
    CongTrans(1, 1, Pow(b, f), n);
    FirstPower(b);
    CongSame(b, b, n);
    UnitFrom(b, b, 1771216906, n);
    forall g | 1 <= g < f && Divides(g, f)
      ensures Divides(g, 1)
    {
      assert g == 1;
    }
    Certified(n, b, f, 1, 1771216906);
  }

  lemma FirstPower(b: int)
    ensures Pow(b, 1) == b
  {
  }
}
