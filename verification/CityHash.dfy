/**
The final mixing of CityHash and its seeded forms, on 64-bit words. The unseeded hash of a
string is a parameter: nothing below depends on how it is computed.
*/
module CityHash {
  import opened Bits
  import opened Words

  const K_MUL: int := 0x9ddf_ea08_eb38_2d69
  const K2: int := 0x9ae1_6a3b_2f90_404f
  /** The inverse of `K_MUL` modulo 2^64. */
  const K_MUL_INVERSE: int := 0xdc56_e6f5_090b_32d9

  function Times(x: UInt64, k: UInt64): (r: UInt64) {
    x * k % B64
  }

  function WordXor(x: UInt64, y: UInt64): (r: UInt64) {
    XorFits(x, y);
    Xor(x, y)
  }

  lemma XorFits(x: UInt64, y: UInt64)
    ensures Xor(x, y) < B64
  {
    Pow2Values();
    XorBelow(x, y, 64);
  }

  lemma {:induction false} XorBelow(x: nat, y: nat, k: nat)
    requires x < Pow2(k) && y < Pow2(k)
    ensures Xor(x, y) < Pow2(k)
  {
    if k == 0 {
    } else {
      XorBelow(x / 2, y / 2, k - 1);
    }
  }

  function ShiftMix(val: UInt64): (r: UInt64) {
    WordXor(val, val / 0x8000_0000_0000)
  }

  function Hash128to64(low: UInt64, high: UInt64): (r: UInt64) {
    var a := Times(WordXor(low, high), K_MUL);
    var b := Times(WordXor(high, ShiftMix(a)), K_MUL);
    Times(ShiftMix(b), K_MUL)
  }

  function HashLen16(u: UInt64, v: UInt64): UInt64 {
    Hash128to64(u, v)
  }

  function CityHash64WithSeeds<Str>(cityHash64: Str -> UInt64, s: Str, seed0: UInt64, seed1: UInt64): (r: UInt64) {
    HashLen16((cityHash64(s) as int - seed0) % B64, seed1)
  }

  function CityHash64WithSeed<Str>(cityHash64: Str -> UInt64, s: Str, seed: UInt64): (r: UInt64) {
    CityHash64WithSeeds(cityHash64, s, K2, seed)
  }

  /** The low word that a given high word turns into `h`. */
  function Unhash(h: UInt64, high: UInt64): (r: UInt64) {
    var b := Times(ShiftMix(Times(h, K_MUL_INVERSE)), K_MUL_INVERSE);
    var a := Times(ShiftMix(WordXor(b, high)), K_MUL_INVERSE);
    WordXor(a, high)
  }

  /** A right shift by more than half the word, xored in, is undone by doing it again. */
  lemma ShiftMixInvolution(x: UInt64)
    ensures ShiftMix(ShiftMix(x)) == x
  {
    hide Bitwise;
    var p, h, l := 0x8000_0000_0000, x / 0x8000_0000_0000, x % 0x8000_0000_0000;
    assert Pow2(47) == p by { Pow2Values(); Pow2Add(32, 8); Pow2Add(40, 7); }
    XorBelow(l, h, 47);
    Split(XOR, 47, h, l, 0, h);
    BitwiseZero(XOR, h);
    ModUnique(Xor(x, h), p, h, Xor(l, h));
    XorInvolution(x, h);
  }

  /** Multiplication by an odd constant is undone by its inverse. */
  lemma OddMultiplication(x: UInt64, k: UInt64, inverse: UInt64, c: int)
    requires k * inverse == 1 + c * B64
    ensures Times(Times(x, k), inverse) == x
  {
    var q := x * k / B64;
    DivMod(x * k, B64);
    calc {
      (x * k - q * B64) * inverse;
      x * k * inverse - q * B64 * inverse;
      { assert x * k * inverse == x * (k * inverse); assert q * B64 * inverse == q * inverse * B64; }
      x * (1 + c * B64) - q * inverse * B64;
      { assert x * (1 + c * B64) == x + x * c * B64; }
      x + x * c * B64 - q * inverse * B64;
      (x * c - q * inverse) * B64 + x;
    }
    ModUnique(Times(x, k) * inverse, B64, x * c - q * inverse, x);
  }

  lemma MulInvertible(x: UInt64)
    ensures Times(Times(x, K_MUL), K_MUL_INVERSE) == x && Times(Times(x, K_MUL_INVERSE), K_MUL) == x
  {
    var c := 0x87e204c6924610f8;
    assert K_MUL * K_MUL_INVERSE == 1 + c * B64;
    OddMultiplication(x, K_MUL, K_MUL_INVERSE, c);
    OddMultiplication(x, K_MUL_INVERSE, K_MUL, c);
  }

  lemma XorTwice(x: UInt64, y: UInt64)
    ensures WordXor(WordXor(x, y), y) == x && WordXor(WordXor(y, x), y) == x && WordXor(y, WordXor(x, y)) == x
  {
    XorInvolution(x, y);
    XorCommutes(x, y);
    XorCommutes(y, Xor(x, y));
  }

  lemma {:induction false} XorCommutes(x: nat, y: nat)
    ensures Xor(x, y) == Xor(y, x)
    decreases x + y
  {
    if x + y == 0 {
    } else {
      XorCommutes(x / 2, y / 2);
    }
  }

  /** With the high word fixed, the mixing is a bijection of the low word. */
  lemma HashIsBijection(x: UInt64, high: UInt64)
    ensures Unhash(Hash128to64(x, high), high) == x
    ensures Hash128to64(Unhash(x, high), high) == x
  {
    hide Times, WordXor, ShiftMix;
    var a := Times(WordXor(x, high), K_MUL);
    var b := Times(WordXor(high, ShiftMix(a)), K_MUL);
    MulInvertible(ShiftMix(b));
    ShiftMixInvolution(b);
    MulInvertible(WordXor(high, ShiftMix(a)));
    XorTwice(ShiftMix(a), high);
    ShiftMixInvolution(a);
    MulInvertible(WordXor(x, high));
    XorTwice(x, high);
    var d := Times(x, K_MUL_INVERSE);
    var c := Times(ShiftMix(d), K_MUL_INVERSE);
    MulInvertible(x);
    ShiftMixInvolution(d);
    MulInvertible(ShiftMix(d));
    XorTwice(c, high);
    ShiftMixInvolution(WordXor(c, high));
    MulInvertible(ShiftMix(WordXor(c, high)));
    XorTwice(Times(ShiftMix(WordXor(c, high)), K_MUL_INVERSE), high);
  }

  lemma SeedKeepsCollisions<Str>(cityHash64: Str -> UInt64, s: Str, t: Str, seed0: UInt64, seed1: UInt64)
    ensures CityHash64WithSeeds(cityHash64, s, seed0, seed1) == CityHash64WithSeeds(cityHash64, t, seed0, seed1)
       <==> cityHash64(s) == cityHash64(t)
  {
    hide Hash128to64, Unhash;
    var x, y: int := cityHash64(s), cityHash64(t);
    HashIsBijection((x - seed0) % B64, seed1);
    HashIsBijection((y - seed0) % B64, seed1);
  }

  /** Seeding neither adds nor removes collisions, with two seeds or with one. */
  lemma SeedsKeepCollisions<Str>(cityHash64: Str -> UInt64, s: Str, t: Str, seed0: UInt64, seed1: UInt64)
    ensures CityHash64WithSeeds(cityHash64, s, seed0, seed1) == CityHash64WithSeeds(cityHash64, t, seed0, seed1)
       <==> cityHash64(s) == cityHash64(t)
    ensures CityHash64WithSeed(cityHash64, s, seed1) == CityHash64WithSeed(cityHash64, t, seed1)
       <==> cityHash64(s) == cityHash64(t)
  {
    SeedKeepsCollisions(cityHash64, s, t, seed0, seed1);
    SeedKeepsCollisions(cityHash64, s, t, K2, seed1);
  }

  /** The seeds by what they do: undoing the mixing with the second and adding the first gives
      the unseeded hash back. With one seed the first is a constant. */
  lemma SeedsAre<Str>(cityHash64: Str -> UInt64, s: Str, seed0: UInt64, seed1: UInt64)
    ensures (Unhash(CityHash64WithSeeds(cityHash64, s, seed0, seed1), seed1) + seed0) % B64 == cityHash64(s)
    ensures (Unhash(CityHash64WithSeed(cityHash64, s, seed1), seed1) + 0x9ae1_6a3b_2f90_404f) % B64 == cityHash64(s)
  {
    hide Hash128to64, Unhash;
    var x: int := cityHash64(s);
    HashIsBijection((x - seed0) % B64, seed1);
    HashIsBijection((x - K2) % B64, seed1);
  }

  // ---- Values ------------------------------------------------------------------------

  lemma SmallMix(x: UInt64)
    requires x < 0x8000_0000_0000
    ensures ShiftMix(x) == x
  {
    BitwiseZero(XOR, x);
  }

  lemma SmallXor()
    ensures WordXor(K_MUL_INVERSE - 1, 1) == K_MUL_INVERSE && WordXor(1, K_MUL_INVERSE - 1) == K_MUL_INVERSE
    ensures WordXor(K_MUL_INVERSE, 0) == K_MUL_INVERSE && WordXor(1, 1) == 0 && WordXor(0, 1) == 1
  {
    var half := K_MUL_INVERSE / 2;
    Unfold(XOR, K_MUL_INVERSE - 1, 1, half, 0, 0, 1);
    Unfold(XOR, 1, K_MUL_INVERSE - 1, 0, 1, half, 0);
    BitwiseZero(XOR, half);
    BitwiseZero(XOR, K_MUL_INVERSE);
    BitwiseZero(XOR, 1);
    BitwiseSame(1);
  }

  lemma InverseTimes()
    ensures Times(K_MUL_INVERSE, K_MUL) == 1
  {
  }

  lemma TimesValues()
    ensures Times(0, K_MUL) == 0 && Times(1, K_MUL) == K_MUL && Times(0x9ddfea08eb3916d6, K_MUL) == 0x29edbe24f43dfbc6
  {
    ModUnique(0x9ddfea08eb3916d6 * K_MUL, B64, 7015597667359232472, 0x29edbe24f43dfbc6);
  }

  /** Hashes of some words: which word is mixed in when, and by how much a word is shifted. */
  lemma HashValues()
    ensures Hash128to64(0xdc56_e6f5_090b_32d8, 1) == 0
    ensures Hash128to64(1, 0xdc56_e6f5_090b_32d8) == 0x9ddf_ea08_eb38_2d69
    ensures Hash128to64(0xdc56_e6f5_090b_32d9, 0) == 0x29edbe24f43dfbc6
  {
    SmallXor();
    InverseTimes();
    SmallMix(0);
    SmallMix(1);
    MixedMultiplier();
    TimesValues();
    hide WordXor, ShiftMix, Times;
  }

  lemma MixedMultiplier()
    ensures ShiftMix(K_MUL) == 0x9ddfea08eb3916d6
  {
    hide Bitwise;
    BitwiseZero(XOR, 0x4eeff504759c);
    Unfold(XOR, 0x9ddfea08eb38, 0x1, 0x4eeff504759c, 0, 0x0, 1);
    Unfold(XOR, 0x13bbfd411d670, 0x2, 0x9ddfea08eb38, 0, 0x1, 0);
    Unfold(XOR, 0x2777fa823ace0, 0x4, 0x13bbfd411d670, 0, 0x2, 0);
    Unfold(XOR, 0x4eeff504759c1, 0x9, 0x2777fa823ace0, 1, 0x4, 1);
    Unfold(XOR, 0x9ddfea08eb382, 0x13, 0x4eeff504759c1, 0, 0x9, 1);
    Unfold(XOR, 0x13bbfd411d6705, 0x27, 0x9ddfea08eb382, 1, 0x13, 1);
    Unfold(XOR, 0x2777fa823ace0b, 0x4e, 0x13bbfd411d6705, 1, 0x27, 0);
    Unfold(XOR, 0x4eeff504759c16, 0x9d, 0x2777fa823ace0b, 0, 0x4e, 1);
    Unfold(XOR, 0x9ddfea08eb382d, 0x13b, 0x4eeff504759c16, 1, 0x9d, 1);
    Unfold(XOR, 0x13bbfd411d6705a, 0x277, 0x9ddfea08eb382d, 0, 0x13b, 1);
    Unfold(XOR, 0x2777fa823ace0b5, 0x4ee, 0x13bbfd411d6705a, 1, 0x277, 0);
    Unfold(XOR, 0x4eeff504759c16b, 0x9dd, 0x2777fa823ace0b5, 1, 0x4ee, 1);
    Unfold(XOR, 0x9ddfea08eb382d6, 0x13bb, 0x4eeff504759c16b, 0, 0x9dd, 1);
    Unfold(XOR, 0x13bbfd411d6705ad, 0x2777, 0x9ddfea08eb382d6, 1, 0x13bb, 1);
    Unfold(XOR, 0x2777fa823ace0b5a, 0x4eef, 0x13bbfd411d6705ad, 0, 0x2777, 1);
    Unfold(XOR, 0x4eeff504759c16b4, 0x9ddf, 0x2777fa823ace0b5a, 0, 0x4eef, 1);
    Unfold(XOR, 0x9ddfea08eb382d69, 0x13bbf, 0x4eeff504759c16b4, 1, 0x9ddf, 1);
  }
}
