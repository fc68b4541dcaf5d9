/**
The generator of unique pseudo-random numbers: a counter passed through a permutation by
quadratic residues, an addition, an exclusive or and the permutation again. Python integers
are unbounded, so the claims are about all naturals.
*/
module UniqueRandom {
  import opened Bits
  import opened NumberTheory
  import opened Primality

  const PRIME: int := 4294967291

  function PermutePQR(x: int): (r: int)
    ensures r >= 0
    ensures 0 <= x < PRIME <==> 0 <= r < PRIME && x >= 0
  {
    if x >= PRIME then x
    else
      SquareModulo(x);
      var residue := x * x % PRIME;
      if 2 * x <= PRIME then residue else PRIME - residue
  }

  /** The permutation by its meaning: a residue goes to its square on the lower half and to its
      negated square on the upper half, modulo the prime; everything else stays. */
  lemma PermuteIs(x: nat)
    ensures x < PRIME && 2 * x < PRIME ==> (PermutePQR(x) - x * x) % 4294967291 == 0
    ensures x < PRIME && 2 * x > PRIME ==> (PermutePQR(x) + x * x) % 4294967291 == 0
    ensures x >= 4294967291 ==> PermutePQR(x) == x
  {
    if x < PRIME {
      var q, r := x * x / PRIME, x * x % PRIME;
      DivMod(x * x, PRIME);
      if 2 * x < PRIME { ModUnique(r - x * x, PRIME, -q, 0); } else { ModUnique(PRIME - r + x * x, PRIME, q + 1, 0); }
    }
  }

  /** Modulo the prime, only zero has the square zero. */
  lemma SquareModulo(x: int)
    ensures 0 < x < PRIME ==> x * x % PRIME != 0
  {
    if 0 < x < PRIME && x * x % PRIME == 0 {
      Prime4294967291();
      ModUnique(x, PRIME, 0, x);
      Euclid(PRIME, x, x);
      assert false;
    }
  }

  lemma SameHalf(x: nat, y: nat)
    requires x < y < PRIME && (2 * y < PRIME || 2 * x > PRIME)
    ensures x * x % PRIME != y * y % PRIME
  {
    if x * x % PRIME == y * y % PRIME {
      Prime4294967291();
      assert (y - x) * (y + x) == y * y - x * x;
      DivMod(x * x, PRIME);
      DivMod(y * y, PRIME);
      Multiple(PRIME, (y - x) * (y + x), y * y / PRIME - x * x / PRIME);
      ModUnique(y - x, PRIME, 0, y - x);
      Euclid(PRIME, y - x, y + x);
      if 2 * y < PRIME { ModUnique(y + x, PRIME, 0, y + x); } else { ModUnique(y + x, PRIME, 1, y + x - PRIME); }
      assert false;
    }
  }

  lemma OppositeHalves(x: nat, y: nat)
    requires x < PRIME && 0 < y < PRIME
    ensures x * x % PRIME != PRIME - y * y % PRIME
  {
    if x * x % PRIME == PRIME - y * y % PRIME {
      Prime4294967291();
      NoOppositeSquares(PRIME, x, y);
      DivMod(x * x, PRIME);
      DivMod(y * y, PRIME);
      Multiple(PRIME, x * x + y * y, x * x / PRIME + y * y / PRIME + 1);
      assert false;
    }
  }

  /** The permutation is injective on all naturals. */
  lemma PermuteInjective(x: nat, y: nat)
    requires x != y
    ensures PermutePQR(x) != PermutePQR(y)
  {
    if x < PRIME && y < PRIME {
      var lo, hi := if x < y then x else y, if x < y then y else x;
      if 2 * lo > PRIME || 2 * hi < PRIME {
        SameHalf(lo, hi);
      } else {
        OppositeHalves(lo, hi);
      }
    }
  }

  /** The images of the other residues once `y` is taken out. */
  function WithoutValue(y: nat, x: nat): nat {
    var r := PermutePQR(x);
    if r > y then r - 1 else r
  }

  /** And it is onto: every residue is the image of one. */
  lemma PermuteOnto(y: nat)
    requires y < PRIME
    ensures exists x: nat :: x < PRIME && PermutePQR(x) == y
  {
    hide PermutePQR;
    if forall x: nat :: x < PRIME ==> PermutePQR(x) != y {
      var f := (x: nat) => WithoutValue(y, x);
      forall i: nat, j: nat | i < j < PRIME
        ensures f(i) != f(j)
      {
        PermuteInjective(i, j);
      }
      Pigeonhole(f, PRIME, PRIME - 1);
      assert false;
    }
  }

  /** The value returned at a given counter. */
  function Output(index: nat, offset: nat): (r: nat) {
    PermutePQR(Xor(PermutePQR(index) + offset, 0x5bf03635))
  }

  /** Different counters give different values, whatever the offset. */
  lemma OutputInjective(i: nat, j: nat, offset: nat)
    requires i != j
    ensures Output(i, offset) != Output(j, offset)
  {
    hide PermutePQR, Bitwise;
    var a, b := PermutePQR(i) + offset, PermutePQR(j) + offset;
    PermuteInjective(i, j);
    XorInvolution(a, 0x5bf03635);
    XorInvolution(b, 0x5bf03635);
    PermuteInjective(Xor(a, 0x5bf03635), Xor(b, 0x5bf03635));
  }

  /** The steps of a draw, read backwards: whatever the permutation takes to the value is, after
      the exclusive or, the permuted counter plus the offset. */
  lemma OutputIs(index: nat, offset: nat, y: nat)
    ensures PermutePQR(y) == Output(index, offset) <==> Xor(y, 0x5bf03635) == PermutePQR(index) + offset
  {
    hide PermutePQR, Bitwise;
    var a := PermutePQR(index) + offset;
    XorInvolution(a, 0x5bf03635);
    XorInvolution(y, 0x5bf03635);
    if y != Xor(a, 0x5bf03635) { PermuteInjective(y, Xor(a, 0x5bf03635)); }
  }

  /** The first draw with counter 0 and offset 1: the square of 0x5bf03634 modulo the prime. */
  lemma FirstOutput()
    ensures Output(0, 1) == 1242645051
  {
    ModUnique(0, PRIME, 0, 0);
    assert PermutePQR(0) == 0;
    Unfold(XOR, 1, 0x5bf03635, 0, 1, 0x2df81b1a, 1);
    BitwiseZero(XOR, 0x2df81b1a);
    assert Xor(1, 0x5bf03635) == 0x5bf03634;
    ModUnique(0x5bf03634 * 0x5bf03634, PRIME, 553953263, 1242645051);
  }

  class UniqueRandomGenerator {
    var index: nat
    var intermediateOffset: nat
    /** Every value returned so far, in order, and the counter of the first. */
    ghost var returned: seq<nat>
    ghost var start: nat

    ghost predicate Valid()
      reads this
    {
      && index == start + |returned|
      && forall i :: 0 <= i < |returned| ==> returned[i] == Output(start + i, intermediateOffset)
    }

    /** Any integers may be the seeds: the counter and the offset come out non-negative. */
    constructor (seedBase: int, seedOffset: int)
      ensures Valid() && returned == []
      ensures index == PermutePQR(PermutePQR(seedBase) + 0x682f0161)
      ensures intermediateOffset == PermutePQR(PermutePQR(seedOffset) + 0x46790905)
    {
      index := PermutePQR(PermutePQR(seedBase) + 0x682f0161);
      intermediateOffset := PermutePQR(PermutePQR(seedOffset) + 0x46790905);
      start := PermutePQR(PermutePQR(seedBase) + 0x682f0161);
      returned := [];
    }

    /** The value is one that no earlier call returned. */
    method Next() returns (val: nat)
      requires Valid()
      modifies this
      ensures Valid() && intermediateOffset == old(intermediateOffset) && start == old(start)
      ensures index == old(index) + 1 && returned == old(returned) + [val]
      ensures val == Output(old(index), intermediateOffset) && val !in old(returned)
      ensures forall y: nat :: PermutePQR(y) == val <==> Xor(y, 0x5bf03635) == PermutePQR(old(index)) + intermediateOffset
    {
      hide PermutePQR, Bitwise;
      val := PermutePQR(Xor(PermutePQR(index) + intermediateOffset, 0x5bf03635));
      forall i | 0 <= i < |returned|
        ensures returned[i] != val
      {
        OutputInjective(start + i, index, intermediateOffset);
      }
      forall y: nat
        ensures PermutePQR(y) == val <==> Xor(y, 0x5bf03635) == PermutePQR(index) + intermediateOffset
      {
        OutputIs(index, intermediateOffset, y);
      }
      index := index + 1;
      returned := returned + [val];
    }
  }

  /** Any number of draws from a new generator: no value appears twice. */
  method DrawAll(seedBase: int, seedOffset: int, count: nat) returns (values: seq<nat>)
    ensures |values| == count
    ensures
      var first, offset := PermutePQR(PermutePQR(seedBase) + 0x682f0161), PermutePQR(PermutePQR(seedOffset) + 0x46790905);
      forall i :: 0 <= i < count ==> values[i] == Output(first + i, offset)
    ensures forall i, j :: 0 <= i < j < |values| ==> values[i] != values[j]
  {
    hide PermutePQR, Output;
    var generator := new UniqueRandomGenerator(seedBase, seedOffset);
    ghost var first, offset := generator.index, generator.intermediateOffset;
    values := [];
    while |values| < count
      invariant generator.Valid() && fresh(generator) && generator.returned == values && |values| <= count
      invariant generator.start == first && generator.intermediateOffset == offset
      invariant forall i, j :: 0 <= i < j < |values| ==> values[i] != values[j]
    {
      var h := generator.Next();
      values := values + [h];
    }
  }
}
