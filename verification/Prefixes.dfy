/**
IPv4 prefixes as bit strings, the prefix denoted by a key and a mask, and longest-prefix
lookup in a plain map. This is what the trie is measured against.
*/
module Prefixes {
  import opened Bits

  /** Uninitialised or absent value: `(uintptr_t) -1`. */
  const BTRIE_NULL: int := 0xFFFF_FFFF_FFFF_FFFF

  /** A bit string, last bit outermost. */
  datatype Prefix = Root | Bit(parent: Prefix, bit: bool) {
    function Length(): nat {
      if Root? then 0 else 1 + parent.Length()
    }

    /** This prefix covers `q`: `q` extends it. */
    predicate Covers(q: Prefix) {
      this == q || (q.Bit? && Covers(q.parent))
    }
  }

  /** The mask bit at a depth, as `0x80000000 >> depth`: zero from depth 32 on. */
  function BitAt(depth: nat): nat {
    if depth < 32 then Pow2(31 - depth) else 0
  }

  lemma BitAtShift(depth: nat)
    ensures BitAt(depth) / 2 == BitAt(depth + 1)
    ensures depth == 0 ==> BitAt(depth) == 0x8000_0000
  {
    Pow2Values();
  }

  predicate HasBit(word: nat, bit: nat) {
    And(word, bit) != 0
  }

  predicate KeyBit(key: nat, depth: nat) {
    HasBit(key, BitAt(depth))
  }

  lemma NoBitPast32(key: nat)
    ensures !HasBit(key, 0)
  {
    BitwiseZero(AND, key);
  }

  /** The first `n` bits of a key. */
  function Take(key: nat, n: nat): (p: Prefix)
    ensures p.Length() == n
  {
    if n == 0 then Root else Bit(Take(key, n - 1), KeyBit(key, n - 1))
  }

  /** The prefix length of a mask: its number of leading ones. */
  function MaskLength(mask: nat): (n: nat)
    ensures n <= 32
    ensures forall i: nat :: i < n ==> KeyBit(mask, i)
    ensures !KeyBit(mask, n)
  {
    NoBitPast32(mask);
    LeadingOnes(mask, 0)
  }

  function LeadingOnes(mask: nat, from: nat): (n: nat)
    requires from <= 32 && !HasBit(mask, 0)
    ensures from <= n <= 32
    ensures forall i: nat :: from <= i < n ==> KeyBit(mask, i)
    ensures !KeyBit(mask, n)
    decreases 32 - from
  {
    if KeyBit(mask, from) then LeadingOnes(mask, from + 1) else from
  }

  /** The prefix that `key` and `mask` name. */
  function Named(key: nat, mask: nat): (p: Prefix)
    ensures p.Length() == MaskLength(mask)
  {
    Take(key, MaskLength(mask))
  }

  type Table = map<Prefix, int>

  /** The value of the longest stored prefix of `key` of at most `n` bits. */
  function Lookup(table: Table, key: nat, n: nat): int {
    var p := Take(key, n);
    if p in table then table[p] else if n == 0 then BTRIE_NULL else Lookup(table, key, n - 1)
  }

  /** `Lookup` by its meaning: the stored prefix that no longer stored one extends. */
  lemma {:induction false} LookupIsLongest(table: Table, key: nat, n: nat) returns (best: int)
    ensures -1 <= best <= n
    ensures best == -1 ==> Lookup(table, key, n) == 0xFFFF_FFFF_FFFF_FFFF
    ensures best >= 0 ==> Take(key, best) in table && Lookup(table, key, n) == table[Take(key, best)]
    ensures forall k :: best < k <= n ==> Take(key, k) !in table
  {
    if Take(key, n) in table {
      best := n;
    } else if n == 0 {
      best := -1;
    } else {
      best := LookupIsLongest(table, key, n - 1);
    }
  }

  /** A stored prefix is a prefix of the key exactly when it is the key's own of that length. */
  lemma {:induction false} MatchIsTake(p: Prefix, key: nat, n: nat)
    requires p.Length() <= n
    ensures p.Covers(Take(key, n)) <==> p == Take(key, p.Length())
  {
    if p.Length() < n {
      MatchIsTake(p, key, n - 1);
    } else if n > 0 {
      CoversLonger(p, Take(key, n - 1));
    }
  }

  lemma {:induction false} CoversLonger(p: Prefix, q: Prefix)
    ensures p.Covers(q) ==> p.Length() <= q.Length()
  {
    if q.Root? {
    } else {
      CoversLonger(p, q.parent);
    }
  }

  /** Two addresses agree on `n` bits exactly when they agree after dropping the others. */
  lemma {:induction false} TakeEqual(a: nat, b: nat, n: nat)
    requires a < Pow2(32) && b < Pow2(32) && n <= 32
    ensures Take(a, n) == Take(b, n) <==> Shr(a, 32 - n) == Shr(b, 32 - n)
  {
    if n == 0 {
      CutIsDivMod(a, 32);
      CutIsDivMod(b, 32);
      ModUnique(a, Pow2(32), 0, a);
      ModUnique(b, Pow2(32), 0, b);
    } else {
      hide KeyBit, Shr, Pow2;
      TakeEqual(a, b, n - 1);
      KeyBitIs(a, n);
      KeyBitIs(b, n);
      ShrStep(a, 32 - n);
      ShrStep(b, 32 - n);
    }
  }

  lemma KeyBitIs(key: nat, n: nat)
    requires 0 < n <= 32
    ensures KeyBit(key, n - 1) <==> Shr(key, 32 - n) % 2 == 1
  {
    hide Bitwise;
    AndBit(key, 32 - n);
  }

  lemma {:induction false} ShrStep(x: nat, k: nat)
    ensures Shr(x, k + 1) == Shr(x, k) / 2
  {
    if k == 0 {
    } else {
      ShrStep(x / 2, k - 1);
    }
  }
}
