/**
Bytes, and integers as they lie in the memory of a little-endian machine.
*/
module Memory {
  import opened Bits

  type Byte = x: int | 0 <= x < 256
  type Bytes = seq<Byte>

  /** Bytes in memory read as an unsigned number. */
  function LittleEndian(b: Bytes): nat {
    if b == [] then 0 else b[0] + 256 * LittleEndian(b[1..])
  }

  /** The `n` low-order bytes of a number, least significant first: what `memcpy` of an integer
      gives. */
  function ToMemory(x: nat, n: nat): (b: Bytes)
    ensures |b| == n
  {
    if n == 0 then [] else [x % 256] + ToMemory(x / 256, n - 1)
  }

  lemma {:induction false} MemoryRoundTrip(x: nat, n: nat)
    requires x < Pow2(8 * n)
    ensures LittleEndian(ToMemory(x, n)) == x
  {
    if n == 0 {
    } else {
      Pow2Values();
      Pow2Add(8, 8 * (n - 1));
      MemoryRoundTrip(x / 256, n - 1);
      assert ToMemory(x, n)[1..] == ToMemory(x / 256, n - 1);
    }
  }

  lemma {:induction false} LittleEndianBound(b: Bytes)
    ensures LittleEndian(b) < Pow2(8 * |b|)
  {
    if b == [] {
    } else {
      LittleEndianBound(b[1..]);
      Pow2Values();
      Pow2Add(8, 8 * (|b| - 1));
    }
  }
}
