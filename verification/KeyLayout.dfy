/**
The keys byte by byte: where each byte of a string goes in its encoding, which malformed keys
are refused with which error, the digits of hexadecimal keys, and the fields of table keys.
*/
module KeyLayout {
  import opened Bits
  import opened Memory
  import opened Codec
  import opened TikvKey
  import opened Words

  // ---- Order -------------------------------------------------------------------------

  /** The common prefix of two strings ends at `k`. */
  ghost predicate PartAt(a: Bytes, b: Bytes, k: nat) {
    && k <= |a| && k <= |b| && a[..k] == b[..k]
    && (k < |a| && k < |b| ==> a[k] != b[k])
  }

  /** Comparison is lexicographic: the first byte that differs decides, as an unsigned number,
      and a proper prefix is less. */
  lemma {:induction false} CompareIs(a: Bytes, b: Bytes, k: nat)
    requires PartAt(a, b, k)
    ensures Compare(a, b) == if k < |a| && k < |b| then Sign(a[k] as int - b[k] as int) else Sign(|a| - |b|)
    decreases k
  {
    if k == 0 {
    } else {
      assert a[0] == a[..k][0] == b[..k][0] == b[0];
      assert a[1..][..k - 1] == a[..k][1..] && b[1..][..k - 1] == b[..k][1..];
      CompareIs(a[1..], b[1..], k - 1);
    }
  }

  // ---- Encodings ---------------------------------------------------------------------

  lemma EncodeAbc()
    ensures Encode([0x61, 0x62, 0x63]) == [0x61, 0x62, 0x63, 0, 0, 0, 0, 0, 0xFA]
  {
  }

  lemma EncodeEight()
    ensures Encode([1, 2, 3, 4, 5, 6, 7, 8]) == [1, 2, 3, 4, 5, 6, 7, 8, 0xFF, 0, 0, 0, 0, 0, 0, 0, 0, 0xF7]
  {
    var s: Bytes := [1, 2, 3, 4, 5, 6, 7, 8];
    assert Encode([]) == [0, 0, 0, 0, 0, 0, 0, 0, 0xF7];
    assert s[..8] == s && s[8..] == [];
  }

  // ---- Decoding ----------------------------------------------------------------------

  /** The bytes of the first `i` groups of a key, without their markers. */
  function Joined(key: Bytes, i: nat): Bytes
    requires 9 * i <= |key|
  {
    if i == 0 then [] else key[..8] + Joined(key[9..], i - 1)
  }

  /** What becomes of a key whose first `i` groups are marked full and whose next is not: the
      reason for which it is refused, or the string and the offset of what follows. */
  lemma {:induction false} DecodeIs(key: Bytes, i: nat)
    requires 9 * i <= |key| && forall k :: 0 <= k < i ==> key[9 * k + 8] == 0xFF
    requires |key| >= 9 * i + 9 ==> key[9 * i + 8] != 0xFF
    ensures |key| < 9 * i + 9 ==> Decode(key) == Err(UnexpectedEof)
    ensures |key| >= 9 * i + 9 && key[9 * i + 8] < 0xF7 ==> Decode(key) == Err(KeyPadding)
    ensures |key| >= 9 * i + 9 && key[9 * i + 8] >= 0xF7 ==>
              var used := key[9 * i + 8] - 0xF7;
              if ZeroAfter(key, 9 * i + used, 9 * i + 8)
              then Decode(key).Ok? && Decode(key).value.0 == Joined(key, i) + key[9 * i..9 * i + used]
                   && Decode(key).value.1 == 9 * i + 9
              else Decode(key) == Err(WrongEnd)
    decreases i
  {
    hide Decode, CheckKeyPaddingValid, ZeroAfter, Joined;
    if i == 0 {
      DecodeLast(key);
      if |key| >= 9 && key[8] >= 0xF7 { NoneJoined(key, key[8] - 0xF7); }
    } else {
      assert key[9 * 0 + 8] == 0xFF;
      forall k | 0 <= k < i - 1
        ensures key[9..][9 * k + 8] == 0xFF
      {
        assert key[9..][9 * k + 8] == key[9 * (k + 1) + 8];
      }
      DecodeIs(key[9..], i - 1);
      DecodeFull(key);
      if |key| >= 9 * i + 9 && key[9 * i + 8] >= 0xF7 { JoinedStep(key, i, key[9 * i + 8] - 0xF7); }
    }
  }

  /** The accessors of a key refuse it for the same reasons. */
  lemma AccessorsRefuse(key: Bytes, i: nat)
    requires 9 * i <= |key| && forall k :: 0 <= k < i ==> key[9 * k + 8] == 0xFF
    requires |key| >= 9 * i + 9 ==> key[9 * i + 8] != 0xFF
    requires Decode(key).Ok? ==> |Decode(key).value.0| >= 19
    ensures |key| < 9 * i + 9 ==> GetTableId(key) == Err(UnexpectedEof) == GetHandle(key)
    ensures |key| >= 9 * i + 9 && key[9 * i + 8] < 0xF7 ==> GetTableId(key) == Err(KeyPadding) == GetHandle(key)
    ensures |key| >= 9 * i + 9 && key[9 * i + 8] >= 0xF7 && !ZeroAfter(key, 9 * i + (key[9 * i + 8] - 0xF7), 9 * i + 8) ==>
              GetTableId(key) == Err(WrongEnd) == GetHandle(key)
  {
    hide Decode, ZeroAfter;
    DecodeIs(key, i);
  }

  lemma DecodeLast(key: Bytes)
    requires |key| >= 9 ==> key[8] != 0xFF
    ensures |key| < 9 ==> Decode(key) == Err(UnexpectedEof)
    ensures |key| >= 9 && key[8] < 0xF7 ==> Decode(key) == Err(KeyPadding)
    ensures |key| >= 9 && key[8] >= 0xF7 ==>
              var used := key[8] - 0xF7;
              if ZeroAfter(key, used, 8) then Decode(key).Ok? && Decode(key).value.0 == key[..used] && Decode(key).value.1 == 9
              else Decode(key) == Err(WrongEnd)
  {
    hide CheckKeyPaddingValid;
    if |key| >= 9 && key[8] >= 0xF7 {
      var used := key[8] - 0xF7;
      LastGroup(key[..8], used);
      assert ZeroAfter(key, used, 8) <==> ZeroAfter(key[..8], used, 8);
      assert key[..8][..used] == key[..used];
    }
  }

  lemma DecodeFull(key: Bytes)
    requires |key| >= 9 && key[8] == 0xFF
    ensures Decode(key) == Resumed(key[..8], 9, Decode(key[9..]))
  {
  }

  lemma NoneJoined(key: Bytes, used: nat)
    requires used <= |key|
    ensures Joined(key, 0) + key[0..used] == key[..used]
  {
  }

  lemma JoinedStep(key: Bytes, i: nat, used: nat)
    requires 0 < i && 9 * i + 9 <= |key| && used <= 8
    ensures key[9..][9 * (i - 1)..9 * (i - 1) + used] == key[9 * i..9 * i + used]
    ensures Joined(key, i) + key[9 * i..9 * i + used] == key[..8] + (Joined(key[9..], i - 1) + key[9 * i..9 * i + used])
    ensures ZeroAfter(key, 9 * i + used, 9 * i + 8) <==> ZeroAfter(key[9..], 9 * (i - 1) + used, 9 * (i - 1) + 8)
  {
    Shifted(key, 9 * i + used, 9 * i + 8);
  }

  ghost predicate ZeroAfter(key: Bytes, from: int, to: int) {
    0 <= from <= to <= |key| && forall k :: from <= k < to ==> key[k] == 0
  }

  lemma Shifted(key: Bytes, from: int, to: int)
    requires 9 <= from <= to <= |key|
    ensures ZeroAfter(key, from, to) <==> ZeroAfter(key[9..], from - 9, to - 9)
  {
    var rest := key[9..];
    assert forall k :: from <= k < to ==> key[k] == rest[k - 9];
    assert forall k :: from - 9 <= k < to - 9 ==> rest[k] == key[k + 9];
  }

  lemma LastGroup(group: Bytes, used: nat)
    requires |group| == 8 && used < 8
    ensures CheckKeyPaddingValid(group, 8 - used) <==> ZeroAfter(group, used, 8)
  {
    PaddingIsZeros(group, 8 - used);
    var padded := Padded(group[..used]);
    assert forall k :: 0 <= k < 8 ==> padded[k] == if k < used then group[k] else 0;
  }

  // ---- Hexadecimal keys --------------------------------------------------------------

  /** Each byte of a key is written as its two digits, the high one first: `0` to `9` are 0x30 to
      0x39 and `A` to `F` are 0x41 to 0x46. */
  lemma HexLayout(key: Bytes, k: nat)
    requires k < |key|
    ensures |ToPdKey(key)| == 2 * |key|
    ensures ToPdKey(key)[2 * k] == var d := key[k] / 16; if d < 10 then 0x30 + d else 0x41 + (d - 10)
    ensures ToPdKey(key)[2 * k + 1] == var d := key[k] % 16; if d < 10 then 0x30 + d else 0x41 + (d - 10)
  {
    ToPdKeyAt(key, k);
    hide ToPdKey;
  }

  /** What a character counts for when it is read: signed, and a digit only in upper case. Any
      others are read too, as whatever the same sum gives. */
  lemma {:induction false} HexReading(h: Bytes, k: nat)
    requires |h| % 2 == 0 && 2 * k < |h|
    ensures FromPdKey(h)[k] == (16 * HexCode(h[2 * k]) + HexCode(h[2 * k + 1])) % 256
    decreases k
  {
    hide HexValue;
    HexCodeIs(h[2 * k]);
    HexCodeIs(h[2 * k + 1]);
    if k == 0 {
    } else {
      HexReading(h[2..], k - 1);
    }
  }

  ghost function HexCode(c: Byte): int {
    if c >= 0x80 then c - 0x130 else if c >= 0x41 then c - 0x37 else c - 0x30
  }

  lemma HexCodeIs(c: Byte)
    ensures HexValue(c) == HexCode(c)
  {
  }

  /** Lower-case digits are misread: `6a` is read as 0x8A. */
  lemma LowerCaseMisread()
    ensures FromPdKey([0x36, 0x61]) == [0x8A] && FromPdKey([0x36, 0x41]) == [0x6A]
  {
    HexReading([0x36, 0x61], 0);
    HexReading([0x36, 0x41], 0);
  }

  // ---- Table keys --------------------------------------------------------------------

  lemma ReversedBytes()
    ensures LittleEndian([1, 2, 3, 4]) == 0x0403_0201 && ToMemory(0x0403_0201, 4) == [1, 2, 3, 4]
    ensures BigEndian(0x0102_0304_0506_0708, 8) == [1, 2, 3, 4, 5, 6, 7, 8]
  {
    assert Limbs(0x0102, 0x0304, 0x0506, 0x0708) == 0x0102_0304_0506_0708;
    assert ToMemory(0x0403_0201, 4) == [1, 2] + ToMemory(0x0403, 2) by { MemoryStep(0x0403, 0x0201, 2); }
    assert ToMemory(0x0403, 2) == [3, 4] by { MemoryStep(0, 0x0403, 0); }
    hide BigEndian, ToMemory;
    BigEndianOfLimbs(0x0102, 0x0304, 0x0506, 0x0708);
    MemoryValue();
  }

  lemma MemoryValue()
    ensures LittleEndian([1, 2, 3, 4]) == 0x0403_0201
  {
    assert LittleEndian([3, 4]) == 0x0403;
    assert [1, 2, 3, 4][1..] == [2, 3, 4] && [2, 3, 4][1..] == [3, 4];
  }

  lemma NextOffset(t: Int64)
    ensures NextId(t) + B63 == (t + 1 + B63) % B64
  {
  }

  /** A row key is the encoding of `t`, the table id, `_r` and the handle, the integers offset by
      2^63 and most significant byte first. The beginning of a table has no handle, and its end
      is the next id alone, the least one after the largest. */
  lemma RowKeyLayout(t: Int64, h: Int64)
    ensures MakeTableHandle(t, h) == Encode([0x74] + BigEndian(t + B63, 8) + [0x5F, 0x72] + BigEndian(h + B63, 8))
    ensures MakeTableBegin(t) == Encode([0x74] + BigEndian(t + B63, 8) + [0x5F, 0x72])
    ensures MakeTableEnd(t) == Encode([0x74] + BigEndian((t + 1 + B63) % B64, 8))
    ensures MakeWholeTableBegin(t) == Encode([0x74] + BigEndian(t + B63, 8))
  {
    NextOffset(t);
    hide Encode, BigEndian, KeyBytes, NextId;
    KeyBytesAre(t);
    KeyBytesAre(h);
    KeyBytesAre(NextId(t));
  }
}
