/**
The memory-comparable encoding of TiKV keys: groups of eight bytes, each followed by a marker
that says how much of the group is padding; and the hexadecimal form that PD uses.
*/
module Codec {
  import opened Bits
  import opened Magic
  import opened Memory

  const GROUP: nat := 8
  const MARKER: int := 0xFF

  // ---- Bytewise comparison -----------------------------------------------------------

  function Sign(x: int): int {
    if x < 0 then -1 else if x > 0 then 1 else 0
  }

  /** `std::string::compare`: bytes as unsigned numbers, then lengths. */
  function Compare(a: Bytes, b: Bytes): int {
    if a == [] || b == [] then Sign(|a| - |b|)
    else if a[0] != b[0] then Sign(a[0] as int - b[0] as int)
    else Compare(a[1..], b[1..])
  }

  lemma {:induction false} CompareNegates(a: Bytes, b: Bytes)
    ensures Compare(b, a) == -Compare(a, b)
    ensures Compare(a, b) == 0 <==> a == b
  {
    if a == [] || b == [] {
    } else {
      CompareNegates(a[1..], b[1..]);
      assert a == [a[0]] + a[1..] && b == [b[0]] + b[1..];
    }
  }

  /** Strings of equal length decide the comparison of their extensions unless they are equal. */
  lemma {:induction false} CompareAppend(x: Bytes, y: Bytes, u: Bytes, v: Bytes)
    requires |x| == |y|
    ensures Compare(x + u, y + v) == if x == y then Compare(u, v) else Compare(x, y)
  {
    if x == [] {
      assert x + u == u && y + v == v;
    } else {
      assert (x + u)[1..] == x[1..] + u && (y + v)[1..] == y[1..] + v;
      CompareAppend(x[1..], y[1..], u, v);
      assert x == [x[0]] + x[1..] && y == [y[0]] + y[1..];
    }
  }

  lemma {:induction false} CompareShorter(a: Bytes, y: Bytes, t: Bytes)
    requires |a| < |y|
    ensures Compare(a, y + t) == Compare(a, y)
  {
    if a == [] {
    } else {
      assert (y + t)[1..] == y[1..] + t;
      CompareShorter(a[1..], y[1..], t);
    }
  }

  // ---- Encoding ----------------------------------------------------------------------

  function Zeros(n: nat): (z: Bytes)
    ensures |z| == n && forall i :: 0 <= i < n ==> z[i] == 0
  {
    seq(n, i => 0)
  }

  function Padded(s: Bytes): (g: Bytes)
    requires |s| <= GROUP
    ensures |g| == GROUP
  {
    s + Zeros(GROUP - |s|)
  }

  function Encode(s: Bytes): (e: Bytes)
    ensures |e| == 9 * (|s| / 8 + 1)
  {
    if |s| >= GROUP then s[..GROUP] + [MARKER] + Encode(s[GROUP..])
    else Padded(s) + [MARKER - (GROUP - |s|)]
  }

  /** Byte `j` of group `i` of an encoding; byte 8 is the marker. */
  function GroupByte(e: Bytes, i: int, j: int): int {
    if 0 <= 9 * i + j < |e| then e[9 * i + j] else 0
  }

  /** An encoding byte by byte: groups of eight bytes padded with zeros, each followed by 0xFF,
      but the last by 0xF7 plus the number of its bytes that are not padding. */
  ghost predicate IsLayout(s: Bytes, e: Bytes) {
    && |e| == 9 * (|s| / 8 + 1)
    && (forall i, j :: 0 <= i <= |s| / 8 && 0 <= j < 8 ==> GroupByte(e, i, j) == if 8 * i + j < |s| then s[8 * i + j] else 0)
    && (forall i :: 0 <= i < |s| / 8 ==> GroupByte(e, i, 8) == 0xFF)
    && GroupByte(e, |s| / 8, 8) == 0xF7 + |s| % 8
  }

  lemma {:induction false} EncodeAt(s: Bytes, i: nat, j: nat)
    requires i <= |s| / 8 && j <= 8
    ensures Encode(s)[9 * i + j] == if j < 8 then (if 8 * i + j < |s| then s[8 * i + j] else 0)
                                    else if i < |s| / 8 then 0xFF else 0xF7 + |s| % 8
    decreases i
  {
    if |s| < 8 {
    } else if i == 0 {
      assert Encode(s)[j] == (s[..8] + [0xFF])[j];
    } else {
      EncodeAt(s[8..], i - 1, j);
      assert Encode(s) == (s[..8] + [0xFF]) + Encode(s[8..]);
      assert Encode(s)[9 * i + j] == Encode(s[8..])[9 * (i - 1) + j];
    }
  }

  lemma EncodeLayout(s: Bytes)
    ensures IsLayout(s, Encode(s))
  {
    hide Encode;
    EncodeAt(s, |s| / 8, 8);
    forall i, j | 0 <= i <= |s| / 8 && 0 <= j < 8
      ensures GroupByte(Encode(s), i, j) == if 8 * i + j < |s| then s[8 * i + j] else 0
    {
      EncodeAt(s, i, j);
    }
    forall i | 0 <= i < |s| / 8
      ensures GroupByte(Encode(s), i, 8) == 0xFF
    {
      EncodeAt(s, i, 8);
    }
  }

  method EncodeBytes(s: Bytes) returns (out: Bytes)
    ensures out == Encode(s) && IsLayout(s, out)
  {
    hide Encode, IsLayout;
    EncodeLayout(s);
    out := [];
    var index := 0;
    assert s[0..] == s;
    while index <= |s|
      invariant 0 <= index
      invariant if index <= |s| then out + Encode(s[index..]) == Encode(s) else out == Encode(s)
      decreases |s| + 1 - index
    {
      var remain := |s| - index;
      var pad := 0;
      var group: Bytes;
      NextGroup(s, index, out);
      if remain >= GROUP {
        group := s[index..index + GROUP];
      } else {
        pad := GROUP - remain;
        group := s[index..] + Zeros(pad);
      }
      out := out + group + [MARKER - pad];
      index := index + GROUP;
    }
  }

  lemma NextGroup(s: Bytes, index: nat, out: Bytes)
    requires index <= |s|
    ensures |s| - index >= GROUP ==>
      out + Encode(s[index..]) == out + s[index..index + GROUP] + [MARKER] + Encode(s[index + GROUP..])
    ensures |s| - index < GROUP ==>
      var pad := GROUP - (|s| - index);
      out + Encode(s[index..]) == out + (s[index..] + Zeros(pad)) + [MARKER - pad]
  {
    if |s| - index >= GROUP {
      var group := s[index..index + GROUP];
      assert s[index..][..GROUP] == group && s[index..][GROUP..] == s[index + GROUP..];
      assert out + (group + [MARKER] + Encode(s[index + GROUP..])) == out + group + [MARKER] + Encode(s[index + GROUP..]);
    } else {
      var pad := GROUP - (|s| - index);
      assert out + (s[index..] + Zeros(pad) + [MARKER - pad]) == out + (s[index..] + Zeros(pad)) + [MARKER - pad];
    }
  }

  /** Padding two short strings: unless it makes them equal it keeps their order, and if it
      does, their lengths have the order of the strings. */
  lemma {:induction false} PaddedOrder(a: Bytes, b: Bytes, i: nat, j: nat)
    requires |a| + i == |b| + j
    ensures a + Zeros(i) != b + Zeros(j) ==> Compare(a + Zeros(i), b + Zeros(j)) == Compare(a, b)
    ensures a + Zeros(i) == b + Zeros(j) ==> Compare(a, b) == Sign(|a| - |b|)
  {
    var x, y := a + Zeros(i), b + Zeros(j);
    if a == [] && b == [] {
    } else if a == [] {
      ZerosLeast(b + Zeros(j));
      assert x == Zeros(i);
    } else if b == [] {
      ZerosLeast(a + Zeros(i));
      CompareNegates(x, y);
      assert y == Zeros(j);
    } else {
      PaddedOrder(a[1..], b[1..], i, j);
      assert x[1..] == a[1..] + Zeros(i) && y[1..] == b[1..] + Zeros(j);
      assert x == [x[0]] + x[1..] && y == [y[0]] + y[1..];
    }
  }

  lemma {:induction false} ZerosLeast(y: Bytes)
    ensures Compare(Zeros(|y|), y) == if y == Zeros(|y|) then 0 else -1
  {
    if y == [] {
    } else {
      ZerosLeast(y[1..]);
      assert Zeros(|y|)[1..] == Zeros(|y| - 1);
      assert y == [y[0]] + y[1..];
      assert Zeros(|y|) == [0] + Zeros(|y| - 1);
    }
  }

  /** One group with its marker: it decides the order unless both are full and equal. */
  lemma GroupOrder(a: Bytes, b: Bytes, u: Bytes, v: Bytes)
    requires |a| < GROUP && |b| <= GROUP
    ensures a != b ==> Compare(Padded(a) + [MARKER - (GROUP - |a|)] + u, Padded(b) + [MARKER - (GROUP - |b|)] + v)
                       == Compare(a, b)
  {
    var g, h := Padded(a), Padded(b);
    var x, y := [MARKER - (GROUP - |a|)], [MARKER - (GROUP - |b|)];
    assert g + x + u == g + (x + u) && h + y + v == h + (y + v);
    CompareAppend(g, h, x + u, y + v);
    CompareAppend(x, y, u, v);
    PaddedOrder(a, b, GROUP - |a|, GROUP - |b|);
    if g == h && |a| == |b| {
      assert a == g[..|a|] && b == h[..|b|];
    }
  }

  /** The encoding preserves the order of strings of any lengths. */
  lemma {:induction false} EncodeOrder(a: Bytes, b: Bytes)
    ensures Compare(Encode(a), Encode(b)) == Compare(a, b)
    decreases |a| + |b|
  {
    if a == b {
      CompareNegates(a, b);
      CompareNegates(Encode(a), Encode(b));
    } else if |a| >= GROUP && |b| >= GROUP {
      var x, y := a[..GROUP], b[..GROUP];
      assert a == x + a[GROUP..] && b == y + b[GROUP..];
      CompareAppend(x, y, a[GROUP..], b[GROUP..]);
      CompareAppend(x + [MARKER], y + [MARKER], Encode(a[GROUP..]), Encode(b[GROUP..]));
      CompareAppend(x, y, [MARKER], [MARKER]);
      EncodeOrder(a[GROUP..], b[GROUP..]);
      assert (x + [MARKER])[..GROUP] == x && (y + [MARKER])[..GROUP] == y;
    } else if |a| < GROUP {
      ShortOrder(a, b);
    } else {
      ShortOrder(b, a);
      CompareNegates(a, b);
      CompareNegates(Encode(a), Encode(b));
    }
  }

  lemma ShortOrder(a: Bytes, b: Bytes)
    requires |a| < GROUP && a != b
    ensures Compare(Encode(a), Encode(b)) == Compare(a, b)
  {
    if |b| < GROUP {
      GroupOrder(a, b, [], []);
      assert Encode(a) == Encode(a) + [] && Encode(b) == Encode(b) + [];
    } else {
      var y := b[..GROUP];
      GroupOrder(a, y, [], Encode(b[GROUP..]));
      assert Encode(a) == Encode(a) + [];
      assert Padded(y) == y;
      assert b == y + b[GROUP..];
      CompareShorter(a, y, b[GROUP..]);
    }
  }

  // ---- Decoding ----------------------------------------------------------------------

  datatype Error = UnexpectedEof | KeyPadding | WrongEnd

  datatype Result<T> = Ok(value: T) | Err(error: Error)

  predicate CheckKeyPaddingValid(group: Bytes, pad: nat)
    requires |group| == GROUP && pad <= GROUP
  {
    LittleEndian(group) / Pow2((GROUP - pad) * 8) == 0
  }

  lemma {:induction false} DropLow(b: Bytes, k: nat)
    requires k <= |b|
    ensures LittleEndian(b) / Pow2(k * 8) == LittleEndian(b[k..])
  {
    if k == 0 {
      assert b[0..] == b;
    } else {
      DropLow(b[1..], k - 1);
      assert b[1..][k - 1..] == b[k..];
      Pow2Add(8, (k - 1) * 8);
      Pow2Values();
      DivDiv(LittleEndian(b), 256, Pow2((k - 1) * 8));
      assert LittleEndian(b) / 256 == LittleEndian(b[1..]);
    }
  }

  lemma {:induction false} ZeroValue(b: Bytes)
    ensures LittleEndian(b) == 0 <==> b == Zeros(|b|)
  {
    if b == [] {
    } else {
      ZeroValue(b[1..]);
      assert b == [b[0]] + b[1..];
      assert Zeros(|b|) == [0] + Zeros(|b| - 1);
    }
  }

  /** The padding test holds exactly when the padding is zero bytes. */
  lemma PaddingIsZeros(group: Bytes, pad: nat)
    requires |group| == GROUP && pad <= GROUP
    ensures CheckKeyPaddingValid(group, pad) <==> group == Padded(group[..GROUP - pad])
  {
    DropLow(group, GROUP - pad);
    ZeroValue(group[GROUP - pad..]);
    assert group == group[..GROUP - pad] + group[GROUP - pad..];
  }

  /** A result for the rest of a key, given what comes before. */
  function Resumed(before: Bytes, ptr: nat, r: Result<(Bytes, nat)>): Result<(Bytes, nat)> {
    match r
    case Ok((s, offset)) => Ok((before + s, ptr + offset))
    case Err(e) => Err(e)
  }

  lemma ResumedTwice(a: Bytes, p: nat, b: Bytes, q: nat, r: Result<(Bytes, nat)>)
    ensures Resumed(a, p, Resumed(b, q, r)) == Resumed(a + b, p + q, r)
  {
    if r.Ok? { assert a + (b + r.value.0) == a + b + r.value.0; }
  }

  /** The raw string and the offset of what follows it. */
  function Decode(key: Bytes): (r: Result<(Bytes, nat)>) {
    if |key| < GROUP + 1 then Err(UnexpectedEof)
    else
      var pad := MARKER - key[GROUP];
      if pad == 0 then
        Resumed(key[..GROUP], GROUP + 1, Decode(key[GROUP + 1..]))
      else if pad > GROUP then Err(KeyPadding)
      else if !CheckKeyPaddingValid(key[..GROUP], pad) then Err(WrongEnd)
      else Ok((key[..GROUP - pad], GROUP + 1))
  }

  method DecodeTikvKeyFull(key: Bytes) returns (r: Result<(Bytes, nat)>)
    ensures r == Decode(key)
  {
    var res: Bytes := [];
    var ptr: nat := 0;
    assert key[0..] == key && forall s: Bytes :: [] + s == s;
    while true
      invariant 0 <= ptr <= |key|
      invariant Decode(key) == Resumed(res, ptr, Decode(key[ptr..]))
      decreases |key| - ptr
    {
      var rest := key[ptr..];
      if ptr + GROUP + 1 > |key| {
        return Err(UnexpectedEof);
      }
      var pad := MARKER - key[ptr + GROUP];
      if pad == 0 {
        assert rest[GROUP + 1..] == key[ptr + GROUP + 1..] && rest[..GROUP] == key[ptr..ptr + GROUP];
        ResumedTwice(res, ptr, rest[..GROUP], GROUP + 1, Decode(rest[GROUP + 1..]));
        res := res + key[ptr..ptr + GROUP];
        ptr := ptr + GROUP + 1;
      } else {
        if pad > GROUP {
          return Err(KeyPadding);
        }
        assert rest[..GROUP] == key[ptr..ptr + GROUP] && rest[..GROUP - pad] == key[ptr..ptr + GROUP - pad];
        res := res + key[ptr..ptr + GROUP - pad];
        if !CheckKeyPaddingValid(key[ptr..ptr + GROUP], pad) {
          return Err(WrongEnd);
        }
        return Ok((res, ptr + GROUP + 1));
      }
    }
  }

  /** Decoding undoes encoding, whatever follows. */
  lemma {:induction false} DecodeEncode(s: Bytes, rest: Bytes)
    ensures Decode(Encode(s) + rest) == Ok((s, |Encode(s)|))
  {
    var key := Encode(s) + rest;
    if |s| >= GROUP {
      DecodeEncode(s[GROUP..], rest);
      assert key[..GROUP] == s[..GROUP];
      assert key[GROUP + 1..] == Encode(s[GROUP..]) + rest;
      assert s[..GROUP] + s[GROUP..] == s;
    } else {
      var pad := GROUP - |s|;
      assert key[..GROUP] == Padded(s) && key[..GROUP][..GROUP - pad] == s;
      assert key[GROUP] == MARKER - pad && key[..GROUP - pad] == s;
      PaddingIsZeros(key[..GROUP], pad);
    }
  }

  /** A key is accepted only as an encoding with something after it. */
  lemma {:induction false} EncodeDecode(key: Bytes)
    ensures Decode(key).Ok? ==>
      var (s, offset) := Decode(key).value; offset <= |key| && key[..offset] == Encode(s)
  {
    if Decode(key).Ok? {
      var (s, offset) := Decode(key).value;
      var pad := MARKER - key[GROUP];
      if pad == 0 {
        EncodeDecode(key[GROUP + 1..]);
        assert s[..GROUP] == key[..GROUP];
        assert s[GROUP..] == Decode(key[GROUP + 1..]).value.0;
        assert key[..offset] == key[..GROUP] + [key[GROUP]] + key[GROUP + 1..][..offset - (GROUP + 1)];
      } else {
        PaddingIsZeros(key[..GROUP], pad);
        assert key[..offset] == key[..GROUP] + [key[GROUP]];
        assert key[..GROUP][..GROUP - pad] == s;
      }
    }
  }

  /** Exactly the keys that start with an encoding are accepted. */
  lemma AcceptsEncodings(key: Bytes)
    ensures Decode(key).Ok? <==> exists s :: Encode(s) <= key
  {
    EncodeDecode(key);
    if s :| Encode(s) <= key {
      DecodeEncode(s, key[|Encode(s)|..]);
      assert key == Encode(s) + key[|Encode(s)|..];
    }
  }

  /** No encoding is a proper prefix of another. */
  lemma PrefixFree(a: Bytes, b: Bytes)
    requires Encode(a) <= Encode(b)
    ensures a == b
  {
    DecodeEncode(a, Encode(b)[|Encode(a)|..]);
    DecodeEncode(b, []);
    assert Encode(b) == Encode(a) + Encode(b)[|Encode(a)|..] && Encode(b) + [] == Encode(b);
  }

  // ---- Hexadecimal keys --------------------------------------------------------------

  function HexDigit(d: int): (c: Byte)
    requires 0 <= d < 16
  {
    if d < 10 then d + '0' as int else d - 10 + 'A' as int
  }

  function ToPdKey(key: Bytes): (h: Bytes)
    ensures |h| == 2 * |key|
  {
    if key == [] then [] else [HexDigit(key[0] / 16), HexDigit(key[0] % 16)] + ToPdKey(key[1..])
  }

  lemma {:induction false} ToPdKeyAt(key: Bytes, k: nat)
    requires k < |key|
    ensures ToPdKey(key)[2 * k] == HexDigit(key[k] / 16) && ToPdKey(key)[2 * k + 1] == HexDigit(key[k] % 16)
  {
    if k == 0 {
    } else {
      ToPdKeyAt(key[1..], k - 1);
    }
  }

  method WriteHex(key: Bytes) returns (h: Bytes)
    ensures h == ToPdKey(key)
  {
    var res := new Byte[2 * |key|](i => 0);
    for k := 0 to |key|
      invariant forall j :: 0 <= j < k ==> res[2 * j] == key[j] / 16 && res[2 * j + 1] == key[j] % 16
    {
      res[2 * k] := key[k] / 16;
      res[2 * k + 1] := key[k] % 16;
    }
    ghost var nibbles := res[..];
    forall i | 0 <= i < res.Length
      ensures 0 <= nibbles[i] < 16
    {
      var j := i / 2;
      assert res[2 * j] == key[j] / 16 && res[2 * j + 1] == key[j] % 16;
      assert i == 2 * j || i == 2 * j + 1;
    }
    for i := 0 to res.Length
      invariant forall j :: 0 <= j < |key| ==> nibbles[2 * j] == key[j] / 16 && nibbles[2 * j + 1] == key[j] % 16
      invariant forall j :: 0 <= j < res.Length ==> 0 <= nibbles[j] < 16
      invariant forall j :: 0 <= j < i ==> res[j] == HexDigit(nibbles[j])
      invariant forall j :: i <= j < res.Length ==> res[j] == nibbles[j]
    {
      if res[i] < 10 {
        res[i] := res[i] + '0' as int;
      } else {
        res[i] := res[i] - 10 + 'A' as int;
      }
    }
    h := res[..];
    forall i | 0 <= i < |h|
      ensures h[i] == ToPdKey(key)[i]
    {
      ToPdKeyAt(key, i / 2);
      assert i == 2 * (i / 2) || i == 2 * (i / 2) + 1;
    }
  }

  /** The value of a character, where `char` is signed. */
  function HexValue(p: Byte): int {
    var c := if p < 128 then p else p - 256;
    if c >= 'A' as int then c - 'A' as int + 10 else c - '0' as int
  }

  /** Two characters as a byte. */
  function PairValue(c: Byte, d: Byte): Byte {
    (HexValue(c) * 16 + HexValue(d)) % 256
  }

  function FromPdKey(h: Bytes): (key: Bytes)
    requires |h| % 2 == 0
    ensures 2 * |key| == |h|
  {
    if h == [] then [] else [PairValue(h[0], h[1])] + FromPdKey(h[2..])
  }

  /** The source reads past the end of a string of odd length. */
  method ReadHex(h: Bytes) returns (key: Bytes)
    requires |h| % 2 == 0
    ensures key == FromPdKey(h)
  {
    hide PairValue;
    key := [];
    var k := 0;
    while k < |h|
      invariant 0 <= k <= |h| && k % 2 == 0
      invariant key + FromPdKey(h[k..]) == FromPdKey(h)
    {
      assert h[k..][2..] == h[k + 2..];
      key := key + [PairValue(h[k], h[k + 1])];
      k := k + 2;
    }
  }

  lemma DigitValue(x: int)
    requires 0 <= x < 16
    ensures IsUpperHex(HexDigit(x)) && HexValue(HexDigit(x)) == x
  {
  }

  lemma ValueDigit(c: Byte)
    requires IsUpperHex(c)
    ensures 0 <= HexValue(c) < 16 && HexDigit(HexValue(c)) == c
  {
  }

  lemma HexByte(b: Byte)
    ensures PairValue(HexDigit(b / 16), HexDigit(b % 16)) == b
  {
    hide HexDigit, HexValue, IsUpperHex;
    DigitValue(b / 16);
    DigitValue(b % 16);
  }

  lemma {:induction false} HexRoundTrip(key: Bytes)
    ensures FromPdKey(ToPdKey(key)) == key
  {
    hide PairValue, HexDigit;
    if key == [] {
    } else {
      HexRoundTrip(key[1..]);
      HexByte(key[0]);
      assert ToPdKey(key)[2..] == ToPdKey(key[1..]);
      assert key == [key[0]] + key[1..];
    }
  }

  predicate IsUpperHex(c: Byte) {
    '0' as int <= c <= '9' as int || 'A' as int <= c <= 'F' as int
  }

  lemma TwoDigits(a: int, b: int)
    requires 0 <= a < 16 && 0 <= b < 16
    ensures (a * 16 + b) % 256 / 16 == a && (a * 16 + b) % 256 % 16 == b
  {
  }

  lemma HexPair(c: Byte, d: Byte)
    ensures
      var v := PairValue(c, d);
      HexDigit(v / 16) == c && HexDigit(v % 16) == d <==> IsUpperHex(c) && IsUpperHex(d)
  {
    hide HexDigit, HexValue, IsUpperHex;
    DigitValue(PairValue(c, d) / 16);
    DigitValue(PairValue(c, d) % 16);
    if IsUpperHex(c) && IsUpperHex(d) {
      ValueDigit(c);
      ValueDigit(d);
      TwoDigits(HexValue(c), HexValue(d));
    }
  }

  /** The other way round, exactly the strings of upper-case digits come back. */
  lemma {:induction false} HexRoundTripBack(h: Bytes)
    requires |h| % 2 == 0
    ensures ToPdKey(FromPdKey(h)) == h <==> forall i :: 0 <= i < |h| ==> IsUpperHex(h[i])
  {
    hide PairValue, HexDigit, IsUpperHex;
    if h == [] {
    } else {
      HexRoundTripBack(h[2..]);
      HexPair(h[0], h[1]);
      assert h == [h[0], h[1]] + h[2..];
      assert FromPdKey(h)[1..] == FromPdKey(h[2..]);
      assert ToPdKey(FromPdKey(h))[2..] == ToPdKey(FromPdKey(h[2..]));
      assert forall i :: 0 <= i < |h| - 2 ==> h[2..][i] == h[i + 2];
      assert forall i :: 2 <= i < |h| ==> h[i] == h[2..][i - 2];
    }
  }

  /** Hexadecimal keys compare as the keys they stand for. */
  lemma {:induction false} HexOrder(a: Bytes, b: Bytes)
    ensures Compare(ToPdKey(a), ToPdKey(b)) == Compare(a, b)
  {
    if a == [] || b == [] {
    } else {
      HexOrder(a[1..], b[1..]);
      var x, y := [HexDigit(a[0] / 16), HexDigit(a[0] % 16)], [HexDigit(b[0] / 16), HexDigit(b[0] % 16)];
      CompareAppend(x, y, ToPdKey(a[1..]), ToPdKey(b[1..]));
      assert x[1..] == [x[1]] && y[1..] == [y[1]];
    }
  }
}
