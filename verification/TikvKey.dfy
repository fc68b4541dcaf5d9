/**
Keys of tables and rows: a table prefix, the table id, a separator and the row handle, with
integers sign-flipped and big-endian so that bytewise order is numeric order.
*/
module TikvKey {
  import opened Bits
  import opened Magic
  import opened Codec
  import opened Memory
  import opened Words

  const TABLE_PREFIX: Bytes := ['t' as int]
  const RECORD_PREFIX_SEP: Bytes := ['_' as int, 'r' as int]
  const SIGN_MARK: nat := 0x8000_0000_0000_0000

  // ---- Byte order --------------------------------------------------------------------

  /** `EndianReverse`, in the source's three steps of masks and shifts. */
  function EndianReverse(x: UInt64): (r: nat) {
    Step8(Step16(Step32(x)))
  }

  function Step32(x: nat): nat {
    Or(x * 0x1_0000_0000 % B64, x / 0x1_0000_0000)
  }

  function Step16(x: nat): nat {
    Or(And(x, 0x0000_FFFF_0000_FFFF) * 0x1_0000 % B64, And(x, 0xFFFF_0000_FFFF_0000) / 0x1_0000)
  }

  function Step8(x: nat): nat {
    Or(And(x, 0x00FF_00FF_00FF_00FF) * 0x100 % B64, And(x, 0xFF00_FF00_FF00_FF00) / 0x100)
  }

  /** Four 16-bit limbs. */
  function Limbs(a: nat, b: nat, c: nat, d: nat): nat {
    ((a * 0x1_0000 + b) * 0x1_0000 + c) * 0x1_0000 + d
  }

  /** Bitwise operators act limb by limb. */
  lemma LimbsBitwise(op: Op, a: nat, b: nat, c: nat, d: nat, a': nat, b': nat, c': nat, d': nat)
    requires b < 0x1_0000 && c < 0x1_0000 && d < 0x1_0000 && b' < 0x1_0000 && c' < 0x1_0000 && d' < 0x1_0000
    ensures Bitwise(op, Limbs(a, b, c, d), Limbs(a', b', c', d'))
         == Limbs(Bitwise(op, a, a'), Bitwise(op, b, b'), Bitwise(op, c, c'), Bitwise(op, d, d'))
  {
    hide Bitwise;
    Pow2Values();
    assert Pow2(16) == 0x1_0000 by { Pow2Add(8, 8); }
    Split(op, 16, a, b, a', b');
    Split(op, 16, a * 0x1_0000 + b, c, a' * 0x1_0000 + b', c');
    Split(op, 16, (a * 0x1_0000 + b) * 0x1_0000 + c, d, (a' * 0x1_0000 + b') * 0x1_0000 + c', d');
  }

  lemma LimbMasks(x: nat)
    requires x < 0x1_0000
    ensures And(x, 0xFFFF) == x && And(x, 0) == 0 && Or(x, 0) == x && Or(0, x) == x
    ensures And(x, 0xFF) == x % 0x100 && And(x, 0xFF00) == x / 0x100 * 0x100
    ensures Or(x % 0x100 * 0x100, x / 0x100) == x % 0x100 * 0x100 + x / 0x100
  {
    hide Bitwise, Pow2, Low, Shr;
    assert Pow2(8) == 0x100 by { Pow2Values(); }
    assert Pow2(16) == 0x1_0000 by { Pow2Add(8, 8); }
    AndOnes(x, 16);
    BitwiseZero(AND, x);
    BitwiseZero(OR, x);
    AndLow(x, 8);
    CutIsDivMod(x, 8);
    Split(AND, 8, x / 0x100, x % 0x100, 0xFF, 0);
    AndOnes(x / 0x100, 8);
    BitwiseZero(AND, x % 0x100);
    OrDisjoint(x % 0x100, x / 0x100, 8);
  }

  function Swap(x: nat): nat {
    x % 0x100 * 0x100 + x / 0x100
  }

  lemma Step32Is(a: nat, b: nat, c: nat, d: nat)
    requires a < 0x1_0000 && b < 0x1_0000 && c < 0x1_0000 && d < 0x1_0000
    ensures Step32(Limbs(a, b, c, d)) == Limbs(c, d, a, b)
  {
    hide Bitwise, Limbs;
    LimbMasks(a);
    LimbMasks(b);
    LimbMasks(c);
    LimbMasks(d);
    LimbsBitwise(OR, c, d, 0, 0, 0, 0, a, b);
    Shift32(a, b, c, d);
  }

  lemma Step16Is(a: nat, b: nat, c: nat, d: nat)
    requires a < 0x1_0000 && b < 0x1_0000 && c < 0x1_0000 && d < 0x1_0000
    ensures Step16(Limbs(c, d, a, b)) == Limbs(d, c, b, a)
  {
    hide Bitwise, Limbs;
    LimbMasks(a);
    LimbMasks(b);
    LimbMasks(c);
    LimbMasks(d);
    MaskLimbs();
    LimbsBitwise(AND, c, d, a, b, 0, 0xFFFF, 0, 0xFFFF);
    LimbsBitwise(AND, c, d, a, b, 0xFFFF, 0, 0xFFFF, 0);
    LimbsBitwise(OR, d, 0, b, 0, 0, c, 0, a);
    Shift16(a, b, c, d);
  }

  lemma Step8Is(a: nat, b: nat, c: nat, d: nat)
    requires a < 0x1_0000 && b < 0x1_0000 && c < 0x1_0000 && d < 0x1_0000
    ensures Step8(Limbs(d, c, b, a)) == Limbs(Swap(d), Swap(c), Swap(b), Swap(a))
  {
    hide Bitwise, Limbs;
    LimbMasks(a);
    LimbMasks(b);
    LimbMasks(c);
    LimbMasks(d);
    MaskLimbs();
    LimbsBitwise(AND, d, c, b, a, 0xFF, 0xFF, 0xFF, 0xFF);
    LimbsBitwise(AND, d, c, b, a, 0xFF00, 0xFF00, 0xFF00, 0xFF00);
    LimbsBitwise(OR, d % 0x100 * 0x100, c % 0x100 * 0x100, b % 0x100 * 0x100, a % 0x100 * 0x100,
                 d / 0x100, c / 0x100, b / 0x100, a / 0x100);
    Shift8(d % 0x100, c % 0x100, b % 0x100, a % 0x100);
    Shift8(d / 0x100, c / 0x100, b / 0x100, a / 0x100);
  }

  lemma MaskLimbs()
    ensures Limbs(0, 0xFFFF, 0, 0xFFFF) == 0x0000_FFFF_0000_FFFF && Limbs(0xFFFF, 0, 0xFFFF, 0) == 0xFFFF_0000_FFFF_0000
    ensures Limbs(0xFF, 0xFF, 0xFF, 0xFF) == 0x00FF_00FF_00FF_00FF
    ensures Limbs(0xFF00, 0xFF00, 0xFF00, 0xFF00) == 0xFF00_FF00_FF00_FF00
  {
  }

  /** The limbs in reverse order, each with its bytes swapped. */
  lemma EndianReverseIs(a: nat, b: nat, c: nat, d: nat)
    requires a < 0x1_0000 && b < 0x1_0000 && c < 0x1_0000 && d < 0x1_0000
    ensures Limbs(a, b, c, d) < B64
    ensures EndianReverse(Limbs(a, b, c, d)) == Limbs(Swap(d), Swap(c), Swap(b), Swap(a))
  {
    hide Step32, Step16, Step8;
    Step32Is(a, b, c, d);
    Step16Is(a, b, c, d);
    Step8Is(a, b, c, d);
  }

  lemma Shift32(a: nat, b: nat, c: nat, d: nat)
    requires a < 0x1_0000 && b < 0x1_0000 && c < 0x1_0000 && d < 0x1_0000
    ensures Limbs(a, b, c, d) * 0x1_0000_0000 % B64 == Limbs(c, d, 0, 0)
    ensures Limbs(a, b, c, d) / 0x1_0000_0000 == Limbs(0, 0, a, b)
  {
    var hi, lo := a * 0x1_0000 + b, c * 0x1_0000 + d;
    assert Limbs(a, b, c, d) == hi * 0x1_0000_0000 + lo;
  }

  lemma Shift16(a: nat, b: nat, c: nat, d: nat)
    requires a < 0x1_0000 && b < 0x1_0000 && c < 0x1_0000 && d < 0x1_0000
    ensures Limbs(0, d, 0, b) * 0x1_0000 % B64 == Limbs(d, 0, b, 0)
    ensures Limbs(c, 0, a, 0) / 0x1_0000 == Limbs(0, c, 0, a)
  {
    assert Limbs(0, d, 0, b) * 0x1_0000 == Limbs(d, 0, b, 0);
  }

  lemma Shift8(a: nat, b: nat, c: nat, d: nat)
    requires a < 0x100 && b < 0x100 && c < 0x100 && d < 0x100
    ensures Limbs(a, b, c, d) * 0x100 % B64 == Limbs(a * 0x100, b * 0x100, c * 0x100, d * 0x100)
    ensures Limbs(a * 0x100, b * 0x100, c * 0x100, d * 0x100) / 0x100 == Limbs(a, b, c, d)
  {
    assert Limbs(a, b, c, d) * 0x100 == Limbs(a * 0x100, b * 0x100, c * 0x100, d * 0x100);
  }

  /** The bytes that `ToMemory` gives, most significant first. */
  function BigEndian(x: nat, n: nat): (b: Bytes)
    ensures |b| == n
  {
    if n == 0 then [] else BigEndian(x / 256, n - 1) + [x % 256]
  }

  lemma InLimbs(x: UInt64) returns (a: nat, b: nat, c: nat, d: nat)
    ensures a < 0x1_0000 && b < 0x1_0000 && c < 0x1_0000 && d < 0x1_0000 && x == Limbs(a, b, c, d)
  {
    a, b, c, d := x / 0x1_0000_0000_0000, x / 0x1_0000_0000 % 0x1_0000, x / 0x1_0000 % 0x1_0000, x % 0x1_0000;
  }

  /** Storing the reversed word puts the bytes in big-endian order. */
  lemma ReversedInMemory(x: UInt64)
    ensures EndianReverse(x) < B64
    ensures ToMemory(EndianReverse(x), 8) == BigEndian(x, 8)
    ensures EndianReverse(EndianReverse(x)) == x
  {
    hide EndianReverse, Limbs, ToMemory, BigEndian, Swap;
    var a, b, c, d := InLimbs(x);
    SwapBytes(a);
    SwapBytes(b);
    SwapBytes(c);
    SwapBytes(d);
    EndianReverseIs(a, b, c, d);
    EndianReverseIs(Swap(d), Swap(c), Swap(b), Swap(a));
    MemoryOfLimbs(Swap(d), Swap(c), Swap(b), Swap(a));
    BigEndianOfLimbs(a, b, c, d);
  }

  lemma SwapBytes(x: nat)
    requires x < 0x1_0000
    ensures Swap(x) < 0x1_0000 && Swap(x) % 256 == x / 256 && Swap(x) / 256 == x % 256 && Swap(Swap(x)) == x
  {
  }

  lemma MemoryStep(x: nat, lo: nat, n: nat)
    requires lo < 0x1_0000
    ensures ToMemory(x * 0x1_0000 + lo, n + 2) == [lo % 256, lo / 256] + ToMemory(x, n)
  {
    var y := x * 0x1_0000 + lo;
    assert y / 256 / 256 == x && y / 256 % 256 == lo / 256 && y % 256 == lo % 256;
    assert ToMemory(y / 256, n + 1) == [lo / 256] + ToMemory(x, n);
  }

  lemma MemoryOfLimbs(a: nat, b: nat, c: nat, d: nat)
    requires a < 0x1_0000 && b < 0x1_0000 && c < 0x1_0000 && d < 0x1_0000
    ensures ToMemory(Limbs(a, b, c, d), 8)
         == [d % 256, d / 256, c % 256, c / 256, b % 256, b / 256, a % 256, a / 256]
  {
    hide ToMemory;
    MemoryStep(0, a, 0);
    MemoryStep(a, b, 2);
    MemoryStep(a * 0x1_0000 + b, c, 4);
    MemoryStep((a * 0x1_0000 + b) * 0x1_0000 + c, d, 6);
  }

  lemma BigEndianOfLimbs(a: nat, b: nat, c: nat, d: nat)
    requires a < 0x1_0000 && b < 0x1_0000 && c < 0x1_0000 && d < 0x1_0000
    ensures BigEndian(Limbs(a, b, c, d), 8)
         == [a / 256, a % 256, b / 256, b % 256, c / 256, c % 256, d / 256, d % 256]
  {
    hide BigEndian;
    NoBytes();
    TwoLimbs(0, a, b, 0);
    TwoLimbs(a * 0x1_0000 + b, c, d, 4);
    var high, low := [a / 256, a % 256, b / 256, b % 256], [c / 256, c % 256, d / 256, d % 256];
    assert BigEndian(Limbs(a, b, c, d), 8) == high + low;
  }

  lemma NoBytes()
    ensures BigEndian(0, 0) == []
  {
  }

  lemma TwoLimbs(x: nat, hi: nat, lo: nat, n: nat)
    requires hi < 0x1_0000 && lo < 0x1_0000
    ensures BigEndian((x * 0x1_0000 + hi) * 0x1_0000 + lo, n + 4) == BigEndian(x, n) + [hi / 256, hi % 256, lo / 256, lo % 256]
  {
    hide BigEndian;
    BigEndianStep(x, hi, n);
    BigEndianStep(x * 0x1_0000 + hi, lo, n + 2);
  }

  lemma BigEndianStep(x: nat, lo: nat, n: nat)
    requires lo < 0x1_0000
    ensures BigEndian(x * 0x1_0000 + lo, n + 2) == BigEndian(x, n) + [lo / 256, lo % 256]
  {
    var y := x * 0x1_0000 + lo;
    assert y / 256 == x * 256 + lo / 256 && y % 256 == lo % 256;
    assert y / 256 / 256 == x && y / 256 % 256 == lo / 256;
    assert BigEndian(y, n + 2) == BigEndian(y / 256, n + 1) + [lo % 256];
    assert BigEndian(y / 256, n + 1) == BigEndian(x, n) + [lo / 256];
  }

  // ---- Integers ----------------------------------------------------------------------

  function EncodeInt64(x: Int64): (r: nat) {
    EndianReverse(FlipSign(Unsigned64(x)))
  }

  function DecodeInt64(x: UInt64): (r: int)
    requires EndianReverse(x) < B64
  {
    var u := FlipSign(EndianReverse(x));
    if u < SIGN_MARK then u else u - B64
  }

  function Unsigned64(x: int): (u: UInt64) {
    x % B64
  }

  /** `x ^ kSignMark`. */
  function FlipSign(x: UInt64): (r: UInt64) {
    FlipSignIs(x);
    Xor(x, SIGN_MARK)
  }

  lemma FlipSignIs(x: UInt64)
    ensures Xor(x, SIGN_MARK) == if x < SIGN_MARK then x + SIGN_MARK else x - SIGN_MARK
  {
    hide Bitwise, Pow2;
    assert Pow2(63) == SIGN_MARK by { Pow2Values(); }
    var hi, lo := x / SIGN_MARK, x % SIGN_MARK;
    Split(XOR, 63, hi, lo, 1, 0);
    BitwiseZero(XOR, lo);
    BitwiseZero(XOR, 1);
    BitwiseSame(1);
  }

  /** The bytes of an encoded integer in a key: its offset from the least integer, big-endian. */
  function KeyBytes(x: Int64): (b: Bytes)
    ensures |b| == 8
  {
    ToMemory(EncodeInt64(x), 8)
  }

  lemma KeyBytesAre(x: Int64)
    ensures EncodeInt64(x) < B64
    ensures KeyBytes(x) == BigEndian(x + SIGN_MARK, 8)
  {
    hide EndianReverse, ToMemory, BigEndian;
    FlipSignIs(Unsigned64(x));
    ReversedInMemory(FlipSign(Unsigned64(x)));
  }

  lemma IntRoundTrip(x: Int64)
    ensures
      var u := LittleEndian(KeyBytes(x));
      u < B64 && EndianReverse(u) < B64 && DecodeInt64(u) == x
  {
    hide EndianReverse, ToMemory, LittleEndian;
    Pow2Values();
    var u := Unsigned64(x);
    FlipSignIs(u);
    FlipSignIs(FlipSign(u));
    ReversedInMemory(FlipSign(u));
    MemoryRoundTrip(EncodeInt64(x), 8);
  }

  /** Big-endian strings of one length compare as the numbers. */
  lemma TopBytes(x: nat, n: nat)
    requires n > 0 && x < Pow2(8 * n)
    ensures x / 256 < Pow2(8 * (n - 1))
  {
    assert Pow2(8) == 256 by { Pow2Values(); }
    Pow2Add(8, 8 * (n - 1));
  }

  lemma OneByte(x: Byte, y: Byte)
    ensures Compare([x], [y]) == Sign(x - y)
  {
  }

  lemma {:induction false} BigEndianOrder(x: nat, y: nat, n: nat)
    requires x < Pow2(8 * n) && y < Pow2(8 * n)
    ensures Compare(BigEndian(x, n), BigEndian(y, n)) == Sign(x - y)
  {
    if n == 0 {
    } else {
      TopBytes(x, n);
      TopBytes(y, n);
      hide Pow2, Compare;
      BigEndianOrder(x / 256, y / 256, n - 1);
      CompareNegates(BigEndian(x / 256, n - 1), BigEndian(y / 256, n - 1));
      CompareAppend(BigEndian(x / 256, n - 1), BigEndian(y / 256, n - 1), [x % 256], [y % 256]);
      OneByte(x % 256, y % 256);
    }
  }

  lemma KeyBytesOrder(x: Int64, y: Int64)
    ensures Compare(KeyBytes(x), KeyBytes(y)) == Sign(x as int - y as int)
    ensures KeyBytes(x) == KeyBytes(y) <==> x == y
  {
    hide BigEndian, KeyBytes, Compare, EndianReverse, Pow2;
    Pow2Values();
    KeyBytesAre(x);
    KeyBytesAre(y);
    BigEndianOrder(x + SIGN_MARK, y + SIGN_MARK, 8);
    CompareNegates(KeyBytes(x), KeyBytes(y));
  }

  // ---- Keys --------------------------------------------------------------------------

  function GenKeyByTable(t: Int64): (key: Bytes) {
    Encode(TABLE_PREFIX + KeyBytes(t))
  }

  /** `tableId + 1`, wrapping at the largest id. */
  function NextId(t: Int64): Int64 {
    if t == INT64_MAX then INT64_MIN else t + 1
  }

  function MakeTableBegin(t: Int64): (key: Bytes) {
    Encode(TABLE_PREFIX + KeyBytes(t) + RECORD_PREFIX_SEP)
  }

  function MakeTableEnd(t: Int64): (key: Bytes) {
    GenKeyByTable(NextId(t))
  }

  function MakeWholeTableBegin(t: Int64): (key: Bytes) {
    GenKeyByTable(t)
  }

  function MakeWholeTableEnd(t: Int64): (key: Bytes) {
    GenKeyByTable(NextId(t))
  }

  function MakeTableHandle(t: Int64, h: Int64): (key: Bytes) {
    Encode(TABLE_PREFIX + KeyBytes(t) + RECORD_PREFIX_SEP + KeyBytes(h))
  }

  /** The source reads eight bytes at a fixed offset without a bounds check. */
  function GetTableIdRaw(raw: Bytes): (t: int)
    requires |raw| >= 9
  {
    ReadInt(raw[1..9])
  }

  function GetHandleRaw(raw: Bytes): (h: int)
    requires |raw| >= 19
  {
    ReadInt(raw[11..19])
  }

  function ReadInt(b: Bytes): (x: int)
    requires |b| == 8
  {
    var u := LittleEndian(b);
    LittleEndianFits(b);
    ReversedInMemory(u);
    DecodeInt64(u)
  }

  lemma LittleEndianFits(b: Bytes)
    requires |b| == 8
    ensures LittleEndian(b) < B64
  {
    LittleEndianBound(b);
    Pow2Values();
  }

  function GetTableId(key: Bytes): (r: Result<int>)
    requires Decode(key).Ok? ==> |Decode(key).value.0| >= 9
  {
    match Decode(key)
    case Ok((raw, _)) => Ok(GetTableIdRaw(raw))
    case Err(e) => Err(e)
  }

  function GetHandle(key: Bytes): (r: Result<int>)
    requires Decode(key).Ok? ==> |Decode(key).value.0| >= 19
  {
    match Decode(key)
    case Ok((raw, _)) => Ok(GetHandleRaw(raw))
    case Err(e) => Err(e)
  }

  /** The table id and the row handle are read back from the key, whatever follows it. */
  lemma KeyRoundTrip(t: Int64, h: Int64, rest: Bytes)
    ensures
      var key := MakeTableHandle(t, h) + rest;
      && Decode(key).Ok? && |Decode(key).value.0| == 19
      && GetTableId(key) == Ok(t as int) && GetHandle(key) == Ok(h as int)
  {
    hide Decode, Encode, KeyBytes, LittleEndian, EndianReverse;
    var raw := TABLE_PREFIX + KeyBytes(t) + RECORD_PREFIX_SEP + KeyBytes(h);
    DecodeEncode(raw, rest);
    assert raw[1..9] == KeyBytes(t) && raw[11..19] == KeyBytes(h);
    IntRoundTrip(t);
    IntRoundTrip(h);
  }

  /** The first nine bytes of two raw keys decide by table id. */
  lemma TableOrder(t: Int64, t': Int64, u: Bytes, v: Bytes)
    ensures Compare(TABLE_PREFIX + KeyBytes(t) + u, TABLE_PREFIX + KeyBytes(t') + v)
         == if t == t' then Compare(u, v) else Sign(t as int - t' as int)
  {
    hide KeyBytes;
    KeyBytesOrder(t, t');
    var x, y := TABLE_PREFIX + KeyBytes(t), TABLE_PREFIX + KeyBytes(t');
    CompareAppend(x, y, u, v);
    CompareAppend(TABLE_PREFIX, TABLE_PREFIX, KeyBytes(t), KeyBytes(t'));
    assert x[1..] == KeyBytes(t) && y[1..] == KeyBytes(t');
  }

  /** Row keys sort by table id and then by handle. */
  lemma HandleOrder(t: Int64, h: Int64, t': Int64, h': Int64)
    ensures Compare(MakeTableHandle(t, h), MakeTableHandle(t', h'))
         == if t == t' then Sign(h as int - h' as int) else Sign(t as int - t' as int)
  {
    hide KeyBytes, Encode;
    var u, v := RECORD_PREFIX_SEP + KeyBytes(h), RECORD_PREFIX_SEP + KeyBytes(h');
    var x, y := TABLE_PREFIX + KeyBytes(t), TABLE_PREFIX + KeyBytes(t');
    assert x + RECORD_PREFIX_SEP + KeyBytes(h) == x + u && y + RECORD_PREFIX_SEP + KeyBytes(h') == y + v;
    EncodeOrder(x + u, y + v);
    TableOrder(t, t', u, v);
    CompareAppend(RECORD_PREFIX_SEP, RECORD_PREFIX_SEP, KeyBytes(h), KeyBytes(h'));
    KeyBytesOrder(h, h');
  }

  /** Where a row key lies with respect to the beginning and the end of a table. */
  lemma HandleAgainstBounds(t: Int64, t': Int64, h: Int64)
    ensures Compare(MakeTableBegin(t), MakeTableHandle(t', h)) < 0 <==> t <= t'
    ensures Compare(MakeTableBegin(t), MakeTableHandle(t', h)) != 0
    ensures Compare(MakeTableHandle(t', h), MakeTableEnd(t)) < 0 <==> t' < NextId(t)
  {
    hide KeyBytes, Encode;
    var sep := RECORD_PREFIX_SEP;
    var x, y := TABLE_PREFIX + KeyBytes(t), TABLE_PREFIX + KeyBytes(t');
    assert y + sep + KeyBytes(h) == y + (sep + KeyBytes(h));
    EncodeOrder(x + sep, y + (sep + KeyBytes(h)));
    TableOrder(t, t', sep, sep + KeyBytes(h));
    CompareAppend(sep, sep, [], KeyBytes(h));
    assert sep + [] == sep;
    var z := TABLE_PREFIX + KeyBytes(NextId(t));
    assert z == z + [];
    EncodeOrder(y + (sep + KeyBytes(h)), z + []);
    TableOrder(t', NextId(t), sep + KeyBytes(h), []);
  }

  /** The range of a table holds exactly its own rows; the range of the largest id, whose end
      wraps, is empty. */
  lemma TableRange(t: Int64, t': Int64, h: Int64)
    ensures
      var key := MakeTableHandle(t', h);
      Compare(MakeTableBegin(t), key) <= 0 && Compare(key, MakeTableEnd(t)) < 0 <==> t' == t && t != INT64_MAX
  {
    hide KeyBytes, Encode, Compare;
    HandleAgainstBounds(t, t', h);
  }

  /** A table's range is not empty, and lies before that of the next id, except at the largest id. */
  lemma TableBounds(t: Int64)
    ensures Compare(MakeTableBegin(t), MakeTableEnd(t)) < 0 <==> t != INT64_MAX
    ensures MakeTableEnd(t) == MakeWholeTableBegin(NextId(t)) == MakeWholeTableEnd(t)
    ensures Compare(MakeWholeTableBegin(t), MakeTableBegin(t)) < 0
    ensures Compare(MakeTableEnd(t), MakeTableBegin(NextId(t))) < 0
  {
    hide KeyBytes, Encode;
    var sep := RECORD_PREFIX_SEP;
    var x, z := TABLE_PREFIX + KeyBytes(t), TABLE_PREFIX + KeyBytes(NextId(t));
    assert z == z + [] && x == x + [];
    EncodeOrder(x + sep, z + []);
    TableOrder(t, NextId(t), sep, []);
    EncodeOrder(x + [], x + sep);
    TableOrder(t, t, [], sep);
    EncodeOrder(z + [], z + sep);
    TableOrder(NextId(t), NextId(t), [], sep);
  }
}
