/**
The Markov model of strings: for each hash of the preceding bytes, a histogram of the byte
that follows. It is trained on strings, can be reweighted, generates strings, and is written
to and read from a byte stream. The context hash is a parameter.
*/
module Markov {
  import opened Bits
  import opened Memory
  import opened Histograms
  import opened Sets
  import opened Words

  type Table = map<UInt32, Histogram>
  type ContextHash = Bytes -> UInt32

  ghost predicate IsModel(table: Table) {
    forall key :: key in table ==> IsHistogram(table[key])
  }

  /** The hash of the at most `n` bytes before a position. */
  function HashContext(crc: ContextHash, n: nat, data: Bytes, pos: nat): UInt32
    requires pos <= |data|
  {
    if pos >= n then crc(data[pos - n..pos]) else crc(data[..pos])
  }

  /** The context is the bytes just before the position: `n` of them, or all if there are fewer. */
  lemma ContextIsSuffix(crc: ContextHash, n: nat, data: Bytes, pos: nat) returns (context: Bytes)
    requires pos <= |data|
    ensures HashContext(crc, n, data, pos) == crc(context)
    ensures |context| == (if n < pos then n else pos) && data[pos - |context|..pos] == context
  {
    context := if pos >= n then data[pos - n..pos] else data[..pos];
  }

  // ---- Training ----------------------------------------------------------------------

  function Record(table: Table, key: UInt32, byte: Byte): Table {
    table[key := Added(if key in table then table[key] else Histogram(0, []), byte)]
  }

  /** What is recorded at a position: its byte, or a zero for the end of the string. */
  function ByteAt(data: Bytes, pos: nat): Byte {
    if pos < |data| then data[pos] else 0
  }

  function Consumed(table: Table, crc: ContextHash, n: nat, data: Bytes, k: nat): Table
    requires k <= |data| + 1
  {
    if k == 0 then table
    else Record(Consumed(table, crc, n, data, k - 1), HashContext(crc, n, data, k - 1), ByteAt(data, k - 1))
  }

  function CountIn(table: Table, key: UInt32, byte: Byte): nat {
    if key in table then CountOf(table[key].data, byte) else 0
  }

  /** How many of the first `k` positions have this context and this byte. */
  function Occurrences(crc: ContextHash, n: nat, data: Bytes, k: nat, key: UInt32, byte: Byte): nat
    requires k <= |data| + 1
  {
    if k == 0 then 0
    else Occurrences(crc, n, data, k - 1, key, byte)
         + (if HashContext(crc, n, data, k - 1) == key && ByteAt(data, k - 1) == byte then 1 else 0)
  }

  ghost predicate HasRoom(table: Table, k: nat) {
    k < B32 && forall key :: key in table ==> table[key].total + k < B32
  }

  lemma RecordCounts(table: Table, at: UInt32, byte: Byte)
    requires IsModel(table) && (at in table ==> table[at].total + 1 < B32)
    ensures IsModel(Record(table, at, byte))
    ensures forall key :: key in Record(table, at, byte) <==> key in table || key == at
    ensures forall key :: key in table && key != at ==> Record(table, at, byte)[key] == table[key]
    ensures Record(table, at, byte)[at].total == (if at in table then table[at].total else 0) + 1
    ensures forall key, other ::
      CountIn(Record(table, at, byte), key, other) == CountIn(table, key, other) + (if key == at && other == byte then 1 else 0)
  {
    AddedProperties(if at in table then table[at] else Histogram(0, []), byte);
  }

  /** Training keeps every histogram one, and adds to each count exactly the occurrences. */
  lemma {:induction false} ConsumeCounts(table: Table, crc: ContextHash, n: nat, data: Bytes, k: nat)
    requires IsModel(table) && k <= |data| + 1 && HasRoom(table, k)
    ensures
      var after := Consumed(table, crc, n, data, k);
      && IsModel(after)
      && (forall key :: key in after ==> after[key].total <= (if key in table then table[key].total else 0) + k)
      && (forall key, byte :: CountIn(after, key, byte) == CountIn(table, key, byte) + Occurrences(crc, n, data, k, key, byte))
  {
    hide Record, HashContext, IsHistogram;
    if k == 0 {
    } else {
      ConsumeCounts(table, crc, n, data, k - 1);
      RecordCounts(Consumed(table, crc, n, data, k - 1), HashContext(crc, n, data, k - 1), ByteAt(data, k - 1));
    }
  }

  /** The positions of a string at which a byte follows a context. */
  ghost function Positions(crc: ContextHash, n: nat, data: Bytes, k: nat, key: UInt32, byte: Byte): set<int>
    requires k <= |data|
  {
    set i | 0 <= i < k && HashContext(crc, n, data, i) == key && data[i] == byte
  }

  lemma {:induction false} OccurrencesInside(crc: ContextHash, n: nat, data: Bytes, k: nat, key: UInt32, byte: Byte)
    requires k <= |data|
    ensures Occurrences(crc, n, data, k, key, byte) == |Positions(crc, n, data, k, key, byte)|
  {
    hide HashContext;
    if k == 0 {
    } else {
      OccurrencesInside(crc, n, data, k - 1, key, byte);
      var before, now := Positions(crc, n, data, k - 1, key, byte), Positions(crc, n, data, k, key, byte);
      assert now == if HashContext(crc, n, data, k - 1) == key && data[k - 1] == byte then before + {k - 1} else before;
    }
  }

  /** What training counts: the positions of the byte in the context, and one zero for the end of
      the string in the context of its last bytes. */
  lemma OccurrencesAre(crc: ContextHash, n: nat, data: Bytes, key: UInt32, byte: Byte)
    ensures Occurrences(crc, n, data, |data| + 1, key, byte)
         == |Positions(crc, n, data, |data|, key, byte)|
            + (if HashContext(crc, n, data, |data|) == key && byte == 0 then 1 else 0)
  {
    OccurrencesInside(crc, n, data, |data|, key, byte);
  }

  // ---- The stream format -------------------------------------------------------------

  datatype Parsed<T> = Parsed(value: T, rest: Bytes) | Eof

  /** Seven bits to a byte, least significant first, in at most nine bytes. */
  function WriteVar(x: nat, left: nat): Bytes {
    if left == 0 then []
    else
      var byte := x % 128 + (if x > 127 then 128 else 0);
      if x / 128 == 0 then [byte] else [byte] + WriteVar(x / 128, left - 1)
  }

  function ReadVar(b: Bytes, left: nat): Parsed<nat> {
    if left == 0 then Parsed(0, b)
    else if b == [] then Eof
    else if b[0] < 128 then Parsed(b[0], b[1..])
    else
      match ReadVar(b[1..], left - 1)
      case Parsed(high, rest) => Parsed(b[0] % 128 + 128 * high, rest)
      case Eof => Eof
  }

  const VAR_BYTES: nat := 9

  /** A written number: its high bit is set on every byte but the last, a number below 128 is one
      byte, and a larger one begins with its low seven bits. */
  lemma {:induction false} VarFormat(x: nat, left: nat)
    requires left > 0 && x < Pow2(7 * left)
    ensures
      var b := WriteVar(x, left);
      && b != [] && b[|b| - 1] < 128 && (forall i :: 0 <= i < |b| - 1 ==> b[i] >= 128)
      && (x < 128 ==> b == [x]) && (x >= 128 ==> |b| > 1 && b[0] == 128 + x % 128 && b[1..] == WriteVar(x / 128, left - 1))
    decreases left
  {
    hide Pow2;
    if x < 128 {
    } else {
      VarStep(x, left);
      VarFormat(x / 128, left - 1);
      var b := WriteVar(x, left);
      assert b[1..] == WriteVar(x / 128, left - 1);
      assert forall i :: 1 <= i < |b| ==> b[i] == b[1..][i - 1];
    }
  }

  lemma VarStep(x: nat, left: nat)
    requires left > 0 && 127 < x < Pow2(7 * left)
    ensures left > 1 && x / 128 < Pow2(7 * (left - 1))
  {
    assert Pow2(7) == 128 by { Pow2Values(); }
    Pow2Add(7, 7 * (left - 1));
  }

  lemma {:induction false} VarRoundTrip(x: nat, left: nat, rest: Bytes)
    requires left > 0 && x < Pow2(7 * left)
    ensures ReadVar(WriteVar(x, left) + rest, left) == Parsed(x, rest)
  {
    hide Pow2;
    var b := WriteVar(x, left) + rest;
    if x > 127 {
      VarStep(x, left);
      VarRoundTrip(x / 128, left - 1, rest);
      assert b[1..] == WriteVar(x / 128, left - 1) + rest;
    } else {
      assert b[1..] == rest;
    }
  }

  /** Values up to 2^63 - 1 survive, as the source says. */
  lemma VarUIntRoundTrip(x: nat, rest: Bytes)
    requires x < B63
    ensures ReadVar(WriteVar(x, VAR_BYTES) + rest, VAR_BYTES) == Parsed(x, rest)
  {
    Pow2Values();
    VarRoundTrip(x, VAR_BYTES, rest);
  }

  function WriteElements(data: seq<Element>): Bytes {
    if data == [] then []
    else [data[0].byte] + WriteVar(data[0].count, VAR_BYTES) + WriteElements(data[1..])
  }

  function ReadElements(b: Bytes, k: nat): Parsed<seq<Element>>
    decreases k
  {
    if k == 0 then Parsed([], b)
    else if b == [] then Eof
    else
      match ReadVar(b[1..], VAR_BYTES)
      case Eof => Eof
      case Parsed(count, rest) =>
        match ReadElements(rest, k - 1)
        case Eof => Eof
        case Parsed(data, rest') => Parsed([Element(b[0], count % B32)] + data, rest')
  }

  lemma {:induction false} ElementsRoundTrip(data: seq<Element>, rest: Bytes)
    requires forall i :: 0 <= i < |data| ==> data[i].count < B32
    ensures ReadElements(WriteElements(data) + rest, |data|) == Parsed(data, rest)
  {
    hide ReadVar, WriteVar;
    if data == [] {
      assert WriteElements(data) + rest == rest;
    } else {
      ElementsRoundTrip(data[1..], rest);
      FirstElement(data, rest);
      assert data == [data[0]] + data[1..];
    }
  }

  lemma FirstElement(data: seq<Element>, rest: Bytes)
    requires data != [] && data[0].count < B32
    ensures
      var b, tail := WriteElements(data) + rest, WriteElements(data[1..]) + rest;
      b != [] && b[0] == data[0].byte && ReadVar(b[1..], VAR_BYTES) == Parsed(data[0].count, tail)
  {
    hide ReadVar, WriteVar;
    VarUIntRoundTrip(data[0].count, WriteElements(data[1..]) + rest);
    Regroup(data[0].byte, WriteVar(data[0].count, VAR_BYTES), WriteElements(data[1..]), rest);
  }

  lemma Regroup(x: Byte, u: Bytes, v: Bytes, rest: Bytes)
    ensures var b := [x] + u + v + rest; b[0] == x && b[1..] == u + (v + rest)
  {
  }

  function WriteEntry(key: UInt32, data: seq<Element>): Bytes {
    ToMemory(key, 4) + [|data| % 256] + WriteElements(data)
  }

  /** The entries in the order in which the hash table is walked. */
  function WriteEntries(order: seq<UInt32>, table: Table): Bytes
    requires forall key :: key in order ==> key in table
  {
    if order == [] then []
    else WriteEntry(order[0], table[order[0]].data) + WriteEntries(order[1..], table)
  }

  function Loaded(table: Table, key: UInt32, data: seq<Element>): Table {
    var total := if key in table then table[key].total else 0;
    table[key := Histogram((total + Sum(data)) % B32, data)]
  }

  function ReadEntries(b: Bytes, k: nat, table: Table): Parsed<Table>
    decreases k
  {
    if k == 0 then Parsed(table, b)
    else if |b| < 5 then Eof
    else
      MemoryKey(b);
      match ReadElements(b[5..], b[4])
      case Eof => Eof
      case Parsed(data, rest) => ReadEntries(rest, k - 1, Loaded(table, LittleEndian(b[..4]), data))
  }

  lemma MemoryKey(b: Bytes)
    requires |b| >= 5
    ensures LittleEndian(b[..4]) < B32
  {
    LittleEndianBound(b[..4]);
    Pow2Values();
  }

  function WriteModel(n: nat, table: Table, order: seq<UInt32>): Bytes
    requires forall key :: key in order ==> key in table
  {
    [n % 256] + WriteVar(|table|, VAR_BYTES) + WriteEntries(order, table)
  }

  function ReadModel(b: Bytes): Parsed<(nat, Table)> {
    if b == [] then Eof
    else
      match ReadVar(b[1..], VAR_BYTES)
      case Eof => Eof
      case Parsed(size, rest) =>
        WithOrder(b[0], ReadEntries(rest, size, map[]))
  }

  function WithOrder(n: nat, r: Parsed<Table>): Parsed<(nat, Table)> {
    match r
    case Eof => Eof
    case Parsed(table, rest) => Parsed((n, table), rest)
  }

  ghost predicate IsOrder(order: seq<UInt32>, table: Table) {
    && (forall i, j :: 0 <= i < j < |order| ==> order[i] != order[j])
    && (forall key :: key in order <==> key in table)
  }

  lemma {:induction false} OrderSize(order: seq<UInt32>, keys: set<UInt32>)
    requires forall i, j :: 0 <= i < j < |order| ==> order[i] != order[j]
    requires forall key :: key in order <==> key in keys
    ensures |keys| == |order|
  {
    if order == [] {
      assert keys == {};
    } else {
      assert forall key :: key in order <==> key == order[0] || key in order[1..];
      OrderSize(order[1..], keys - {order[0]});
    }
  }

  lemma EntryRoundTrip(key: UInt32, data: seq<Element>, rest: Bytes)
    requires |data| < 256 && forall i :: 0 <= i < |data| ==> data[i].count < B32
    ensures
      var b := WriteEntry(key, data) + rest;
      && |b| >= 5 && LittleEndian(b[..4]) == key && b[4] == |data|
      && ReadElements(b[5..], b[4]) == Parsed(data, rest)
  {
    hide ToMemory, LittleEndian, ReadElements, WriteElements;
    var b := WriteEntry(key, data) + rest;
    Pow2Values();
    MemoryRoundTrip(key, 4);
    assert b[..4] == ToMemory(key, 4);
    ElementsRoundTrip(data, rest);
    assert b[5..] == WriteElements(data) + rest;
  }

  lemma {:induction false} CountsBounded(data: seq<Element>, i: nat)
    requires i < |data|
    ensures data[i].count <= Sum(data)
  {
    if i == 0 {
    } else {
      CountsBounded(data[1..], i - 1);
    }
  }

  /** Reading the entries back adds them to what is there. */
  lemma {:induction false} EntriesRoundTrip(order: seq<UInt32>, table: Table, before: Table, rest: Bytes)
    requires forall key :: key in order ==> key in table && IsHistogram(table[key]) && |table[key].data| < 256
    requires forall i, j :: 0 <= i < j < |order| ==> order[i] != order[j]
    requires forall key :: key in order ==> key !in before
    ensures ReadEntries(WriteEntries(order, table) + rest, |order|, before)
         == Parsed(before + Restricted(order, table), rest)
  {
    hide ReadEntries, WriteEntry;
    if order == [] {
      NoEntries(table, before, rest);
      assert before + Restricted(order, table) == before;
    } else {
      var key, tail := order[0], order[1..];
      var h := table[key];
      var next := Loaded(before, key, h.data);
      FirstEntry(order, table, before, rest);
      EntriesRoundTrip(tail, table, next, rest);
      RestrictedStep(order, table, before);
    }
  }

  lemma NoEntries(table: Table, before: Table, rest: Bytes)
    ensures ReadEntries(WriteEntries([], table) + rest, 0, before) == Parsed(before, rest)
  {
    assert WriteEntries([], table) + rest == rest;
  }

  lemma RestrictedStep(order: seq<UInt32>, table: Table, before: Table)
    requires order != [] && (forall key :: key in order ==> key in table) && IsHistogram(table[order[0]]) && order[0] !in before
    ensures before + Restricted(order, table) == Loaded(before, order[0], table[order[0]].data) + Restricted(order[1..], table)
  {
    assert Loaded(before, order[0], table[order[0]].data) == before[order[0] := table[order[0]]];
    assert forall k :: k in order <==> k == order[0] || k in order[1..];
  }

  function Restricted(order: seq<UInt32>, table: Table): Table
    requires forall key :: key in order ==> key in table
  {
    map key | key in order :: table[key]
  }

  lemma FirstEntry(order: seq<UInt32>, table: Table, before: Table, rest: Bytes)
    requires order != [] && forall key :: key in order ==> key in table && IsHistogram(table[key]) && |table[key].data| < 256
    ensures ReadEntries(WriteEntries(order, table) + rest, |order|, before)
         == ReadEntries(WriteEntries(order[1..], table) + rest, |order| - 1, Loaded(before, order[0], table[order[0]].data))
  {
    hide LittleEndian, ReadElements, WriteEntry, Loaded;
    var key, tail := order[0], order[1..];
    var data := table[key].data;
    forall i | 0 <= i < |data| ensures data[i].count < B32 { CountsBounded(data, i); }
    var left := WriteEntries(tail, table) + rest;
    EntryRoundTrip(key, data, left);
    assert WriteEntries(order, table) + rest == WriteEntry(key, data) + left;
  }

  /** The size of every histogram fits in a byte. */
  ghost predicate AllSmall(table: Table) {
    forall key :: key in table ==> |table[key].data| < 256
  }

  lemma LoadedSmall(table: Table, key: UInt32, data: seq<Element>)
    requires AllSmall(table) && |data| < 256
    ensures AllSmall(Loaded(table, key, data))
  {
  }

  /** Whatever is read has small histograms. */
  lemma {:induction false} ReadSizes(b: Bytes, k: nat, table: Table)
    requires AllSmall(table)
    ensures var r := ReadEntries(b, k, table); r.Parsed? ==> AllSmall(r.value)
    decreases k
  {
    hide ReadElements, AllSmall, Loaded, LittleEndian;
    if k == 0 || |b| < 5 {
    } else {
      MemoryKey(b);
      ElementsSize(b[5..], b[4]);
      match ReadElements(b[5..], b[4])
      case Eof =>
      case Parsed(data, rest) =>
        LoadedSmall(table, LittleEndian(b[..4]), data);
        ReadSizes(rest, k - 1, Loaded(table, LittleEndian(b[..4]), data));
    }
  }

  lemma {:induction false} ElementsSize(b: Bytes, k: nat)
    ensures var r := ReadElements(b, k); r.Parsed? ==> |r.value| == k
    decreases k
  {
    hide ReadVar;
    if k == 0 || b == [] {
    } else {
      match ReadVar(b[1..], VAR_BYTES)
      case Eof =>
      case Parsed(count, rest) => ElementsSize(rest, k - 1);
    }
  }

  /** Reading undoes writing, whatever follows, exactly when the order and the size of every
      histogram fit in a byte. A histogram with all 256 bytes does not. */
  lemma ModelRoundTrip(n: nat, table: Table, order: seq<UInt32>, rest: Bytes)
    requires IsModel(table) && IsOrder(order, table)
    ensures ReadModel(WriteModel(n, table, order) + rest) == Parsed((n, table), rest) <==> n < 256 && AllSmall(table)
  {
    hide ReadEntries, WriteEntries, ReadModel, WriteModel, AllSmall, IsModel;
    HeaderRoundTrip(n, table, order, rest);
    TableRoundTrip(table, order, rest);
  }

  lemma TableRoundTrip(table: Table, order: seq<UInt32>, rest: Bytes)
    requires IsModel(table) && IsOrder(order, table)
    ensures ReadEntries(WriteEntries(order, table) + rest, |table|, map[]) == Parsed(table, rest) <==> AllSmall(table)
  {
    hide ReadEntries, WriteEntries, IsHistogram;
    ReadSizes(WriteEntries(order, table) + rest, |table|, map[]);
    if AllSmall(table) {
      OrderSize(order, table.Keys);
      EntriesRoundTrip(order, table, map[], rest);
      RestrictedAll(order, table);
    }
  }

  lemma RestrictedAll(order: seq<UInt32>, table: Table)
    requires IsOrder(order, table)
    ensures map[] + Restricted(order, table) == table
  {
  }

  lemma HeaderRoundTrip(n: nat, table: Table, order: seq<UInt32>, rest: Bytes)
    requires forall key :: key in order ==> key in table
    ensures
      var entries := WriteEntries(order, table) + rest;
      ReadModel(WriteModel(n, table, order) + rest) == WithOrder(n % 256, ReadEntries(entries, |table|, map[]))
  {
    hide ReadVar, WriteVar, ReadEntries, WriteEntries;
    var b := WriteModel(n, table, order) + rest;
    var entries := WriteEntries(order, table) + rest;
    BelowSize(table.Keys, B32);
    VarUIntRoundTrip(|table|, entries);
    assert b[1..] == WriteVar(|table|, VAR_BYTES) + entries;
  }

  /** Counts are kept modulo 2^32, whatever the stream says. */
  lemma CountWraps(byte: Byte, x: nat, rest: Bytes)
    requires x < B63
    ensures ReadElements([byte] + WriteVar(x, VAR_BYTES) + rest, 1) == Parsed([Element(byte, x % 0x1_0000_0000)], rest)
  {
    hide ReadVar, WriteVar;
    VarUIntRoundTrip(x, rest);
    var b := [byte] + WriteVar(x, VAR_BYTES) + rest;
    assert b[0] == byte && b[1..] == WriteVar(x, VAR_BYTES) + rest;
    assert [Element(byte, x % B32)] + [] == [Element(byte, x % B32)];
    assert ReadElements(rest, 0) == Parsed([], rest);
  }

  // ---- Streams that end early ---------------------------------------------------------

  lemma {:induction false} VarExtends(b: Bytes, more: Bytes, left: nat)
    requires ReadVar(b, left).Parsed?
    ensures ReadVar(b + more, left) == Parsed(ReadVar(b, left).value, ReadVar(b, left).rest + more)
  {
    if left == 0 {
    } else {
      assert (b + more)[1..] == b[1..] + more;
      if b[0] >= 128 { VarExtends(b[1..], more, left - 1); }
    }
  }

  lemma {:induction false} ElementsExtend(b: Bytes, more: Bytes, k: nat)
    requires ReadElements(b, k).Parsed?
    ensures ReadElements(b + more, k) == Parsed(ReadElements(b, k).value, ReadElements(b, k).rest + more)
    decreases k
  {
    hide ReadVar;
    if k == 0 {
    } else {
      assert (b + more)[1..] == b[1..] + more;
      VarExtends(b[1..], more, VAR_BYTES);
      ElementsExtend(ReadVar(b[1..], VAR_BYTES).rest, more, k - 1);
    }
  }

  lemma {:induction false} EntriesExtend(b: Bytes, more: Bytes, k: nat, table: Table)
    requires ReadEntries(b, k, table).Parsed?
    ensures ReadEntries(b + more, k, table) == Parsed(ReadEntries(b, k, table).value, ReadEntries(b, k, table).rest + more)
    decreases k
  {
    hide ReadElements, Loaded, LittleEndian;
    if k == 0 {
    } else {
      assert (b + more)[5..] == b[5..] + more && (b + more)[..4] == b[..4];
      MemoryKey(b);
      ElementsExtend(b[5..], more, b[4]);
      var elements := ReadElements(b[5..], b[4]);
      EntriesExtend(elements.rest, more, k - 1, Loaded(table, LittleEndian(b[..4]), elements.value));
    }
  }

  /** What follows a stream that can be read changes nothing but the rest. */
  lemma ModelExtends(b: Bytes, more: Bytes)
    requires ReadModel(b).Parsed?
    ensures ReadModel(b + more) == Parsed(ReadModel(b).value, ReadModel(b).rest + more)
  {
    hide ReadVar, ReadEntries;
    assert (b + more)[1..] == b[1..] + more;
    VarExtends(b[1..], more, VAR_BYTES);
    var header := ReadVar(b[1..], VAR_BYTES);
    EntriesExtend(header.rest, more, header.value, map[]);
  }

  /** A written model that is cut short anywhere is refused. */
  lemma CutShort(n: nat, table: Table, order: seq<UInt32>, k: nat)
    requires IsModel(table) && IsOrder(order, table) && n < 256 && AllSmall(table)
    requires k < |WriteModel(n, table, order)|
    ensures ReadModel(WriteModel(n, table, order)[..k]) == Eof
  {
    hide ReadModel, WriteModel, IsModel, AllSmall;
    var b := WriteModel(n, table, order);
    ModelRoundTrip(n, table, order, []);
    assert b == b + [] && b == b[..k] + b[k..];
    if ReadModel(b[..k]).Parsed? {
      ModelExtends(b[..k], b[k..]);
    }
  }

  /** A model of order 2 with one histogram, as it is written. */
  lemma ModelBytes()
    ensures
      var key: UInt32 := 0x0403_0201;
      WriteModel(2, map[key := Histogram(301, [Element(97, 1), Element(98, 300)])], [key])
        == [2, 1, 1, 2, 3, 4, 2, 97, 1, 98, 0xAC, 2]
  {
    var key: UInt32 := 0x0403_0201;
    OneEntry(2, key, Histogram(301, [Element(97, 1), Element(98, 300)]));
    hide *;
    NumberBytes();
    EntryBytes();
  }

  lemma OneEntry(n: Byte, key: UInt32, h: Histogram)
    ensures WriteModel(n, map[key := h], [key]) == [n] + WriteVar(1, VAR_BYTES) + WriteEntry(key, h.data)
  {
    var table: Table := map[key := h];
    hide WriteVar, WriteEntry;
    assert table.Keys == {key} && [key][1..] == [];
    assert WriteEntries([], table) == [];
  }

  lemma EntryBytes()
    ensures WriteEntry(0x0403_0201, [Element(97, 1), Element(98, 300)]) == [1, 2, 3, 4, 2, 97, 1, 98, 0xAC, 2]
  {
    KeyBytesOf();
    ElementBytes();
    hide ToMemory, WriteElements;
  }

  lemma NumberBytes()
    ensures WriteVar(1, VAR_BYTES) == [1] && WriteVar(300, VAR_BYTES) == [0xAC, 2]
  {
    assert Pow2(7 * 9) > 300 && Pow2(7 * 8) > 2 by { Pow2Values(); }
    hide Pow2;
    VarFormat(1, 9);
    VarFormat(300, 9);
    VarFormat(2, 8);
    var b := WriteVar(300, 9);
    assert b == [b[0]] + b[1..];
  }

  lemma KeyBytesOf()
    ensures ToMemory(0x0403_0201, 4) == [1, 2, 3, 4]
  {
    assert ToMemory(0x0403, 2) == [3, 4];
    assert ToMemory(0x04_0302, 3) == [2] + ToMemory(0x0403, 2);
  }

  lemma ElementBytes()
    ensures WriteElements([Element(97, 1), Element(98, 300)]) == [97, 1, 98, 0xAC, 2]
  {
    hide WriteVar;
    NumberBytes();
    assert [Element(97, 1), Element(98, 300)][1..] == [Element(98, 300)] && [Element(98, 300)][1..] == [];
    assert WriteElements([]) == [];
    assert WriteElements([Element(98, 300)]) == [98, 0xAC, 2];
  }

  /** When a key is in the stream twice, the later elements replace the earlier, but the total
      counts both. */
  lemma LoadedTwice(table: Table, key: UInt32, first: seq<Element>, second: seq<Element>)
    requires key !in table
    ensures
      var twice := Loaded(Loaded(table, key, first), key, second);
      twice.Keys == table.Keys + {key} && twice[key] == Histogram((Sum(first) + Sum(second)) % B32, second)
  {
    hide Sum;
    ModSum(Sum(first), Sum(second));
  }

  lemma ModSum(a: nat, b: nat)
    ensures (a % B32 + b) % B32 == (a + b) % B32
  {
    var q, r := a / B32, (a % B32 + b) % B32;
    assert a + b == (q + (a % B32 + b) / B32) * B32 + r;
  }

  // ---- The model ---------------------------------------------------------------------

  /** Reweighting of a whole table: `transform` is asked for each table key, element and count. */
  function ModifiedAt(h: Histogram, key: UInt32, transform: (UInt32, nat, nat) -> nat): Histogram {
    var data := Modified(h.data, (i, c) => transform(key, i, c), 0);
    Histogram(Sum(data) % B32, data)
  }

  /** New counts are positive, and no histogram's sum overflows. */
  ghost predicate IsReweighting(table: Table, transform: (UInt32, nat, nat) -> nat) {
    && (forall key, i, c :: transform(key, i, c) > 0)
    && forall key :: key in table ==> Sum(Modified(table[key].data, (i, c) => transform(key, i, c), 0)) < B32
  }

  class MarkovModel {
    var n: nat
    var table: Table

    constructor (order: nat)
      ensures n == order && table == map[]
    {
      n, table := order, map[];
    }

    method Consume(crc: ContextHash, data: Bytes)
      modifies this`table
      ensures table == Consumed(old(table), crc, n, data, |data| + 1)
      ensures old(IsModel(table) && HasRoom(table, |data| + 1)) ==> IsModel(table)
    {
      hide Record, HashContext, IsModel;
      ghost var before := table;
      for pos := 0 to |data|
        invariant table == Consumed(before, crc, n, data, pos)
      {
        RecordByte(HashContext(crc, n, data, pos), data[pos]);
      }
      RecordByte(HashContext(crc, n, data, |data|), 0);
      if IsModel(before) && HasRoom(before, |data| + 1) {
        ConsumeCounts(before, crc, n, data, |data| + 1);
      }
    }

    /** `table[key].add(byte)`, where an absent key gets an empty histogram first. */
    method RecordByte(key: UInt32, byte: Byte)
      modifies this`table
      ensures table == Record(old(table), key, byte)
    {
      var h := Add(if key in table then table[key] else Histogram(0, []), byte);
      table := table[key := h];
    }

    /** What generation would write at a position: nothing without a histogram for the context. */
    ghost predicate Generates(crc: ContextHash, text: Bytes, random: nat -> nat, pos: nat, byte: Byte)
      reads this
      requires pos <= |text| && IsModel(table)
    {
      var key := HashContext(crc, n, text, pos);
      key in table && byte == Pick(table[key].data, random(pos) % table[key].total)
    }

    /** The byte was recorded in training under the context of a position. */
    ghost predicate Recorded(crc: ContextHash, text: Bytes, pos: nat, byte: Byte)
      reads this
      requires pos <= |text|
    {
      var key := HashContext(crc, n, text, pos);
      key in table && Has(table[key].data, byte)
    }

    /** Every byte written was sampled from the histogram of the bytes before it and is not the
        end mark; generation stops early only without a histogram or at the end mark. */
    method Generate(crc: ContextHash, buffer: array<Byte>, random: nat -> nat) returns (size: nat)
      requires IsModel(table)
      modifies buffer
      ensures size <= buffer.Length
      ensures forall i :: 0 <= i < size ==> buffer[i] != 0 && Generates(crc, buffer[..size], random, i, buffer[i])
      ensures forall i :: 0 <= i < size ==> Recorded(crc, buffer[..size], i, buffer[i])
      ensures size < buffer.Length ==>
        HashContext(crc, n, buffer[..size], size) !in table || Generates(crc, buffer[..size], random, size, 0)
    {
      hide HashContext, Pick, IsHistogram;
      var pos := 0;
      while pos < buffer.Length
        invariant 0 <= pos <= buffer.Length
        invariant forall i :: 0 <= i < pos ==> buffer[i] != 0 && Generates(crc, buffer[..pos], random, i, buffer[i])
      {
        var key := HashContext(crc, n, buffer[..pos], pos);
        if key !in table {
          size := pos;
          RecordedBytes(crc, buffer[..size], random);
          return;
        }
        ghost var text := buffer[..pos];
        var byte := Sample(table[key], random(pos));
        buffer[pos] := byte;
        assert buffer[..pos] == text;
        if byte == 0 {
          size := pos;
          RecordedBytes(crc, buffer[..size], random);
          return;
        }
        pos := pos + 1;
        forall i | 0 <= i < pos
          ensures buffer[i] != 0 && Generates(crc, buffer[..pos], random, i, buffer[i])
        {
          SameContext(crc, text, buffer[..pos], i);
          assert i < pos - 1 ==> buffer[i] == text[i];
        }
      }
      size := pos;
      RecordedBytes(crc, buffer[..size], random);
    }

    /** The context of a position depends only on what is before it. */
    lemma SameContext(crc: ContextHash, text: Bytes, longer: Bytes, pos: nat)
      requires pos <= |text| && text <= longer
      ensures HashContext(crc, n, text, pos) == HashContext(crc, n, longer, pos)
    {
      assert text[..pos] == longer[..pos];
      if pos >= n { assert text[pos - n..pos] == longer[pos - n..pos]; }
    }

    lemma RecordedBytes(crc: ContextHash, text: Bytes, random: nat -> nat)
      requires IsModel(table)
      requires forall i :: 0 <= i < |text| ==> Generates(crc, text, random, i, text[i])
      ensures forall i :: 0 <= i < |text| ==> Recorded(crc, text, i, text[i])
    {
      forall i | 0 <= i < |text|
        ensures Recorded(crc, text, i, text[i])
      {
        assert Generates(crc, text, random, i, text[i]);
        var h := table[HashContext(crc, n, text, i)];
        PickIsRecorded(h.data, random(i) % h.total);
      }
    }

    method ModifyAll(transform: (UInt32, nat, nat) -> nat)
      modifies this`table
      ensures table.Keys == old(table).Keys
      ensures forall key :: key in table ==> table[key] == ModifiedAt(old(table)[key], key, transform)
      ensures old(IsModel(table) && IsReweighting(table, transform)) ==> IsModel(table)
    {
      var left := table.Keys;
      while left != {}
        invariant table.Keys == old(table).Keys && left <= table.Keys
        invariant forall key :: key in left ==> table[key] == old(table)[key]
        invariant forall key :: key in table && key !in left ==> table[key] == ModifiedAt(old(table)[key], key, transform)
        decreases left
      {
        var key :| key in left;
        var h := ModifyCounts(table[key], (i, c) => transform(key, i, c));
        table := table[key := h];
        left := left - {key};
      }
      if old(IsModel(table) && IsReweighting(table, transform)) {
        forall key | key in table
          ensures IsHistogram(table[key])
        {
          ModifiedIsHistogram(old(table)[key], (i, c) => transform(key, i, c));
        }
      }
    }

    method Write(order: seq<UInt32>) returns (out: Bytes)
      requires IsOrder(order, table)
      ensures out == WriteModel(n, table, order)
    {
      out := [n % 256] + WriteVar(|table|, VAR_BYTES);
      ghost var header := out;
      var i := 0;
      while i < |order|
        invariant 0 <= i <= |order|
        invariant out + WriteEntries(order[i..], table) == header + WriteEntries(order, table)
      {
        assert order[i..][1..] == order[i + 1..];
        var entry := WriteEntry(order[i], table[order[i]].data);
        assert out + (entry + WriteEntries(order[i + 1..], table)) == out + entry + WriteEntries(order[i + 1..], table);
        out := out + entry;
        i := i + 1;
      }
    }

    /** A stream that ends early raises an exception in the source. */
    method Read(b: Bytes) returns (ok: bool)
      modifies this
      ensures ok <==> ReadModel(b).Parsed?
      ensures ok ==> (n, table) == ReadModel(b).value
    {
      table := map[];
      if b == [] {
        return false;
      }
      n := b[0];
      var header := ReadVar(b[1..], VAR_BYTES);
      if header.Eof? {
        return false;
      }
      var rest := header.rest;
      var i := 0;
      while i < header.value
        invariant 0 <= i <= header.value && n == b[0]
        invariant ReadEntries(header.rest, header.value, map[]) == ReadEntries(rest, header.value - i, table)
      {
        if |rest| < 5 {
          return false;
        }
        MemoryKey(rest);
        var elements := ReadElements(rest[5..], rest[4]);
        if elements.Eof? {
          return false;
        }
        table := Loaded(table, LittleEndian(rest[..4]), elements.value);
        rest := elements.rest;
        i := i + 1;
      }
      ok := true;
    }
  }

  // ---- Whole runs --------------------------------------------------------------------

  datatype Op = Train(data: Bytes) | Reweigh(transform: (UInt32, nat, nat) -> nat)

  ghost function After(crc: ContextHash, n: nat, table: Table, op: Op): Table {
    match op
    case Train(data) => Consumed(table, crc, n, data, |data| + 1)
    case Reweigh(transform) => map key | key in table :: ModifiedAt(table[key], key, transform)
  }

  /** The table after training and reweighting, from an empty one. */
  ghost function AfterAll(crc: ContextHash, n: nat, ops: seq<Op>): Table {
    if |ops| == 0 then map[] else After(crc, n, AfterAll(crc, n, ops[..|ops| - 1]), ops[|ops| - 1])
  }

  /** No count overflows, and new counts are positive. */
  ghost predicate Permitted(table: Table, op: Op) {
    match op
    case Train(data) => HasRoom(table, |data| + 1)
    case Reweigh(transform) => IsReweighting(table, transform)
  }

  ghost predicate AllPermitted(crc: ContextHash, n: nat, ops: seq<Op>) {
    forall i :: 0 <= i < |ops| ==> Permitted(AfterAll(crc, n, ops[..i]), ops[i])
  }

  lemma StepIsModel(crc: ContextHash, n: nat, table: Table, op: Op)
    requires IsModel(table) && Permitted(table, op)
    ensures IsModel(After(crc, n, table, op))
  {
    hide IsHistogram;
    match op
    case Train(data) => ConsumeCounts(table, crc, n, data, |data| + 1);
    case Reweigh(transform) =>
      forall key | key in table
        ensures IsHistogram(ModifiedAt(table[key], key, transform))
      {
        ModifiedIsHistogram(table[key], (i, c) => transform(key, i, c));
      }
  }

  /** Through any sequence of training and reweighting every histogram stays one, so it samples
      each byte for exactly as many residues as its count. */
  lemma {:induction false} RunIsModel(crc: ContextHash, n: nat, ops: seq<Op>)
    requires AllPermitted(crc, n, ops)
    ensures
      var table := AfterAll(crc, n, ops);
      && IsModel(table)
      && forall key, byte :: key in table ==> |HitSet(table[key].data, table[key].total, byte)| == CountOf(table[key].data, byte)
    decreases |ops|
  {
    hide After, HitSet, CountOf, Permitted, IsHistogram;
    if |ops| == 0 {
    } else {
      var k := |ops| - 1;
      assert forall i :: 0 <= i < k ==> ops[..k][..i] == ops[..i] && ops[..k][i] == ops[i];
      RunIsModel(crc, n, ops[..k]);
      StepIsModel(crc, n, AfterAll(crc, n, ops[..k]), ops[k]);
    }
    ModelSamples(AfterAll(crc, n, ops));
  }

  lemma ModelSamples(table: Table)
    requires IsModel(table)
    ensures forall key, byte :: key in table ==> |HitSet(table[key].data, table[key].total, byte)| == CountOf(table[key].data, byte)
  {
    forall key, byte | key in table
      ensures |HitSet(table[key].data, table[key].total, byte)| == CountOf(table[key].data, byte)
    {
      SampleIsProportional(table[key], byte);
    }
  }

  /** The model that a run makes. */
  method Make(crc: ContextHash, n: nat, ops: seq<Op>) returns (model: MarkovModel)
    ensures model.n == n && model.table == AfterAll(crc, n, ops)
    ensures AllPermitted(crc, n, ops) ==> IsModel(model.table)
  {
    hide Consumed, ModifiedAt, IsHistogram;
    model := new MarkovModel(n);
    for i := 0 to |ops|
      invariant fresh(model) && model.n == n && model.table == AfterAll(crc, n, ops[..i])
    {
      ghost var before := model.table;
      match ops[i] {
        case Train(data) => model.Consume(crc, data);
        case Reweigh(transform) => model.ModifyAll(transform);
      }
      assert model.table == After(crc, n, before, ops[i]);
      assert ops[..i + 1][..i] == ops[..i];
    }
    assert ops[..|ops|] == ops;
    if AllPermitted(crc, n, ops) { RunIsModel(crc, n, ops); }
  }
}
