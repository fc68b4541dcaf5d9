/**
Histograms of bytes: counting, sampling in proportion to the counts, and reweighting. Counts
and totals are 32-bit in the source, and wrap where stated.
*/
module Histograms {
  import opened Memory
  import opened Words

  datatype Element = Element(byte: Byte, count: nat)

  datatype Histogram = Histogram(total: nat, data: seq<Element>)

  function Sum(data: seq<Element>): nat {
    if data == [] then 0 else data[0].count + Sum(data[1..])
  }

  /** The count of a byte: zero if it has no element. */
  function CountOf(data: seq<Element>, byte: Byte): nat {
    if data == [] then 0
    else if data[0].byte == byte then data[0].count
    else CountOf(data[1..], byte)
  }

  predicate Has(data: seq<Element>, byte: Byte) {
    exists i :: 0 <= i < |data| && data[i].byte == byte
  }

  ghost predicate DistinctBytes(data: seq<Element>) {
    forall i, j :: 0 <= i < j < |data| ==> data[i].byte != data[j].byte
  }

  ghost predicate PositiveCounts(data: seq<Element>) {
    forall i :: 0 <= i < |data| ==> data[i].count > 0
  }

  /** Distinct bytes, positive counts, and the total is their sum. */
  ghost predicate IsHistogram(h: Histogram) {
    && DistinctBytes(h.data) && PositiveCounts(h.data)
    && h.total == Sum(h.data) && 0 < h.total < B32
  }

  lemma {:induction false} SumPrefix(data: seq<Element>, k: nat)
    requires k < |data|
    ensures Sum(data[..k + 1]) == Sum(data[..k]) + data[k].count
    ensures Sum(data[..k + 1]) <= Sum(data) && (k + 1 == |data| ==> Sum(data[..k + 1]) == Sum(data))
  {
    if k == 0 {
      assert data[..1] == [data[0]] && data[..0] == [];
      assert data[..1][1..] == [];
    } else {
      SumPrefix(data[1..], k - 1);
      assert data[..k + 1][1..] == data[1..][..k] && data[..k][1..] == data[1..][..k - 1];
    }
  }

  // ---- Adding ------------------------------------------------------------------------

  function AddedData(data: seq<Element>, byte: Byte): (r: seq<Element>) {
    if data == [] then [Element(byte, 1)]
    else if data[0].byte == byte then data[0 := Element(byte, (data[0].count + 1) % B32)]
    else [data[0]] + AddedData(data[1..], byte)
  }

  function Added(h: Histogram, byte: Byte): Histogram {
    Histogram((h.total + 1) % B32, AddedData(h.data, byte))
  }

  /** The element of the byte counts one more where it is; a byte without one is put at the end. */
  lemma {:induction false} AddedIs(data: seq<Element>, byte: Byte, k: nat)
    requires k <= |data| && (forall i :: 0 <= i < k ==> data[i].byte != byte) && (k < |data| ==> data[k].byte == byte)
    ensures AddedData(data, byte) == if k < |data| then data[k := Element(byte, (data[k].count + 1) % 0x1_0000_0000)]
                                     else data + [Element(byte, 1)]
    decreases k
  {
    if k == 0 {
    } else {
      AddedIs(data[1..], byte, k - 1);
      assert data == [data[0]] + data[1..];
    }
  }

  method Add(h: Histogram, byte: Byte) returns (r: Histogram)
    ensures r == Added(h, byte)
  {
    hide AddedData;
    var total := (h.total + 1) % B32;
    var i := 0;
    while i < |h.data|
      invariant 0 <= i <= |h.data| && forall j :: 0 <= j < i ==> h.data[j].byte != byte
    {
      if h.data[i].byte == byte {
        AddedIs(h.data, byte, i);
        return Histogram(total, h.data[i := Element(byte, (h.data[i].count + 1) % B32)]);
      }
      i := i + 1;
    }
    AddedIs(h.data, byte, i);
    r := Histogram(total, h.data + [Element(byte, 1)]);
  }

  lemma {:induction false} AddedCounts(data: seq<Element>, byte: Byte, other: Byte)
    requires Sum(data) + 1 < B32
    ensures Sum(AddedData(data, byte)) == Sum(data) + 1
    ensures CountOf(AddedData(data, byte), other) == CountOf(data, other) + (if other == byte then 1 else 0)
  {
    if data == [] {
    } else {
      if data[0].byte == byte {
        assert AddedData(data, byte)[1..] == data[1..];
      } else {
        AddedCounts(data[1..], byte, other);
        assert AddedData(data, byte)[1..] == AddedData(data[1..], byte);
      }
    }
  }

  lemma {:induction false} AddedBytes(data: seq<Element>, byte: Byte)
    requires DistinctBytes(data) && PositiveCounts(data) && Sum(data) + 1 < B32
    ensures DistinctBytes(AddedData(data, byte)) && PositiveCounts(AddedData(data, byte))
    ensures forall x :: Has(AddedData(data, byte), x) ==> x == byte || Has(data, x)
  {
    if data == [] || data[0].byte == byte {
    } else {
      var r, tail := AddedData(data, byte), data[1..];
      AddedBytes(tail, byte);
      assert r[1..] == AddedData(tail, byte);
      forall x | Has(r[1..], x)
        ensures x != data[0].byte && (x == byte || Has(data, x))
      {
        if x != byte {
          var j :| 0 <= j < |tail| && tail[j].byte == x;
          assert data[j + 1].byte == x;
        }
      }
      forall i | 1 <= i < |r|
        ensures r[i].byte != r[0].byte
      {
        assert r[1..][i - 1] == r[i] && Has(r[1..], r[i].byte);
      }
      forall i, j | 0 <= i < j < |r|
        ensures r[i].byte != r[j].byte
      {
        if i > 0 { assert r[1..][i - 1].byte != r[1..][j - 1].byte; }
      }
      forall x | Has(r, x)
        ensures x == byte || Has(data, x)
      {
        var i :| 0 <= i < |r| && r[i].byte == x;
        if i > 0 { assert r[1..][i - 1].byte == x; }
      }
      forall i | 0 <= i < |r|
        ensures r[i].count > 0
      {
        assert i > 0 ==> r[i] == r[1..][i - 1];
      }
    }
  }

  /** Adding keeps a histogram one, and counts the byte once more and nothing else. */
  lemma AddedProperties(h: Histogram, byte: Byte)
    requires (IsHistogram(h) && h.total + 1 < B32) || h == Histogram(0, [])
    ensures IsHistogram(Added(h, byte))
    ensures forall other :: CountOf(Added(h, byte).data, other) == CountOf(h.data, other) + (if other == byte then 1 else 0)
  {
    forall other: Byte
      ensures CountOf(Added(h, byte).data, other) == CountOf(h.data, other) + (if other == byte then 1 else 0)
    {
      AddedCounts(h.data, byte, other);
    }
    AddedCounts(h.data, byte, byte);
    AddedBytes(h.data, byte);
  }

  // ---- Sampling ----------------------------------------------------------------------

  /** The byte whose share of the running sum holds `r`. */
  function Pick(data: seq<Element>, r: nat): Byte
    requires r < Sum(data)
  {
    if r < data[0].count then data[0].byte else Pick(data[1..], r - data[0].count)
  }

  /** The first element at which the running sum of the counts exceeds `r`. */
  lemma {:induction false} PickIs(data: seq<Element>, r: nat, k: nat)
    requires r < Sum(data) && k < |data| && Sum(data[..k]) <= r < Sum(data[..k + 1])
    ensures Pick(data, r) == data[k].byte
    decreases k
  {
    SumPrefix(data, k);
    if k == 0 {
      assert data[..0] == [];
    } else {
      var rest := data[1..];
      assert data[..k][1..] == rest[..k - 1] && data[..k + 1][1..] == rest[..k];
      PickIs(rest, r - data[0].count, k - 1);
    }
  }

  method Sample(h: Histogram, random: nat) returns (byte: Byte)
    requires IsHistogram(h)
    ensures byte == Pick(h.data, random % h.total)
  {
    var r := random % h.total;
    var sum := 0;
    var i := 0;
    assert Sum(h.data[..0]) == 0;
    hide Sum, Pick;
    while i < |h.data|
      invariant 0 <= i <= |h.data| && sum == Sum(h.data[..i]) && sum <= r
      invariant i == |h.data| ==> sum == h.total
    {
      SumPrefix(h.data, i);
      sum := (sum + h.data[i].count) % B32;
      if sum > r {
        PickIs(h.data, r, i);
        return h.data[i].byte;
      }
      i := i + 1;
    }
    // the source declares this point unreachable
    assert false;
  }

  /** How many of the residues below `n` are sampled as `byte`. */
  function Hits(data: seq<Element>, n: nat, byte: Byte): nat
    requires n <= Sum(data)
  {
    if n == 0 then 0 else Hits(data, n - 1, byte) + (if Pick(data, n - 1) == byte then 1 else 0)
  }

  ghost function HitSet(data: seq<Element>, n: nat, byte: Byte): set<int>
    requires n <= Sum(data)
  {
    set r | 0 <= r < n && Pick(data, r) == byte
  }

  lemma {:induction false} HitsAreASet(data: seq<Element>, n: nat, byte: Byte)
    requires n <= Sum(data)
    ensures |HitSet(data, n, byte)| == Hits(data, n, byte)
  {
    if n == 0 {
    } else {
      HitsAreASet(data, n - 1, byte);
      var s := HitSet(data, n - 1, byte);
      assert HitSet(data, n, byte) == if Pick(data, n - 1) == byte then s + {n - 1} else s;
    }
  }

  lemma {:induction false} HitsInFirst(data: seq<Element>, n: nat, byte: Byte)
    requires data != [] && n <= data[0].count
    ensures Hits(data, n, byte) == if data[0].byte == byte then n else 0
  {
    if n == 0 {
    } else {
      HitsInFirst(data, n - 1, byte);
    }
  }

  lemma {:induction false} HitsSplit(data: seq<Element>, n: nat, byte: Byte)
    requires data != [] && n <= Sum(data[1..])
    ensures Hits(data, data[0].count + n, byte)
         == (if data[0].byte == byte then data[0].count else 0) + Hits(data[1..], n, byte)
  {
    if n == 0 {
      HitsInFirst(data, data[0].count, byte);
    } else {
      HitsSplit(data, n - 1, byte);
    }
  }

  lemma {:induction false} AbsentCount(data: seq<Element>, byte: Byte)
    requires forall i :: 0 <= i < |data| ==> data[i].byte != byte
    ensures CountOf(data, byte) == 0
  {
    if data == [] {
    } else {
      AbsentCount(data[1..], byte);
    }
  }

  lemma {:induction false} HitsAreCounts(data: seq<Element>, byte: Byte)
    requires DistinctBytes(data)
    ensures Hits(data, Sum(data), byte) == CountOf(data, byte)
  {
    if data == [] {
    } else {
      HitsSplit(data, Sum(data[1..]), byte);
      HitsAreCounts(data[1..], byte);
      if data[0].byte == byte { AbsentCount(data[1..], byte); }
    }
  }

  /** Of the residues of the random number, exactly `count` many sample each byte. */
  lemma SampleIsProportional(h: Histogram, byte: Byte)
    requires IsHistogram(h)
    ensures |HitSet(h.data, h.total, byte)| == CountOf(h.data, byte)
  {
    HitsAreASet(h.data, h.total, byte);
    HitsAreCounts(h.data, byte);
  }

  /** A sampled byte is one of the histogram's. */
  lemma {:induction false} PickIsRecorded(data: seq<Element>, r: nat)
    requires r < Sum(data)
    ensures Has(data, Pick(data, r))
  {
    if r < data[0].count {
    } else {
      PickIsRecorded(data[1..], r - data[0].count);
      var i :| 0 <= i < |data[1..]| && data[1..][i].byte == Pick(data, r);
      assert data[i + 1].byte == Pick(data, r);
    }
  }

  // ---- Reweighting -------------------------------------------------------------------

  /** The counts replaced by what `transform` gives for each element in turn. */
  function Modified(data: seq<Element>, transform: (nat, nat) -> nat, from: nat): (r: seq<Element>)
    ensures |r| == |data|
    ensures forall i :: 0 <= i < |r| ==> r[i] == Element(data[i].byte, transform(from + i, data[i].count))
  {
    if data == [] then []
    else [Element(data[0].byte, transform(from, data[0].count))] + Modified(data[1..], transform, from + 1)
  }

  method ModifyCounts(h: Histogram, transform: (nat, nat) -> nat) returns (r: Histogram)
    ensures r == Histogram(Sum(Modified(h.data, transform, 0)) % B32, Modified(h.data, transform, 0))
  {
    var data := h.data;
    var total := 0;
    ghost var goal := Modified(h.data, transform, 0);
    var i := 0;
    while i < |data|
      invariant 0 <= i <= |data| == |h.data| == |goal|
      invariant forall j :: 0 <= j < i ==> data[j] == goal[j]
      invariant forall j :: i <= j < |data| ==> data[j] == h.data[j]
      invariant total == Sum(goal[..i]) % B32
    {
      hide Modified;
      SumPrefix(goal, i);
      data := data[i := Element(data[i].byte, transform(i, data[i].count))];
      total := (total + data[i].count) % B32;
      i := i + 1;
    }
    assert goal[..i] == goal && data == goal;
    r := Histogram(total, data);
  }

  /** Reweighting with positive counts that do not overflow keeps a histogram one. */
  lemma ModifiedIsHistogram(h: Histogram, transform: (nat, nat) -> nat)
    requires IsHistogram(h) && (forall i, c :: transform(i, c) > 0)
    requires Sum(Modified(h.data, transform, 0)) < B32
    ensures
      var data := Modified(h.data, transform, 0);
      IsHistogram(Histogram(Sum(data) % B32, data))
  {
  }
}
