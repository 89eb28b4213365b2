/** `POF0Encoder` of Encoder.py over the bytes of the input file already in
    memory: scan the 4-aligned words for values that point inside the file,
    rebase their positions by 8, store each as the difference from the
    previous one in a tagged big-endian entry, and frame the entries as a
    "POF0" section.

    Its entries differ from LEEncoder.py: they hold deltas, not offsets,
    the 4-byte form is big-endian with a 30-bit payload, and the section
    carries a size of `len + 8` and a reserved zero word. */
module DeltaEncoder {
  import opened Bytes

  /** A slot the scan keeps: `i` in `range(8, size - 4, 4)` whose
      little-endian word lies in `[8, size)`. */
  predicate IsPointerSlot(data: seq<byte>, i: int) {
    8 <= i && i % 4 == 0 && i < |data| - 4 && 8 <= LE32(data, i) < |data|
  }

  /** Strictly increasing, hence free of duplicates. */
  predicate Ascending(s: seq<int>) {
    forall j, k :: 0 <= j < k < |s| ==> s[j] < s[k]
  }

  /** `find_pointer_offsets`: the positions of all pointer slots, in
      increasing order.  The loop already visits them in increasing order,
      so `sorted(set(...))` leaves its list unchanged (see `SortedSetIdentity`). */
  method FindPointerOffsets(data: seq<byte>) returns (offsets: seq<int>)
    ensures forall i :: i in offsets <==> IsPointerSlot(data, i)
    ensures Ascending(offsets)
  {
    offsets := [];
    var i := 8;
    while i < |data| - 4
      invariant 8 <= i && i % 4 == 0
      invariant forall j :: j in offsets ==> IsPointerSlot(data, j)
      invariant forall j :: 0 <= j < |offsets| ==> offsets[j] < i
      invariant forall j :: 8 <= j < i && IsPointerSlot(data, j) ==> j in offsets
      invariant Ascending(offsets)
    {
      var value := LE32(data, i);
      if 8 <= value < |data| {
        offsets := offsets + [i];
      }
      i := i + 4;
    }
  }

  lemma SameElementsNonEmpty(a: seq<int>, b: seq<int>)
    requires a != []
    requires forall x :: x in a <==> x in b
    ensures b != []
  {
    var x := a[0];
    assert x in a;
    assert x in a <==> x in b;
  }

  /** Two increasing lists with the same elements are the same list, so
      the scan's result is exactly what `sorted(set(...))` produces. */
  lemma {:induction false} SortedSetIdentity(a: seq<int>, b: seq<int>)
    requires Ascending(a) && Ascending(b)
    requires forall x :: x in a <==> x in b
    ensures a == b
  {
    if a != [] {
      SameElementsNonEmpty(a, b);
    } else if b != [] {
      SameElementsNonEmpty(b, a);
    }
    if a != [] {
      assert a[0] in a && b[0] in b;
      var i :| 0 <= i < |a| && a[i] == b[0];
      var j :| 0 <= j < |b| && b[j] == a[0];
      assert a[0] <= a[i] && b[0] <= b[j];
      forall x
        ensures x in a[1..] <==> x in b[1..]
      {
        if x in a[1..] {
          var k :| 1 <= k < |a| && a[k] == x;
          assert x in a && x != a[0];
          var m :| 0 <= m < |b| && b[m] == x;
          assert b[1..][m - 1] == x;
        }
        if x in b[1..] {
          var k :| 1 <= k < |b| && b[k] == x;
          assert x in b && x != b[0];
          var m :| 0 <= m < |a| && a[m] == x;
          assert a[1..][m - 1] == x;
        }
      }
      SortedSetIdentity(a[1..], b[1..]);
      assert a == [a[0]] + a[1..] && b == [b[0]] + b[1..];
    }
  }

  /** No position in the last 4 bytes of the file is ever reported,
      whatever the bytes there hold: a slot needs `i < size - 4`. */
  lemma LastWordNeverScanned(data: seq<byte>, i: int)
    requires |data| - 4 <= i
    ensures !IsPointerSlot(data, i)
  {
  }

  /** `relative_offsets`: every offset less 8, in the same order. */
  function RelativeOffsets(offsets: seq<int>): (r: seq<int>)
    ensures |r| == |offsets|
    ensures forall j :: 0 <= j < |r| ==> r[j] + 8 == offsets[j]
    ensures Ascending(offsets) ==> Ascending(r)
  {
    if offsets == [] then [] else [offsets[0] - 8] + RelativeOffsets(offsets[1..])
  }

  /** The values `encode_offsets` stores: each relative offset minus the
      one before it, the first minus `prev` (0 at the start). */
  function Deltas(rel: seq<int>, prev: int): (r: seq<int>)
    ensures |r| == |rel|
    ensures |r| > 0 ==> r[0] == rel[0] - prev
    ensures forall j :: 0 < j < |r| ==> r[j] == rel[j] - rel[j - 1]
  {
    if rel == [] then [] else [rel[0] - prev] + Deltas(rel[1..], rel[0])
  }

  /** Running sums starting from `start`: the inverse of `Deltas`. */
  function PrefixSums(ds: seq<int>, start: int): (r: seq<int>)
    ensures |r| == |ds|
  {
    if ds == [] then [] else [start + ds[0]] + PrefixSums(ds[1..], start + ds[0])
  }

  lemma {:induction false} PrefixSumsOfDeltas(rel: seq<int>, prev: int)
    ensures PrefixSums(Deltas(rel, prev), prev) == rel
  {
    if rel != [] {
      PrefixSumsOfDeltas(rel[1..], rel[0]);
    }
  }

  lemma {:induction false} DeltasOfPrefixSums(ds: seq<int>, start: int)
    ensures Deltas(PrefixSums(ds, start), start) == ds
  {
    if ds != [] {
      DeltasOfPrefixSums(ds[1..], start + ds[0]);
    }
  }

  /** Increasing offsets at or above `prev`, all below `bound`, give
      deltas in `[0, bound - prev)`. */
  lemma {:induction false} DeltasBounded(rel: seq<int>, prev: int, bound: int)
    requires Ascending(rel)
    requires forall j :: 0 <= j < |rel| ==> prev <= rel[j] < bound
    ensures forall j :: 0 <= j < |rel| ==> 0 <= Deltas(rel, prev)[j] < bound - prev
  {
    if rel != [] {
      var tail := rel[1..];
      assert forall j :: 0 <= j < |tail| ==> rel[0] < tail[j] < bound by {
        forall j | 0 <= j < |tail| ensures rel[0] < tail[j] < bound {
          assert tail[j] == rel[j + 1];
        }
      }
      DeltasBounded(tail, rel[0], bound);
      forall j | 0 <= j < |rel|
        ensures 0 <= Deltas(rel, prev)[j] < bound - prev
      {
        if j > 0 {
          assert Deltas(rel, prev)[j] == Deltas(tail, rel[0])[j - 1];
        }
      }
    }
  }

  /** One entry for a delta `d`.  A negative delta takes the 1-byte form,
      since Python's `&` keeps its low six bits; a delta of 2^30 or more
      loses its high bits in the 4-byte form. */
  function EncodeDelta(d: int): (r: seq<byte>)
    ensures |r| == (if d < 0x40 then 1 else if d < 0x4000 then 2 else 4)
    ensures TagBits(r[0]) == (if |r| == 1 then 0x40 else if |r| == 2 then 0x80 else 0xC0)
  {
    if d < 0x40 then
      [0x40 + d % 0x40]
    else if d < 0x4000 then
      [0x80 + d / 0x100 % 0x40, d % 0x100]
    else
      // `d >> 8`, `d >> 16` and `d >> 24` as repeated shifts by 8
      var d1 := d / 0x100;
      var d2 := d1 / 0x100;
      [0xC0 + d2 / 0x100 % 0x40, d2 % 0x100, d1 % 0x100, d % 0x100]
  }

  function EncodeDeltas(ds: seq<int>): (r: seq<byte>)
    ensures |ds| <= |r| <= 4 * |ds|
  {
    if ds == [] then [] else EncodeDelta(ds[0]) + EncodeDeltas(ds[1..])
  }

  /** `encode_offsets` applied to the relative offsets. */
  function EncodeOffsets(rel: seq<int>): (r: seq<byte>)
    ensures |rel| <= |r| <= 4 * |rel|
  {
    EncodeDeltas(Deltas(rel, 0))
  }

  /** The width a reader gives a lead byte; 0 for a 00 tag, which the
      encoder never writes. */
  function EntryWidth(b: byte): nat {
    var tag := TagBits(b);
    if tag == 0x40 then 1 else if tag == 0x80 then 2 else if tag == 0xC0 then 4 else 0
  }

  /** Reference reader for one entry: the payload bits, big-endian. */
  function ReadDelta(e: seq<byte>): int
    requires |e| >= 1 && |e| == EntryWidth(e[0])
  {
    if |e| == 1 then Low6(e[0])
    else if |e| == 2 then Field14(e[0], e[1])
    else Low6(e[0]) * 0x100_0000 + e[1] as int * 0x1_0000 + e[2] as int * 0x100 + e[3] as int
  }

  /** Reference reader for a run of entries; `None` for a 00 tag or a
      truncated last entry. */
  function ReadDeltas(enc: seq<byte>): Option<seq<int>>
    decreases |enc|
  {
    if enc == [] then Some([])
    else
      var w := EntryWidth(enc[0]);
      if w == 0 || |enc| < w then None
      else match ReadDeltas(enc[w..])
        case None => None
        case Some(ds) => Some([ReadDelta(enc[..w])] + ds)
  }

  /** The four bytes of the 4-byte form, put back together, are the low
      30 bits of the delta. */
  lemma FourBytes(d: int)
    requires d >= 0
    ensures var d1 := d / 0x100; var d2 := d1 / 0x100;
            (d2 / 0x100 % 0x40) * 0x100_0000 + (d2 % 0x100) * 0x1_0000 + (d1 % 0x100) * 0x100 + d % 0x100
            == d % 0x4000_0000
  {
    var d1 := d / 0x100;
    var d2 := d1 / 0x100;
    var d3 := d2 / 0x100;
    var low := (d3 % 0x40) * 0x100_0000 + (d2 % 0x100) * 0x1_0000 + (d1 % 0x100) * 0x100 + d % 0x100;
    assert d == d3 / 0x40 * 0x4000_0000 + low;
    assert 0 <= low < 0x4000_0000;
  }

  /** A delta of 0x4000 or more reads back with only its low 30 bits. */
  lemma LongDeltaTruncated(d: int)
    requires d >= 0x4000
    ensures EntryWidth(EncodeDelta(d)[0]) == 4
    ensures ReadDelta(EncodeDelta(d)) == d % 0x4000_0000
  {
    var e := EncodeDelta(d);
    assert Low6(e[0]) == d / 0x100 / 0x100 / 0x100 % 0x40;
    FourBytes(d);
  }

  /** Every delta in `[0, 2^30)` reads back unchanged. */
  lemma EncodeDeltaReadBack(d: int)
    requires 0 <= d < 0x4000_0000
    ensures EntryWidth(EncodeDelta(d)[0]) == |EncodeDelta(d)|
    ensures ReadDelta(EncodeDelta(d)) == d
  {
    var e := EncodeDelta(d);
    if d >= 0x4000 {
      LongDeltaTruncated(d);
    } else if d >= 0x40 {
      assert Low6(e[0]) == d / 0x100;
    }
  }

  /** A negative delta reads back as its low six bits. */
  lemma NegativeDeltaWraps(d: int)
    requires d < 0
    ensures EncodeDelta(d) == [0x40 + d % 0x40]
    ensures ReadDelta(EncodeDelta(d)) == d % 0x40
  {
  }

  lemma ReadDeltasCons(e: seq<byte>, rest: seq<byte>)
    requires |e| >= 1 && |e| == EntryWidth(e[0])
    ensures ReadDeltas(e + rest) == match ReadDeltas(rest)
                                     case None => None
                                     case Some(ds) => Some([ReadDelta(e)] + ds)
  {
    var whole := e + rest;
    assert whole[0] == e[0];
    assert whole[..|e|] == e;
    assert whole[|e|..] == rest;
  }

  /** Encoding deltas in `[0, 2^30)` and reading them back is the identity. */
  lemma {:induction false} EncodeDeltasReadBack(ds: seq<int>)
    requires forall j :: 0 <= j < |ds| ==> 0 <= ds[j] < 0x4000_0000
    ensures ReadDeltas(EncodeDeltas(ds)) == Some(ds)
  {
    if ds != [] {
      EncodeDeltaReadBack(ds[0]);
      assert forall j :: 0 <= j < |ds[1..]| ==> ds[1..][j] == ds[j + 1];
      EncodeDeltasReadBack(ds[1..]);
      ReadDeltasCons(EncodeDelta(ds[0]), EncodeDeltas(ds[1..]));
      assert [ds[0]] + ds[1..] == ds;
    }
  }

  /** Entries are written in order, each right after the previous one. */
  lemma {:induction false} EncodeDeltasAppend(a: seq<int>, b: seq<int>)
    ensures EncodeDeltas(a + b) == EncodeDeltas(a) + EncodeDeltas(b)
  {
    if a != [] {
      assert (a + b)[0] == a[0];
      assert (a + b)[1..] == a[1..] + b;
      EncodeDeltasAppend(a[1..], b);
    } else {
      assert a + b == b;
    }
  }

  /** Round trip for `encode_offsets`: ascending relative offsets in
      `[0, 2^30)` are read back as their deltas, and summing those from 0
      gives the offsets again. */
  lemma EncodeOffsetsReadBack(rel: seq<int>)
    requires Ascending(rel)
    requires forall j :: 0 <= j < |rel| ==> 0 <= rel[j] < 0x4000_0000
    ensures ReadDeltas(EncodeOffsets(rel)) == Some(Deltas(rel, 0))
    ensures PrefixSums(ReadDeltas(EncodeOffsets(rel)).value, 0) == rel
  {
    DeltasBounded(rel, 0, 0x4000_0000);
    EncodeDeltasReadBack(Deltas(rel, 0));
    PrefixSumsOfDeltas(rel, 0);
  }

  /** Round trip for the scan: the positions found in a file of at most
      2^30 bytes are recovered from the encoded entries by reading the
      deltas back and summing them from 0. */
  lemma ScanRoundTrip(data: seq<byte>, offsets: seq<int>)
    requires |data| <= 0x4000_0000
    requires forall i :: i in offsets ==> IsPointerSlot(data, i)
    requires Ascending(offsets)
    ensures ReadDeltas(EncodeOffsets(RelativeOffsets(offsets))).Some?
    ensures PrefixSums(ReadDeltas(EncodeOffsets(RelativeOffsets(offsets))).value, 0) == RelativeOffsets(offsets)
  {
    var rel := RelativeOffsets(offsets);
    forall j | 0 <= j < |rel|
      ensures 0 <= rel[j] < |data| - 8
    {
      assert offsets[j] in offsets;
    }
    EncodeOffsetsReadBack(rel);
  }

  datatype WriteError = SizeTooLarge(size: int)  // `struct.pack("<I", …)` given 2^32 or more

  /** The bytes `write_pof0` writes: "POF0", LE uint32 of the entry count
      in bytes plus 8, a zero word, the entries, and no terminator. */
  function WritePof0(enc: seq<byte>): (r: Result<seq<byte>, WriteError>)
    ensures r.Ok? <==> |enc| + 8 < 0x1_0000_0000
    ensures r.Err? ==> r.error == SizeTooLarge(|enc| + 8)
    ensures r.Ok? ==> |r.value| == 12 + |enc| && r.value[..4] == POF0
    ensures r.Ok? ==> LE32(r.value, 4) == |r.value| - 4
    ensures r.Ok? ==> r.value[8..12] == [0, 0, 0, 0] && r.value[12..] == enc
  {
    if |enc| + 8 >= 0x1_0000_0000 then Err(SizeTooLarge(|enc| + 8))
    else
      var out := POF0 + PackLE32(|enc| + 8) + [0, 0, 0, 0] + enc;
      assert out[4..8] == PackLE32(|enc| + 8);
      Ok(out)
  }
}
