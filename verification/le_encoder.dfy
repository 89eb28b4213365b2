/** `encode_pof0` of LEEncoder.py: an `offset -> count` dictionary becomes
    "POF0", a little-endian 32-bit byte count, and the tagged entries.  Each
    offset is stored in the narrowest of three forms (6, 14 or 22 payload
    bits); there is no terminator and no reserved word. */
module LEEncoder {
  import opened Bytes
  import opened OffsetCounts

  datatype EncodeError =
    | OffsetOutOfRange(offset: int)  // the ValueError for an offset outside 0..0x3FFFFF
    | SizeTooLarge(size: int)        // `struct.pack('<I', …)` given a size of 2^32 or more

  /** The offsets `encode_pof0` accepts: 0 through 0x3FFFFF. */
  predicate InRange(offset: int) {
    0 <= offset <= 0x3F_FFFF
  }

  /** Bytes taken by the entry for an accepted offset. */
  function Width(offset: int): nat {
    if offset <= 0x3F then 1 else if offset <= 0x3FFF then 2 else 4
  }

  /** One entry: `0x40|o`, `0x80|(o>>8 & 0x3F), o & 0xFF`, or
      `0xC0|(o>>16 & 0x3F), (o>>8) & 0xFF, o & 0xFF, 0x00`. */
  function EncodeOffset(offset: int): (r: seq<byte>)
    requires InRange(offset)
    ensures |r| == Width(offset)
    ensures TagBits(r[0]) == (if |r| == 1 then 0x40 else if |r| == 2 then 0x80 else 0xC0)
    ensures |r| == 1 ==> Low6(r[0]) == offset
    ensures |r| == 2 ==> Low6(r[0]) * 0x100 + r[1] == offset
    ensures |r| == 4 ==> Low6(r[0]) * 0x1_0000 + r[1] as int * 0x100 + r[2] == offset && r[3] == 0
  {
    var o1 := offset / 0x100;  // `offset >> 8`
    if offset <= 0x3F then
      [0x40 + offset % 0x40]
    else if offset <= 0x3FFF then
      [0x80 + o1 % 0x40, offset % 0x100]
    else
      [0xC0 + o1 / 0x100 % 0x40, o1 % 0x100, offset % 0x100, 0x00]
  }

  /** Bytes a tally contributes: `count` entries, none when `count <= 0`. */
  function Weight(t: Tally): nat {
    if t.count <= 0 || !InRange(t.offset) then 0 else t.count * Width(t.offset)
  }

  function EncodedSize(d: Counts): nat {
    if d == [] then 0 else Weight(d[0]) + EncodedSize(d[1..])
  }

  /** True when every tally that emits at least one entry is in range,
      which is when the loop over the dictionary finishes without raising. */
  predicate AllEmittedInRange(d: Counts) {
    forall i :: 0 <= i < |d| && d[i].count >= 1 ==> InRange(d[i].offset)
  }

  /** The entry bytes: for each tally in dictionary order, `count`
      consecutive copies of its entry.  The first tally with `count >= 1`
      and an out-of-range offset raises. */
  function EncodeIndices(d: Counts): (r: Result<seq<byte>, EncodeError>)
    ensures r.Ok? <==> AllEmittedInRange(d)
    ensures r.Ok? ==> |r.value| == EncodedSize(d)
    ensures r.Err? ==> exists i :: 0 <= i < |d| && d[i].count >= 1 && !InRange(d[i].offset)
                                   && r.error == OffsetOutOfRange(d[i].offset)
  {
    if d == [] then Ok([])
    else
      var rest := EncodeIndices(d[1..]);
      assert forall i :: 1 <= i < |d| ==> d[i] == d[1..][i - 1];
      if d[0].count <= 0 then rest
      else if !InRange(d[0].offset) then Err(OffsetOutOfRange(d[0].offset))
      else if rest.Err? then rest
      else Ok(Repeat(EncodeOffset(d[0].offset), d[0].count) + rest.value)
  }

  /** `encode_pof0`: "POF0" ++ LE uint32(len(indices)) ++ indices. */
  function EncodePof0(d: Counts): (r: Result<seq<byte>, EncodeError>)
    ensures r.Ok? <==> AllEmittedInRange(d) && EncodedSize(d) < 0x1_0000_0000
    ensures r.Ok? ==> |r.value| == 8 + EncodedSize(d)
    ensures r.Ok? ==> r.value[..4] == POF0 && LE32(r.value, 4) == EncodedSize(d)
    ensures r.Ok? ==> r.value[8..] == EncodeIndices(d).value
    ensures r.Err? && AllEmittedInRange(d) ==> r.error == SizeTooLarge(EncodedSize(d))
    ensures EncodeIndices(d).Err? ==> r == Err(EncodeIndices(d).error)
  {
    match EncodeIndices(d)
    case Err(e) => Err(e)
    case Ok(indices) =>
      if |indices| >= 0x1_0000_0000 then Err(SizeTooLarge(|indices|))
      else Ok(POF0 + PackLE32(|indices|) + indices)
  }

  /** Dictionary order is kept: the entries of a concatenation are the
      concatenation of the entries. */
  lemma {:induction false} EncodeIndicesAppend(d1: Counts, d2: Counts)
    requires AllEmittedInRange(d1) && AllEmittedInRange(d2)
    ensures AllEmittedInRange(d1 + d2)
    ensures EncodeIndices(d1 + d2).value == EncodeIndices(d1).value + EncodeIndices(d2).value
  {
    if d1 != [] {
      assert (d1 + d2)[0] == d1[0];
      assert (d1 + d2)[1..] == d1[1..] + d2;
      assert AllEmittedInRange(d1[1..]) by {
        forall i | 0 <= i < |d1[1..]| && d1[1..][i].count >= 1
          ensures InRange(d1[1..][i].offset)
        {
          assert d1[1..][i] == d1[i + 1];
        }
      }
      EncodeIndicesAppend(d1[1..], d2);
      if d1[0].count >= 1 {
        var r := Repeat(EncodeOffset(d1[0].offset), d1[0].count);
        assert EncodeIndices(d1 + d2).value == r + EncodeIndices(d1[1..] + d2).value;
        assert EncodeIndices(d1).value == r + EncodeIndices(d1[1..]).value;
      }
    } else {
      assert d1 + d2 == d2;
    }
  }

  /** A single tally yields exactly `count` identical entries. */
  lemma SingleTally(t: Tally)
    requires InRange(t.offset)
    ensures EncodeIndices([t]) == Ok(Repeat(EncodeOffset(t.offset), if t.count <= 0 then 0 else t.count))
  {
    assert [t][1..] == [];
    var e := EncodeOffset(t.offset);
    if t.count <= 0 {
      assert Repeat(e, 0) == [];
    } else {
      assert EncodeIndices([t]) == Ok(Repeat(e, t.count) + []);
      assert Repeat(e, t.count) + [] == Repeat(e, t.count);
    }
  }

  /** The error names the first tally, in dictionary order, that emits an
      entry and is out of range: every emitting tally before it is in range. */
  lemma {:induction false} FirstOffender(d: Counts)
    requires EncodeIndices(d).Err?
    ensures exists i :: 0 <= i < |d| && d[i].count >= 1 && !InRange(d[i].offset)
                        && EncodeIndices(d).error == OffsetOutOfRange(d[i].offset)
                        && forall j :: 0 <= j < i && d[j].count >= 1 ==> InRange(d[j].offset)
  {
    if d[0].count <= 0 || InRange(d[0].offset) {
      var rest := d[1..];
      assert EncodeIndices(d) == EncodeIndices(rest);
      FirstOffender(rest);
      var i :| 0 <= i < |rest| && rest[i].count >= 1 && !InRange(rest[i].offset)
               && EncodeIndices(rest).error == OffsetOutOfRange(rest[i].offset)
               && forall j :: 0 <= j < i && rest[j].count >= 1 ==> InRange(rest[j].offset);
      assert d[i + 1] == rest[i];
      forall j | 0 <= j < i + 1 && d[j].count >= 1
        ensures InRange(d[j].offset)
      {
        if j > 0 {
          assert d[j] == rest[j - 1];
        }
      }
    } else {
      assert EncodeIndices(d).error == OffsetOutOfRange(d[0].offset);
    }
  }
}
