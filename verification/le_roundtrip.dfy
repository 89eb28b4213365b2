/** LEEncoder.py and LEDecoder.py agree on the 1- and 2-byte forms, so a
    dictionary of offsets up to 0x3FFF survives `encode_pof0` followed by
    `decode_pof0`.  The 4-byte forms disagree: the decoder's `>> 22` keeps
    only the two tag bits, so every 4-byte entry comes back as key 3. */
module LERoundTrip {
  import opened Bytes
  import opened OffsetCounts
  import opened LEEncoder
  import opened LEDecoder

  /** The key `decode_pof0` reads back from the entry `encode_pof0` writes
      for an accepted offset. */
  function ReadBackKey(offset: int): int {
    if offset <= 0x3FFF then offset else 3
  }

  /** The keys the decoder meets, in order, when reading the encoding of
      `d`: each emitted tally's read-back key, `count` times. */
  function ReadBackKeys(d: Counts): seq<int> {
    if d == [] then []
    else Repeat([ReadBackKey(d[0].offset)], if d[0].count <= 0 then 0 else d[0].count) + ReadBackKeys(d[1..])
  }

  /** The entry walk only looks at the bytes from the cursor on (error
      positions aside, which are counted from the start). */
  lemma {:induction false} EntryKeysSuffix(ix: seq<byte>, i: nat, j: nat)
    requires j <= i <= |ix|
    decreases |ix| - i
    ensures EntryKeys(ix, i).Ok? == EntryKeys(ix[j..], i - j).Ok?
    ensures EntryKeys(ix, i).Ok? ==> EntryKeys(ix, i).value == EntryKeys(ix[j..], i - j).value
  {
    if i < |ix| {
      var b := ix[i];
      assert ix[j..][i - j] == b;
      var tag := TagBits(b);
      if tag == 0xC0 && i + 4 <= |ix| {
        assert ix[j..][i - j + 1] == ix[i + 1] && ix[j..][i - j + 2] == ix[i + 2] && ix[j..][i - j + 3] == ix[i + 3];
        EntryKeysSuffix(ix, i + 4, j);
      } else if tag == 0x80 && i + 2 <= |ix| {
        assert ix[j..][i - j + 1] == ix[i + 1];
        EntryKeysSuffix(ix, i + 2, j);
      } else if tag == 0x40 {
        EntryKeysSuffix(ix, i + 1, j);
      } else if tag == 0x00 {
        EntryKeysSuffix(ix, i + 1, j);
      }
    }
  }

  /** Reading one encoded entry yields its read-back key and leaves the
      cursor just past it. */
  lemma EntryKeysOne(offset: int, rest: seq<byte>)
    requires InRange(offset)
    requires EntryKeys(rest, 0).Ok?
    ensures EntryKeys(EncodeOffset(offset) + rest, 0) == Ok([ReadBackKey(offset)] + EntryKeys(rest, 0).value)
  {
    var e := EncodeOffset(offset);
    var ix := e + rest;
    assert ix[0] == e[0];
    EntryKeysSuffix(ix, |e|, |e|);
    assert ix[|e|..] == rest;
    if |e| == 2 {
      assert ix[1] == e[1];
    } else if |e| == 4 {
      assert ix[1] == e[1] && ix[2] == e[2] && ix[3] == e[3];
    }
  }

  lemma {:induction false} EntryKeysRepeat(offset: int, c: nat, rest: seq<byte>)
    requires InRange(offset)
    requires EntryKeys(rest, 0).Ok?
    decreases c
    ensures EntryKeys(Repeat(EncodeOffset(offset), c) + rest, 0)
         == Ok(Repeat([ReadBackKey(offset)], c) + EntryKeys(rest, 0).value)
  {
    var e := EncodeOffset(offset);
    var k := ReadBackKey(offset);
    var ks := EntryKeys(rest, 0).value;
    if c > 0 {
      var tail := Repeat(e, c - 1) + rest;
      EntryKeysRepeat(offset, c - 1, rest);
      RepeatCons(e, c, rest);
      EntryKeysOne(offset, tail);
      RepeatCons([k], c, ks);
    } else {
      assert Repeat(e, 0) + rest == rest;
      assert Repeat([k], 0) + ks == ks;
    }
  }

  /** Walking the entry bytes of `d` meets exactly the read-back keys. */
  lemma {:induction false} EntryKeysOfEncoding(d: Counts)
    requires AllEmittedInRange(d)
    ensures EntryKeys(EncodeIndices(d).value, 0) == Ok(ReadBackKeys(d))
  {
    if d != [] {
      assert AllEmittedInRange(d[1..]) by {
        forall i | 0 <= i < |d[1..]| && d[1..][i].count >= 1
          ensures InRange(d[1..][i].offset)
        {
          assert d[1..][i] == d[i + 1];
        }
      }
      EntryKeysOfEncoding(d[1..]);
      if d[0].count >= 1 {
        EntryKeysRepeat(d[0].offset, d[0].count, EncodeIndices(d[1..]).value);
        assert EncodeIndices(d).value == Repeat(EncodeOffset(d[0].offset), d[0].count) + EncodeIndices(d[1..]).value;
      } else {
        assert Repeat([ReadBackKey(d[0].offset)], 0) == [];
        assert ReadBackKeys(d) == ReadBackKeys(d[1..]);
      }
    }
  }

  lemma {:induction false} FoldAppend(acc: Counts, a: seq<int>, b: seq<int>)
    decreases |a|
    ensures Fold(acc, a + b) == Fold(Fold(acc, a), b)
  {
    if a != [] {
      assert (a + b)[0] == a[0];
      assert (a + b)[1..] == a[1..] + b;
      FoldAppend(Bump(acc, a[0]), a[1..], b);
    } else {
      assert a + b == b;
    }
  }

  lemma {:induction false} FoldRepeat(acc: Counts, k: int, c: nat)
    decreases c
    ensures Fold(acc, Repeat([k], c)) == BumpN(acc, k, c)
  {
    if c > 0 {
      assert Repeat([k], c)[0] == k;
      assert Repeat([k], c)[1..] == Repeat([k], c - 1);
      FoldRepeat(Bump(acc, k), k, c - 1);
    }
  }

  /** Folding the read-back keys of a dictionary of short offsets, all
      emitted at least once and absent from `acc`, appends the dictionary. */
  lemma {:induction false} FoldReadBack(acc: Counts, d: Counts)
    requires IsDict(d)
    requires forall i :: 0 <= i < |d| ==> d[i].count >= 1 && 0 <= d[i].offset <= 0x3FFF
    requires forall i :: 0 <= i < |d| ==> d[i].offset !in Keys(acc)
    decreases |d|
    ensures Fold(acc, ReadBackKeys(d)) == acc + d
  {
    if d != [] {
      var t := d[0];
      var rest := d[1..];
      FoldAppend(acc, Repeat([t.offset], t.count), ReadBackKeys(rest));
      FoldRepeat(acc, t.offset, t.count);
      BumpNFresh(acc, t.offset, t.count);
      KeysAppend(acc, t);
      forall i | 0 <= i < |rest|
        ensures rest[i].offset !in Keys(acc + [t])
      {
        assert rest[i] == d[i + 1];
      }
      FoldReadBack(acc + [t], rest);
      assert acc + [t] + rest == acc + d;
    }
  }

  /** The header `encode_pof0` writes is read back by `decode_pof0`: the
      magic is found at 0, and the table is exactly the entry bytes. */
  lemma DecodeEncodedFrame(d: Counts)
    requires EncodePof0(d).Ok?
    ensures AllEmittedInRange(d)
    ensures DecodePof0(EncodePof0(d).value) == DecodeEntries(EncodeIndices(d).value, 0, [])
  {
    var ix := EncodeIndices(d).value;
    FrameFields(EncodePof0(d).value, ix);
    FrameDecodes(EncodePof0(d).value, ix);
  }

  /** Where the magic, the size and the table of a framed table lie. */
  lemma FrameFields(data: seq<byte>, ix: seq<byte>)
    requires |ix| < 0x1_0000_0000 && data == POF0 + PackLE32(|ix|) + ix
    ensures |data| == 8 + |ix| && data[0..4] == POF0 && LE32(data, 4) == |ix| && data[8..8 + |ix|] == ix
  {
    var size := PackLE32(|ix|);
    assert data[4..8] == size;
    LE32Slice(data, 4, size);
  }

  /** A table whose magic is at 0 and whose size field matches the rest
      of the input is decoded as that rest. */
  lemma FrameDecodes(data: seq<byte>, ix: seq<byte>)
    requires |data| == 8 + |ix| && data[0..4] == POF0 && LE32(data, 4) == |ix| && data[8..8 + |ix|] == ix
    ensures DecodePof0(data) == DecodeEntries(ix, 0, [])
  {
    assert FindMagic(data, 0) == Some(0);
  }

  /** Encoding then decoding any accepted dictionary yields the counts of
      its read-back keys. */
  lemma EncodeThenDecode(d: Counts)
    requires EncodePof0(d).Ok?
    ensures AllEmittedInRange(d)
    ensures DecodePof0(EncodePof0(d).value) == Ok(Fold([], ReadBackKeys(d)))
  {
    DecodeEncodedFrame(d);
    EntryKeysOfEncoding(d);
    DecodeIsFold(EncodeIndices(d).value, 0, []);
  }

  /** Round trip: a dictionary whose offsets are all at most 0x3FFF and
      whose counts are all at least 1 decodes to itself, in the same order. */
  lemma RoundTrip(d: Counts)
    requires IsDict(d)
    requires forall i :: 0 <= i < |d| ==> d[i].count >= 1 && 0 <= d[i].offset <= 0x3FFF
    requires EncodePof0(d).Ok?
    ensures DecodePof0(EncodePof0(d).value) == Ok(d)
  {
    EncodeThenDecode(d);
    FoldReadBack([], d);
    assert [] + d == d;
  }

  /** No round trip for the 4-byte form: any offset in 0x4000..0x3FFFFF
      emitted `c` times, for any count whose 4c bytes fit the 32-bit size
      field, decodes as key 3 with count `c`. */
  lemma LongFormDecodesAsThree(offset: int, c: int)
    requires 0x4000 <= offset <= 0x3F_FFFF
    requires 1 <= c < 0x4000_0000
    ensures EncodePof0([Tally(offset, c)]).Ok?
    ensures DecodePof0(EncodePof0([Tally(offset, c)]).value) == Ok([Tally(3, c)])
  {
    var d := [Tally(offset, c)];
    assert d[1..] == [];
    assert EncodedSize(d) == 4 * c;
    EncodeThenDecode(d);
    assert ReadBackKeys(d) == Repeat([3], c) + [];
    assert Repeat([3], c) + [] == Repeat([3], c);
    FoldRepeat([], 3, c);
    BumpNFresh([], 3, c);
    assert [] + [Tally(3, c)] == [Tally(3, c)];
  }
}
