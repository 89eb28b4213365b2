/** A writer for the layout Import/chunk.py reads, used as the reference
    that its decoder is checked against.  Together with the decoder's own
    contract it shows that `Representable` is exactly the set of offsets
    the format can carry: every decoded offset is representable, and every
    list of representable offsets inside the blob is written so that
    `ReadChunkData` returns it unchanged, with the blob. */
module ChunkLayout {
  import opened Bytes
  import opened Chunk

  /** The entry for an offset: the 1-byte form for a 6-bit field, else
      the little-endian 2-byte form when the field fits in 14 bits and its
      low byte carries the 0x80 tag, else the little-endian 4-byte form.
      Only representable offsets are meant; for others the field is cut
      to what the forms can hold so that every input has some entry. */
  function EntryFor(e: int): (r: seq<byte>)
    ensures |r| == 1 || |r| == 2 || |r| == 4
  {
    var f := e / 4;
    if 0 <= f < 0x40 then [0x40 + f]
    else if 0 <= f < 0x4000 && f % 0x100 < 0xC0 then [f % 0x100, f / 0x100]
    else PackLE32(f % 0x1_0000_0000)
  }

  /** How far `Length` drops for the entry: 2 for the 1-byte form too. */
  function Charge(e: int): nat {
    if |EntryFor(e)| == 4 then 4 else 2
  }

  /** Every offset is representable and has a whole word inside the blob. */
  predicate Fits(es: seq<int>, blob: seq<byte>) {
    forall i :: 0 <= i < |es| ==> Representable(es[i]) && es[i] + 4 <= |blob|
  }

  function Entries(es: seq<int>): seq<byte> {
    if es == [] then [] else EntryFor(es[0]) + Entries(es[1..])
  }

  function TotalCharge(es: seq<int>): nat {
    if es == [] then 0 else Charge(es[0]) + TotalCharge(es[1..])
  }

  /** A whole chunk: any 4 magic bytes (never checked), the blob length,
      the blob, an ASCII tag, the total charge as `Length`, the entries. */
  function Container(magic: seq<byte>, blob: seq<byte>, tag: seq<byte>, es: seq<int>): seq<byte>
    requires |blob| < 0x1_0000_0000
    requires TotalCharge(es) < 0x1_0000_0000
  {
    magic + PackLE32(|blob|) + blob + tag + PackLE32(TotalCharge(es)) + Entries(es)
  }

  /** One written entry is read back as its offset, width and charge. */
  lemma EntryReads(data: seq<byte>, p: nat, e: int, length: int)
    requires Representable(e)
    requires p + |EntryFor(e)| <= |data| && data[p..p + |EntryFor(e)|] == EntryFor(e)
    ensures ReadEntry(data, p, length) == Ok(Entry(e, |EntryFor(e)|, Charge(e)))
  {
    var f := e / 4;
    if f < 0x40 {
      ByteEntryReads(data, p, e, length);
    } else if f < 0x4000 && f % 0x100 < 0xC0 {
      WordEntryReads(data, p, e, length);
    } else {
      LongEntryReads(data, p, e, length);
    }
  }

  lemma ByteEntryReads(data: seq<byte>, p: nat, e: int, length: int)
    requires Representable(e) && e / 4 < 0x40
    requires p + |EntryFor(e)| <= |data| && data[p..p + |EntryFor(e)|] == EntryFor(e)
    ensures ReadEntry(data, p, length) == Ok(Entry(e, |EntryFor(e)|, Charge(e)))
  {
    var f := e / 4;
    assert EntryFor(e) == [0x40 + f];
    assert data[p] == 0x40 + f;
    assert TagBits(data[p]) == 0x40 && Low6(data[p]) * 4 == e;
  }

  lemma WordEntryReads(data: seq<byte>, p: nat, e: int, length: int)
    requires Representable(e) && 0x40 <= e / 4 < 0x4000 && e / 4 % 0x100 < 0xC0
    requires p + |EntryFor(e)| <= |data| && data[p..p + |EntryFor(e)|] == EntryFor(e)
    ensures ReadEntry(data, p, length) == Ok(Entry(e, |EntryFor(e)|, Charge(e)))
  {
    var f := e / 4;
    var w := EntryFor(e);
    assert w == [f % 0x100, f / 0x100];
    assert data[p] == w[0] && data[p + 1] == w[1];
    assert TagBits(data[p]) == 0x80;
    assert WordField(data, p) * 4 == e;
  }

  lemma LongEntryReads(data: seq<byte>, p: nat, e: int, length: int)
    requires Representable(e)
    requires !(e / 4 < 0x40) && !(e / 4 < 0x4000 && e / 4 % 0x100 < 0xC0)
    requires p + |EntryFor(e)| <= |data| && data[p..p + |EntryFor(e)|] == EntryFor(e)
    ensures ReadEntry(data, p, length) == Ok(Entry(e, |EntryFor(e)|, Charge(e)))
  {
    var f := e / 4;
    assert f % 0x1_0000_0000 == f;
    var w := PackLE32(f);
    assert EntryFor(e) == w;
    assert data[p] == w[0];
    assert TagBits(data[p]) == 0xC0;
    LE32Slice(data, p, w);
    assert LE32(data, p) * 4 == e;
    assert ReadEntry(data, p, length) == Ok(Entry(LE32(data, p) * 4, 4, 4));
  }

  lemma SplitAt(data: seq<byte>, p: nat, a: seq<byte>, b: seq<byte>)
    requires p + |a| + |b| <= |data| && data[p..p + |a| + |b|] == a + b
    ensures data[p..p + |a|] == a && data[p + |a|..p + |a| + |b|] == b
  {
    var whole := data[p..p + |a| + |b|];
    assert data[p..p + |a|] == whole[..|a|];
    assert data[p + |a|..p + |a| + |b|] == whole[|a|..];
  }

  /** The written entries of a list, placed at `p`, decode to the list. */
  lemma {:induction false} EntriesDecode(data: seq<byte>, p: nat, es: seq<int>, blob: seq<byte>)
    requires Fits(es, blob)
    requires p + |Entries(es)| <= |data| && data[p..p + |Entries(es)|] == Entries(es)
    decreases |es|
    ensures DecodeEntries(data, p, TotalCharge(es), blob) == Ok(es)
  {
    if es != [] {
      FitsTail(es, blob);
      var w, rest := EntryFor(es[0]), Entries(es[1..]);
      assert Entries(es) == w + rest;
      SplitAt(data, p, w, rest);
      EntriesDecode(data, p + |EntryFor(es[0])|, es[1..], blob);
      EntriesStep(data, p, es, blob);
    }
  }

  /** The head of a list that fits is an entry inside the blob, and the
      rest still fits. */
  lemma FitsTail(es: seq<int>, blob: seq<byte>)
    requires es != [] && Fits(es, blob)
    ensures Representable(es[0]) && es[0] + 4 <= |blob| && Fits(es[1..], blob)
  {
    var tail := es[1..];
    forall i | 0 <= i < |tail| ensures tail[i] == es[i + 1] { }
  }

  /** One pass of the decoding loop that reads an entry inside the blob,
      followed by the entries the rest of the loop yields. */
  lemma DecodeEntriesStep(data: seq<byte>, p: nat, length: int, blob: seq<byte>, entry: Entry, tail: seq<int>)
    requires length > 0 && ReadEntry(data, p, length) == Ok(entry) && entry.offset + 4 <= |blob|
    requires DecodeEntries(data, p + entry.width, length - entry.charge, blob) == Ok(tail)
    ensures DecodeEntries(data, p, length, blob) == Ok([entry.offset] + tail)
  {
  }

  /** The inductive step: the first entry, then the rest. */
  lemma EntriesStep(data: seq<byte>, p: nat, es: seq<int>, blob: seq<byte>)
    requires es != [] && Representable(es[0]) && es[0] + 4 <= |blob|
    requires p + |EntryFor(es[0])| <= |data| && data[p..p + |EntryFor(es[0])|] == EntryFor(es[0])
    requires DecodeEntries(data, p + |EntryFor(es[0])|, TotalCharge(es[1..]), blob) == Ok(es[1..])
    ensures DecodeEntries(data, p, TotalCharge(es), blob) == Ok(es)
  {
    var e, tail := es[0], es[1..];
    assert es == [e] + tail;
    var length := TotalCharge(es);
    assert length == Charge(e) + TotalCharge(tail);
    var entry := Entry(e, |EntryFor(e)|, Charge(e));
    EntryReads(data, p, e, length);
    assert p + entry.width == p + |EntryFor(e)| && length - entry.charge == TotalCharge(tail);
    DecodeEntriesStep(data, p, length, blob, entry, tail);
  }

  /** Where each part of a six-part concatenation lies. */
  lemma Fields(a: seq<byte>, b: seq<byte>, c: seq<byte>, d: seq<byte>, e: seq<byte>, f: seq<byte>)
    ensures var s := a + b + c + d + e + f;
            var i := |a| + |b|;
            var j := i + |c| + |d|;
            s[|a|..i] == b && s[i..i + |c|] == c && s[i + |c|..j] == d
            && s[j..j + |e|] == e && s[j + |e|..j + |e| + |f|] == f
  {
  }

  /** Where the header fields, the blob, the tag and the entries of a
      written chunk lie. */
  lemma ContainerFields(magic: seq<byte>, blob: seq<byte>, tag: seq<byte>, es: seq<int>)
    requires |magic| == 4 && |tag| == 4
    requires |blob| < 0x1_0000_0000
    requires TotalCharge(es) < 0x1_0000_0000
    ensures var data := Container(magic, blob, tag, es);
            var n := |blob|;
            |data| == n + 16 + |Entries(es)|
            && LE32(data, 4) == n && LE32(data, n + 12) == TotalCharge(es)
            && data[8..8 + n] == blob && data[n + 8..n + 12] == tag
            && data[n + 16..n + 16 + |Entries(es)|] == Entries(es)
  {
    var data := Container(magic, blob, tag, es);
    var n := |blob|;
    var count := PackLE32(TotalCharge(es));
    Fields(magic, PackLE32(n), blob, tag, count, Entries(es));
    LE32Slice(data, 4, PackLE32(n));
    LE32Slice(data, n + 12, count);
  }

  /** Round trip: a chunk written from any blob and any list of
      representable offsets inside it reads back as that list and blob. */
  lemma ContainerRoundTrip(magic: seq<byte>, blob: seq<byte>, tag: seq<byte>, es: seq<int>)
    requires |magic| == 4 && |tag| == 4 && IsAscii(tag)
    requires |blob| < 0x1_0000_0000
    requires Fits(es, blob)
    requires TotalCharge(es) < 0x1_0000_0000
    ensures ReadChunkData(Container(magic, blob, tag, es)) == Ok(Decoded(es, blob))
  {
    var data := Container(magic, blob, tag, es);
    var n := |blob|;
    ContainerFields(magic, blob, tag, es);
    EntriesFromHeader(data);
    EntriesDecode(data, n + 16, es, blob);
  }

  /** An entry whose offset leaves no whole word inside the blob fails the
      decode while `Length` is positive: the word read there comes back
      short. */
  lemma OutsideBlobFails(data: seq<byte>, p: nat, e: int, length: int, blob: seq<byte>)
    requires Representable(e) && e + 4 > |blob| && length > 0
    requires p + |EntryFor(e)| <= |data| && data[p..p + |EntryFor(e)|] == EntryFor(e)
    ensures DecodeEntries(data, p, length, blob) == Err(EntryOutsideBlob(e))
  {
    EntryReads(data, p, e, length);
  }
}
