/** A writer for the layout Decoder.py reads, used as the reference that
    its decoder is checked against: any list of pointers the decoder can
    emit is written so that `ReadChunkData` recovers exactly that list, in
    order, stopping at the terminator. */
module YChunkLayout {
  import opened Bytes
  import opened YChunk

  /** The entry for a pointer: the 1-byte form plus the byte its
      `seek(1, 1)` skips when the field fits in 6 bits, the 2-byte form
      otherwise. */
  function EntryFor(ptr: int): (r: seq<byte>)
    requires IsPointer(ptr)
    ensures |r| == 2 && TagBits(r[0]) != 0x00 && TagBits(r[0]) != 0xC0
  {
    var field := (ptr - 8) / 4;
    if field < 0x40 then [0x40 + field, 0x00]
    else [0x80 + field / 0x100, field % 0x100]
  }

  /** The entries of all pointers, in order, with no terminator. */
  function Entries(ptrs: seq<int>): (r: seq<byte>)
    requires forall ptr :: ptr in ptrs ==> IsPointer(ptr)
    ensures |r| == 2 * |ptrs|
  {
    if ptrs == [] then [] else EntryFor(ptrs[0]) + Entries(ptrs[1..])
  }

  /** The entries of all pointers, in order, then a 00 terminator. */
  function Table(ptrs: seq<int>): (r: seq<byte>)
    requires forall ptr :: ptr in ptrs ==> IsPointer(ptr)
    ensures |r| == 2 * |ptrs| + 1
  {
    Entries(ptrs) + [0x00]
  }

  /** A whole chunk: magic, RVA = length of the blob, the blob, an 8-byte
      table header (never inspected by the reader), then the table. */
  function Container(magic: seq<byte>, blob: seq<byte>, header: seq<byte>, ptrs: seq<int>): seq<byte>
    requires |blob| < 0x8000_0000
    requires forall ptr :: ptr in ptrs ==> IsPointer(ptr)
  {
    magic + PackInt32(|blob|) + blob + header + Table(ptrs)
  }

  lemma EntryDecodes(ptr: int, rest: seq<byte>)
    requires IsPointer(ptr)
    ensures DecodeFrom(EntryFor(ptr) + rest, 0) == Cons(ptr, DecodeFrom(rest, 0))
  {
    var e := EntryFor(ptr);
    var whole := e + rest;
    assert whole[0] == e[0] && whole[1] == e[1];
    DecodeFromShift(e, rest, 0);
  }

  /** Whatever follows the entries, the decoder emits the written pointers
      first, in order, and then whatever the rest decodes to. */
  lemma {:induction false} EntriesDecode(ptrs: seq<int>, rest: seq<byte>)
    requires forall ptr :: ptr in ptrs ==> IsPointer(ptr)
    ensures DecodeFrom(Entries(ptrs) + rest, 0)
            == Scan(ptrs + DecodeFrom(rest, 0).ptrs, DecodeFrom(rest, 0).stop)
  {
    if ptrs == [] {
      assert Entries(ptrs) + rest == rest;
    } else {
      var tail := Entries(ptrs[1..]) + rest;
      EntriesDecode(ptrs[1..], rest);
      EntryDecodes(ptrs[0], tail);
      assert Entries(ptrs) + rest == EntryFor(ptrs[0]) + tail;
      HeadThenRest(ptrs, DecodeFrom(rest, 0).ptrs);
    }
  }

  lemma HeadThenRest(s: seq<int>, t: seq<int>)
    requires s != []
    ensures [s[0]] + (s[1..] + t) == s + t
  {
    assert s == [s[0]] + s[1..];
  }

  lemma TableDecodes(ptrs: seq<int>)
    requires forall ptr :: ptr in ptrs ==> IsPointer(ptr)
    ensures DecodeFrom(Table(ptrs), 0) == Scan(ptrs, Terminator)
  {
    EntriesDecode(ptrs, [0x00]);
    assert ptrs + [] == ptrs;
  }

  /** A table cut off before its terminator still yields every pointer,
      and the loop ends because `read(1)` returns nothing. */
  lemma UnterminatedDecodes(ptrs: seq<int>)
    requires forall ptr :: ptr in ptrs ==> IsPointer(ptr)
    ensures DecodeFrom(Entries(ptrs), 0) == Scan(ptrs, EndOfInput)
  {
    EntriesDecode(ptrs, []);
    assert Entries(ptrs) + [] == Entries(ptrs);
    assert ptrs + [] == ptrs;
  }

  /** Any 00-tagged byte (0x00 to 0x3F) after the entries ends the loop
      with exactly the pointers before it, whatever follows. */
  lemma AnyUntaggedStops(ptrs: seq<int>, b: byte, rest: seq<byte>)
    requires forall ptr :: ptr in ptrs ==> IsPointer(ptr)
    requires TagBits(b) == 0x00
    ensures DecodeFrom(Entries(ptrs) + ([b] + rest), 0) == Scan(ptrs, Terminator)
  {
    EntriesDecode(ptrs, [b] + rest);
    assert ([b] + rest)[0] == b;
    assert ptrs + [] == ptrs;
  }

  /** The byte that follows a 1-byte entry is skipped whatever it holds:
      the pointer depends on the tagged byte alone. */
  lemma ByteFormAnyFiller(b: byte, filler: byte, rest: seq<byte>)
    requires TagBits(b) == 0x40
    ensures DecodeFrom([b, filler] + rest, 0) == Cons(Low6(b) * 4 + 8, DecodeFrom(rest, 0))
  {
    DecodeFromShift([b, filler], rest, 0);
  }

  /** A 2-byte entry yields its 14-bit field, whatever both bytes hold,
      and decoding goes on right after its second byte. */
  lemma WideFormAnyBytes(b: byte, b2: byte, rest: seq<byte>)
    requires TagBits(b) == 0x80
    ensures DecodeFrom([b, b2] + rest, 0) == Cons((Low6(b) * 0x100 + b2) * 4 + 8, DecodeFrom(rest, 0))
  {
    DecodeFromShift([b, b2], rest, 0);
  }

  /** A 1-byte entry that is the last byte of the file is still emitted:
      the skip past its missing second byte lands at the end of input
      (with `DecodeFromShift`, the same holds after any prefix). */
  lemma ByteFormAtEnd(b: byte)
    requires TagBits(b) == 0x40
    ensures DecodeFrom([b], 0) == Scan([Low6(b) * 4 + 8], EndOfInput)
  {
  }

  /** A lone 0x80-tagged byte after the entries emits no pointer: its
      second byte is missing, so the loop ends with exactly the pointers
      before it. */
  lemma TrailingWideByteStops(ptrs: seq<int>, b: byte)
    requires forall ptr :: ptr in ptrs ==> IsPointer(ptr)
    requires TagBits(b) == 0x80
    ensures DecodeFrom(Entries(ptrs) + [b], 0) == Scan(ptrs, MissingSecondByte)
  {
    EntriesDecode(ptrs, [b]);
    assert ptrs + [] == ptrs;
  }

  /** Round trip: a chunk written with any recognised magic, any blob and
      any table header reads back with RVA = blob length and exactly the
      pointers written, in order, ended by the terminator. */
  lemma ContainerRoundTrip(magic: seq<byte>, blob: seq<byte>, header: seq<byte>, ptrs: seq<int>)
    requires IsChunkMagic(magic)
    requires |blob| < 0x8000_0000 && |header| == 8
    requires forall ptr :: ptr in ptrs ==> IsPointer(ptr)
    ensures ReadChunkData(Container(magic, blob, header, ptrs)) == Ok(Chunk(magic, |blob|, ptrs, Terminator))
  {
    var data := Container(magic, blob, header, ptrs);
    var pre := magic + PackInt32(|blob|) + blob + header;
    assert data == pre + Table(ptrs);
    assert data[..4] == magic;
    assert data[4..8] == PackInt32(|blob|);
    LE32Slice(data, 4, PackInt32(|blob|));
    TableDecodes(ptrs);
    DecodeFromShift(pre, Table(ptrs), 0);
  }
}
