/** Import/chunk.py over the bytes of a file already in memory.  The
    header gives `pointer`, the length of the blob at offset 8; after the
    blob come a 4-byte ASCII tag, a little-endian `Length`, and the entries.
    Entries are read little-endian with the tag in the low bits of the
    first byte, and decoding runs while `Length` stays positive; each
    decoded offset must address a whole 32-bit word inside the blob. */
module Chunk {
  import opened Bytes

  /** `YCHUNK_TYPE.get(wantedType, None)`. */
  function GetChunkType(wanted: string): (r: Option<int>)
    ensures r.Some? <==> wanted == "YOBJ" || wanted == "YANM" || wanted == "POF0"
    ensures wanted == "YOBJ" ==> r == Some(2)
    ensures wanted == "YANM" ==> r == Some(3)
    ensures wanted == "POF0" ==> r == Some(1)
  {
    if wanted == "YOBJ" then Some(2)
    else if wanted == "YANM" then Some(3)
    else if wanted == "POF0" then Some(1)
    else None
  }

  datatype ChunkError =
    | Truncated(at: int)                   // a read at `at` came back short: `struct.error`
    | NonAsciiTag                          // the table tag does not decode as ASCII
    | EntryOutsideBlob(entry: int)         // the blob has no whole word at `entry`
    | UntaggedEntry(at: int, length: int)  // a 00-tagged byte with `Length` > 0 fails the assert

  datatype Decoded = Decoded(entries: seq<int>, blob: seq<byte>)

  /** An offset the decoder can emit: 4-aligned, and its field `e / 4`
      either fits in 6 bits (1-byte form), or fits in 14 bits with a low
      byte in 0x80..0xBF (2-byte form), or fits in 32 bits with a low byte
      of 0xC0 or more (4-byte form).  The low byte of the field is the tag
      byte, and the 2- and 4-byte forms keep its tag bits. */
  predicate Representable(e: int) {
    e >= 0 && e % 4 == 0 &&
    var f := e / 4;
    f < 0x40 || (0x80 <= f % 0x100 < 0xC0 && f < 0x4000) || (0xC0 <= f % 0x100 && f < 0x1_0000_0000)
  }

  function Prepend(e: int, r: Result<seq<int>, ChunkError>): Result<seq<int>, ChunkError> {
    match r
    case Ok(es) => Ok([e] + es)
    case Err(err) => Err(err)
  }

  /** The 2-byte form's field: `unpack('<H') & 0x3FFF`. */
  function WordField(data: seq<byte>, p: nat): (r: int)
    requires p + 2 <= |data|
    ensures 0 <= r < 0x4000
    ensures r == data[p] as int + 0x100 * (data[p + 1] as int % 0x40)
  {
    LE16(data, p) % 0x4000
  }

  lemma LongFormRepresentable(data: seq<byte>, p: nat)
    requires p + 4 <= |data| && TagBits(data[p]) == 0xC0
    ensures Representable(LE32(data, p) * 4)
  {
    var f := LE32(data, p);
    assert (f * 4) / 4 == f;
  }

  lemma WordFormRepresentable(data: seq<byte>, p: nat)
    requires p + 2 <= |data| && TagBits(data[p]) == 0x80
    ensures Representable(WordField(data, p) * 4)
  {
    var f := WordField(data, p);
    assert (f * 4) / 4 == f;
    var hi := data[p + 1] as int % 0x40;
    assert f == data[p] as int + 0x100 * hi;
    assert f % 0x100 == data[p];
  }

  /** One entry read at `p`: the offset it emits, the bytes it takes and
      how far it lowers `Length`. */
  datatype Entry = Entry(offset: int, width: nat, charge: nat)

  /** One pass of the loop body of `DecodePOF0` at `p`.  The 4-byte form
      emits its whole little-endian word shifted left by 2, the 2-byte form
      its low 14 bits shifted left by 2, the 1-byte form its low 6 bits
      shifted left by 2; they lower `Length` by 4, 2 and 2.  A 00-tagged
      byte fails the assertion, since `Length` is still positive. */
  function ReadEntry(data: seq<byte>, p: nat, length: int): (r: Result<Entry, ChunkError>)
    ensures r.Ok? ==> Representable(r.value.offset)
    ensures r.Ok? ==> (r.value.width == 1 || r.value.width == 2 || r.value.width == 4)
                      && p + r.value.width <= |data|
    ensures r.Ok? ==> r.value.charge == (if r.value.width == 4 then 4 else 2)
    ensures r.Ok? ==> r.value.width == (if TagBits(data[p]) == 0xC0 then 4 else if TagBits(data[p]) == 0x80 then 2 else 1)
    ensures r.Err? ==> r.error == Truncated(p) || r.error == UntaggedEntry(p, length)
    ensures r == Err(UntaggedEntry(p, length)) <==> p < |data| && TagBits(data[p]) == 0x00
    ensures r == Err(Truncated(p)) <==>
              p >= |data|
              || (TagBits(data[p]) == 0xC0 && p + 4 > |data|)
              || (TagBits(data[p]) == 0x80 && p + 2 > |data|)
  {
    if p >= |data| then Err(Truncated(p))
    else
      var b := data[p];
      var tag := TagBits(b);
      if tag == 0xC0 then
        if p + 4 > |data| then Err(Truncated(p))
        else
          LongFormRepresentable(data, p);
          Ok(Entry(LE32(data, p) * 4, 4, 4))
      else if tag == 0x80 then
        if p + 2 > |data| then Err(Truncated(p))
        else
          WordFormRepresentable(data, p);
          Ok(Entry(WordField(data, p) * 4, 2, 2))
      else if tag == 0x40 then
        Ok(Entry(Low6(b) * 4, 1, 2))
      else
        Err(UntaggedEntry(p, length))
  }

  /** `DecodePOF0` with the file at `p` and the counter at `length`: read
      entries while `length` is positive; each must leave a whole word of
      the blob at its offset. */
  function DecodeEntries(data: seq<byte>, p: nat, length: int, blob: seq<byte>): (r: Result<seq<int>, ChunkError>)
    decreases length
    ensures r.Ok? ==> forall e :: e in r.value ==> Representable(e) && e + 4 <= |blob|
    ensures r.Ok? ==> 2 * |r.value| <= (if length > 0 then length + 1 else 0)
    ensures r.Err? && r.error.UntaggedEntry? ==> r.error.length > 0
    ensures r.Err? && r.error.Truncated? ==> r.error.at >= p
  {
    if length <= 0 then Ok([])
    else
      match ReadEntry(data, p, length)
      case Err(err) => Err(err)
      case Ok(entry) =>
        if entry.offset + 4 > |blob| then Err(EntryOutsideBlob(entry.offset))
        else Prepend(entry.offset, DecodeEntries(data, p + entry.width, length - entry.charge, blob))
  }

  predicate IsAscii(s: seq<byte>) {
    forall i :: 0 <= i < |s| ==> s[i] < 0x80
  }

  /** `ReadChunkData`: split out the blob of `pointer` bytes at 8, read the
      tag at `pointer + 8` (decoded as ASCII, never compared) and `Length`
      at `pointer + 12`, and decode from `pointer + 16`. */
  function ReadChunkData(data: seq<byte>): (r: Result<Decoded, ChunkError>)
    ensures r == Err(Truncated(4)) <==> |data| < 8
    ensures r.Ok? ==> |data| >= 16 + LE32(data, 4) && r.value.blob == data[8..8 + LE32(data, 4)]
    ensures r.Ok? ==> IsAscii(data[8 + LE32(data, 4)..12 + LE32(data, 4)])
    ensures r.Ok? ==> forall e :: e in r.value.entries ==> Representable(e) && e + 4 <= |r.value.blob|
  {
    if |data| < 8 then Err(Truncated(4))
    else
      var pointer := LE32(data, 4);
      if |data| < pointer + 12 then Err(Truncated(pointer + 8))
      else if !IsAscii(data[pointer + 8..pointer + 12]) then Err(NonAsciiTag)
      else if |data| < pointer + 16 then Err(Truncated(pointer + 12))
      else
        var blob := data[8..8 + pointer];
        var length := LE32(data, pointer + 12);
        match DecodeEntries(data, pointer + 16, length, blob)
        case Err(e) => Err(e)
        case Ok(entries) => Ok(Decoded(entries, blob))
  }

  /** A 00-tagged byte read while `Length` is still positive fails the
      assertion in the loop's last branch. */
  lemma UntaggedFails(data: seq<byte>, p: nat, length: int, blob: seq<byte>)
    requires length > 0 && p < |data| && TagBits(data[p]) == 0x00
    ensures DecodeEntries(data, p, length, blob) == Err(UntaggedEntry(p, length))
  {
  }

  /** The loop stops, with the entries read so far, as soon as `Length` is
      0 or below, whatever bytes follow. */
  lemma LengthSpent(data: seq<byte>, p: nat, length: int, blob: seq<byte>)
    requires length <= 0
    ensures DecodeEntries(data, p, length, blob) == Ok([])
  {
  }

  /** `Length` can overshoot below 0: a 1-byte entry read at `Length == 1`
      lowers it to -1 and the loop ends normally after emitting it. */
  lemma OddLengthOvershoots(data: seq<byte>, p: nat, blob: seq<byte>)
    requires p < |data| && TagBits(data[p]) == 0x40 && Low6(data[p]) * 4 + 4 <= |blob|
    ensures DecodeEntries(data, p, 1, blob) == Ok([Low6(data[p]) * 4])
  {
    assert ReadEntry(data, p, 1) == Ok(Entry(Low6(data[p]) * 4, 1, 2));
    assert DecodeEntries(data, p + 1, -1, blob) == Ok([]);
    assert [Low6(data[p]) * 4] + [] == [Low6(data[p]) * 4];
  }

  /** A 4-byte entry read at `Length == 2` drives it to -2, and the loop
      ends normally after emitting the entry. */
  lemma LongEntryOvershoots(data: seq<byte>, p: nat, blob: seq<byte>)
    requires p + 4 <= |data| && TagBits(data[p]) == 0xC0 && LE32(data, p) * 4 + 4 <= |blob|
    ensures DecodeEntries(data, p, 2, blob) == Ok([LE32(data, p) * 4])
  {
    assert ReadEntry(data, p, 2) == Ok(Entry(LE32(data, p) * 4, 4, 4));
    assert DecodeEntries(data, p + 4, -2, blob) == Ok([]);
    assert [LE32(data, p) * 4] + [] == [LE32(data, p) * 4];
  }

  /** A 2-byte entry read at `Length == 2` keeps only the low 14 bits of
      its little-endian word, whatever the high two bits of the second
      byte hold, and ends the loop after emitting it. */
  lemma WideEntryAtLengthTwo(data: seq<byte>, p: nat, blob: seq<byte>)
    requires p + 2 <= |data| && TagBits(data[p]) == 0x80
    requires (LE16(data, p) % 0x4000) * 4 + 4 <= |blob|
    ensures DecodeEntries(data, p, 2, blob) == Ok([(LE16(data, p) % 0x4000) * 4])
  {
    assert ReadEntry(data, p, 2) == Ok(Entry((LE16(data, p) % 0x4000) * 4, 2, 2));
    assert DecodeEntries(data, p + 2, 0, blob) == Ok([]);
    assert [(LE16(data, p) % 0x4000) * 4] + [] == [(LE16(data, p) % 0x4000) * 4];
  }

  /** For any file whose header and table tag are present, `Length` is the
      word at `pointer + 12` and the entries are decoded from
      `pointer + 16` against the blob `[8, 8 + pointer)`. */
  lemma EntriesFromHeader(data: seq<byte>)
    requires |data| >= 8 && |data| >= 16 + LE32(data, 4)
    requires IsAscii(data[8 + LE32(data, 4)..12 + LE32(data, 4)])
    ensures var pointer := LE32(data, 4);
            var blob := data[8..8 + pointer];
            var r := DecodeEntries(data, pointer + 16, LE32(data, pointer + 12), blob);
            ReadChunkData(data) == if r.Ok? then Ok(Decoded(r.value, blob)) else Err(r.error)
  {
  }

  /** The header errors after the `pointer` read, in the order the reads
      happen: a short tag read, then a tag that does not decode as ASCII,
      then a short `Length` read. */
  lemma HeaderErrors(data: seq<byte>)
    requires |data| >= 8
    ensures var n := LE32(data, 4);
            |data| < n + 12 ==> ReadChunkData(data) == Err(Truncated(n + 8))
    ensures var n := LE32(data, 4);
            n + 12 <= |data| && !IsAscii(data[n + 8..n + 12]) ==> ReadChunkData(data) == Err(NonAsciiTag)
    ensures var n := LE32(data, 4);
            n + 12 <= |data| < n + 16 && IsAscii(data[n + 8..n + 12]) ==> ReadChunkData(data) == Err(Truncated(n + 12))
  {
  }

  /** A loop pass whose read fails, short or untagged, fails the decode
      with that error: a table cut short is never taken as complete. */
  lemma ReadErrorFails(data: seq<byte>, p: nat, length: int, blob: seq<byte>)
    requires length > 0 && ReadEntry(data, p, length).Err?
    ensures DecodeEntries(data, p, length, blob) == Err(ReadEntry(data, p, length).error)
  {
  }
}
