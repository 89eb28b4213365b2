# POF0 relocation tables, modelled in Dafny

A POF0 table lists the byte positions of 32-bit pointer fields inside a
game-asset blob, so that a loader can patch them after relocation. Each
position is stored as a tagged entry of 1, 2 or 4 bytes. The top two bits
of an entry's first byte are the tag (01, 10 or 11), and the tag gives the
entry's width. The table sits behind a small chunk header (`YOBJ`, `YANM`
or `POF0` magic plus a 32-bit word).

The repository holds four independent codecs for this format, and they
disagree with each other. Each one is modelled on its own, as pure
functions over bytes already in memory. None of their quirks is
reconciled or corrected.

- **LEEncoder / LEDecoder** (`le_encoder.dfy`, `le_decoder.dfy`,
  `le_roundtrip.dfy`, with `offset_counts.dfy`).
  - `encode_pof0` turns an insertion-ordered `offset -> count` dictionary
    into "POF0", a little-endian byte count, and `count` copies of each
    offset's entry.
  - `decode_pof0` finds the first "POF0" and walks exactly the declared
    bytes. It counts each decoded key, skips 00-tagged bytes, and reads
    every 4-byte entry as key 3.
  - The Python dictionary is a sequence of `Tally(offset, count)` with
    distinct offsets, in insertion order. `Bump` is
    `d[k] = d.get(k, 0) + 1`, so the round trip is exact sequence equality.
- **`YCHUNK` of Decoder.py** (`ychunk.dfy`, `ychunk_layout.dfy`).
  - It checks the file name and the chunk magic, reads a signed RVA at
    offset 4, and decodes from `8 + RVA + 8`. Each pointer comes out
    absolute, as `(field << 2) + 8`.
  - The 1-byte form consumes two bytes. A 0xC0-tagged byte is consumed
    alone and emits nothing.
  - Decoding stops at a 00-tagged byte, at the end of the input, or at a
    2-byte form with no second byte.
- **Import/chunk.py** (`chunk.dfy`, `chunk_layout.dfy`).
  - It splits out a blob of `pointer` bytes and checks that the tag after
    it is ASCII, without comparing it to anything.
  - It decodes little-endian entries while a `Length` counter stays
    positive. The 1-byte form also lowers `Length` by 2.
  - Every decoded offset must address a whole word of the blob, and a
    00-tagged byte fails the loop's assertion.
- **`POF0Encoder` of Encoder.py** (`delta_encoder.dfy`).
  - It scans the 4-aligned words whose value lands inside the file and
    rebases their positions by 8.
  - It stores each position as the difference from the previous one, in
    big-endian tagged entries.
  - It frames the entries as "POF0", `len + 8`, and a zero word.
  - `section_compat.dfy` shows what the two other readers of "POF0"
    sections make of that frame.

Bytes are the subset type `byte` (0..255). Bit masks are written
arithmetically: `b & 0x3F` is `b % 0x40` and `b & 0xC0` is
`b / 0x40 * 0x40`. Python exceptions, failed `struct.unpack` reads and a
failing `assert` become the `Err` side of a `Result` datatype.

Quirks of each codec, modelled as written:
- LEEncoder.py writes no terminator and no reserved word. Its 1- and
  2-byte forms store the offset as it is, unshifted.
- LEDecoder.py reads the 4-byte form as `>> 22`, which keeps only the tag,
  and steps over 00-tagged bytes.
- Decoder.py adds 8 to every pointer and stops quietly at the end of the
  input or at a 00-tagged byte.
- Import/chunk.py reads the 4-byte form as a little-endian word, tag bits
  included.
- Encoder.py stores deltas, and its size field is `len + 8`.

## Model

| member | source | states |
|---|---|---|
| LEEncoder.EncodeOffset | LEEncoder.py:24-33 | An offset up to 0x3F takes one byte, up to 0x3FFF two, and up to 0x3FFFFF four, tagged 0x40, 0x80 and 0xC0. The payload bits read back as the offset, and the 4-byte form ends in a zero byte. |
| LEEncoder.EncodeIndices | LEEncoder.py:22-35 | Succeeds exactly when every tally with a count of at least 1 has an offset in 0..0x3FFFFF. Otherwise it raises for such an offset. On success the byte count is the sum of count times width. |
| LEEncoder.FirstOffender | LEEncoder.py:22-35 | A failed encode names the first tally, in dictionary order, that has a count of at least 1 and an offset outside 0..0x3FFFFF. Every such tally before it is in range. |
| LEEncoder.EncodeIndicesAppend | LEEncoder.py:22-23 | The entries of two dictionaries in sequence are the entries of the first followed by those of the second, in dictionary order. |
| LEEncoder.SingleTally | LEEncoder.py:22-33 | A tally `(o, c)` with an accepted offset contributes exactly `c` consecutive copies of `o`'s entry, and nothing when `c` is 0 or less. |
| Bytes.RepeatSplit | LEEncoder.py:23 | The `range(count)` loop emits the same entry in every pass: `count` copies are any `m` copies, then the entry itself, then the remaining copies. |
| LEEncoder.EncodePof0 | LEEncoder.py:22-42 | Succeeds exactly when the offsets are in range and the size fits 32 bits. The output is "POF0", then the little-endian entry byte count, then the entries, for a total length of 8 plus the count. An out-of-range offset fails with the encoder's own error for that offset, and a size past 32 bits fails with the size. |
| LEDecoder.FindMagic | LEDecoder.py:20 | Returns the first position at or after the start where "POF0" occurs, or none when it occurs nowhere. |
| LEDecoder.LongKey | LEDecoder.py:53-60 | The key of a 4-byte entry is its lead byte shifted right by 6, which is always 3 for a 0xC0 tag. |
| LEDecoder.DecodeEntries | LEDecoder.py:45-78 | The entry walk fails only on a 0xC0 lead byte with fewer than 4 bytes left, or on a final 0x80 lead byte, each at its position. On success the counts grow by at most one per byte. |
| LEDecoder.ZeroTagsSkipped | LEDecoder.py:77-78 | A run of 00-tagged bytes in front of the entries is stepped over: the result is the same dictionary, and error positions move by the length of the run. |
| LEDecoder.DecodeEntriesShift | LEDecoder.py:45-78 | The walk looks only at the bytes from the cursor on; a prefix moves the cursor and the error positions and changes nothing else. |
| LEDecoder.DecodeEntriesAppend | LEDecoder.py:45-78 | Once a table decodes on its own, the walk over it plus more bytes continues from its end with the dictionary built so far. |
| LEDecoder.ShortWideEntryRaises | LEDecoder.py:63-65 | A 0x80 lead byte as the last byte after a decodable table raises, at its position. |
| LEDecoder.ShortLongEntryRaises | LEDecoder.py:49-51 | A 0xC0 lead byte with 1 to 3 bytes left after a decodable table raises, at its position. |
| LEDecoder.LongEntryTakesFour | LEDecoder.py:49-61 | A 4-byte entry counts key 3 whatever its three trailing bytes hold, and the walk resumes 4 bytes after the lead byte. |
| LEDecoder.WideEntryAnyBytes | LEDecoder.py:63-70 | A 2-byte entry counts `(b & 0x3F) * 256 + b1` for any second byte, and the walk resumes 2 bytes after the lead byte. |
| LEDecoder.HeaderErrors | LEDecoder.py:20-34 | Reports a missing magic exactly when there is none. Fewer than 4 bytes after the first magic are "size truncated", and a declared size past the end is "indices truncated". |
| LEDecoder.DecodePof0 | LEDecoder.py:3-80 | A successful decode counts at most one key per byte after the 8-byte header. |
| LEDecoder.DecodedPof0 | LEDecoder.py:3-80 | A successful `decode_pof0` returns a dictionary with distinct keys, all below 0x4000, each with a count of at least 1. |
| LEDecoder.DecodeFrame | LEDecoder.py:20-37 | With the first magic at `s` and all declared bytes present, the result is the decoding of exactly the declared bytes after the size field. |
| LEDecoder.DecodeIsFold | LEDecoder.py:45-78 | Decoding into the dictionary is counting the keys of the entry walk, `d[k] = d.get(k, 0) + 1` in read order, with the same errors. |
| LEDecoder.FoldCounts | LEDecoder.py:45-78 | Counting keys keeps offsets distinct and adds exactly the new keys. Each key's count grows by its number of occurrences, and the total grows by the number of keys. |
| LEDecoder.DecodedDictionary | LEDecoder.py:45-80 | A decoded dictionary has distinct keys, all below 0x4000. Its key set is exactly the set of keys the walk meets, each key has a count of at least 1, each count is that key's number of occurrences, and the counts sum to the number of tagged entries. |
| LEDecoder.DecodeIgnoresTrailingBytes | LEDecoder.py:33-37 | Bytes appended after a decodable input do not change the result. |
| OffsetCounts.BumpGet | LEDecoder.py:61 | `d[k] = d.get(k, 0) + 1` raises k's count by one and leaves every other count alone. |
| OffsetCounts.BumpShape | LEDecoder.py:61 | Every existing offset keeps its place. At most one entry is added, at the end and for the bumped key. The key set gains exactly that key. |
| OffsetCounts.BumpFresh | LEDecoder.py:61 | A key not yet present is appended at the end with count 1. |
| OffsetCounts.BumpKeepsDict | LEDecoder.py:61 | The dictionary keeps distinct keys. |
| LERoundTrip.RoundTrip | LEEncoder.py:22-42 | For a dictionary with offsets in 0..0x3FFF and counts of at least 1, decoding the encoding gives back the same dictionary in the same order (round trip with LEDecoder.py:45-80). |
| LERoundTrip.LongFormDecodesAsThree | LEEncoder.py:29-33 | Any offset in 0x4000..0x3FFFFF emitted `c` times, for every count whose `4c` bytes fit the 32-bit size field, decodes as key 3 with count `c`, because LEDecoder.py:53-60 keeps only the tag. |
| LERoundTrip.EncodeThenDecode | LEEncoder.py:22-42 | For every accepted dictionary, decoding the encoding counts the read-back key of each emitted entry. |
| YChunk.FileNameShape | Decoder.py:15-27 | A name is accepted exactly when its fifth-last character is a dot and its last four, upper-cased, are YOBJ, YANM or POF0. |
| YChunk.SupportedFileName | Decoder.py:15-27 | An accepted name has at least five characters, room for the dot and the four-letter extension. |
| YChunk.FileNameIgnoresCase | Decoder.py:26 | The name check gives the same answer for a name and its upper-cased form. |
| YChunk.FileNameSuffix | Decoder.py:26 | Only the last five characters of the name decide the check. |
| YChunk.GetChunkType | Decoder.py:50-60 | The first four bytes are returned exactly when they are one of the three magics. A shorter file has no type. |
| YChunk.DecodeFrom | Decoder.py:70-107 | Every pointer is at least 8, 4-aligned and below 8 + 4·0x4000, with at most one pointer per two bytes. It stops at a terminator only if a 00-tagged byte lies ahead, and it reports a missing second byte only when the last byte is 0x80-tagged. |
| YChunk.ReadChunkData | Decoder.py:36-48 | A file of 0 to 3 bytes, or one with an unknown magic, is "invalid format". A file of 4 to 7 bytes with a known magic is a short RVA read. Otherwise the RVA is the signed word at 4. The seek fails exactly when `8 + RVA` is negative, and every pointer read is valid. |
| YChunk.PointersFromRva | Decoder.py:43-48 | Any file with a known magic and an RVA of -8 or more is read, including an RVA in -8..-1 that seeks back into the header. Its pointers and stop reason are those of the decode from `16 + RVA`. |
| YChunk.RvaPastEndReadsNothing | Decoder.py:43-77 | A file with a known magic whose RVA puts the decode start at or past its end is read with that RVA, no pointers, and a stop at end of input, because the first `read(1)` comes back empty. |
| YChunk.DecodeFromShift | Decoder.py:72-107 | Decoding looks only at the bytes from the file position onwards. |
| YChunk.LongTagsSkipped | Decoder.py:82-83 | A run of 0xC0-tagged bytes in front of a table changes nothing. |
| YChunkLayout.EntriesDecode | Decoder.py:72-103 | Whatever bytes follow a run of written entries, the decoder emits the written pointers first, in order, then what the rest decodes to, with the rest's stop reason. |
| YChunkLayout.UnterminatedDecodes | Decoder.py:74-77 | Entries with no terminator still yield every pointer, and the loop ends because the file runs out. |
| YChunkLayout.AnyUntaggedStops | Decoder.py:101-103 | Any byte 0x00 to 0x3F after the entries ends the loop with exactly the pointers before it, whatever follows. |
| YChunkLayout.ByteFormAnyFiller | Decoder.py:95-99 | The byte after a 1-byte entry is skipped whatever it holds. The pointer is `Low6 * 4 + 8` of the tagged byte alone. |
| YChunkLayout.WideFormAnyBytes | Decoder.py:85-93 | A 2-byte entry yields `((b & 0x3F) * 256 + b2) * 4 + 8` for any pair of bytes, and decoding resumes right after its second byte. |
| YChunkLayout.ByteFormAtEnd | Decoder.py:72-99 | A 1-byte entry that is the last byte of the file is still emitted. The skip after it runs past the end, and the loop then stops at end of input. |
| YChunkLayout.TrailingWideByteStops | Decoder.py:85-88 | A lone 0x80-tagged byte after the entries emits no pointer: the loop ends with exactly the pointers before it. |
| YChunkLayout.ContainerRoundTrip | Decoder.py:36-103 | A chunk holding any magic, blob and table header, followed by the entries of any valid pointers and a terminator, reads back the RVA and exactly those pointers, in order. |
| Chunk.GetChunkType | Import/chunk.py:5-15 | YOBJ maps to 2, YANM to 3 and POF0 to 1, and every other name maps to none. |
| Chunk.ReadEntry | Import/chunk.py:37-65 | One loop pass yields a representable offset and a width set by the lead byte's tag: 4 bytes for 0xC0, 2 for 0x80 and 1 for 0x40, inside the file. The `Length` charge is 4 for the 4-byte form and 2 otherwise. It fails with a short read exactly when the cursor is at the end of the file or a 4- or 2-byte form runs past it, and with an untagged entry exactly when the byte at the cursor is 00-tagged. |
| Chunk.UntaggedFails | Import/chunk.py:36-65 | A 00-tagged byte read while `Length` is positive fails the `assert Length == 0`, so the decode fails at that byte. |
| Chunk.LengthSpent | Import/chunk.py:36 | Once `Length` is 0 or below the loop ends with no further entries, whatever bytes follow. |
| Chunk.OddLengthOvershoots | Import/chunk.py:57-63 | A 1-byte entry read at `Length == 1` is emitted and drives `Length` to -1, ending the loop normally. |
| Chunk.LongEntryOvershoots | Import/chunk.py:38-45 | A 4-byte entry read at `Length == 2` is emitted and drives `Length` to -2, ending the loop normally. |
| Chunk.WideEntryAtLengthTwo | Import/chunk.py:47-55 | A 2-byte entry read at `Length == 2` yields the low 14 bits of its little-endian word times 4, whatever the top two bits of the second byte hold, and ends the loop. |
| Chunk.DecodeEntries | Import/chunk.py:30-66 | Every decoded offset is 4-aligned, has a whole word inside the blob, and fits one of the three forms. There are at most `(Length+1)/2` entries. A 00-tagged byte fails only while `Length` is positive. |
| Chunk.ReadChunkData | Import/chunk.py:17-28 | A file under 8 bytes fails at the first read. On success the blob is bytes `[8, 8 + pointer)`, the tag after it is ASCII, and every entry addresses a word inside the blob. |
| Chunk.EntriesFromHeader | Import/chunk.py:17-28 | For any file holding its header, blob and ASCII tag, `Length` is the little-endian word at `pointer + 12`. The entries are decoded from `pointer + 16` against the blob `[8, 8 + pointer)`, and the decode's error, if any, is the read's error. |
| Chunk.HeaderErrors | Import/chunk.py:23-25 | After the `pointer` read, the header fails in read order: a tag read past the end is a short read at `pointer + 8`, a tag that is not ASCII fails to decode, and a `Length` read past the end is a short read at `pointer + 12`. |
| Chunk.ReadErrorFails | Import/chunk.py:36-65 | While `Length` is positive, a loop pass whose read is short or untagged fails the whole decode with that error; a table cut short is never returned as complete. |
| ChunkLayout.EntryReads | Import/chunk.py:37-63 | The entry written for any representable offset reads back as that offset, with its own width and `Length` charge. |
| ChunkLayout.OutsideBlobFails | Import/chunk.py:37-63 | While `Length` is positive, an entry whose offset leaves no whole 4-byte word inside the blob fails the decode, because the word read there comes back short. |
| ChunkLayout.ContainerRoundTrip | Import/chunk.py:17-66 | A chunk written from any blob, an ASCII tag and any list of representable offsets inside the blob reads back that blob and that list. With `Chunk.DecodeEntries`, this makes the representable offsets exactly what can be carried. |
| DeltaEncoder.FindPointerOffsets | Encoder.py:12-25 | Returns exactly the positions `i` in `range(8, size - 4, 4)` whose little-endian word lies in `[8, size)`, in strictly increasing order. |
| DeltaEncoder.SortedSetIdentity | Encoder.py:25 | Two increasing lists with the same elements are equal, so `sorted(set(...))` returns the scanned list itself. |
| DeltaEncoder.RelativeOffsets | Encoder.py:28-30 | Every offset less 8, with the same length and order. Increasing input stays increasing. |
| DeltaEncoder.Deltas | Encoder.py:34-37 | The first stored value is the first relative offset less the previous one, and each later value is the difference from the offset before it. PrefixSums undoes it. |
| DeltaEncoder.EncodeDeltas | Encoder.py:35-48 | Each delta takes 1 to 4 bytes. |
| DeltaEncoder.EncodeDeltasAppend | Encoder.py:35-48 | Entries are written in order: the bytes for two delta lists in sequence are the bytes of the first followed by those of the second. |
| DeltaEncoder.EncodeOffsets | Encoder.py:32-48 | Each offset takes 1 to 4 bytes of output. |
| DeltaEncoder.EncodeOffsetsReadBack | Encoder.py:32-48 | Ascending relative offsets in `[0, 2^30)` are read back from the output as their deltas, and summing those from 0 gives the offsets again. |
| DeltaEncoder.PrefixSumsOfDeltas | Encoder.py:34-37 | Running sums of the stored deltas, starting from 0, recover the relative offsets. |
| DeltaEncoder.DeltasOfPrefixSums | Encoder.py:34-37 | Taking differences of running sums gives back the deltas. |
| DeltaEncoder.DeltasBounded | Encoder.py:34-37 | Increasing offsets at or above the start and below a bound give deltas that are at least 0 and below the bound less the start. |
| DeltaEncoder.EncodeDelta | Encoder.py:39-48 | A delta below 0x40 takes one byte, below 0x4000 two, and otherwise four, tagged 0x40, 0x80 and 0xC0. |
| DeltaEncoder.EncodeDeltaReadBack | Encoder.py:39-48 | Every delta in `[0, 2^30)` reads back unchanged from its entry. |
| DeltaEncoder.LongDeltaTruncated | Encoder.py:44-48 | A delta of 0x4000 or more reads back as its low 30 bits; no range error is raised. |
| DeltaEncoder.NegativeDeltaWraps | Encoder.py:39-40 | A negative delta takes the 1-byte form and reads back as its low six bits. |
| DeltaEncoder.EncodeDeltasReadBack | Encoder.py:32-48 | Any list of deltas in `[0, 2^30)` reads back unchanged from the concatenated entries. |
| DeltaEncoder.ScanRoundTrip | Encoder.py:20-48 | For a file of at most 2^30 bytes, the scanned positions less 8 are recovered by reading the entries back and summing the deltas. |
| DeltaEncoder.LastWordNeverScanned | Encoder.py:20 | No position in the last four bytes of a file is ever reported as a pointer slot, whatever those bytes hold. |
| DeltaEncoder.WritePof0 | Encoder.py:50-56 | The section is "POF0", a little-endian size equal to its own length less 4 (entries plus 8), a zero word and the entries, with no terminator. It fails only when that size does not fit 32 bits. |
| SectionCompat.LEDecoderRejectsSection | Encoder.py:53-56 | LEDecoder.py rejects every section Encoder.py writes, because the declared size runs 4 bytes past the end (LEDecoder.py:33-34). |
| SectionCompat.YChunkReadsNothing | Encoder.py:53-56 | For a size field `len(encoded_data) + 8` under 2^31, that is a section under 2^31 + 4 bytes, Decoder.py takes the size field as the RVA and starts decoding past the end, so it reads no pointers (Decoder.py:43-48). |
| SectionCompat.YChunkLargeSectionFails | Encoder.py:53-56 | For a size field `len(encoded_data) + 8` of 2^31 or more, that is a section of 2^31 + 4 bytes or more, up to the last 8 field values, the size field reads as a negative RVA and the seek before the start fails (Decoder.py:44-47). |
| SectionCompat.YChunkHugeSectionStops | Encoder.py:53-56 | For size field values 2^32-8 to 2^32-5, the RVA is -8 to -5. Decoding starts inside the zero reserved word and stops at once with no pointers (Decoder.py:46-48). |

## Left out

- The GUIs in Main_Window.py and main_window.py are not part of this model. They are tkinter windows, dialogs and hex views.
- All file handling is left out: opening files, `mmap`, `BytesIO`, the file writes of `save_pof0_file` and `write_pof0`, `get_file_from_user`, the `__main__` blocks, and `print` and `input`. The model works on the bytes already in memory and returns the bytes that would be written.
- `YCHUNK.__init__`'s `FileNotFoundError` and `IOError` depend on the file system and are left out. Only its name check is modelled.
- `YCHUNK.PTRs` accumulates across calls on one object. The model returns each call's pointers separately.
- `YCHUNK.print_results` is output only.
- YChunk.Upper: only ASCII letters are upper-cased. Python's `str.upper` also maps other letters, which can change a name's length.
- Chunk.GetChunkType: the default argument `'YOBJ'` is not modelled; callers pass the name.
- Chunk.DecodeEntries: the words read from the blob at each entry (`ptr`) are unused by the source, so only the requirement that the read succeeds is modelled.
- Chunk.DecodeEntries: `assert` statements are taken to be enabled. Under `python -O` the `else` branch is empty: the 00-tagged byte has already been read, so it is skipped with `Length` unchanged and the loop goes on with the next byte. That behaviour is not modelled.
- Chunk.DecodePOF0's `endian` parameter is only ever `'<'`, so only little-endian is modelled.
- DeltaEncoder.FindPointerOffsets: starts from an empty list. The source appends to `self.offsets`, which is empty on a fresh encoder.
- DeltaEncoder.EncodeOffsets: starts from empty output. `self.encoded_data` accumulates across calls, and only a single call on a fresh encoder is modelled.
- DeltaEncoder.ScanRoundTrip: is stated for files up to 2^30 bytes. Above that, a delta can exceed 30 bits, and LongDeltaTruncated gives what it reads back as.
