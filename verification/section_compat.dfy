/** How the two readers of "POF0" sections treat what Encoder.py writes.
    The section's size field counts its 4-byte reserved word and the 4
    bytes of the field itself, so it reaches 4 bytes past the end. */
module SectionCompat {
  import opened Bytes
  import DeltaEncoder
  import LEDecoder
  import YChunk

  /** LEDecoder.py rejects every section Encoder.py writes: the declared
      size runs past the end of the input. */
  lemma LEDecoderRejectsSection(enc: seq<byte>)
    requires DeltaEncoder.WritePof0(enc).Ok?
    ensures LEDecoder.DecodePof0(DeltaEncoder.WritePof0(enc).value) == Err(LEDecoder.IndicesTruncated)
  {
    var data := DeltaEncoder.WritePof0(enc).value;
    assert data[0..4] == POF0;
    assert LEDecoder.FindMagic(data, 0) == Some(0);
  }

  /** Decoder.py, reading the section as a chunk with magic "POF0", takes
      the size field `|enc| + 8` as its RVA; while that field is under 2^31
      (a section under 2^31 + 4 bytes) decoding starts past the end, so it
      finds no pointers at all. */
  lemma YChunkReadsNothing(enc: seq<byte>)
    requires DeltaEncoder.WritePof0(enc).Ok?
    requires |enc| + 8 < 0x8000_0000
    ensures YChunk.ReadChunkData(DeltaEncoder.WritePof0(enc).value)
         == Ok(YChunk.Chunk(POF0, |enc| + 8, [], YChunk.EndOfInput))
  {
    var data := DeltaEncoder.WritePof0(enc).value;
    assert data[..4] == POF0;
  }

  /** A size field `|enc| + 8` of 2^31 or more (a section of 2^31 + 4
      bytes or more) reads as a negative RVA; below the last 8 field values,
      the seek from 8 lands before the start of the file and fails. */
  lemma YChunkLargeSectionFails(enc: seq<byte>)
    requires 0x8000_0000 <= |enc| + 8 < 0x1_0000_0000 - 8
    ensures DeltaEncoder.WritePof0(enc).Ok?
    ensures YChunk.ReadChunkData(DeltaEncoder.WritePof0(enc).value)
         == Err(YChunk.NegativeSeek(|enc| + 8 - 0x1_0000_0000))
  {
    var data := DeltaEncoder.WritePof0(enc).value;
    assert data[..4] == POF0;
  }

  /** For the size field values 2^32 - 8 .. 2^32 - 5 the RVA is -8 .. -5: decoding
      starts inside the zero word at 8 and stops there at once. */
  lemma YChunkHugeSectionStops(enc: seq<byte>)
    requires 0x1_0000_0000 - 8 <= |enc| + 8 < 0x1_0000_0000 - 4
    ensures DeltaEncoder.WritePof0(enc).Ok?
    ensures YChunk.ReadChunkData(DeltaEncoder.WritePof0(enc).value)
         == Ok(YChunk.Chunk(POF0, |enc| + 8 - 0x1_0000_0000, [], YChunk.Terminator))
  {
    var data := DeltaEncoder.WritePof0(enc).value;
    assert data[..4] == POF0;
    var start := 16 + (|enc| + 8 - 0x1_0000_0000);
    assert data[start] == data[8..12][start - 8] == 0;
  }
}
