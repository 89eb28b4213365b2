/** The `YCHUNK` reader of Decoder.py over the bytes of a file already in
    memory: check the file name and the chunk magic, read a signed RVA at
    offset 4, skip to `8 + RVA + 8`, and decode absolute pointers
    `(field << 2) + 8` until a 00-tagged byte or the end of the input.

    Its entry forms differ from LEDecoder.py: the 1-byte form consumes two
    bytes (the `seek(1, 1)` after it), a 0xC0-tagged byte is consumed alone
    and emits nothing, and a 00-tagged byte ends the table. */
module YChunk {
  import opened Bytes

  /** `str.upper` on one character, for the ASCII letters. */
  function UpperChar(c: char): char {
    if 'a' <= c <= 'z' then (c as int - 32) as char else c
  }

  function Upper(s: string): (r: string)
    ensures |r| == |s|
    ensures forall i :: 0 <= i < |s| ==> r[i] == UpperChar(s[i])
  {
    if s == [] then [] else [UpperChar(s[0])] + Upper(s[1..])
  }

  predicate EndsWith(s: string, suffix: string) {
    |suffix| <= |s| && s[|s| - |suffix|..] == suffix
  }

  /** The check in `YCHUNK.__init__`: the upper-cased name ends in one of
      ".YOBJ", ".YANM" or ".POF0". */
  predicate SupportedFileName(name: string): (r: bool)
    ensures r ==> |name| >= 5
  {
    var u := Upper(name);
    EndsWith(u, ".YOBJ") || EndsWith(u, ".YANM") || EndsWith(u, ".POF0")
  }

  lemma UpperSuffix(s: string, k: nat)
    requires k <= |s|
    ensures Upper(s)[k..] == Upper(s[k..])
  {
  }

  lemma EndsWithDot(u: string, m: string)
    requires |m| == 4 && |u| >= 5
    ensures EndsWith(u, ['.'] + m) <==> u[|u| - 5] == '.' && u[|u| - 4..] == m
  {
    assert u[|u| - 5..] == [u[|u| - 5]] + u[|u| - 4..];
  }

  /** A name passes exactly when its fifth-last character is a dot and its
      last four, upper-cased, spell one of the three magics. */
  lemma FileNameShape(name: string)
    ensures SupportedFileName(name) <==>
              |name| >= 5 && name[|name| - 5] == '.'
              && (var tail := Upper(name[|name| - 4..]); tail == "YOBJ" || tail == "YANM" || tail == "POF0")
  {
    if |name| >= 5 {
      var u := Upper(name);
      var n := |name|;
      UpperSuffix(name, n - 4);
      assert u[n - 5] == '.' <==> name[n - 5] == '.';
      assert ".YOBJ" == ['.'] + "YOBJ";
      assert ".YANM" == ['.'] + "YANM";
      assert ".POF0" == ['.'] + "POF0";
      EndsWithDot(u, "YOBJ");
      EndsWithDot(u, "YANM");
      EndsWithDot(u, "POF0");
    }
  }

  /** The three magics a chunk may start with. */
  predicate IsChunkMagic(m: seq<byte>) {
    m == YOBJ || m == YANM || m == POF0
  }

  /** `GetChunkType`: the first four bytes when they are a known magic;
      a file shorter than four bytes has none. */
  function GetChunkType(data: seq<byte>): (r: Option<seq<byte>>)
    ensures r.Some? ==> IsChunkMagic(r.value) && |data| >= 4 && r.value == data[..4]
    ensures r.None? ==> |data| < 4 || !IsChunkMagic(data[..4])
  {
    if |data| >= 4 && IsChunkMagic(data[..4]) then Some(data[..4]) else None
  }

  /** Why the decode loop stopped. */
  datatype Stop =
    | EndOfInput         // `read(1)` returned nothing
    | Terminator         // a 00-tagged byte
    | MissingSecondByte  // a 0x80-tagged byte was the last byte

  datatype Scan = Scan(ptrs: seq<int>, stop: Stop)

  function Cons(ptr: int, s: Scan): Scan {
    Scan([ptr] + s.ptrs, s.stop)
  }

  /** A pointer the decoder can emit: at least 8, 4-aligned relative to 8,
      and below 8 + 4 * 0x4000. */
  predicate IsPointer(ptr: int) {
    8 <= ptr < 8 + 4 * 0x4000 && ptr % 4 == 0
  }

  /** The loop of `DecodePOF0` with the file position at `p`, which may lie
      past the end after a 1-byte form skips its second byte. */
  function DecodeFrom(data: seq<byte>, p: nat): (r: Scan)
    decreases |data| - p
    ensures forall ptr :: ptr in r.ptrs ==> IsPointer(ptr)
    ensures p <= |data| ==> 2 * |r.ptrs| <= |data| - p + 1
    ensures r.stop == Terminator ==> exists q :: p <= q < |data| && TagBits(data[q]) == 0x00
    ensures r.stop == MissingSecondByte ==> p < |data| && TagBits(data[|data| - 1]) == 0x80
  {
    if p >= |data| then Scan([], EndOfInput)
    else
      var flag := data[p];
      var tag := TagBits(flag);
      if tag == 0xC0 then
        DecodeFrom(data, p + 1)
      else if tag == 0x80 then
        if p + 1 >= |data| then Scan([], MissingSecondByte)
        else Cons(Field14(flag, data[p + 1]) * 4 + 8, DecodeFrom(data, p + 2))
      else if tag == 0x40 then
        Cons(Low6(flag) * 4 + 8, DecodeFrom(data, p + 2))
      else
        Scan([], Terminator)
  }

  datatype ReadError =
    | InvalidFormat        // the first four bytes are not a chunk magic
    | RvaTruncated         // fewer than 8 bytes: `struct.unpack("<i", …)` fails
    | NegativeSeek(rva: int)  // `seek(RVA, 1)` from 8 lands before the start

  datatype Chunk = Chunk(magic: seq<byte>, rva: int, ptrs: seq<int>, stop: Stop)

  /** `ReadChunkData`: validate the magic, read the signed RVA at 4, and
      decode from `8 + RVA + 8`. */
  function ReadChunkData(data: seq<byte>): (r: Result<Chunk, ReadError>)
    ensures r == Err(InvalidFormat) <==> |data| < 4 || !IsChunkMagic(data[..4])
    ensures r == Err(RvaTruncated) <==> 4 <= |data| < 8 && IsChunkMagic(data[..4])
    ensures r.Ok? ==> |data| >= 8 && r.value.magic == data[..4] && r.value.rva == Int32(LE32(data, 4))
    ensures r.Ok? ==> 8 + r.value.rva >= 0 && forall ptr :: ptr in r.value.ptrs ==> IsPointer(ptr)
    ensures (r.Err? && r.error.NegativeSeek?) <==>
              |data| >= 8 && IsChunkMagic(data[..4]) && 8 + Int32(LE32(data, 4)) < 0
  {
    match GetChunkType(data)
    case None => Err(InvalidFormat)
    case Some(magic) =>
      if |data| < 8 then Err(RvaTruncated)
      else
        var rva := Int32(LE32(data, 4));
        if 8 + rva < 0 then Err(NegativeSeek(rva))
        else
          var scan := DecodeFrom(data, 8 + rva + 8);
          Ok(Chunk(magic, rva, scan.ptrs, scan.stop))
  }

  /** Any file with a known magic and an RVA of -8 or more is read: the
      pointers are those found from `16 + RVA` on, which for an RVA in
      -8..-1 lies inside the 16-byte header. */
  lemma PointersFromRva(data: seq<byte>)
    requires |data| >= 8 && IsChunkMagic(data[..4])
    requires 8 + Int32(LE32(data, 4)) >= 0
    ensures ReadChunkData(data).Ok?
    ensures ReadChunkData(data).value.ptrs == DecodeFrom(data, 16 + Int32(LE32(data, 4))).ptrs
    ensures ReadChunkData(data).value.stop == DecodeFrom(data, 16 + Int32(LE32(data, 4))).stop
  {
  }

  /** An RVA that puts the decode start at or past the end of the file
      reads nothing: the first `read(1)` comes back empty. */
  lemma RvaPastEndReadsNothing(data: seq<byte>)
    requires |data| >= 8 && IsChunkMagic(data[..4]) && 16 + Int32(LE32(data, 4)) >= |data|
    ensures ReadChunkData(data) == Ok(Chunk(data[..4], Int32(LE32(data, 4)), [], EndOfInput))
  {
  }

  /** Decoding only looks at the bytes from the position on: a prefix
      shifts the position and changes nothing else. */
  lemma {:induction false} DecodeFromShift(pre: seq<byte>, data: seq<byte>, p: nat)
    decreases |data| - p
    ensures DecodeFrom(pre + data, |pre| + p) == DecodeFrom(data, p)
  {
    if p < |data| {
      var whole := pre + data;
      assert whole[|pre| + p] == data[p];
      if p + 1 < |data| {
        assert whole[|pre| + p + 1] == data[p + 1];
      }
      DecodeFromShift(pre, data, p + 1);
      DecodeFromShift(pre, data, p + 2);
    }
  }

  /** A run of 0xC0-tagged bytes in front of the table is stepped over one
      byte at a time and changes nothing. */
  lemma {:induction false} LongTagsSkipped(pre: seq<byte>, data: seq<byte>)
    requires forall i :: 0 <= i < |pre| ==> TagBits(pre[i]) == 0xC0
    ensures DecodeFrom(pre + data, 0) == DecodeFrom(data, 0)
  {
    if pre != [] {
      var whole := pre + data;
      assert whole[0] == pre[0];
      assert DecodeFrom(whole, 0) == DecodeFrom(whole, 1);
      assert whole == [pre[0]] + (pre[1..] + data);
      DecodeFromShift([pre[0]], pre[1..] + data, 0);
      LongTagsSkipped(pre[1..], data);
    } else {
      assert pre + data == data;
    }
  }

  /** The name check ignores case. */
  lemma FileNameIgnoresCase(name: string)
    ensures SupportedFileName(Upper(name)) == SupportedFileName(name)
  {
    assert Upper(Upper(name)) == Upper(name);
  }

  /** Only the last five characters of the name matter. */
  lemma FileNameSuffix(dir: string, name: string)
    requires |name| >= 5
    ensures SupportedFileName(dir + name) == SupportedFileName(name)
  {
    var whole := dir + name;
    FileNameShape(whole);
    FileNameShape(name);
    assert whole[|whole| - 4..] == name[|name| - 4..];
    assert whole[|whole| - 5] == name[|name| - 5];
  }
}
