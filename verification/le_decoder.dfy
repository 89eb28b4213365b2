/** `decode_pof0` of LEDecoder.py: find the first "POF0", read a
    little-endian 32-bit size after it, and walk exactly that many bytes of
    tagged entries, counting how often each decoded key occurs. */
module LEDecoder {
  import opened Bytes
  import opened OffsetCounts

  datatype DecodeError =
    | MagicNotFound             // no "POF0" anywhere in the input
    | SizeTruncated             // fewer than 4 bytes follow the magic
    | IndicesTruncated          // the declared size runs past the end
    | ShortLongEntry(at: nat)   // a 0xC0 lead byte with fewer than 4 bytes left
    | ShortWideEntry(at: nat)   // a 0x80 lead byte that is the last byte

  /** A "POF0" starts at `i`. */
  predicate MagicAt(data: seq<byte>, i: int) {
    0 <= i && i + 4 <= |data| && data[i..i + 4] == POF0
  }

  /** `data.find(b'POF0', from)`, with `None` for -1. */
  function FindMagic(data: seq<byte>, from: nat): (r: Option<nat>)
    requires from <= |data|
    decreases |data| - from
    ensures r.Some? ==> from <= r.value && MagicAt(data, r.value)
    ensures r.Some? ==> forall j :: from <= j < r.value ==> !MagicAt(data, j)
    ensures r.None? ==> forall j :: from <= j ==> !MagicAt(data, j)
  {
    if from + 4 > |data| then None
    else if data[from..from + 4] == POF0 then Some(from)
    else FindMagic(data, from + 1)
  }

  /** Bitwise OR of the low `n` bits of `x` and `y`. */
  function OrBits(x: nat, y: nat, n: nat): (r: nat)
    ensures r < Pow2(n)
  {
    if n == 0 then 0
    else (if x % 2 == 1 || y % 2 == 1 then 1 else 0) + 2 * OrBits(x / 2, y / 2, n - 1)
  }

  function Pow2(n: nat): (r: nat)
    ensures r >= 1
  {
    if n == 0 then 1 else 2 * Pow2(n - 1)
  }

  /** Key of a 0xC0 entry: `((b << 16) | (b1 << 8) | b2 | b3) >> 22`.  Only
      `b2` and `b3` overlap, so the OR is `b<<16` plus `b1<<8` plus `b2|b3`. */
  function LongKey(b: byte, b1: byte, b2: byte, b3: byte): (r: int)
    ensures r == b / 0x40
    ensures TagBits(b) == 0xC0 ==> r == 3
  {
    var low := OrBits(b2, b3, 8);
    assert Pow2(8) == 0x100;
    assert 0 <= b1 as int * 0x100 + low < 0x1_0000;
    (b as int * 0x1_0000 + b1 as int * 0x100 + low) / 0x40_0000
  }

  /** The loop of `decode_pof0` from cursor `i`, with `acc` the dictionary
      built so far.  A 00-tagged byte is stepped over, not a terminator. */
  function DecodeEntries(ix: seq<byte>, i: nat, acc: Counts): (r: Result<Counts, DecodeError>)
    requires i <= |ix|
    decreases |ix| - i
    ensures r.Ok? ==> Total(acc) <= Total(r.value) <= Total(acc) + (|ix| - i)
    ensures r.Err? && r.error.ShortLongEntry? ==>
              i <= r.error.at < |ix| < r.error.at + 4 && TagBits(ix[r.error.at]) == 0xC0
    ensures r.Err? && r.error.ShortWideEntry? ==>
              i <= r.error.at == |ix| - 1 && TagBits(ix[r.error.at]) == 0x80
    ensures r.Err? ==> r.error.ShortLongEntry? || r.error.ShortWideEntry?
  {
    if i == |ix| then Ok(acc)
    else
      var b := ix[i];
      var tag := TagBits(b);
      if tag == 0xC0 then
        if i + 4 > |ix| then Err(ShortLongEntry(i))
        else DecodeEntries(ix, i + 4, Bump(acc, LongKey(b, ix[i + 1], ix[i + 2], ix[i + 3])))
      else if tag == 0x80 then
        if i + 2 > |ix| then Err(ShortWideEntry(i))
        else DecodeEntries(ix, i + 2, Bump(acc, Field14(b, ix[i + 1])))
      else if tag == 0x40 then
        DecodeEntries(ix, i + 1, Bump(acc, Low6(b)))
      else
        DecodeEntries(ix, i + 1, acc)
  }

  /** The first "POF0" of the input starts at `s`. */
  predicate FirstMagic(data: seq<byte>, s: int) {
    MagicAt(data, s) && forall j :: 0 <= j < s ==> !MagicAt(data, j)
  }

  /** The search from 0 finds the first magic, wherever it is. */
  lemma FindMagicFirst(data: seq<byte>)
    ensures forall s :: FirstMagic(data, s) ==> FindMagic(data, 0) == Some(s)
  {
    forall s | FirstMagic(data, s)
      ensures FindMagic(data, 0) == Some(s)
    {
      var v := FindMagic(data, 0).value;
      assert !(v < s) && !(s < v);
    }
  }

  /** `decode_pof0`. */
  function DecodePof0(data: seq<byte>): (r: Result<Counts, DecodeError>)
    ensures r.Ok? ==> 0 <= Total(r.value) <= |data| - 8
  {
    match FindMagic(data, 0)
    case None => Err(MagicNotFound)
    case Some(start) =>
      var headerOffset := start + |POF0|;
      if |data| < headerOffset + 4 then Err(SizeTruncated)
      else
        var size := LE32(data, headerOffset);
        var indicesStart := headerOffset + 4;
        if |data| < indicesStart + size then Err(IndicesTruncated)
        else DecodeEntries(data[indicesStart..indicesStart + size], 0, [])
  }

  /** The three header errors of `decode_pof0`, each exactly when it is
      raised: no magic anywhere; fewer than 4 bytes after the first magic;
      fewer bytes after the size than it declares. */
  lemma HeaderErrors(data: seq<byte>)
    ensures DecodePof0(data) == Err(MagicNotFound) <==> forall j :: !MagicAt(data, j)
    ensures DecodePof0(data) == Err(SizeTruncated) <==> exists s :: FirstMagic(data, s) && |data| < s + 8
    ensures DecodePof0(data) == Err(IndicesTruncated) <==>
              exists s :: FirstMagic(data, s) && s + 8 <= |data| < s + 8 + LE32(data, s + 4)
  {
    FindMagicFirst(data);
    if FindMagic(data, 0).Some? {
      assert FirstMagic(data, FindMagic(data, 0).value);
    }
  }

  /** With its first magic at `s` and the declared table present, the input
      decodes as the table alone. */
  lemma DecodeFrame(data: seq<byte>, s: nat)
    requires FirstMagic(data, s) && s + 8 <= |data| && s + 8 + LE32(data, s + 4) <= |data|
    ensures DecodePof0(data) == DecodeEntries(data[s + 8..s + 8 + LE32(data, s + 4)], 0, [])
  {
    FindMagicFirst(data);
  }

  /** The keys the loop decodes, in read order: the same walk as
      `DecodeEntries`, collecting keys in a list instead of counting them. */
  function EntryKeys(ix: seq<byte>, i: nat): (r: Result<seq<int>, DecodeError>)
    requires i <= |ix|
    decreases |ix| - i
    ensures r.Ok? ==> |r.value| <= |ix| - i
    ensures r.Ok? ==> forall k :: k in r.value ==> 0 <= k < 0x4000
  {
    if i == |ix| then Ok([])
    else
      var b := ix[i];
      var tag := TagBits(b);
      if tag == 0xC0 then
        if i + 4 > |ix| then Err(ShortLongEntry(i))
        else Prepend(LongKey(b, ix[i + 1], ix[i + 2], ix[i + 3]), EntryKeys(ix, i + 4))
      else if tag == 0x80 then
        if i + 2 > |ix| then Err(ShortWideEntry(i))
        else Prepend(Field14(b, ix[i + 1]), EntryKeys(ix, i + 2))
      else if tag == 0x40 then
        Prepend(Low6(b), EntryKeys(ix, i + 1))
      else
        EntryKeys(ix, i + 1)
  }

  function Prepend(k: int, r: Result<seq<int>, DecodeError>): Result<seq<int>, DecodeError> {
    match r
    case Ok(ks) => Ok([k] + ks)
    case Err(e) => Err(e)
  }

  /** `acc` after `d[k] = d.get(k, 0) + 1` for each key of `ks` in turn. */
  function Fold(acc: Counts, ks: seq<int>): Counts
    decreases |ks|
  {
    if ks == [] then acc else Fold(Bump(acc, ks[0]), ks[1..])
  }

  /** Decoding into a dictionary is counting the keys of the entry walk:
      same errors, and on success the fold of the keys. */
  lemma {:induction false} DecodeIsFold(ix: seq<byte>, i: nat, acc: Counts)
    requires i <= |ix|
    decreases |ix| - i
    ensures EntryKeys(ix, i).Err? ==> DecodeEntries(ix, i, acc) == Err(EntryKeys(ix, i).error)
    ensures EntryKeys(ix, i).Ok? ==> DecodeEntries(ix, i, acc) == Ok(Fold(acc, EntryKeys(ix, i).value))
  {
    if i < |ix| {
      var b := ix[i];
      var tag := TagBits(b);
      if tag == 0xC0 && i + 4 <= |ix| {
        var k := LongKey(b, ix[i + 1], ix[i + 2], ix[i + 3]);
        DecodeIsFold(ix, i + 4, Bump(acc, k));
        if EntryKeys(ix, i + 4).Ok? {
          FoldCons(acc, k, EntryKeys(ix, i + 4));
        }
      } else if tag == 0x80 && i + 2 <= |ix| {
        var k := Field14(b, ix[i + 1]);
        DecodeIsFold(ix, i + 2, Bump(acc, k));
        if EntryKeys(ix, i + 2).Ok? {
          FoldCons(acc, k, EntryKeys(ix, i + 2));
        }
      } else if tag == 0x40 {
        DecodeIsFold(ix, i + 1, Bump(acc, Low6(b)));
        if EntryKeys(ix, i + 1).Ok? {
          FoldCons(acc, Low6(b), EntryKeys(ix, i + 1));
        }
      } else if tag == 0x00 {
        DecodeIsFold(ix, i + 1, acc);
      }
    }
  }

  lemma FoldCons(acc: Counts, k: int, r: Result<seq<int>, DecodeError>)
    requires r.Ok?
    ensures Fold(acc, Prepend(k, r).value) == Fold(Bump(acc, k), r.value)
  {
    assert ([k] + r.value)[1..] == r.value;
  }

  /** Folding keys keeps the offsets distinct and adds exactly the keys met. */
  lemma {:induction false} FoldKeys(acc: Counts, ks: seq<int>)
    requires IsDict(acc)
    decreases |ks|
    ensures IsDict(Fold(acc, ks))
    ensures Keys(Fold(acc, ks)) == Keys(acc) + set k | k in ks
  {
    if ks != [] {
      BumpKeepsDict(acc, ks[0]);
      BumpShape(acc, ks[0]);
      FoldKeys(Bump(acc, ks[0]), ks[1..]);
      assert (set k | k in ks) == {ks[0]} + set k | k in ks[1..];
    }
  }

  /** Folding keys raises the total by the number of keys. */
  lemma {:induction false} FoldTotal(acc: Counts, ks: seq<int>)
    decreases |ks|
    ensures Total(Fold(acc, ks)) == Total(acc) + |ks|
  {
    if ks != [] {
      FoldTotal(Bump(acc, ks[0]), ks[1..]);
    }
  }

  /** Folding keys raises each key's count by its number of occurrences. */
  lemma {:induction false} FoldGet(acc: Counts, ks: seq<int>, k: int)
    decreases |ks|
    ensures Get(Fold(acc, ks), k) == Get(acc, k) + multiset(ks)[k]
  {
    if ks != [] {
      FoldGet(Bump(acc, ks[0]), ks[1..], k);
      BumpGet(acc, ks[0], k);
      assert ks == [ks[0]] + ks[1..];
      assert multiset(ks)[k] == multiset([ks[0]])[k] + multiset(ks[1..])[k];
    }
  }

  /** Folding keys into a dictionary: the result is still a dictionary,
      each key's count grows by its number of occurrences, and the counts
      grow in total by the number of keys. */
  lemma FoldCounts(acc: Counts, ks: seq<int>)
    requires IsDict(acc)
    ensures IsDict(Fold(acc, ks))
    ensures Keys(Fold(acc, ks)) == Keys(acc) + set k | k in ks
    ensures Total(Fold(acc, ks)) == Total(acc) + |ks|
    ensures forall k :: Get(Fold(acc, ks), k) == Get(acc, k) + multiset(ks)[k]
  {
    FoldKeys(acc, ks);
    FoldTotal(acc, ks);
    forall k
      ensures Get(Fold(acc, ks), k) == Get(acc, k) + multiset(ks)[k]
    {
      FoldGet(acc, ks, k);
    }
  }

  /** What a successful `decode_pof0` returns: a dictionary whose keys are
      all below 0x4000 and whose counts are each at least 1 and add up to
      the number of tagged entries in the table. */
  lemma DecodedDictionary(ix: seq<byte>)
    requires EntryKeys(ix, 0).Ok?
    ensures DecodeEntries(ix, 0, []).Ok?
    ensures IsDict(DecodeEntries(ix, 0, []).value)
    ensures Total(DecodeEntries(ix, 0, []).value) == |EntryKeys(ix, 0).value|
    ensures forall k :: k in Keys(DecodeEntries(ix, 0, []).value) ==> 0 <= k < 0x4000
    ensures forall k :: Get(DecodeEntries(ix, 0, []).value, k) == multiset(EntryKeys(ix, 0).value)[k]
    ensures Keys(DecodeEntries(ix, 0, []).value) == set k | k in EntryKeys(ix, 0).value
    ensures forall k :: k in Keys(DecodeEntries(ix, 0, []).value) ==> Get(DecodeEntries(ix, 0, []).value, k) >= 1
  {
    var ks := EntryKeys(ix, 0).value;
    DecodeIsFold(ix, 0, []);
    FoldCounts([], ks);
    assert Keys([]) == {};
    forall k | k in Keys(DecodeEntries(ix, 0, []).value)
      ensures Get(DecodeEntries(ix, 0, []).value, k) >= 1
    {
      assert k in ks;
      assert multiset(ks)[k] >= 1;
    }
  }

  lemma {:induction false} FindMagicExtend(data: seq<byte>, junk: seq<byte>, from: nat)
    requires from <= |data|
    requires FindMagic(data, from).Some?
    decreases |data| - from
    ensures FindMagic(data + junk, from) == FindMagic(data, from)
  {
    assert (data + junk)[from..from + 4] == data[from..from + 4];
    if data[from..from + 4] != POF0 {
      FindMagicExtend(data, junk, from + 1);
    }
  }

  /** Only the bytes up to the end of the declared table are examined:
      anything appended after a decodable input leaves the result as it was. */
  lemma DecodeIgnoresTrailingBytes(data: seq<byte>, junk: seq<byte>)
    requires DecodePof0(data).Ok?
    ensures DecodePof0(data + junk) == DecodePof0(data)
  {
    FindMagicExtend(data, junk, 0);
    var start := FindMagic(data, 0).value;
    assert FirstMagic(data, start);
    assert FirstMagic(data + junk, start);
    FrameExtend(data, junk, start);
    DecodeFrame(data, start);
    DecodeFrame(data + junk, start);
  }

  /** Bytes appended after a whole frame leave its size field and its
      table as they were. */
  lemma FrameExtend(data: seq<byte>, junk: seq<byte>, start: nat)
    requires start + 8 <= |data| && start + 8 + LE32(data, start + 4) <= |data|
    ensures LE32(data + junk, start + 4) == LE32(data, start + 4)
    ensures (data + junk)[start + 8..start + 8 + LE32(data, start + 4)]
         == data[start + 8..start + 8 + LE32(data, start + 4)]
  {
    var whole := data + junk;
    var w := data[start + 4..start + 8];
    assert whole[start + 4..start + 8] == w;
    LE32Slice(whole, start + 4, w);
    LE32Slice(data, start + 4, w);
  }

  /** `DecodeEntries` with every error position moved `n` bytes on. */
  function ShiftError(r: Result<Counts, DecodeError>, n: nat): Result<Counts, DecodeError> {
    match r
    case Ok(d) => Ok(d)
    case Err(ShortLongEntry(at)) => Err(ShortLongEntry(at + n))
    case Err(ShortWideEntry(at)) => Err(ShortWideEntry(at + n))
    case Err(e) => Err(e)
  }

  /** The entry walk only looks at the bytes from the cursor on: a prefix
      moves the cursor and the error positions, and changes nothing else. */
  lemma {:induction false} DecodeEntriesShift(pre: seq<byte>, ix: seq<byte>, i: nat, acc: Counts)
    requires i <= |ix|
    decreases |ix| - i
    ensures DecodeEntries(pre + ix, |pre| + i, acc) == ShiftError(DecodeEntries(ix, i, acc), |pre|)
  {
    if i < |ix| {
      var b := ix[i];
      var tag := TagBits(b);
      if tag == 0xC0 && i + 4 <= |ix| {
        DecodeEntriesShift(pre, ix, i + 4, Bump(acc, LongKey(b, ix[i + 1], ix[i + 2], ix[i + 3])));
        ShiftLong(pre, ix, i, acc);
      } else if tag == 0x80 && i + 2 <= |ix| {
        DecodeEntriesShift(pre, ix, i + 2, Bump(acc, Field14(b, ix[i + 1])));
        ShiftWide(pre, ix, i, acc);
      } else if tag == 0x40 || tag == 0x00 {
        var next := if tag == 0x40 then Bump(acc, Low6(b)) else acc;
        DecodeEntriesShift(pre, ix, i + 1, next);
        ShiftByte(pre, ix, i, acc, next);
      } else {
        assert (pre + ix)[|pre| + i] == b;
      }
    }
  }

  /** `DecodeEntriesShift` for a whole 4-byte entry. */
  lemma ShiftLong(pre: seq<byte>, ix: seq<byte>, i: nat, acc: Counts)
    requires i + 4 <= |ix| && TagBits(ix[i]) == 0xC0
    requires var next := Bump(acc, LongKey(ix[i], ix[i + 1], ix[i + 2], ix[i + 3]));
             DecodeEntries(pre + ix, |pre| + i + 4, next) == ShiftError(DecodeEntries(ix, i + 4, next), |pre|)
    ensures DecodeEntries(pre + ix, |pre| + i, acc) == ShiftError(DecodeEntries(ix, i, acc), |pre|)
  {
    var w := pre + ix;
    var q := |pre| + i;
    assert w[q] == ix[i] && w[q + 1] == ix[i + 1] && w[q + 2] == ix[i + 2] && w[q + 3] == ix[i + 3];
  }

  /** `DecodeEntriesShift` for a whole 2-byte entry. */
  lemma ShiftWide(pre: seq<byte>, ix: seq<byte>, i: nat, acc: Counts)
    requires i + 2 <= |ix| && TagBits(ix[i]) == 0x80
    requires var next := Bump(acc, Field14(ix[i], ix[i + 1]));
             DecodeEntries(pre + ix, |pre| + i + 2, next) == ShiftError(DecodeEntries(ix, i + 2, next), |pre|)
    ensures DecodeEntries(pre + ix, |pre| + i, acc) == ShiftError(DecodeEntries(ix, i, acc), |pre|)
  {
    var w := pre + ix;
    var q := |pre| + i;
    assert w[q] == ix[i] && w[q + 1] == ix[i + 1];
  }

  /** `DecodeEntriesShift` for a 1-byte entry or a skipped 00-tagged byte. */
  lemma ShiftByte(pre: seq<byte>, ix: seq<byte>, i: nat, acc: Counts, next: Counts)
    requires i < |ix| && (TagBits(ix[i]) == 0x40 || TagBits(ix[i]) == 0x00)
    requires next == if TagBits(ix[i]) == 0x40 then Bump(acc, Low6(ix[i])) else acc
    requires DecodeEntries(pre + ix, |pre| + i + 1, next) == ShiftError(DecodeEntries(ix, i + 1, next), |pre|)
    ensures DecodeEntries(pre + ix, |pre| + i, acc) == ShiftError(DecodeEntries(ix, i, acc), |pre|)
  {
    assert (pre + ix)[|pre| + i] == ix[i];
  }

  /** A 4-byte entry counts key 3 whatever its three trailing bytes hold,
      and the walk goes on 4 bytes after its lead byte. */
  lemma LongEntryTakesFour(b: byte, b1: byte, b2: byte, b3: byte, rest: seq<byte>, acc: Counts)
    requires TagBits(b) == 0xC0
    ensures DecodeEntries([b, b1, b2, b3] + rest, 0, acc) == ShiftError(DecodeEntries(rest, 0, Bump(acc, 3)), 4)
  {
    var w := [b, b1, b2, b3] + rest;
    assert w[0] == b && w[1] == b1 && w[2] == b2 && w[3] == b3;
    DecodeEntriesShift([b, b1, b2, b3], rest, 0, Bump(acc, 3));
  }

  /** A 2-byte entry counts its 14-bit big-endian field, whatever its second
      byte holds, and the walk goes on 2 bytes after its lead byte. */
  lemma WideEntryAnyBytes(b: byte, b1: byte, rest: seq<byte>, acc: Counts)
    requires TagBits(b) == 0x80
    ensures DecodeEntries([b, b1] + rest, 0, acc)
         == ShiftError(DecodeEntries(rest, 0, Bump(acc, Low6(b) * 0x100 + b1)), 2)
  {
    var w := [b, b1] + rest;
    assert w[0] == b && w[1] == b1;
    DecodeEntriesShift([b, b1], rest, 0, Bump(acc, Low6(b) * 0x100 + b1));
  }

  /** A run of 00-tagged bytes is stepped over one byte at a time. */
  lemma {:induction false} ZeroRunSkipped(w: seq<byte>, k: nat, m: nat, acc: Counts)
    requires k <= m <= |w|
    requires forall j :: k <= j < m ==> TagBits(w[j]) == 0x00
    decreases m - k
    ensures DecodeEntries(w, k, acc) == DecodeEntries(w, m, acc)
  {
    if k < m {
      assert TagBits(w[k]) == 0x00;
      ZeroRunSkipped(w, k + 1, m, acc);
    }
  }

  /** A 00-tagged byte does not end the table: any run of them in front of
      the entries is skipped, and the dictionary comes out as without them
      (only error positions move). */
  lemma ZeroTagsSkipped(pre: seq<byte>, ix: seq<byte>, acc: Counts)
    requires forall i :: 0 <= i < |pre| ==> TagBits(pre[i]) == 0x00
    ensures DecodeEntries(pre + ix, 0, acc) == ShiftError(DecodeEntries(ix, 0, acc), |pre|)
    ensures DecodeEntries(pre + ix, 0, acc).Ok? <==> DecodeEntries(ix, 0, acc).Ok?
  {
    var w := pre + ix;
    forall j | 0 <= j < |pre| ensures TagBits(w[j]) == 0x00 {
      assert w[j] == pre[j];
    }
    ZeroRunSkipped(w, 0, |pre|, acc);
    DecodeEntriesShift(pre, ix, 0, acc);
  }

  /** Once a table decodes on its own, decoding it with more bytes after
      it goes on from its end with the dictionary built so far. */
  lemma {:induction false} DecodeEntriesAppend(ix: seq<byte>, tail: seq<byte>, i: nat, acc: Counts)
    requires i <= |ix|
    requires DecodeEntries(ix, i, acc).Ok?
    decreases |ix| - i
    ensures DecodeEntries(ix + tail, i, acc) == DecodeEntries(ix + tail, |ix|, DecodeEntries(ix, i, acc).value)
  {
    if i < |ix| {
      var w := ix + tail;
      var b := ix[i];
      assert w[i] == b;
      var tag := TagBits(b);
      if tag == 0xC0 {
        assert w[i + 1] == ix[i + 1] && w[i + 2] == ix[i + 2] && w[i + 3] == ix[i + 3];
        DecodeEntriesAppend(ix, tail, i + 4, Bump(acc, LongKey(b, ix[i + 1], ix[i + 2], ix[i + 3])));
      } else if tag == 0x80 {
        assert w[i + 1] == ix[i + 1];
        DecodeEntriesAppend(ix, tail, i + 2, Bump(acc, Field14(b, ix[i + 1])));
      } else if tag == 0x40 {
        DecodeEntriesAppend(ix, tail, i + 1, Bump(acc, Low6(b)));
      } else {
        DecodeEntriesAppend(ix, tail, i + 1, acc);
      }
    }
  }

  /** A 0x80 lead byte at the very end raises, at its position. */
  lemma ShortWideEntryRaises(ix: seq<byte>, b: byte, acc: Counts)
    requires DecodeEntries(ix, 0, acc).Ok? && TagBits(b) == 0x80
    ensures DecodeEntries(ix + [b], 0, acc) == Err(ShortWideEntry(|ix|))
  {
    DecodeEntriesAppend(ix, [b], 0, acc);
    assert (ix + [b])[|ix|] == b;
  }

  /** A 0xC0 lead byte with fewer than 4 bytes left raises, at its position. */
  lemma ShortLongEntryRaises(ix: seq<byte>, t: seq<byte>, acc: Counts)
    requires DecodeEntries(ix, 0, acc).Ok?
    requires 1 <= |t| < 4 && TagBits(t[0]) == 0xC0
    ensures DecodeEntries(ix + t, 0, acc) == Err(ShortLongEntry(|ix|))
  {
    DecodeEntriesAppend(ix, t, 0, acc);
    assert (ix + t)[|ix|] == t[0];
  }

  /** What a successful `decode_pof0` returns: a dictionary with distinct
      keys, all below 0x4000, each counted at least once. */
  lemma DecodedPof0(data: seq<byte>)
    requires DecodePof0(data).Ok?
    ensures IsDict(DecodePof0(data).value)
    ensures forall k :: k in Keys(DecodePof0(data).value) ==> 0 <= k < 0x4000 && Get(DecodePof0(data).value, k) >= 1
  {
    var s := FindMagic(data, 0).value;
    assert FirstMagic(data, s);
    var ix := data[s + 8..s + 8 + LE32(data, s + 4)];
    DecodeFrame(data, s);
    DecodeIsFold(ix, 0, []);
    DecodedDictionary(ix);
  }
}
