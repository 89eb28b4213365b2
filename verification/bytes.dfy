/** Shared vocabulary for the POF0 codecs: octets, the lead byte's tag and
    payload bits, little-endian words and the chunk magics.

    Bit masks are written arithmetically: on a value in 0..255, `b & 0x3F`
    is `b % 0x40` and `b & 0xC0` is `b / 0x40 * 0x40`.  Dafny's `%` and `/`
    are Euclidean, which for a positive power-of-two modulus agrees with
    Python's `&` and `>>` on negative integers as well. */
module Bytes {

  /** One octet, as indexing a Python `bytes` object yields it. */
  type byte = x: int | 0 <= x < 0x100

  datatype Option<+T> = None | Some(value: T)

  datatype Result<+T, +E> = Ok(value: T) | Err(error: E)


  /** "POF0", "YOBJ" and "YANM" as ASCII bytes. */
  const POF0: seq<byte> := [0x50, 0x4F, 0x46, 0x30]
  const YOBJ: seq<byte> := [0x59, 0x4F, 0x42, 0x4A]
  const YANM: seq<byte> := [0x59, 0x41, 0x4E, 0x4D]

  /** `b & 0xC0`: the two tag bits of a lead byte, left in place. */
  function TagBits(b: byte): (r: int)
    ensures r == 0x00 || r == 0x40 || r == 0x80 || r == 0xC0
    ensures r <= b < r + 0x40
  {
    b / 0x40 * 0x40
  }

  /** `b & 0x3F`: the six payload bits of a lead byte. */
  function Low6(b: byte): (r: int)
    ensures 0 <= r < 0x40
    ensures TagBits(b) + r == b
  {
    b % 0x40
  }

  /** `((b << 8) | b1) & 0x3FFF`: the 14-bit field of a big-endian 2-byte
      entry.  The two halves of the OR do not overlap, so it is a sum. */
  function Field14(b: byte, b1: byte): (r: int)
    ensures 0 <= r < 0x4000
    ensures r == Low6(b) * 0x100 + b1
  {
    (b as int * 0x100 + b1) % 0x4000
  }

  /** Unsigned little-endian 16-bit word at `at` (`struct` format `<H`). */
  function LE16(s: seq<byte>, at: nat): (r: int)
    requires at + 2 <= |s|
    ensures 0 <= r < 0x1_0000
    ensures r % 0x100 == s[at]
  {
    s[at] as int + 0x100 * s[at + 1] as int
  }

  /** Unsigned little-endian 32-bit word at `at` (`struct` format `<I`). */
  function LE32(s: seq<byte>, at: nat): (r: int)
    requires at + 4 <= |s|
    ensures 0 <= r < 0x1_0000_0000
    ensures r % 0x100 == s[at]
  {
    s[at] as int + 0x100 * s[at + 1] as int + 0x1_0000 * s[at + 2] as int + 0x100_0000 * s[at + 3] as int
  }

  /** A word is read from the four bytes at `at` and nothing else. */
  lemma LE32Slice(s: seq<byte>, at: nat, w: seq<byte>)
    requires at + 4 <= |s| && s[at..at + 4] == w
    ensures LE32(s, at) == LE32(w, 0)
  {
    assert s[at] == w[0] && s[at + 1] == w[1] && s[at + 2] == w[2] && s[at + 3] == w[3];
  }

  /** Signed reading of a 32-bit word (`struct` format `<i`). */
  function Int32(u: int): (r: int)
    requires 0 <= u < 0x1_0000_0000
    ensures -0x8000_0000 <= r < 0x8000_0000
    ensures (r - u) % 0x1_0000_0000 == 0
  {
    if u < 0x8000_0000 then u else u - 0x1_0000_0000
  }

  /** `struct.pack("<I", n)`, defined only where `pack` does not raise. */
  function PackLE32(n: int): (r: seq<byte>)
    requires 0 <= n < 0x1_0000_0000
    ensures |r| == 4
    ensures LE32(r, 0) == n
  {
    var n1 := n / 0x100;
    var n2 := n1 / 0x100;
    [n % 0x100, n1 % 0x100, n2 % 0x100, n2 / 0x100]
  }

  /** `struct.pack("<i", v)` for a value in the signed 32-bit range. */
  function PackInt32(v: int): (r: seq<byte>)
    requires -0x8000_0000 <= v < 0x8000_0000
    ensures |r| == 4
    ensures Int32(LE32(r, 0)) == v
  {
    PackLE32(if v < 0 then v + 0x1_0000_0000 else v)
  }

  /** `n` consecutive copies of `s`. */
  function Repeat<T>(s: seq<T>, n: nat): (r: seq<T>)
    ensures |r| == n * |s|
  {
    if n == 0 then [] else s + Repeat(s, n - 1)
  }

  /** Every one of the `n` copies is `s` itself: `n` copies are `m`
      copies, then `s`, then the `n - m - 1` copies after it. */
  lemma {:induction false} RepeatSplit<T>(s: seq<T>, n: nat, m: nat)
    requires m < n
    ensures Repeat(s, n) == Repeat(s, m) + s + Repeat(s, n - m - 1)
  {
    if m > 0 {
      var tail := Repeat(s, n - m - 1);
      RepeatSplit(s, n - 1, m - 1);
      assert Repeat(s, n) == s + (Repeat(s, m - 1) + s + tail);
      assert Repeat(s, m) == s + Repeat(s, m - 1);
    }
  }

  /** `n` copies of `s` followed by `rest` start with one copy of `s`. */
  lemma RepeatCons<T>(s: seq<T>, n: nat, rest: seq<T>)
    requires n > 0
    ensures Repeat(s, n) + rest == s + (Repeat(s, n - 1) + rest)
  {
  }
}
