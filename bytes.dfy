/**
  Byte strings as the Python code sees them: `bytes` values, the slicing
  operator `data[lo:hi]` (which clamps its bounds instead of failing),
  `b''.join(...)`, and the 4-byte unsigned little-endian words written by
  `struct.pack("I", x)` and read back by `int.from_bytes(..., "little")`.
*/
module Bytes {

  type byte = b: int | 0 <= b < 256

  /** One past the largest value a 4-byte unsigned word can hold. */
  const WORD_LIMIT: nat := 0x1_0000_0000

  /** Whether `struct.pack("I", x)` accepts `x` (it raises otherwise). */
  predicate Fits(x: int) {
    0 <= x < WORD_LIMIT
  }

  function Min(a: int, b: int): int {
    if a <= b then a else b
  }

  /** Python's `d[lo:hi]` for non-negative bounds: both ends are clamped to `|d|`. */
  function Window(d: seq<byte>, lo: nat, hi: nat): (r: seq<byte>)
    ensures |r| == if lo <= hi then Min(hi, |d|) - Min(lo, |d|) else 0
    ensures hi <= |d| && lo <= hi ==> r == d[lo..hi]
  {
    if lo <= hi then d[Min(lo, |d|)..Min(hi, |d|)] else []
  }

  /** `b''.join(parts)`. */
  function Concat(parts: seq<seq<byte>>): seq<byte> {
    if |parts| == 0 then [] else parts[0] + Concat(parts[1..])
  }

  function Pow256(n: nat): (r: nat)
    ensures r > 0
  {
    if n == 0 then 1 else 256 * Pow256(n - 1)
  }

  /** The `n` low-order bytes of `x`, least significant first. */
  function LittleEndian(x: nat, n: nat): (r: seq<byte>)
    ensures |r| == n
  {
    if n == 0 then [] else [x % 256] + LittleEndian(x / 256, n - 1)
  }

  /** `int.from_bytes(s, byteorder="little")`; the empty string reads as 0. */
  function FromLittleEndian(s: seq<byte>): nat {
    if |s| == 0 then 0 else s[0] + 256 * FromLittleEndian(s[1..])
  }

  /** `struct.pack("I", x)` on a little-endian host. */
  function Word(x: nat): (r: seq<byte>)
    requires Fits(x)
    ensures |r| == 4
    ensures FromLittleEndian(r) == x
  {
    LittleEndianRoundTrip(x, 4);
    LittleEndian(x, 4)
  }

  /** Reading back `n` little-endian bytes recovers any value below 256^n. */
  lemma {:induction false} LittleEndianRoundTrip(x: nat, n: nat)
    requires x < Pow256(n)
    ensures FromLittleEndian(LittleEndian(x, n)) == x
  {
    if n > 0 {
      var s := LittleEndian(x, n);
      assert s[1..] == LittleEndian(x / 256, n - 1);
      LittleEndianRoundTrip(x / 256, n - 1);
    }
  }

  /** A little-endian read of `n` bytes never exceeds 256^n - 1, so a 4-byte header field fits a word. */
  lemma {:induction false} FromLittleEndianBound(s: seq<byte>)
    ensures FromLittleEndian(s) < Pow256(|s|)
  {
    if |s| > 0 {
      FromLittleEndianBound(s[1..]);
    }
  }

  /** A read of at most 4 bytes always fits a word. */
  lemma ShortReadFits(s: seq<byte>)
    requires |s| <= 4
    ensures Fits(FromLittleEndian(s))
  {
    FromLittleEndianBound(s);
    assert Pow256(|s|) <= Pow256(4);
  }

  /** `LittleEndian` inverts `FromLittleEndian` at the same width. */
  lemma {:induction false} LittleEndianInverse(s: seq<byte>)
    ensures LittleEndian(FromLittleEndian(s), |s|) == s
  {
    if |s| > 0 {
      var x := FromLittleEndian(s);
      LittleEndianInverse(s[1..]);
      assert x % 256 == s[0];
      assert x / 256 == FromLittleEndian(s[1..]);
    }
  }
}
