/**
  The sender's partition of a payload: `data[i:i+chunkSize]` for every
  `i` in `range(0, len(data), chunkSize)`.
*/
module Chunking {
  import opened Bytes

  /** `len(range(0, length, size))` for a positive step: the ceiling of `length / size`. */
  function ChunkCount(length: nat, size: nat): nat
    requires size > 0
  {
    (length + size - 1) / size
  }

  /** The slices, the `k`-th one starting at offset `k * size`. */
  function Slices(data: seq<byte>, size: nat): (r: seq<seq<byte>>)
    requires size > 0
    ensures |r| == ChunkCount(|data|, size)
  {
    seq(ChunkCount(|data|, size), k requires 0 <= k => Window(data, k * size, k * size + size))
  }

  /** The chunk count is the least number of `size`-byte slices that covers `length` bytes. */
  lemma ChunkCountIsCeiling(length: nat, size: nat)
    requires size > 0
    ensures ChunkCount(length, size) * size >= length
    ensures length > 0 ==> (ChunkCount(length, size) - 1) * size < length
    ensures ChunkCount(length, size) == 0 <==> length == 0
  {
    var c := ChunkCount(length, size);
    var r := (length + size - 1) % size;
    assert length + size - 1 == c * size + r;
    assert (c - 1) * size == c * size - size;
  }

  /** A slice index lies before the end of the data exactly when it is below the chunk count. */
  lemma OffsetInside(length: nat, size: nat, k: nat)
    requires size > 0
    ensures k < ChunkCount(length, size) <==> k * size < length
  {
    var c := ChunkCount(length, size);
    ChunkCountIsCeiling(length, size);
    if k < c {
      MulMonotone(k, c - 1, size);
    } else {
      MulMonotone(c, k, size);
    }
  }

  lemma MulMonotone(a: nat, b: nat, m: nat)
    requires a <= b
    ensures a * m <= b * m
  {
    assert b * m == a * m + (b - a) * m;
  }

  /**
    Every slice is non-empty and at most `size` bytes; all but the last are
    exactly `size` bytes, and the last holds what remains.
  */
  lemma SliceLengths(data: seq<byte>, size: nat, k: nat)
    requires size > 0
    requires k < ChunkCount(|data|, size)
    ensures 0 < |Slices(data, size)[k]| <= size
    ensures k + 1 < ChunkCount(|data|, size) ==> |Slices(data, size)[k]| == size
    ensures k + 1 == ChunkCount(|data|, size) ==> |Slices(data, size)[k]| == |data| - k * size
  {
    OffsetInside(|data|, size, k);
    OffsetInside(|data|, size, k + 1);
    assert (k + 1) * size == k * size + size;
  }

  /** The slices from index `k` on join to the data from offset `k * size` on. */
  lemma {:induction false} ConcatSlicesFrom(data: seq<byte>, size: nat, k: nat)
    requires size > 0
    requires k <= ChunkCount(|data|, size)
    ensures Concat(Slices(data, size)[k..]) == data[Min(k * size, |data|)..]
    decreases ChunkCount(|data|, size) - k
  {
    var s := Slices(data, size);
    if k == |s| {
      ChunkCountIsCeiling(|data|, size);
      MulMonotone(ChunkCount(|data|, size), k, size);
      assert s[k..] == [];
    } else {
      var lo, hi := SliceAt(data, size, k);
      ConcatSlicesFrom(data, size, k + 1);
      assert s[k..] == [s[k]] + s[k + 1..];
      calc {
        Concat(s[k..]);
        s[k] + Concat(s[k + 1..]);
        data[lo..hi] + data[hi..];
        data[lo..];
      }
    }
  }

  /** Slice `k` is the data between offsets `k * size` and the next offset, the latter clamped to the end. */
  lemma SliceAt(data: seq<byte>, size: nat, k: nat) returns (lo: nat, hi: nat)
    requires size > 0
    requires k < ChunkCount(|data|, size)
    ensures lo == k * size && hi == Min((k + 1) * size, |data|)
    ensures lo < hi <= |data|
    ensures Slices(data, size)[k] == data[lo..hi]
  {
    OffsetInside(|data|, size, k);
    lo := k * size;
    assert (k + 1) * size == lo + size;
    hi := Min(lo + size, |data|);
  }

  /** Joining the slices in order gives back the data. */
  lemma ConcatSlices(data: seq<byte>, size: nat)
    requires size > 0
    ensures Concat(Slices(data, size)) == data
  {
    var s := Slices(data, size);
    ConcatSlicesFrom(data, size, 0);
    assert s[0..] == s;
  }
}
