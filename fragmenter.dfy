/**
  The sending side (`LOUS_Sender`): one `send` call optionally compresses
  the payload, cuts it into `chunkSize` slices, sends each slice behind a
  16-byte header, and then bumps the sequence counter. The socket is
  replaced by the list of datagrams a call would hand to `sendto`.
*/
module Fragmenter {
  import opened Wrappers
  import opened Bytes
  import opened Wire
  import opened Chunking

  /**
    The chunk list of `send`. A step of zero makes `range` raise, which the
    caller rules out first; a negative step gives an empty range.
  */
  function Chunks(payload: seq<byte>, chunkSize: int): seq<seq<byte>>
    requires chunkSize != 0
  {
    if chunkSize < 0 then [] else Slices(payload, chunkSize)
  }

  /** The header of chunk `i`: the payload length, the sequence, the index and the chunk count. */
  function ChunkHeader(payload: seq<byte>, sequence: nat, chunks: seq<seq<byte>>, i: nat): Header
    requires i < |chunks|
  {
    Header(|payload|, sequence, i, |chunks|, chunks[i])
  }

  /**
    The datagrams one `send` call emits for an already compressed payload,
    or None when the call raises: a zero chunk size, or a payload length or
    sequence that `struct.pack("I", ...)` refuses. Packing is tried on the
    first chunk before anything is sent, so an empty payload raises only for
    a zero chunk size.
  */
  function Transmission(payload: seq<byte>, sequence: nat, chunkSize: int): Option<seq<seq<byte>>>
  {
    if chunkSize == 0 then None
    else
      var chunks := Chunks(payload, chunkSize);
      if |chunks| > 0 && !Packable(ChunkHeader(payload, sequence, chunks, 0)) then None
      else Some(seq(|chunks|, i requires 0 <= i < |chunks| =>
                              EncodeDatagram(ChunkHeader(payload, sequence, chunks, i))))
  }

  /** The chunk list is never longer than the payload. */
  lemma ChunkCountAtMostLength(length: nat, size: nat)
    requires size > 0
    ensures ChunkCount(length, size) <= length
  {
    ChunkCountIsCeiling(length, size);
    if length > 0 {
      MulMonotone(1, size, ChunkCount(length, size) - 1);
    }
  }

  /**
    A `send` raises exactly when the chunk size is zero, or when there is at
    least one chunk and the payload length or the sequence does not fit a
    4-byte word. In particular, once the counter reaches 2^32 every send of
    a non-empty payload with a positive chunk size fails and the counter
    stays put; a negative chunk size still sends nothing and succeeds.
  */
  lemma TransmissionFails(payload: seq<byte>, sequence: nat, chunkSize: int)
    ensures Transmission(payload, sequence, chunkSize).None? <==>
      chunkSize == 0 || (chunkSize > 0 && |payload| > 0 && !(Fits(|payload|) && Fits(sequence)))
  {
    if chunkSize > 0 {
      ChunkCountIsCeiling(|payload|, chunkSize);
      ChunkCountAtMostLength(|payload|, chunkSize);
    }
  }

  /** An empty prepared payload raises only for a zero chunk size; otherwise it emits nothing. */
  lemma EmptyPayload(sequence: nat, chunkSize: int)
    ensures Transmission([], sequence, chunkSize).None? <==> chunkSize == 0
    ensures chunkSize != 0 ==> Transmission([], sequence, chunkSize) == Some([])
  {
    TransmissionFails([], sequence, chunkSize);
    if chunkSize > 0 {
      ChunkCountIsCeiling(0, chunkSize);
    }
    if chunkSize != 0 {
      assert |Chunks([], chunkSize)| == 0;
      assert |Transmission([], sequence, chunkSize).value| == 0;
    }
  }

  /**
    A successful `send` emits one datagram per slice of the payload. Datagram
    `i` parses back to the payload length, the call's sequence, the index
    `i`, the number of datagrams, and slice `i`, so all datagrams of one
    call share their sequence and chunk count. An empty payload emits none.
  */
  lemma TransmissionLayout(payload: seq<byte>, sequence: nat, chunkSize: int)
    requires Transmission(payload, sequence, chunkSize).Some?
    ensures var ds := Transmission(payload, sequence, chunkSize).value;
      && |ds| == (if chunkSize < 0 then 0 else ChunkCount(|payload|, chunkSize))
      && (|payload| == 0 ==> ds == [])
      && forall i :: 0 <= i < |ds| ==>
           ParseDatagram(ds[i]) == Header(|payload|, sequence, i, |ds|, Slices(payload, chunkSize)[i])
  {
    var ds := Transmission(payload, sequence, chunkSize).value;
    if chunkSize > 0 {
      ChunkCountIsCeiling(|payload|, chunkSize);
    }
    forall i | 0 <= i < |ds|
      ensures ParseDatagram(ds[i]) == Header(|payload|, sequence, i, |ds|, Slices(payload, chunkSize)[i])
    {
      ParseEncode(ChunkHeader(payload, sequence, Chunks(payload, chunkSize), i));
    }
  }

  /** The bytes that get cut into chunks: the data, compressed if configured. */
  function Prepared(compression: bool, compress: seq<byte> -> seq<byte>, data: seq<byte>): seq<byte> {
    if compression then compress(data) else data
  }

  /** `LOUS_Sender`: its configuration and its sequence counter. */
  class Sender {
    const compression: bool
    /** `zlib.compress`, supplied by the caller. */
    const compress: seq<byte> -> seq<byte>
    const chunkSize: int
    var sequence: nat

    /** `LOUS_Sender(compression=False, chunkSize=8192)`, with `zlib.compress` passed in. */
    constructor (compress: seq<byte> -> seq<byte>, compression: bool := false, chunkSize: int := 8192)
      ensures this.compression == compression && this.compress == compress
      ensures this.chunkSize == chunkSize
      ensures sequence == 0
    {
      this.compression := compression;
      this.compress := compress;
      this.chunkSize := chunkSize;
      sequence := 0;
    }

    /**
      `send`: returns the datagrams handed to the socket, in order, and
      whether the call completed. A completed call advances the counter by
      exactly one, whatever the number of chunks (zero included); a call
      that raises sends nothing and leaves the counter alone.
    */
    method Send(data: seq<byte>) returns (sent: seq<seq<byte>>, ok: bool)
      modifies this
      ensures var t := Transmission(Prepared(compression, compress, data), old(sequence), chunkSize);
        ok == t.Some? && sent == (if ok then t.value else [])
      ensures sequence == if ok then old(sequence) + 1 else old(sequence)
    {
      var payload := if compression then compress(data) else data;
      sent := [];
      if chunkSize == 0 {
        ok := false;
        return;
      }
      var chunks := Chunks(payload, chunkSize);
      var i := 0;
      while i < |chunks|
        invariant 0 <= i <= |chunks|
        invariant i > 0 ==> Packable(ChunkHeader(payload, sequence, chunks, 0))
        invariant |sent| == i
        invariant forall j :: 0 <= j < i ==>
          Packable(ChunkHeader(payload, sequence, chunks, j)) &&
          sent[j] == EncodeDatagram(ChunkHeader(payload, sequence, chunks, j))
      {
        var h := ChunkHeader(payload, sequence, chunks, i);
        if !Packable(h) {
          ok := false;
          return;
        }
        sent := sent + [EncodeDatagram(h)];
        i := i + 1;
      }
      sequence := sequence + 1;
      ok := true;
    }
  }
}
