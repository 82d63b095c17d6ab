# pyLOUS in Dafny

A model of pyLOUS, the "Large Object UDP Streaming" module, with proofs about it. A
`LOUS_Sender` cuts a byte string (optionally zlib-compressed) into `chunkSize` slices. It
sends each slice as one datagram behind a 16-byte header: total length, sequence, chunk index
and chunk count. It then bumps its sequence counter. A `LOUS_Receiver` files incoming chunks
in a nested map, peer address → sequence → bucket. When a bucket holds as many chunks as its
recorded count, the receiver joins them in index order, prunes the peer's older sequences and
publishes the result. `last()` returns the latest result, and `last(ip)` the latest from one
IP. `sendWrapper` frames a message for stream sockets with a 4-byte length prefix.

Modules:

- `Bytes`: byte strings, Python's clamping slice `d[lo:hi]`, `b''.join`, and 4-byte
  little-endian words (`struct.pack("I", x)`, `int.from_bytes(..., "little")`).
- `Wire`: the datagram layout, its encoder and the receiver's parser.
- `Chunking`: the slices of `send`.
- `Fragmenter`: the datagrams one `send` emits (`Transmission`), and `class Sender`. Its
  `Send` method runs the chunk loop and updates the `sequence` field in place. It returns the
  datagrams instead of calling `sendto`.
- `Ordering`: `sorted()` over integer keys, `list.index`, and the pruning of a peer's sequences.
- `Reassembler`: the receiver state and the loop body as a function `Step` on states. Also
  `class Receiver`, whose `OnDatagram` updates the buckets, `data` and `dataPerIP` fields in
  place and is proved equal to `Step`.
- `Delivery`: properties of whole feeds. These cover the whitelist, peer isolation, filing,
  completion, pruning, late duplicates and the round trip: a transmission delivered in any
  order is published intact.
- `Framing`: `sendWrapper`'s frame.

Assumptions and behaviour the model reproduces from the code:

- The sender packs header words with native-order `"I"` and the receiver reads little-endian.
  The model takes the host to be little-endian and 4-byte `unsigned int`.
- `struct.pack` raises on values of 2^32 and above. The first header packed already holds the
  final total length and sequence, so a send either fails before any datagram is handed over
  or succeeds entirely. A failed send leaves the counter alone. Once the counter reaches 2^32,
  every send of a non-empty payload with a positive chunk size fails. An empty prepared payload
  (empty data sent without compression) packs nothing and sends no datagram; with a non-zero
  chunk size it never fails, so the receiver never sees it. With compression on, the prepared
  payload is zlib's output, which is never empty, so empty data is sent and published like
  any other payload.
- A chunk size of 0 makes `range` raise. A negative chunk size gives an empty range, so the
  call sends nothing and still bumps the counter.
- The receiver reads the header's total-length word and never uses it.
- A datagram shorter than 16 bytes is not rejected. Its missing words read as 0.
- Completion compares the number of distinct chunk indices with the count recorded by the
  sequence's first datagram. It never checks that the indices are `0..count-1`.
- Pruning keeps the completed sequence and every later one.
- A completed bucket stays, without its count. A late copy of one of its chunks writes the
  count back, completes the bucket again and republishes.
- The defaults of the constructors are kept: a sender compresses nothing and cuts 8192-byte
  chunks, and a receiver decompresses nothing and has an empty whitelist, which admits every
  source.

zlib is not modelled. `compress` and `decompress` are function parameters, and a failed
decompression is `None`. The receiver then publishes the raw joined bytes, as the code's
`except: pass` does.

## Model

| member | source | states |
|---|---|---|
| Bytes.Window | pyLOUS.py:28 | the length of `d[lo:hi]` with both bounds clamped to the data, and that it is the plain slice when the bounds lie inside |
| Bytes.Word | pyLOUS.py:30 | `struct.pack("I", x)` is 4 bytes that read back little-endian as `x` |
| Bytes.LittleEndianRoundTrip | pyLOUS.py:30 | reading `n` little-endian bytes of `x` recovers `x` for every `x < 256^n` |
| Bytes.ShortReadFits | pyLOUS.py:59-64 | `int.from_bytes` of at most 4 bytes always fits a 4-byte word |
| Bytes.LittleEndianInverse | pyLOUS.py:59-64 | re-encoding a little-endian reading at the same width gives back the bytes |
| Wire.EncodeDatagram | pyLOUS.py:30 | a datagram is 16 header bytes followed by exactly the chunk |
| Wire.ParseDatagram | pyLOUS.py:59-65 | every parsed word fits 32 bits; the payload is everything after byte 16, or empty for a datagram of at most 16 bytes |
| Wire.ParseEncode | pyLOUS.py:30-65 | parsing an encoded datagram returns the four header words and the chunk |
| Wire.EncodeParse | pyLOUS.py:30-65 | a datagram of at least 16 bytes parses into packable words, and re-encoding reproduces it byte for byte |
| Wire.WordAt | pyLOUS.py:59-64 | the word read at an offset packs back to the 4 bytes it came from |
| Wire.ShortDatagram | pyLOUS.py:59-65 | a datagram shorter than the header has an empty payload, and each word whose bytes are missing reads as 0 |
| Wire.TotalOnlyInFirstWord | pyLOUS.py:59-65 | two datagrams that differ only in their first 4 bytes parse to the same sequence, index, count and payload |
| Wire.SameWindowPastFirst | pyLOUS.py:62-64 | the words after the first read the same bytes in two datagrams that share everything past byte 4 |
| Chunking.Slices | pyLOUS.py:28 | there are as many slices as `ChunkCount` |
| Chunking.ChunkCountIsCeiling | pyLOUS.py:28 | the chunk count is the ceiling of length / chunkSize: enough slices to cover the data, one fewer is not, and it is 0 exactly for empty data |
| Chunking.OffsetInside | pyLOUS.py:28 | slice `k` exists exactly when its offset `k * chunkSize` is before the end of the data |
| Chunking.SliceLengths | pyLOUS.py:28 | every slice is non-empty and at most chunkSize bytes; all but the last are exactly chunkSize; the last holds the remainder |
| Chunking.SliceAt | pyLOUS.py:28 | slice `k` is the data between offset `k * chunkSize` and the next offset, clamped to the end |
| Chunking.ConcatSlicesFrom | pyLOUS.py:28 | the slices from index `k` on join to the data from offset `k * chunkSize` on |
| Chunking.ConcatSlices | pyLOUS.py:28 | joining the slices in order gives back the data |
| Fragmenter.ChunkCountAtMostLength | pyLOUS.py:28-30 | there are never more chunks than bytes, so the chunk count and each index pack whenever the length does |
| Fragmenter.TransmissionFails | pyLOUS.py:25-34 | a send raises exactly when the chunk size is 0, or when there is a chunk and the length or the sequence does not fit 32 bits |
| Fragmenter.TransmissionLayout | pyLOUS.py:28-31 | datagram `i` parses back to the payload length, the call's sequence, index `i`, the datagram count and slice `i`; one datagram per slice; none for an empty payload |
| Fragmenter.EmptyPayload | pyLOUS.py:28-32 | an empty prepared payload fails exactly for a zero chunk size; otherwise it sends no datagram |
| Fragmenter.Sender.constructor | pyLOUS.py:17-21 | a new sender has the given settings (by default no compression and 8192-byte chunks) and sequence 0 |
| Fragmenter.Sender.Send | pyLOUS.py:23-34 | the datagrams handed over are exactly the transmission of the prepared payload at the current sequence, or none when it raises; the sequence goes up by exactly one on success and is unchanged on failure |
| Framing.Frame | pyLOUS.py:122-124 | the frame exists exactly when the length fits 32 bits; it is 4 bytes longer than the data; its first 4 bytes read back as the data length and the rest is the data |
| Framing.FrameDelimits | pyLOUS.py:122-124 | in a stream that starts with a frame, the prefix says exactly how many bytes belong to the message; taking them returns the message and leaves the rest of the stream |
| Ordering.Minimum | pyLOUS.py:79 | the chosen element is the least of the set |
| Ordering.LeastExists | pyLOUS.py:79 | every non-empty set of keys has a least element |
| Ordering.SortedKeys | pyLOUS.py:79-81 | `sorted(keys)` lists every key once, nothing else, in strictly ascending order |
| Ordering.IndexOf | pyLOUS.py:81 | `list.index` returns the first position holding the value |
| Ordering.Leftover | pyLOUS.py:81 | the sorted suffix from the completed sequence holds exactly the keys that are at least that sequence |
| Ordering.SuffixFrom | pyLOUS.py:81 | in an ascending list, the suffix from a position holds exactly the entries not below the entry there |
| Ordering.Prune | pyLOUS.py:81-82 | the completed sequence stays with its bucket, and every kept sequence keeps its bucket unchanged |
| Ordering.PruneIsRebuild | pyLOUS.py:82 | rebuilding the peer's map from any list of exactly the sequences from the completed one on gives `Prune` |
| Ordering.PruneIsSortedSuffix | pyLOUS.py:81-82 | the receiver's sorted-suffix rebuild equals `Prune`, which keeps exactly the sequences not below the completed one |
| Ordering.IncreasingGaps | pyLOUS.py:79 | in an ascending list of naturals, entries `d` positions apart differ by at least `d` |
| Ordering.SortedRange | pyLOUS.py:79 | sorting the indices `0..n-1` lists them in order |
| Ordering.IncreasingBelow | pyLOUS.py:79 | the only ascending list of `n` naturals below `n` is `0, ..., n-1` |
| Reassembler.ReassembleInOrder | pyLOUS.py:79 | chunks filed under the indices `0..n-1`, in whatever order they were filed, join to the parts in order |
| Reassembler.GatherIdentity | pyLOUS.py:79 | gathering `0..n-1` from a map holding `parts[k]` under each `k` gives `parts` |
| Reassembler.KeepFrom | pyLOUS.py:81-82 | sorting the peer's sequences, cutting at the completed one and rebuilding the map yields `Prune` of the peer |
| Reassembler.Latest | pyLOUS.py:98-105 | with no IP (or the empty, falsy IP) the global result; with an IP, that IP's result, or `None` if it has published nothing |
| Reassembler.Receiver.constructor | pyLOUS.py:37-47 | a new receiver has the given whitelist and compression setting (by default none, and an empty whitelist), no buckets and nothing published |
| Reassembler.Receiver.OnDatagram | pyLOUS.py:59-90 | the fields after handling a datagram in place are exactly `Step` of the fields before |
| Reassembler.Receiver.CompleteSequence | pyLOUS.py:76-90 | the completion branch leaves the fields as `Complete` describes: count popped, peer pruned, result published globally and per IP |
| Reassembler.Receiver.Run | pyLOUS.py:56-90 | after a feed of datagrams the fields are `Deliver` of the feed, i.e. one `Step` per datagram in order |
| Reassembler.Receiver.Last | pyLOUS.py:98-105 | `last(IP)` on the receiver's fields: `data` for no IP or the empty IP; otherwise that IP's entry of `dataPerIP`, present exactly when the IP has published |
| Delivery.Admitted | pyLOUS.py:61 | the datagrams kept by the whitelist are exactly the feed's arrivals from admitted sources, never more than the feed, and the whole feed when every source is admitted |
| Delivery.AdmittedAppend | pyLOUS.py:61 | filtering a joined feed is joining the filtered parts, so the whitelist keeps arrivals in their order |
| Delivery.AdmittedOne | pyLOUS.py:61 | a single arrival is kept exactly when its source is admitted |
| Delivery.WhitelistFilters | pyLOUS.py:61 | dropping the datagrams the whitelist rejects does not change the outcome; a feed none of whose sources is admitted leaves buckets, `data` and `dataPerIP` as they were |
| Delivery.PeerUntouched | pyLOUS.py:66-90 | datagrams from other (ip, port) addresses never change a peer's buckets |
| Delivery.TotalIgnored | pyLOUS.py:59-90 | the loop never uses the total-length word: two datagrams that differ only in it have the same effect |
| Delivery.CompletionNeedsCount | pyLOUS.py:68-76 | a sequence's first datagram completes it on its own exactly when it announces one chunk; a recorded count of 0 never completes |
| Delivery.FilingWithoutCompletion | pyLOUS.py:66-76 | while a bucket is short of its count, a datagram only files its chunk: its index's slot holds its payload (a duplicate overwrites), the first recorded count is kept, other sequences are unchanged, nothing is published |
| Delivery.CompletionPublishes | pyLOUS.py:76-90 | a datagram that fills its bucket publishes the chunks joined in index order (decompressed if configured) globally and for the sender's IP |
| Delivery.CompletionPrunes | pyLOUS.py:77-82 | on completion of sequence `s` the peer keeps exactly its sequences `>= s`, unchanged, with `s`'s bucket kept without its count; every other peer is untouched |
| Delivery.CompletedPeer | pyLOUS.py:77-82 | on completion the peer's map is the pruned map in which the completed bucket has lost its count |
| Delivery.StepKeepsOtherPeers | pyLOUS.py:66-90 | one datagram changes the buckets of its own (ip, port) peer only |
| Delivery.LateDuplicateRepublishes | pyLOUS.py:73-90 | a late copy of a chunk of a completed sequence restores the count and completes the bucket again; the join is published again globally and for the sender's IP, and the bucket is left without its count once more |
| Delivery.CountNotCoverage | pyLOUS.py:76-79 | a bucket expecting 2 chunks completes on indices 0 and 5 and joins them in index order |
| Delivery.Collected | pyLOUS.py:66-74 | after `j` arrivals the filed chunks are the ones for the first `j` listed indices, each holding its own part, and there are `j` of them when no index repeats |
| Delivery.FilingCollects | pyLOUS.py:66-74 | the next arrival of a transmission adds its chunk to those filed so far, and the bucket keeps the transmission's count |
| Delivery.StageStep | pyLOUS.py:59-90 | each arrival of a shuffled transmission moves the receiver from one stage to the next |
| Delivery.StagesReached | pyLOUS.py:56-90 | after the first `j` arrivals of a shuffled transmission the receiver is at stage `j` |
| Delivery.CollectedAll | pyLOUS.py:66-79 | once every index has arrived the filed chunks are the whole transmission by index |
| Delivery.FiledByIndex | pyLOUS.py:66-79 | a chunk map holding each listed index with its own part is the transmission filed by index |
| Delivery.EarlyStage | pyLOUS.py:76 | before the last arrival nothing is published |
| Delivery.FinalStage | pyLOUS.py:76-90 | at the last arrival the parts are joined in order and published globally and per IP |
| Delivery.EarlyDelivery | pyLOUS.py:76 | before the last datagram of a transmission arrives, `data` and `dataPerIP` are unchanged, so neither `last()` nor `last(ip)` moves |
| Delivery.FinalDelivery | pyLOUS.py:76-90 | after the last datagram the whole transmission is published globally and for the sender's IP |
| Delivery.ShuffledDelivery | pyLOUS.py:59-90 | in any order of arrival, neither `data` nor `dataPerIP` changes before the last datagram, and then the joined parts are published globally and per IP |
| Delivery.RoundTrip | pyLOUS.py:59-105 | every datagram of a successful send, delivered once each in any order from an admitted peer, makes `last()` and `last(ip)` return the payload (decompressed if configured) |
| Delivery.SendThenReceive | pyLOUS.py:23-105 | with matching compression settings and a decompressor that inverts the compressor, `last()` and `last(ip)` return exactly the bytes given to `send` |

## Left out

- Socket I/O is not modelled: socket creation, `bind`, `sendto`, `recvfrom` and `sendall`.
  `Send` returns the datagrams it would hand to `sendto`. The receive loop consumes a finite
  list of arrivals. `recvfrom`'s truncation of datagrams longer than 65535 bytes is not
  modelled either: an arrival carries its whole datagram.
- A `sendto` that raises is not modelled, whether on the first datagram or after earlier ones
  went out. One such case is a chunk of more than 65491 bytes, whose datagram exceeds the UDP
  size limit: the model reports success and advances the counter where the code prints the
  error and does not. `Send` reports success or failure for the whole call, from the packing
  of the header words alone.
- `recvWrapper` is not modelled. It is socket-reading plumbing. It can also read past the
  declared length, because each `recv(recv)` may return up to the full length again.
- Threading and lifecycle are not modelled: `threading.Thread`, the stop event, the
  `running` flag, `stop` and `stopped`. `Receiver.Run` handles a finite feed, one datagram at
  a time.
- zlib is a foreign library. `compress` and `decompress` are caller-supplied functions.
- Printing of exceptions is left out. The swallowing `try` blocks are modelled only through
  their effect: a failed send changes nothing, and a failed decompression publishes the raw
  bytes.
- The unused `time` import has no behaviour to model.
- Byte order: the model assumes a little-endian host with a 4-byte `unsigned int`. On a
  big-endian host the sender's words would reach the receiver reversed.
- Compression on the sender is outside `Transmission`. `Transmission` takes the already
  prepared payload, and `Prepared` applies the configured compressor first.
