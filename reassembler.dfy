/**
  The receiving side (`LOUS_Receiver`): the body of its receive loop, run
  once per datagram, and the `last` query. Reassembly state is a nested
  map: peer address -> sequence -> bucket, where a bucket holds the chunks
  received so far by index and, in its `"len"` slot, the chunk count.
*/
module Reassembler {
  import opened Wrappers
  import opened Bytes
  import opened Wire
  import opened Ordering

  type IP = string

  /** A peer address as `recvfrom` reports it: `(ip, port)`. */
  datatype Addr = Addr(ip: IP, port: nat)

  /** One received datagram and where it came from. */
  datatype Arrival = Arrival(addr: Addr, bytes: seq<byte>)

  /**
    The per-(peer, sequence) dictionary: chunk index -> chunk bytes, plus
    the `"len"` slot, which is absent once the bucket has completed.
  */
  datatype Bucket = Bucket(chunks: map<nat, seq<byte>>, len: Option<nat>)

  /** Everything the receive loop updates: the buckets and the two published results. */
  datatype ReceiverState = ReceiverState(
    buckets: map<Addr, map<nat, Bucket>>,
    data: Option<seq<byte>>,
    dataPerIP: map<IP, seq<byte>>)

  /** The receiver's configuration; `decompress` stands for `zlib.decompress`, None meaning it raised. */
  datatype Config = Config(
    whitelist: seq<IP>,
    compression: bool,
    decompress: seq<byte> -> Option<seq<byte>>)

  const Initial: ReceiverState := ReceiverState(map[], None, map[])

  /** An empty whitelist accepts every source; otherwise the source IP must be listed. */
  predicate Admits(whitelist: seq<IP>, ip: IP) {
    |whitelist| == 0 || ip in whitelist
  }

  /** The sequences known for `addr`, or none yet. */
  function PeerOf(st: ReceiverState, addr: Addr): map<nat, Bucket> {
    if addr in st.buckets then st.buckets[addr] else map[]
  }

  // ---------------------------------------------------------------------------
  // One step of the receive loop

  /** Files the parsed chunk into the bucket for its sequence, creating the bucket if needed. */
  function FileChunk(peer: map<nat, Bucket>, h: Header): Bucket {
    var b :=
      if h.sequence !in peer then Bucket(map[h.index := h.payload], Some(h.count))
      else peer[h.sequence].(chunks := peer[h.sequence].chunks[h.index := h.payload]);
    if b.len.None? then b.(len := Some(h.count)) else b
  }

  /** The completion test: as many distinct chunk keys as the recorded count. */
  predicate IsFull(b: Bucket) {
    b.len.Some? && |b.chunks| == b.len.value
  }

  /** The chunks joined in ascending index order. */
  function Reassemble(chunks: map<nat, seq<byte>>): seq<byte> {
    Concat(Gather(chunks, SortedKeys(chunks.Keys)))
  }

  /** `[chunks[j] for j in order]`. */
  function Gather(chunks: map<nat, seq<byte>>, order: seq<nat>): (r: seq<seq<byte>>)
    requires forall i :: 0 <= i < |order| ==> order[i] in chunks
    ensures |r| == |order|
    ensures forall i :: 0 <= i < |order| ==> r[i] == chunks[order[i]]
  {
    seq(|order|, i requires 0 <= i < |order| => chunks[order[i]])
  }

  /** The chunk map holding `parts[k]` under every index `k`. */
  function Indexed(parts: seq<seq<byte>>): (m: map<nat, seq<byte>>)
    ensures m.Keys == Indices(|parts|)
    ensures forall k :: k in m ==> k < |parts| && m[k] == parts[k]
  {
    map k | k in Indices(|parts|) :: parts[k]
  }

  /** Chunks filed under the indices `0, ..., n-1` are joined in index order, whatever order they came in. */
  lemma ReassembleInOrder(parts: seq<seq<byte>>)
    ensures Reassemble(Indexed(parts)) == Concat(parts)
  {
    var n := |parts|;
    var m := Indexed(parts);
    var order := SortedKeys(Indices(n));
    SortedRange(n);
    assert m.Keys == Indices(n);
    GatherIdentity(m, order, parts);
  }

  /** Gathering the indices `0, ..., n-1` from a map that holds `parts[k]` under each `k` gives `parts`. */
  lemma GatherIdentity(m: map<nat, seq<byte>>, order: seq<nat>, parts: seq<seq<byte>>)
    requires |order| == |parts|
    requires forall i :: 0 <= i < |order| ==> order[i] == i && i in m
    requires forall k :: k in m ==> k < |parts| && m[k] == parts[k]
    ensures Gather(m, order) == parts
  {
  }

  /** The published value: decompressed if configured, the raw join when decompression fails. */
  function Publish(cfg: Config, joined: seq<byte>): seq<byte> {
    if cfg.compression then
      match cfg.decompress(joined)
      case Some(plain) => plain
      case None => joined
    else joined
  }

  /**
    The completion branch for sequence `s` of `addr`: drop the `"len"` slot,
    join the chunks, prune the peer's older sequences and publish the
    (possibly decompressed) result globally and for the peer's IP.
  */
  function Complete(cfg: Config, st: ReceiverState, addr: Addr, s: nat): ReceiverState
    requires addr in st.buckets && s in st.buckets[addr]
  {
    var done := st.buckets[addr][s].(len := None);
    var out := Publish(cfg, Reassemble(done.chunks));
    ReceiverState(
      st.buckets[addr := Prune(st.buckets[addr][s := done], s)],
      Some(out),
      st.dataPerIP[addr.ip := out])
  }

  /** The loop body for one datagram. */
  function Step(cfg: Config, st: ReceiverState, arrival: Arrival): ReceiverState {
    var addr := arrival.addr;
    if !Admits(cfg.whitelist, addr.ip) then st
    else
      var h := ParseDatagram(arrival.bytes);
      var peer := PeerOf(st, addr);
      var b := FileChunk(peer, h);
      var filed := st.(buckets := st.buckets[addr := peer[h.sequence := b]]);
      if IsFull(b) then Complete(cfg, filed, addr, h.sequence) else filed
  }

  /** Step for an admitted datagram, once the filed bucket and the state holding it are known. */
  lemma StepAfterFiling(cfg: Config, st: ReceiverState, arrival: Arrival, bucket: Bucket, filed: ReceiverState)
    requires Admits(cfg.whitelist, arrival.addr.ip)
    requires bucket == FileChunk(PeerOf(st, arrival.addr), ParseDatagram(arrival.bytes))
    requires filed == st.(buckets := st.buckets[arrival.addr :=
      PeerOf(st, arrival.addr)[ParseDatagram(arrival.bytes).sequence := bucket]])
    ensures Step(cfg, st, arrival) ==
      if IsFull(bucket) then Complete(cfg, filed, arrival.addr, ParseDatagram(arrival.bytes).sequence)
      else filed
  {
  }

  /** The state after the loop has handled `feed`, in order. */
  function Deliver(cfg: Config, st: ReceiverState, feed: seq<Arrival>): ReceiverState
    decreases |feed|
  {
    if |feed| == 0 then st
    else Step(cfg, Deliver(cfg, st, feed[..|feed| - 1]), feed[|feed| - 1])
  }

  /**
    `last(IP)`: the latest payload from that IP, or the latest payload from
    anyone when no IP is given. An empty IP string is falsy in Python and
    selects the global value as well.
  */
  function Latest(st: ReceiverState, ip: Option<IP>): (r: Option<seq<byte>>)
    ensures (ip.None? || ip == Some("")) ==> r == st.data
    ensures ip.Some? && ip.value != "" ==>
      (r.Some? <==> ip.value in st.dataPerIP) && (r.Some? ==> r.value == st.dataPerIP[ip.value])
  {
    match ip
    case Some(name) =>
      if name != "" then (if name in st.dataPerIP then Some(st.dataPerIP[name]) else None)
      else st.data
    case None => st.data
  }

  /**
    The pruning statement of the loop body: the peer's sequences are sorted,
    cut at the completed one, and the peer's map is rebuilt from the rest.
  */
  method KeepFrom(peer: map<nat, Bucket>, completed: nat) returns (kept: map<nat, Bucket>)
    requires completed in peer
    ensures kept == Prune(peer, completed)
  {
    var leftover := Leftover(peer.Keys, completed);
    PruneIsSortedSuffix(peer, completed);
    kept := Rebuilt(peer, leftover);
  }

  // ---------------------------------------------------------------------------
  // The receiver object

  /** `LOUS_Receiver`, less its socket and thread. */
  class Receiver {
    const whitelist: seq<IP>
    const compression: bool
    const decompress: seq<byte> -> Option<seq<byte>>
    var buckets: map<Addr, map<nat, Bucket>>
    var data: Option<seq<byte>>
    var dataPerIP: map<IP, seq<byte>>

    function Settings(): Config {
      Config(whitelist, compression, decompress)
    }

    function State(): ReceiverState
      reads this
    {
      ReceiverState(buckets, data, dataPerIP)
    }

    /** `LOUS_Receiver(ip, port, compression=False, recvFrom=[])`, less the socket, with `zlib.decompress` passed in. */
    constructor (decompress: seq<byte> -> Option<seq<byte>>, compression: bool := false, whitelist: seq<IP> := [])
      ensures this.whitelist == whitelist && this.compression == compression
      ensures this.decompress == decompress
      ensures State() == Initial
    {
      this.whitelist := whitelist;
      this.compression := compression;
      this.decompress := decompress;
      buckets := map[];
      data := None;
      dataPerIP := map[];
    }

    /** Handles one datagram, updating the buckets in place and publishing on completion. */
    method OnDatagram(arrival: Arrival)
      modifies this
      ensures State() == Step(Settings(), old(State()), arrival)
    {
      ghost var before := State();
      var addr := arrival.addr;
      if !Admits(whitelist, addr.ip) {
        return;
      }
      var h := ParseDatagram(arrival.bytes);
      if addr !in buckets {
        buckets := buckets[addr := map[]];
      }
      var bucket: Bucket;
      if h.sequence !in buckets[addr] {
        bucket := Bucket(map[h.index := h.payload], Some(h.count));
      } else {
        bucket := buckets[addr][h.sequence];
        bucket := bucket.(chunks := bucket.chunks[h.index := h.payload]);
      }
      if bucket.len.None? {
        bucket := bucket.(len := Some(h.count));
      }
      var peer: map<nat, Bucket> := buckets[addr][h.sequence := bucket];
      buckets := buckets[addr := peer];
      assert bucket == FileChunk(PeerOf(before, addr), h) && peer == PeerOf(before, addr)[h.sequence := bucket];
      ghost var filed := State();
      assert filed == before.(buckets := before.buckets[addr := peer]);
      if |bucket.chunks| == bucket.len.value {
        CompleteSequence(addr, h.sequence);
      }
      StepAfterFiling(Settings(), before, arrival, bucket, filed);
    }

    /** The completion branch of the loop body, for sequence `s` of `addr`. */
    method CompleteSequence(addr: Addr, s: nat)
      requires addr in buckets && s in buckets[addr]
      modifies this
      ensures State() == Complete(Settings(), old(State()), addr, s)
    {
      ghost var before := State();
      var bucket := buckets[addr][s];
      bucket := bucket.(len := None);
      var peer: map<nat, Bucket> := buckets[addr][s := bucket];
      var joined := Reassemble(bucket.chunks);
      peer := KeepFrom(peer, s);
      var out := joined;
      if compression {
        match decompress(joined)
        case Some(plain) => out := plain;
        case None =>
      }
      assert out == Publish(Settings(), joined);
      buckets := buckets[addr := peer];
      data := Some(out);
      dataPerIP := dataPerIP[addr.ip := out];
      assert State() == ReceiverState(before.buckets[addr := peer], Some(out), before.dataPerIP[addr.ip := out]);
    }

    /** The receive loop, with `recvfrom` replaced by a finite list of arrivals. */
    method Run(feed: seq<Arrival>)
      modifies this
      ensures State() == Deliver(Settings(), old(State()), feed)
    {
      var i := 0;
      while i < |feed|
        invariant 0 <= i <= |feed|
        invariant State() == Deliver(Settings(), old(State()), feed[..i])
      {
        OnDatagram(feed[i]);
        assert feed[..i + 1][..i] == feed[..i];
        i := i + 1;
      }
      assert feed[..|feed|] == feed;
    }

    /** `last(IP)`: the global result for no IP or the empty one, otherwise that IP's result if any. */
    function Last(ip: Option<IP>): (r: Option<seq<byte>>)
      reads this
      ensures (ip.None? || ip == Some("")) ==> r == data
      ensures ip.Some? && ip.value != "" ==>
        (r.Some? <==> ip.value in dataPerIP) && (r.Some? ==> r.value == dataPerIP[ip.value])
    {
      Latest(State(), ip)
    }
  }
}
