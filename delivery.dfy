/**
  What the receive loop makes of whole feeds of datagrams: the whitelist,
  the separation of peers, filing and completion of a bucket, the quirks of
  the completion test, and the end-to-end round trip from `send` to `last`
  when the datagrams of one call arrive in any order.
*/
module Delivery {
  import opened Wrappers
  import opened Bytes
  import opened Wire
  import opened Chunking
  import opened Ordering
  import opened Fragmenter
  import opened Reassembler

  // ---------------------------------------------------------------------------
  // Whitelist and peers

  /**
    The arrivals the whitelist lets through, in order: exactly the admitted
    arrivals of the feed, and the whole feed when every arrival is admitted.
  */
  function Admitted(whitelist: seq<IP>, feed: seq<Arrival>): (r: seq<Arrival>)
    ensures |r| <= |feed|
    ensures forall i :: 0 <= i < |r| ==> Admits(whitelist, r[i].addr.ip)
    ensures forall a :: a in r <==> a in feed && Admits(whitelist, a.addr.ip)
    ensures (forall i :: 0 <= i < |feed| ==> Admits(whitelist, feed[i].addr.ip)) ==> r == feed
    decreases |feed|
  {
    if |feed| == 0 then []
    else
      var last := feed[|feed| - 1];
      Admitted(whitelist, feed[..|feed| - 1]) + (if Admits(whitelist, last.addr.ip) then [last] else [])
  }

  /** Filtering a feed is filtering its parts, in order: the whitelist never reorders arrivals. */
  lemma {:induction false} AdmittedAppend(whitelist: seq<IP>, feed: seq<Arrival>, more: seq<Arrival>)
    ensures Admitted(whitelist, feed + more) == Admitted(whitelist, feed) + Admitted(whitelist, more)
    decreases |more|
  {
    if |more| > 0 {
      var init := more[..|more| - 1];
      var last := more[|more| - 1];
      assert (feed + more)[..|feed + more| - 1] == feed + init;
      AdmittedAppend(whitelist, feed, init);
    } else {
      assert feed + more == feed;
    }
  }

  /** A single arrival is kept exactly when its source is admitted. */
  lemma AdmittedOne(whitelist: seq<IP>, arrival: Arrival)
    ensures Admitted(whitelist, [arrival]) == if Admits(whitelist, arrival.addr.ip) then [arrival] else []
  {
    assert [arrival][..0] == [];
  }

  /**
    The header's total-length word plays no part in the loop: two datagrams
    that differ only in their first four bytes have the same effect.
  */
  lemma TotalIgnored(cfg: Config, st: ReceiverState, addr: Addr, first: seq<byte>, other: seq<byte>, rest: seq<byte>)
    requires |first| == 4 && |other| == 4
    ensures Step(cfg, st, Arrival(addr, first + rest)) == Step(cfg, st, Arrival(addr, other + rest))
  {
    TotalOnlyInFirstWord(first, other, rest);
  }

  /**
    Datagrams from sources outside the whitelist leave no trace: the loop
    ends where it would have ended on the admitted datagrams alone, and a
    feed with nothing admitted leaves the state as it was.
  */
  lemma {:induction false} WhitelistFilters(cfg: Config, st: ReceiverState, feed: seq<Arrival>)
    ensures Deliver(cfg, st, feed) == Deliver(cfg, st, Admitted(cfg.whitelist, feed))
    ensures Admitted(cfg.whitelist, feed) == [] ==> Deliver(cfg, st, feed) == st
    ensures (forall i :: 0 <= i < |feed| ==> !Admits(cfg.whitelist, feed[i].addr.ip)) ==> Deliver(cfg, st, feed) == st
    decreases |feed|
  {
    if |feed| > 0 {
      var init := feed[..|feed| - 1];
      var last := feed[|feed| - 1];
      WhitelistFilters(cfg, st, init);
      var kept := Admitted(cfg.whitelist, init);
      if Admits(cfg.whitelist, last.addr.ip) {
        assert (kept + [last])[..|kept|] == kept;
      } else {
        assert kept + [] == kept;
      }
    }
  }

  /** Datagrams from other addresses never touch a peer's buckets (a peer is an IP and a port). */
  lemma {:induction false} PeerUntouched(cfg: Config, st: ReceiverState, feed: seq<Arrival>, other: Addr)
    requires forall i :: 0 <= i < |feed| ==> feed[i].addr != other
    ensures PeerOf(Deliver(cfg, st, feed), other) == PeerOf(st, other)
    decreases |feed|
  {
    if |feed| > 0 {
      PeerUntouched(cfg, st, feed[..|feed| - 1], other);
    }
  }

  // ---------------------------------------------------------------------------
  // Filing and completion

  /**
    A sequence's first datagram completes it on its own exactly when it
    announces one chunk. A bucket recording a count of 0 never completes,
    since it always holds at least the chunk that created it.
  */
  lemma CompletionNeedsCount(peer: map<nat, Bucket>, h: Header)
    ensures h.sequence !in peer ==> (IsFull(FileChunk(peer, h)) <==> h.count == 1)
    ensures IsFull(FileChunk(peer, h)) ==> FileChunk(peer, h).len.value > 0
  {
    var b := FileChunk(peer, h);
    assert h.index in b.chunks;
  }

  /**
    A datagram that leaves its bucket short of the recorded count only files
    its chunk: the slot for its index holds its payload (a duplicate
    overwrites the earlier copy), the bucket keeps the count first recorded
    for it, the peer's other sequences stay as they were, and nothing is
    published.
  */
  lemma FilingWithoutCompletion(cfg: Config, st: ReceiverState, arrival: Arrival)
    requires Admits(cfg.whitelist, arrival.addr.ip)
    requires !IsFull(FileChunk(PeerOf(st, arrival.addr), ParseDatagram(arrival.bytes)))
    ensures var h := ParseDatagram(arrival.bytes);
      var peer := PeerOf(st, arrival.addr);
      var after := Step(cfg, st, arrival);
      var known := h.sequence in peer;
      && after.data == st.data
      && after.dataPerIP == st.dataPerIP
      && PeerOf(after, arrival.addr).Keys == peer.Keys + {h.sequence}
      && (forall s :: s in peer && s != h.sequence ==> PeerOf(after, arrival.addr)[s] == peer[s])
      && PeerOf(after, arrival.addr)[h.sequence].chunks ==
           (if known then peer[h.sequence].chunks else map[])[h.index := h.payload]
      && PeerOf(after, arrival.addr)[h.sequence].len ==
           Some(if known && peer[h.sequence].len.Some? then peer[h.sequence].len.value else h.count)
  {
    var h := ParseDatagram(arrival.bytes);
    var peer := PeerOf(st, arrival.addr);
    var b := FileChunk(peer, h);
    var filed := st.(buckets := st.buckets[arrival.addr := peer[h.sequence := b]]);
    StepAfterFiling(cfg, st, arrival, b, filed);
    assert PeerOf(filed, arrival.addr) == peer[h.sequence := b];
  }

  /**
    A datagram that fills its bucket publishes the chunks joined in index
    order (decompressed if configured), both as the latest payload and as
    the latest payload from the sender's IP.
  */
  lemma CompletionPublishes(cfg: Config, st: ReceiverState, arrival: Arrival)
    requires Admits(cfg.whitelist, arrival.addr.ip)
    requires IsFull(FileChunk(PeerOf(st, arrival.addr), ParseDatagram(arrival.bytes)))
    ensures var b := FileChunk(PeerOf(st, arrival.addr), ParseDatagram(arrival.bytes));
      var out := Publish(cfg, Reassemble(b.chunks));
      && Step(cfg, st, arrival).data == Some(out)
      && Step(cfg, st, arrival).dataPerIP == st.dataPerIP[arrival.addr.ip := out]
  {
    var h := ParseDatagram(arrival.bytes);
    var peer := PeerOf(st, arrival.addr);
    var b := FileChunk(peer, h);
    var filed := st.(buckets := st.buckets[arrival.addr := peer[h.sequence := b]]);
    StepAfterFiling(cfg, st, arrival, b, filed);
  }

  /**
    A datagram that fills its bucket keeps that bucket without its count and
    drops exactly the peer's sequences below the completed one; the later
    ones, and every other peer, stay untouched.
  */
  lemma CompletionPrunes(cfg: Config, st: ReceiverState, arrival: Arrival)
    requires Admits(cfg.whitelist, arrival.addr.ip)
    requires IsFull(FileChunk(PeerOf(st, arrival.addr), ParseDatagram(arrival.bytes)))
    ensures var h := ParseDatagram(arrival.bytes);
      var peer := PeerOf(st, arrival.addr);
      var kept := PeerOf(Step(cfg, st, arrival), arrival.addr);
      && (forall s :: s in kept <==> (s in peer || s == h.sequence) && s >= h.sequence)
      && kept[h.sequence] == Bucket(FileChunk(peer, h).chunks, None)
      && (forall s :: s in kept && s != h.sequence ==> kept[s] == peer[s])
    ensures forall a :: a != arrival.addr ==> PeerOf(Step(cfg, st, arrival), a) == PeerOf(st, a)
  {
    var h := ParseDatagram(arrival.bytes);
    var peer := PeerOf(st, arrival.addr);
    CompletedPeer(cfg, st, arrival);
    var done := peer[h.sequence := FileChunk(peer, h).(len := None)];
    assert PeerOf(Step(cfg, st, arrival), arrival.addr) == Prune(done, h.sequence);
    StepKeepsOtherPeers(cfg, st, arrival);
  }

  /** On completion, the completing peer's map is the pruned map with the count popped. */
  lemma CompletedPeer(cfg: Config, st: ReceiverState, arrival: Arrival)
    requires Admits(cfg.whitelist, arrival.addr.ip)
    requires IsFull(FileChunk(PeerOf(st, arrival.addr), ParseDatagram(arrival.bytes)))
    ensures var h := ParseDatagram(arrival.bytes);
      var peer := PeerOf(st, arrival.addr);
      PeerOf(Step(cfg, st, arrival), arrival.addr) ==
        Prune(peer[h.sequence := FileChunk(peer, h).(len := None)], h.sequence)
  {
    var h := ParseDatagram(arrival.bytes);
    var peer := PeerOf(st, arrival.addr);
    var b := FileChunk(peer, h);
    var filed := st.(buckets := st.buckets[arrival.addr := peer[h.sequence := b]]);
    StepAfterFiling(cfg, st, arrival, b, filed);
    var done := peer[h.sequence := b.(len := None)];
    assert filed.buckets[arrival.addr][h.sequence := filed.buckets[arrival.addr][h.sequence].(len := None)] == done;
  }

  /** One datagram changes the buckets of its own peer only. */
  lemma StepKeepsOtherPeers(cfg: Config, st: ReceiverState, arrival: Arrival)
    ensures forall a :: a != arrival.addr ==> PeerOf(Step(cfg, st, arrival), a) == PeerOf(st, a)
  {
    forall a | a != arrival.addr
      ensures PeerOf(Step(cfg, st, arrival), a) == PeerOf(st, a)
    {
      PeerUntouched(cfg, st, [arrival], a);
      assert [arrival][..0] == [];
    }
  }

  /**
    A completed bucket stays behind without its count. A late copy of one of
    its chunks writes the count back and, bringing no new index, completes
    the bucket again: the payload is published a second time.
  */
  lemma LateDuplicateRepublishes(cfg: Config, st: ReceiverState, arrival: Arrival, chunks: map<nat, seq<byte>>)
    requires Admits(cfg.whitelist, arrival.addr.ip)
    requires ParseDatagram(arrival.bytes).sequence in PeerOf(st, arrival.addr)
    requires PeerOf(st, arrival.addr)[ParseDatagram(arrival.bytes).sequence] == Bucket(chunks, None)
    requires ParseDatagram(arrival.bytes).index in chunks
    requires ParseDatagram(arrival.bytes).count == |chunks|
    ensures var h := ParseDatagram(arrival.bytes);
      var again := chunks[h.index := h.payload];
      var out := Publish(cfg, Reassemble(again));
      var after := Step(cfg, st, arrival);
      && FileChunk(PeerOf(st, arrival.addr), h) == Bucket(again, Some(|chunks|))
      && IsFull(FileChunk(PeerOf(st, arrival.addr), h))
      && after.data == Some(out)
      && after.dataPerIP == st.dataPerIP[arrival.addr.ip := out]
      && PeerOf(after, arrival.addr)[h.sequence] == Bucket(again, None)
  {
    var h := ParseDatagram(arrival.bytes);
    assert FileChunk(PeerOf(st, arrival.addr), h) == Bucket(chunks[h.index := h.payload], Some(|chunks|));
    CompletionPublishes(cfg, st, arrival);
    CompletionPrunes(cfg, st, arrival);
  }

  /**
    Completion counts distinct chunk indices; it does not check that they
    are `0, ..., count-1`. A bucket expecting two chunks completes on indices
    0 and 5 and joins them in index order.
  */
  lemma CountNotCoverage()
    ensures IsFull(Bucket(map[0 := [1], 5 := [2]], Some(2)))
    ensures Reassemble(map[0 := [1], 5 := [2]]) == [1, 2]
  {
    var chunks: map<nat, seq<byte>> := map[0 := [1], 5 := [2]];
    assert chunks.Keys == {0, 5};
    var order := SortedKeys(chunks.Keys);
    assert order[0] in {0, 5} && order[1] in {0, 5};
    assert order == [0, 5];
    assert Gather(chunks, order) == [[1], [2]];
    assert Concat([[2]]) == [2];
  }

  // ---------------------------------------------------------------------------
  // One transmission, delivered in any order

  /** Datagram `k` of `ds` carries chunk `k` of `parts` under `sequence` and announces `|ds|` chunks. */
  predicate Carries(ds: seq<seq<byte>>, parts: seq<seq<byte>>, sequence: nat) {
    && |ds| == |parts|
    && forall k :: 0 <= k < |ds| ==>
         ParseDatagram(ds[k]).sequence == sequence && ParseDatagram(ds[k]).index == k &&
         ParseDatagram(ds[k]).count == |ds| && ParseDatagram(ds[k]).payload == parts[k]
  }

  /** `order` lists each of `0, ..., n-1` exactly once. */
  predicate IsPermutation(order: seq<nat>, n: nat) {
    && |order| == n
    && (forall i :: 0 <= i < n ==> order[i] < n)
    && (forall i, j :: 0 <= i < j < n ==> order[i] != order[j])
    && (forall k :: 0 <= k < n ==> k in order)
  }

  /** The datagrams of `ds` as they arrive from `addr`, in the order `order`. */
  function Shuffled(addr: Addr, ds: seq<seq<byte>>, order: seq<nat>): (feed: seq<Arrival>)
    requires forall i :: 0 <= i < |order| ==> order[i] < |ds|
    ensures |feed| == |order|
    ensures forall i :: 0 <= i < |order| ==> feed[i] == Arrival(addr, ds[order[i]])
  {
    seq(|order|, i requires 0 <= i < |order| => Arrival(addr, ds[order[i]]))
  }

  /**
    The chunks filed after the first `j` arrivals. With no index repeated,
    there are `j` of them.
  */
  function Collected(parts: seq<seq<byte>>, order: seq<nat>, j: nat): (m: map<nat, seq<byte>>)
    requires j <= |order|
    requires forall i :: 0 <= i < |order| ==> order[i] < |parts|
    ensures forall k :: k in m ==> k < |parts| && m[k] == parts[k]
    ensures forall i :: 0 <= i < j ==> order[i] in m
    ensures forall k :: k in m ==> k in order[..j]
    ensures (forall a, b :: 0 <= a < b < j ==> order[a] != order[b]) ==> |m| == j
  {
    if j == 0 then map[]
    else
      var before := Collected(parts, order, j - 1);
      assert forall k :: k in order[..j - 1] ==> k in order[..j];
      before[order[j - 1] := parts[order[j - 1]]]
  }

  /** The state with `chunks` filed for sequence `s` of `addr` and the count `n` recorded. */
  function Filed(st: ReceiverState, addr: Addr, s: nat, chunks: map<nat, seq<byte>>, n: nat): ReceiverState {
    st.(buckets := st.buckets[addr := PeerOf(st, addr)[s := Bucket(chunks, Some(n))]])
  }

  /** The scenario of the round trip: one transmission, shuffled, to a receiver that admits it and has no bucket for it yet. */
  predicate Scenario(cfg: Config, st: ReceiverState, addr: Addr, ds: seq<seq<byte>>,
                     parts: seq<seq<byte>>, s: nat, order: seq<nat>) {
    && Admits(cfg.whitelist, addr.ip)
    && Carries(ds, parts, s)
    && s !in PeerOf(st, addr)
    && IsPermutation(order, |ds|)
  }

  /** The state after the first `j` arrivals of the scenario. */
  function Stage(cfg: Config, st: ReceiverState, addr: Addr, parts: seq<seq<byte>>,
                 s: nat, order: seq<nat>, j: nat): ReceiverState
    requires j <= |order| == |parts|
    requires forall i :: 0 <= i < |order| ==> order[i] < |parts|
  {
    var filed := Filed(st, addr, s, Collected(parts, order, j), |parts|);
    if j == 0 then st
    else if j < |parts| then filed
    else Complete(cfg, filed, addr, s)
  }

  /** The `j`-th arrival of the scenario files its chunk next to the ones collected so far. */
  lemma FilingCollects(peer: map<nat, Bucket>, parts: seq<seq<byte>>, s: nat, order: seq<nat>, j: nat, h: Header)
    requires IsPermutation(order, |parts|)
    requires j < |order|
    requires s !in peer
    requires h.sequence == s && h.index == order[j] && h.count == |parts| && h.payload == parts[order[j]]
    ensures var current := if j == 0 then peer else peer[s := Bucket(Collected(parts, order, j), Some(|parts|))];
      FileChunk(current, h) == Bucket(Collected(parts, order, j + 1), Some(|parts|))
  {
    if j == 0 {
      assert Collected(parts, order, 1) == map[order[0] := parts[order[0]]];
    }
  }

  /** Filing into the bucket of an already filed sequence replaces that bucket. */
  lemma Refiling(st: ReceiverState, addr: Addr, s: nat, chunks: map<nat, seq<byte>>,
                 again: map<nat, seq<byte>>, n: nat)
    ensures var before := Filed(st, addr, s, chunks, n);
      before.(buckets := before.buckets[addr := PeerOf(before, addr)[s := Bucket(again, Some(n))]])
        == Filed(st, addr, s, again, n)
  {
    var before := Filed(st, addr, s, chunks, n);
    var peer: map<nat, Bucket> := PeerOf(st, addr);
    assert PeerOf(before, addr) == peer[s := Bucket(chunks, Some(n))];
    assert peer[s := Bucket(chunks, Some(n))][s := Bucket(again, Some(n))] == peer[s := Bucket(again, Some(n))];
    assert before.buckets[addr := peer[s := Bucket(again, Some(n))]] == st.buckets[addr := peer[s := Bucket(again, Some(n))]];
  }

  /** One arrival of the scenario moves the state from one stage to the next. */
  lemma StageStep(cfg: Config, st: ReceiverState, addr: Addr, ds: seq<seq<byte>>,
                  parts: seq<seq<byte>>, s: nat, order: seq<nat>, j: nat)
    requires Scenario(cfg, st, addr, ds, parts, s, order)
    requires j < |order|
    ensures Step(cfg, Stage(cfg, st, addr, parts, s, order, j), Arrival(addr, ds[order[j]]))
         == Stage(cfg, st, addr, parts, s, order, j + 1)
  {
    var n := |parts|;
    var arrival := Arrival(addr, ds[order[j]]);
    var h := ParseDatagram(ds[order[j]]);
    assert h.sequence == s && h.index == order[j] && h.count == n && h.payload == parts[order[j]];
    var next := Collected(parts, order, j + 1);
    var before := Stage(cfg, st, addr, parts, s, order, j);
    var peer := PeerOf(before, addr);
    var b := Bucket(next, Some(n));
    FilingCollects(PeerOf(st, addr), parts, s, order, j, h);
    if j > 0 {
      assert before == Filed(st, addr, s, Collected(parts, order, j), n);
      Refiling(st, addr, s, Collected(parts, order, j), next, n);
    }
    assert b == FileChunk(peer, h);
    var filed := before.(buckets := before.buckets[addr := peer[s := b]]);
    assert filed == Filed(st, addr, s, next, n);
    assert IsFull(b) <==> j + 1 == n;
    StepAfterFiling(cfg, before, arrival, b, filed);
  }

  /** After the first `j` arrivals the loop is at stage `j`. */
  lemma {:induction false} StagesReached(cfg: Config, st: ReceiverState, addr: Addr, ds: seq<seq<byte>>,
                                         parts: seq<seq<byte>>, s: nat, order: seq<nat>, j: nat)
    requires Scenario(cfg, st, addr, ds, parts, s, order)
    requires j <= |order|
    ensures Deliver(cfg, st, Shuffled(addr, ds, order)[..j]) == Stage(cfg, st, addr, parts, s, order, j)
  {
    var feed := Shuffled(addr, ds, order);
    if j > 0 {
      StagesReached(cfg, st, addr, ds, parts, s, order, j - 1);
      DeliverOneMore(cfg, st, feed, j - 1);
      StageStep(cfg, st, addr, ds, parts, s, order, j - 1);
    }
  }

  /** Handling one more arrival is one more step of the loop. */
  lemma DeliverOneMore(cfg: Config, st: ReceiverState, feed: seq<Arrival>, j: nat)
    requires j < |feed|
    ensures Deliver(cfg, st, feed[..j + 1]) == Step(cfg, Deliver(cfg, st, feed[..j]), feed[j])
  {
    assert feed[..j + 1][..j] == feed[..j];
  }

  /** Once every index has arrived, the collected chunks are the whole transmission, filed by index. */
  lemma CollectedAll(parts: seq<seq<byte>>, order: seq<nat>)
    requires IsPermutation(order, |parts|)
    ensures Collected(parts, order, |parts|) == Indexed(parts)
  {
    FiledByIndex(Collected(parts, order, |parts|), parts, order);
  }

  /** A chunk map holding every index that `order` lists, each with its own chunk, is `Indexed(parts)`. */
  lemma FiledByIndex(all: map<nat, seq<byte>>, parts: seq<seq<byte>>, order: seq<nat>)
    requires IsPermutation(order, |parts|)
    requires forall k :: k in all ==> k < |parts| && all[k] == parts[k]
    requires forall i :: 0 <= i < |parts| ==> order[i] in all
    ensures all == Indexed(parts)
  {
    var n := |parts|;
    var indexed := Indexed(parts);
    assert all.Keys == indexed.Keys by {
      forall k | k in indexed
        ensures k in all
      {
        assert k in order;
        var i :| 0 <= i < n && order[i] == k;
      }
    }
  }

  /** Before the last arrival of the scenario nothing is published. */
  lemma EarlyStage(cfg: Config, st: ReceiverState, addr: Addr, parts: seq<seq<byte>>,
                   s: nat, order: seq<nat>, j: nat)
    requires IsPermutation(order, |parts|)
    requires j < |parts|
    ensures Stage(cfg, st, addr, parts, s, order, j).data == st.data
    ensures Stage(cfg, st, addr, parts, s, order, j).dataPerIP == st.dataPerIP
  {
  }

  /** At the last arrival the chunks are joined in index order and published. */
  lemma FinalStage(cfg: Config, st: ReceiverState, addr: Addr, parts: seq<seq<byte>>,
                   s: nat, order: seq<nat>)
    requires IsPermutation(order, |parts|)
    requires |parts| > 0
    ensures var out := Publish(cfg, Concat(parts));
      && Stage(cfg, st, addr, parts, s, order, |parts|).data == Some(out)
      && Stage(cfg, st, addr, parts, s, order, |parts|).dataPerIP == st.dataPerIP[addr.ip := out]
  {
    CollectedAll(parts, order);
    ReassembleInOrder(parts);
  }

  /** Nothing of the scenario is published, globally or per IP, before its last arrival. */
  lemma EarlyDelivery(cfg: Config, st: ReceiverState, addr: Addr, ds: seq<seq<byte>>,
                      parts: seq<seq<byte>>, s: nat, order: seq<nat>, j: nat)
    requires Scenario(cfg, st, addr, ds, parts, s, order)
    requires j < |order|
    ensures Deliver(cfg, st, Shuffled(addr, ds, order)[..j]).data == st.data
    ensures Deliver(cfg, st, Shuffled(addr, ds, order)[..j]).dataPerIP == st.dataPerIP
  {
    StagesReached(cfg, st, addr, ds, parts, s, order, j);
    EarlyStage(cfg, st, addr, parts, s, order, j);
  }

  /**
    However the datagrams of one transmission are reordered, nothing is
    published before the last of them arrives, and then the chunks are
    joined in index order and published, globally and for the sender's IP.
  */
  lemma ShuffledDelivery(cfg: Config, st: ReceiverState, addr: Addr, ds: seq<seq<byte>>,
                         parts: seq<seq<byte>>, s: nat, order: seq<nat>)
    requires Scenario(cfg, st, addr, ds, parts, s, order)
    ensures forall j :: 0 <= j < |order| ==>
      Deliver(cfg, st, Shuffled(addr, ds, order)[..j]).data == st.data &&
      Deliver(cfg, st, Shuffled(addr, ds, order)[..j]).dataPerIP == st.dataPerIP
    ensures |order| > 0 ==>
      var end := Deliver(cfg, st, Shuffled(addr, ds, order));
      var out := Publish(cfg, Concat(parts));
      end.data == Some(out) && end.dataPerIP == st.dataPerIP[addr.ip := out]
  {
    var n := |order|;
    var feed := Shuffled(addr, ds, order);
    forall j | 0 <= j < n
      ensures Deliver(cfg, st, feed[..j]).data == st.data
      ensures Deliver(cfg, st, feed[..j]).dataPerIP == st.dataPerIP
    {
      EarlyDelivery(cfg, st, addr, ds, parts, s, order, j);
    }
    if n > 0 {
      FinalDelivery(cfg, st, addr, ds, parts, s, order);
    }
  }

  /** After the last arrival of the scenario the whole transmission is published. */
  lemma FinalDelivery(cfg: Config, st: ReceiverState, addr: Addr, ds: seq<seq<byte>>,
                      parts: seq<seq<byte>>, s: nat, order: seq<nat>)
    requires Scenario(cfg, st, addr, ds, parts, s, order)
    requires |order| > 0
    ensures var end := Deliver(cfg, st, Shuffled(addr, ds, order));
      var out := Publish(cfg, Concat(parts));
      end.data == Some(out) && end.dataPerIP == st.dataPerIP[addr.ip := out]
  {
    var feed := Shuffled(addr, ds, order);
    StagesReached(cfg, st, addr, ds, parts, s, order, |order|);
    assert feed[..|order|] == feed;
    FinalStage(cfg, st, addr, parts, s, order);
  }

  /**
    The round trip of the protocol: every datagram one successful `send`
    emits, delivered once each in any order from an admitted address to a
    receiver with no bucket yet for that sequence, makes `last()` and
    `last(ip)` return the payload, decompressed when the receiver is so
    configured. A send that emits no datagram (an empty payload or a
    negative chunk size) publishes nothing, since the feed is empty.
  */
  lemma RoundTrip(cfg: Config, st: ReceiverState, addr: Addr, payload: seq<byte>,
                  sequence: nat, chunkSize: int, order: seq<nat>)
    requires Admits(cfg.whitelist, addr.ip)
    requires Transmission(payload, sequence, chunkSize).Some?
    requires |Transmission(payload, sequence, chunkSize).value| > 0
    requires sequence !in PeerOf(st, addr)
    requires IsPermutation(order, |Transmission(payload, sequence, chunkSize).value|)
    ensures var end := Deliver(cfg, st, Shuffled(addr, Transmission(payload, sequence, chunkSize).value, order));
      && Latest(end, None) == Some(Publish(cfg, payload))
      && Latest(end, Some(addr.ip)) == Some(Publish(cfg, payload))
  {
    var ds := Transmission(payload, sequence, chunkSize).value;
    TransmissionLayout(payload, sequence, chunkSize);
    assert chunkSize > 0;
    var parts := Slices(payload, chunkSize);
    assert Carries(ds, parts, sequence);
    ShuffledDelivery(cfg, st, addr, ds, parts, sequence, order);
    ConcatSlices(payload, chunkSize);
  }

  /**
    Sender and receiver together: with matching compression settings, and a
    decompressor that inverts the compressor on this payload, the receiver
    ends up with exactly the bytes given to `send`.
  */
  lemma SendThenReceive(cfg: Config, st: ReceiverState, addr: Addr, compression: bool,
                        compress: seq<byte> -> seq<byte>, data: seq<byte>,
                        sequence: nat, chunkSize: int, order: seq<nat>)
    requires cfg.compression == compression
    requires compression ==> cfg.decompress(compress(data)) == Some(data)
    requires Admits(cfg.whitelist, addr.ip)
    requires Transmission(Prepared(compression, compress, data), sequence, chunkSize).Some?
    requires |Transmission(Prepared(compression, compress, data), sequence, chunkSize).value| > 0
    requires sequence !in PeerOf(st, addr)
    requires IsPermutation(order, |Transmission(Prepared(compression, compress, data), sequence, chunkSize).value|)
    ensures var ds := Transmission(Prepared(compression, compress, data), sequence, chunkSize).value;
      var end := Deliver(cfg, st, Shuffled(addr, ds, order));
      Latest(end, None) == Some(data) && Latest(end, Some(addr.ip)) == Some(data)
  {
    RoundTrip(cfg, st, addr, Prepared(compression, compress, data), sequence, chunkSize, order);
  }
}
