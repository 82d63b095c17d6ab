/**
  The datagram layout shared by the sender and the receiver: four 4-byte
  words (total length, sequence, chunk index, chunk count) followed by the
  chunk bytes. The sender packs with native-order `"I"`; the receiver reads
  little-endian, so the model takes the host to be little-endian.
*/
module Wire {
  import opened Bytes

  const HEADER_SIZE: nat := 16

  /** A parsed datagram: the four header words and the payload behind them. */
  datatype Header = Header(total: nat, sequence: nat, index: nat, count: nat, payload: seq<byte>)

  /** Whether every header word of `h` can be packed into 4 bytes. */
  predicate Packable(h: Header) {
    Fits(h.total) && Fits(h.sequence) && Fits(h.index) && Fits(h.count)
  }

  /** The bytes the sender hands to `sendto` for one chunk. */
  function EncodeDatagram(h: Header): (d: seq<byte>)
    requires Packable(h)
    ensures |d| == HEADER_SIZE + |h.payload|
    ensures d[HEADER_SIZE..] == h.payload
  {
    Word(h.total) + Word(h.sequence) + Word(h.index) + Word(h.count) + h.payload
  }

  /**
    The receiver's reading of a datagram. Slices past the end are clamped,
    so a datagram shorter than the header is not rejected: its missing
    words read as 0 and its payload is empty.
  */
  function ParseDatagram(d: seq<byte>): (h: Header)
    ensures Fits(h.total) && Fits(h.sequence) && Fits(h.index) && Fits(h.count)
    ensures |d| >= HEADER_SIZE ==> h.payload == d[HEADER_SIZE..]
    ensures |d| <= HEADER_SIZE ==> h.payload == []
  {
    ShortReadFits(Window(d, 0, 4));
    ShortReadFits(Window(d, 4, 8));
    ShortReadFits(Window(d, 8, 12));
    ShortReadFits(Window(d, 12, 16));
    Header(
      FromLittleEndian(Window(d, 0, 4)),
      FromLittleEndian(Window(d, 4, 8)),
      FromLittleEndian(Window(d, 8, 12)),
      FromLittleEndian(Window(d, 12, 16)),
      d[Min(HEADER_SIZE, |d|)..])
  }

  /**
    The first word of a datagram, the total length, influences nothing else
    the receiver parses: two datagrams that differ only in it parse to the
    same sequence, index, count and payload.
  */
  lemma TotalOnlyInFirstWord(first: seq<byte>, other: seq<byte>, rest: seq<byte>)
    requires |first| == 4 && |other| == 4
    ensures ParseDatagram(first + rest) == ParseDatagram(other + rest).(total := ParseDatagram(first + rest).total)
  {
    var d, e := first + rest, other + rest;
    assert d[4..] == rest == e[4..];
    SameWindowPastFirst(first, other, rest, 4);
    SameWindowPastFirst(first, other, rest, 8);
    SameWindowPastFirst(first, other, rest, 12);
    assert Window(d, 4, 8) == Window(e, 4, 8);
    assert Window(d, 8, 12) == Window(e, 8, 12);
    assert Window(d, 12, 16) == Window(e, 12, 16);
    assert d[Min(HEADER_SIZE, |d|)..] == e[Min(HEADER_SIZE, |e|)..];
  }

  /** Past the first word, two datagrams with the same tail read the same bytes. */
  lemma SameWindowPastFirst(first: seq<byte>, other: seq<byte>, rest: seq<byte>, lo: nat)
    requires |first| == 4 && |other| == 4 && 4 <= lo
    ensures Window(first + rest, lo, lo + 4) == Window(other + rest, lo, lo + 4)
  {
    var d, e := first + rest, other + rest;
    assert d[Min(lo, |d|)..Min(lo + 4, |d|)] == rest[Min(lo, |d|) - 4..Min(lo + 4, |d|) - 4];
    assert e[Min(lo, |e|)..Min(lo + 4, |e|)] == rest[Min(lo, |e|) - 4..Min(lo + 4, |e|) - 4];
  }

  /** Parsing an encoded datagram gives back exactly the header words and the chunk. */
  lemma ParseEncode(h: Header)
    requires Packable(h)
    ensures ParseDatagram(EncodeDatagram(h)) == h
  {
    var d := EncodeDatagram(h);
    assert Window(d, 0, 4) == Word(h.total);
    assert Window(d, 4, 8) == Word(h.sequence);
    assert Window(d, 8, 12) == Word(h.index);
    assert Window(d, 12, 16) == Word(h.count);
  }

  /** Parsing then re-encoding a datagram of at least 16 bytes reproduces it. */
  lemma EncodeParse(d: seq<byte>)
    requires |d| >= HEADER_SIZE
    ensures Packable(ParseDatagram(d))
    ensures EncodeDatagram(ParseDatagram(d)) == d
  {
    var h := ParseDatagram(d);
    WordAt(d, 0);
    WordAt(d, 4);
    WordAt(d, 8);
    WordAt(d, 12);
    assert d[0..8] == d[0..4] + d[4..8];
    assert d[0..12] == d[0..8] + d[8..12];
    assert d[0..16] == d[0..12] + d[12..16];
    assert d == d[0..16] + d[16..];
  }

  /** The header word read at offset `lo` packs back to the four bytes it was read from. */
  lemma WordAt(d: seq<byte>, lo: nat)
    requires lo + 4 <= |d|
    ensures Window(d, lo, lo + 4) == d[lo..lo + 4]
    ensures Fits(FromLittleEndian(d[lo..lo + 4]))
    ensures Word(FromLittleEndian(d[lo..lo + 4])) == d[lo..lo + 4]
  {
    ShortReadFits(d[lo..lo + 4]);
    LittleEndianInverse(d[lo..lo + 4]);
  }

  /**
    A datagram shorter than the header reads as zero words from the point
    where its bytes run out: up to 12 bytes give a chunk count of 0, up to 8
    a chunk index of 0, up to 4 a sequence of 0.
  */
  lemma ShortDatagram(d: seq<byte>)
    requires |d| < HEADER_SIZE
    ensures ParseDatagram(d).payload == []
    ensures |d| <= 12 ==> ParseDatagram(d).count == 0
    ensures |d| <= 8 ==> ParseDatagram(d).index == 0
    ensures |d| <= 4 ==> ParseDatagram(d).sequence == 0
    ensures |d| == 0 ==> ParseDatagram(d).total == 0
  {
  }
}
