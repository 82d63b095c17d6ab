/**
  `sendWrapper`: the framing used on stream sockets, where one message is
  a 4-byte length prefix followed by the message bytes.
*/
module Framing {
  import opened Wrappers
  import opened Bytes

  /** The bytes handed to `sendall`, or None when `struct.pack("I", ...)` refuses the length. */
  function Frame(data: seq<byte>): (r: Option<seq<byte>>)
    ensures r.Some? <==> Fits(|data|)
    ensures r.Some? ==> |r.value| == |data| + 4
    ensures r.Some? ==> FromLittleEndian(r.value[..4]) == |data| && r.value[4..] == data
  {
    if Fits(|data|) then Some(Word(|data|) + data) else None
  }

  /**
    In a stream that starts with a frame, the prefix says exactly how many
    bytes follow for this message: taking them gives the message back and
    leaves the rest of the stream untouched.
  */
  lemma FrameDelimits(data: seq<byte>, rest: seq<byte>)
    requires Fits(|data|)
    ensures var stream := Frame(data).value + rest;
      var n := FromLittleEndian(stream[..4]);
      && 4 + n <= |stream|
      && stream[4..4 + n] == data
      && stream[4 + n..] == rest
  {
    var f := Frame(data).value;
    var stream := f + rest;
    assert stream[..4] == f[..4];
    assert stream[4..4 + |data|] == f[4..];
    assert stream[4 + |data|..] == rest;
  }
}
