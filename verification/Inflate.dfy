/** zlib's streaming decompressor, as far as its callers can see it. The format itself is abstract: a codec
    says what a prefix of a stream decodes to and which prefixes are complete. */
module Inflater {
  import opened Bytes

  /** `dec(p)` is what can be decoded from the stream prefix `p`; `ended(p)` says that `p` is a whole stream. */
  datatype Codec = Codec(dec: seq<byte> -> seq<byte>, ended: seq<byte> -> bool)

  /** More input only adds output, and no stream is the beginning of another one. */
  ghost predicate Streaming(c: Codec) {
    && (forall a, b :: a <= b ==> c.dec(a) <= c.dec(b))
    && (forall a, b :: a <= b && c.ended(a) && c.ended(b) ==> a == b)
    && c.dec([]) == [] && !c.ended([])
  }

  /** A whole stream; its last byte belongs to the checksum that ends it (RFC 1950, section 2.2) and adds no output. */
  ghost predicate IsStream(c: Codec, s: seq<byte>) {
    c.ended(s) && |s| > 0 && c.dec(s[..|s| - 1]) == c.dec(s)
  }

  /** A whole stream of a well-behaved codec. */
  ghost predicate IsCoded(c: Codec, s: seq<byte>) {
    Streaming(c) && IsStream(c, s)
  }

  /** z_stream: the input consumed since inflateInit, and how much output was handed out. */
  datatype Strm = Strm(fed: seq<byte>, produced: nat)

  const FRESH := Strm([], 0)

  datatype Status = OK | STREAM_END | BUF_ERROR

  /** `s` is somewhere inside stream `whole`, and has handed out everything if it is at its end. */
  ghost predicate Inside(c: Codec, s: Strm, whole: seq<byte>) {
    && s.fed <= whole && s.produced <= |c.dec(s.fed)|
    && (s.fed == whole ==> s.produced == |c.dec(whole)|)
  }

  /** One inflate call with flush Z_SYNC_FLUSH: hands out the next bytes of the stream, and stops only when
      the input is used up, the room is filled, or the stream ends. */
  method Inflate(c: Codec, s: Strm, input: seq<byte>, room: nat, ghost whole: seq<byte>)
    returns (t: Strm, out: seq<byte>, status: Status)
    requires Streaming(c) && IsStream(c, whole) && Inside(c, s, whole)
    requires s.fed + input <= whole || whole <= s.fed + input
    ensures Inside(c, t, whole) && s.fed <= t.fed <= s.fed + input
    ensures t.produced == s.produced + |out| <= |c.dec(whole)| && |out| <= room
    ensures out == c.dec(whole)[s.produced..t.produced]
    ensures status == STREAM_END <==> t.fed == whole
    ensures status == OK ==> |t.fed| - |s.fed| == |input| || |out| == room
    ensures status == BUF_ERROR ==> |input| == 0 || room == 0
  {
    var fed, used := s.fed, 0;
    assert c.dec(fed) <= c.dec(whole);
    while used < |input| && !c.ended(fed) && |c.dec(fed)| - s.produced < room
      invariant used <= |input| && fed == s.fed + input[..used] && fed <= whole
      invariant s.produced <= |c.dec(fed)|
      invariant c.ended(fed) ==> fed == whole
      invariant fed == whole ==> fed == s.fed || |c.dec(whole)| - s.produced < room
    {
      ghost var before := fed;
      assert fed != whole;
      fed := fed + [input[used]];
      used := used + 1;
      assert c.dec(before) <= c.dec(fed);
      assert s.fed + input[..used] <= s.fed + input;
      assert fed <= whole;
      if fed == whole {
        assert before == whole[..|whole| - 1];
      }
    }
    assert c.dec(fed) <= c.dec(whole);
    var made := Min(room, |c.dec(fed)| - s.produced);
    out := c.dec(fed)[s.produced..s.produced + made];
    t := Strm(fed, s.produced + made);
    status := if c.ended(fed) then STREAM_END else if used == 0 && made == 0 then BUF_ERROR else OK;
  }
}
