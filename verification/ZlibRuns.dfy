/** The layout of an HFS+ compressed file: a table of runs of 64 KiB, each a zlib stream or stored plain
    behind one marker byte (src/HFSZlibReader.cpp). */
module ZlibRuns {
  import opened Bytes
  import opened BlockAdvice
  import opened Inflater

  const RUN_LENGTH := 64 * 1024

  /** The bytes the table points into, its (offset, length) entries, and the size of the decoded file. */
  datatype Layout = Layout(parent: seq<byte>, offsets: seq<(nat, nat)>, codec: Codec, size: nat)

  function RunCount(size: nat): nat {
    (size + RUN_LENGTH - 1) / RUN_LENGTH
  }

  function RunLength(size: nat, k: nat): nat
    requires k < RunCount(size)
  {
    Min(RUN_LENGTH, size - k * RUN_LENGTH)
  }

  ghost predicate HasRun(l: Layout, k: nat) {
    && k < |l.offsets| && l.offsets[k].1 > 0
    && l.offsets[k].0 + l.offsets[k].1 <= |l.parent|
  }

  ghost function Compressed(l: Layout, k: nat): (c: seq<byte>)
    requires HasRun(l, k)
    ensures |c| == l.offsets[k].1 > 0
  {
    l.parent[l.offsets[k].0..l.offsets[k].0 + l.offsets[k].1]
  }

  /** Marker of a stored run. A zlib stream starts with a byte whose low nibble is 8 (RFC 1950, section 2.2). */
  predicate Marker(b: byte) {
    (b as int) % 0x10 == 0xf
  }

  ghost predicate Stored(l: Layout, k: nat)
    requires HasRun(l, k)
  {
    Marker(Compressed(l, k)[0])
  }

  ghost function Plain(l: Layout, k: nat): seq<byte>
    requires HasRun(l, k)
  {
    if Stored(l, k) then Compressed(l, k)[1..] else l.codec.dec(Compressed(l, k))
  }

  ghost predicate RunOk(l: Layout, k: nat)
    requires k < RunCount(l.size)
  {
    && HasRun(l, k) && (!Stored(l, k) ==> IsStream(l.codec, Compressed(l, k)))
    && |Plain(l, k)| == RunLength(l.size, k)
  }

  ghost predicate LayoutOk(l: Layout) {
    Streaming(l.codec) && forall k: nat | k < RunCount(l.size) :: RunOk(l, k)
  }

  /** `flat` is the decoded file: run after run. */
  ghost predicate IsDecoded(l: Layout, flat: seq<byte>) {
    && LayoutOk(l) && |flat| == l.size
    && forall k: nat | k < RunCount(l.size) && RunOk(l, k) ::
         flat[k * RUN_LENGTH..k * RUN_LENGTH + RunLength(l.size, k)] == Plain(l, k)
  }

  ghost predicate NoneStored(l: Layout) {
    LayoutOk(l) && forall k: nat | k < RunCount(l.size) && HasRun(l, k) :: !Stored(l, k)
  }

  /** Bytes inside run `k` of the decoded file. */
  lemma BytesOfRun(l: Layout, flat: seq<byte>, k: nat, from: nat, n: nat)
    requires IsDecoded(l, flat) && k < RunCount(l.size) && from + n <= RunLength(l.size, k)
    ensures HasRun(l, k) && |Plain(l, k)| == RunLength(l.size, k)
    ensures k * RUN_LENGTH + from + n <= |flat|
    ensures flat[k * RUN_LENGTH + from..k * RUN_LENGTH + from + n] == Plain(l, k)[from..from + n]
  {
    hide Plain, IsStream, Streaming, Stored;
    assert RunOk(l, k);
    PieceOfSlice(flat, k * RUN_LENGTH, RunLength(l.size, k), from, n);
  }

  /** What stands where in a decoded file, by the first byte `16 * h + n` of each run: behind `k` times 65536 bytes, up
      to the next multiple or the end of the file, the bytes behind that byte when `n` is 15, and what the codec makes
      of all the run's bytes for every other `n`, as for a zlib stream, where `n` is 8. */
  lemma RunsShown(l: Layout, flat: seq<byte>, k: nat, h: nat, n: nat)
    requires IsDecoded(l, flat) && k * 0x10000 < l.size && n < 16
    ensures |flat| == l.size && k < |l.offsets| && l.offsets[k].1 > 0 && l.offsets[k].0 + l.offsets[k].1 <= |l.parent|
    ensures var start := l.offsets[k].0;
            var c := l.parent[start..start + l.offsets[k].1];
            l.parent[start] == 16 * h + n ==>
              flat[k * 0x10000..Min((k + 1) * 0x10000, l.size)] == if n == 15 then c[1..] else l.codec.dec(c)
  {
    hide Streaming, IsStream;
    assert k < RunCount(l.size);
    assert RunOk(l, k);
  }

  /** So there is only one. */
  lemma DecodedUnique(l: Layout, a: seq<byte>, b: seq<byte>)
    requires IsDecoded(l, a) && IsDecoded(l, b)
    ensures a == b
  {
    hide IsDecoded, IsStream;
    DecodedSize(l, a);
    DecodedSize(l, b);
    forall i | 0 <= i < l.size
      ensures a[i] == b[i]
    {
      var k := i / RUN_LENGTH;
      RunOfByte(l.size, i);
      BytesOfRun(l, a, k, i % RUN_LENGTH, 1);
      BytesOfRun(l, b, k, i % RUN_LENGTH, 1);
      assert a[i] == a[i..i + 1][0] && b[i] == b[i..i + 1][0];
    }
  }

  lemma DecodedSize(l: Layout, flat: seq<byte>)
    requires IsDecoded(l, flat)
    ensures |flat| == l.size
  {
  }

  /** The run that holds a byte. */
  lemma RunOfByte(size: nat, offset: nat)
    requires offset < size
    ensures var k := offset / RUN_LENGTH;
            && k < RunCount(size) && k * RUN_LENGTH + offset % RUN_LENGTH == offset
            && offset % RUN_LENGTH < RunLength(size, k)
  {
  }

  /** HFSZlibReader::adviseOptimalBlock: the whole run. */
  function RunAdvice(size: nat, offset: nat): (nat, nat) {
    (offset - offset % RUN_LENGTH, Min(offset - offset % RUN_LENGTH + RUN_LENGTH, size))
  }

  lemma RunAdviceIsGood(size: nat, offset: nat)
    requires offset < size
    ensures var a := RunAdvice(size, offset);
            InRange(a, offset, size) && EndAligned(a.0, a.1, size) && a.0 % RUN_LENGTH == 0 && a.1 - a.0 <= RUN_LENGTH
            && (a.1 == a.0 + RUN_LENGTH || a.1 == size)
  {
    var k := offset / RUN_LENGTH;
    assert offset - offset % RUN_LENGTH == k * RUN_LENGTH ;
  }
}
