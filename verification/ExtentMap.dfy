/** The flat file that a list of extents describes (src/HFSFork.cpp). */
module ExtentMap {
  import opened Bytes
  import opened ExtentsOverflow

  function Blocks(es: seq<Extent>): nat {
    if es == [] then 0 else es[0].blockCount + Blocks(es[1..])
  }

  lemma {:induction false} BlocksAppend(a: seq<Extent>, b: seq<Extent>)
    ensures Blocks(a + b) == Blocks(a) + Blocks(b)
  {
    if a == [] {
      assert a + b == b;
    } else {
      assert (a + b)[1..] == a[1..] + b;
      BlocksAppend(a[1..], b);
    }
  }

  lemma BlocksUpTo(es: seq<Extent>, i: nat)
    requires i < |es|
    ensures Blocks(es[..i + 1]) == Blocks(es[..i]) + es[i].blockCount
    ensures Blocks(es[..i + 1]) <= Blocks(es)
  {
    assert es[..i + 1] == es[..i] + [es[i]];
    BlocksAppend(es[..i], [es[i]]);
    assert Blocks([es[i]]) == es[i].blockCount + Blocks([es[i]][1..]);
    assert es == es[..i + 1] + es[i + 1..];
    BlocksAppend(es[..i + 1], es[i + 1..]);
  }

  ghost predicate InVolume(volume: seq<byte>, blockSize: nat, e: Extent) {
    e.startBlock * blockSize + e.blockCount * blockSize <= |volume|
  }

  ghost predicate AllInVolume(volume: seq<byte>, blockSize: nat, es: seq<Extent>) {
    forall e | e in es :: InVolume(volume, blockSize, e)
  }

  ghost function ExtentBytes(volume: seq<byte>, blockSize: nat, e: Extent): (b: seq<byte>)
    requires InVolume(volume, blockSize, e)
    ensures |b| == e.blockCount * blockSize
  {
    volume[e.startBlock * blockSize..e.startBlock * blockSize + e.blockCount * blockSize]
  }

  /** The extents' bytes, one extent behind the other. */
  ghost function ForkBytes(volume: seq<byte>, blockSize: nat, es: seq<Extent>): (b: seq<byte>)
    requires AllInVolume(volume, blockSize, es)
    ensures |b| == Blocks(es) * blockSize
  {
    if es == [] then []
    else
      Distribute(es[0].blockCount, Blocks(es[1..]), blockSize);
      ExtentBytes(volume, blockSize, es[0]) + ForkBytes(volume, blockSize, es[1..])
  }

  lemma Distribute(a: nat, b: nat, c: nat)
    ensures (a + b) * c == a * c + b * c
  {
  }

  lemma {:induction false} ForkBytesAppend(volume: seq<byte>, blockSize: nat, a: seq<Extent>, b: seq<Extent>)
    requires AllInVolume(volume, blockSize, a + b)
    ensures AllInVolume(volume, blockSize, a) && AllInVolume(volume, blockSize, b)
    ensures ForkBytes(volume, blockSize, a + b) == ForkBytes(volume, blockSize, a) + ForkBytes(volume, blockSize, b)
  {
    assert forall e | e in a :: e in a + b;
    assert forall e | e in b :: e in a + b;
    if a == [] {
      assert a + b == b;
    } else {
      assert (a + b)[1..] == a[1..] + b;
      ForkBytesAppend(volume, blockSize, a[1..], b);
    }
  }

  /** The flat file is the extents before extent `i`, then its own bytes, then the rest. */
  lemma SplitAtExtent(volume: seq<byte>, blockSize: nat, es: seq<Extent>, i: nat) returns (a: seq<byte>, c: seq<byte>)
    requires AllInVolume(volume, blockSize, es) && i < |es|
    ensures InVolume(volume, blockSize, es[i])
    ensures |a| == Blocks(es[..i]) * blockSize
    ensures ForkBytes(volume, blockSize, es) == a + (ExtentBytes(volume, blockSize, es[i]) + c)
  {
    hide ExtentBytes, InVolume, Blocks;
    assert es[i] in es;
    var x, y := es[..i], es[i..];
    assert es == x + y;
    ForkBytesAppend(volume, blockSize, x, y);
    a := ForkBytes(volume, blockSize, x);
    assert y[0] == es[i];
    c := ForkBytes(volume, blockSize, y[1..]);
  }

  /** Bytes of extent `i` are bytes of the flat file, behind those of the extents before it. */
  lemma BytesOfExtent(volume: seq<byte>, blockSize: nat, es: seq<Extent>, flat: seq<byte>,
                      i: nat, from: nat, n: nat, at: nat, v: nat)
    requires AllInVolume(volume, blockSize, es) && flat == ForkBytes(volume, blockSize, es)
    requires i < |es| && from + n <= es[i].blockCount * blockSize
    requires at == Blocks(es[..i]) * blockSize + from && v == es[i].startBlock * blockSize + from
    ensures v + n <= |volume| && at + n <= |flat|
    ensures flat[at..at + n] == volume[v..v + n]
  {
    hide AllInVolume;
    var a, c := SplitAtExtent(volume, blockSize, es, i);
    PieceOfFlat(volume, blockSize, es[i], a, c, from, n);
  }

  lemma PieceOfFlat(volume: seq<byte>, blockSize: nat, e: Extent, a: seq<byte>, c: seq<byte>, from: nat, n: nat)
    requires InVolume(volume, blockSize, e) && from + n <= e.blockCount * blockSize
    ensures var x := ExtentBytes(volume, blockSize, e);
            (a + (x + c))[|a| + from..|a| + from + n]
            == volume[e.startBlock * blockSize + from..e.startBlock * blockSize + from + n]
  {
    var start, length := e.startBlock * blockSize, e.blockCount * blockSize;
    PieceOfSlice(volume, start, length, from, n);
    PieceOfMiddle(a, ExtentBytes(volume, blockSize, e), c, from, n);
  }

  lemma PieceOfMiddle(a: seq<byte>, x: seq<byte>, c: seq<byte>, from: nat, n: nat)
    requires from + n <= |x|
    ensures (a + (x + c))[|a| + from..|a| + from + n] == x[from..from + n]
  {
  }

  /** `offset / blockSize < blocks` says that the byte at `offset` lies in the first `blocks` blocks. */
  lemma BlockOfByte(offset: nat, blockSize: nat, blocks: nat)
    requires blockSize > 0
    ensures offset / blockSize < blocks <==> offset < blocks * blockSize
  {
    var q, r := offset / blockSize, offset % blockSize;
    assert offset == q * blockSize + r;
    if q < blocks {
      MulLe(q + 1, blocks, blockSize);
      Distribute(q, 1, blockSize);
    } else {
      MulLe(blocks, q, blockSize);
    }
  }

  lemma MulLe(a: nat, b: nat, c: nat)
    requires a <= b
    ensures a * c <= b * c
  {
    Distribute(a, b - a, c);
  }

  /** One extent further in the file. */
  lemma StepBytes(es: seq<Extent>, i: nat, blockSize: nat)
    requires i < |es|
    ensures Blocks(es[..i + 1]) * blockSize == Blocks(es[..i]) * blockSize + es[i].blockCount * blockSize
    ensures Blocks(es[..i + 1]) * blockSize <= Blocks(es) * blockSize
  {
    hide Blocks;
    BlocksUpTo(es, i);
    Distribute(Blocks(es[..i]), es[i].blockCount, blockSize);
    MulLe(Blocks(es[..i + 1]), Blocks(es), blockSize);
  }

  lemma Positive(a: nat, b: nat)
    requires a > 0 && b > 0
    ensures a * b > 0
  {
  }

  ghost predicate NoneEmpty(es: seq<Extent>) {
    forall e | e in es :: e.blockCount > 0
  }

  /** The descriptors of a fork record that are in use (HFSFork's constructor). */
  function InUse(descriptors: seq<Extent>): (es: seq<Extent>)
    ensures NoneEmpty(es) && |es| <= |descriptors|
  {
    if descriptors == [] then []
    else
      var last := descriptors[|descriptors| - 1];
      InUse(descriptors[..|descriptors| - 1]) + (if last.blockCount > 0 then [last] else [])
  }

  /** How many of the first `i` descriptors are in use. */
  ghost function Used(descriptors: seq<Extent>, i: nat): nat
    requires i <= |descriptors|
  {
    if i == 0 then 0 else Used(descriptors, i - 1) + (if descriptors[i - 1].blockCount > 0 then 1 else 0)
  }

  lemma {:induction false} InUseAppend(a: seq<Extent>, b: seq<Extent>)
    ensures InUse(a + b) == InUse(a) + InUse(b)
    decreases |b|
  {
    if b == [] {
      assert a + b == a;
    } else {
      var front := b[..|b| - 1];
      assert (a + b)[..|a + b| - 1] == a + front;
      InUseAppend(a, front);
    }
  }

  /** Leaving out the empty descriptors leaves out no blocks. */
  lemma {:induction false} InUseBlocks(descriptors: seq<Extent>)
    ensures Blocks(InUse(descriptors)) == Blocks(descriptors)
  {
    if descriptors != [] {
      var front, last := descriptors[..|descriptors| - 1], descriptors[|descriptors| - 1];
      assert descriptors == front + [last];
      InUseBlocks(front);
      BlocksAppend(front, [last]);
      BlocksAppend(InUse(front), if last.blockCount > 0 then [last] else []);
      assert Blocks([last]) == last.blockCount + Blocks([last][1..]);
    }
  }

  lemma {:induction false} InUseSize(descriptors: seq<Extent>, i: nat)
    requires i <= |descriptors|
    ensures |InUse(descriptors[..i])| == Used(descriptors, i)
  {
    if i > 0 {
      InUseSize(descriptors, i - 1);
      TakeTake(descriptors, i - 1);
    }
  }

  /** A descriptor in use stands behind those in use before it, and no other is there. */
  lemma InUseAt(descriptors: seq<Extent>, i: nat)
    requires i < |descriptors| && descriptors[i].blockCount > 0
    ensures |InUse(descriptors)| == Used(descriptors, |descriptors|)
    ensures var k, es := Used(descriptors, i), InUse(descriptors);
            k < |es| && es[k] == descriptors[i] && Blocks(es[..k]) == Blocks(descriptors[..i])
  {
    hide Blocks, InUse, Used;
    var a, d, b := descriptors[..i], [descriptors[i]], descriptors[i + 1..];
    assert descriptors == a + (d + b);
    InUseAppend(a, d + b);
    InUseAppend(d, b);
    InUseOne(descriptors[i]);
    InUseSize(descriptors, i);
    InUseSize(descriptors, |descriptors|);
    assert descriptors[..|descriptors|] == descriptors;
    Third(InUse(descriptors), InUse(a), descriptors[i], InUse(b));
    InUseBlocks(a);
  }

  lemma InUseOne(e: Extent)
    requires e.blockCount > 0
    ensures InUse([e]) == [e]
  {
    assert [e][..0] == [];
  }

  lemma Third(es: seq<Extent>, a: seq<Extent>, e: Extent, b: seq<Extent>)
    requires es == a + ([e] + b)
    ensures |a| < |es| && es[|a|] == e && es[..|a|] == a
  {
  }

  /** When the empty descriptors come last, the extents are the others as they stand. */
  lemma {:induction false} InUsePrefix(descriptors: seq<Extent>, n: nat)
    requires n <= |descriptors|
    requires forall i | 0 <= i < |descriptors| :: descriptors[i].blockCount > 0 <==> i < n
    ensures InUse(descriptors) == descriptors[..n]
  {
    if descriptors != [] {
      var front := descriptors[..|descriptors| - 1];
      InUsePrefix(front, Min(n, |front|));
    }
  }

  /** Block `b` of the flat file is block `at` of the volume, as far as the file goes. */
  ghost predicate ShowsBlock(flat: seq<byte>, volume: seq<byte>, blockSize: nat, b: nat, at: nat) {
    forall p: nat, v: nat |
      b * blockSize <= p < b * blockSize + blockSize && p < |flat| && v == at * blockSize + (p - b * blockSize) ::
      v < |volume| && flat[p] == volume[v]
  }

  /** From block `first` on, the flat file shows the blocks of an extent one after the other. */
  ghost predicate ShowsExtent(flat: seq<byte>, volume: seq<byte>, blockSize: nat, first: nat, e: Extent) {
    forall b: nat, at: nat | first <= b < first + e.blockCount && at == e.startBlock + (b - first) ::
      ShowsBlock(flat, volume, blockSize, b, at)
  }

  /** Each descriptor's blocks stand behind those of the descriptors before it. */
  ghost predicate ShowsExtents(flat: seq<byte>, volume: seq<byte>, blockSize: nat, es: seq<Extent>) {
    forall i | 0 <= i < |es| :: ShowsExtent(flat, volume, blockSize, Blocks(es[..i]), es[i])
  }

  lemma ForkShows(volume: seq<byte>, blockSize: nat, es: seq<Extent>, flat: seq<byte>)
    requires AllInVolume(volume, blockSize, es) && flat <= ForkBytes(volume, blockSize, es)
    ensures ShowsExtents(flat, volume, blockSize, es)
  {
    hide AllInVolume, ForkBytes, Blocks, ShowsBlock;
    forall i | 0 <= i < |es|
      ensures ShowsExtent(flat, volume, blockSize, Blocks(es[..i]), es[i])
    {
      var first := Blocks(es[..i]);
      forall b: nat, at: nat | first <= b < first + es[i].blockCount && at == es[i].startBlock + (b - first)
        ensures ShowsBlock(flat, volume, blockSize, b, at)
      {
        BlockShown(volume, blockSize, es, flat, i, b, at);
      }
    }
  }

  lemma BlockShown(volume: seq<byte>, blockSize: nat, es: seq<Extent>, flat: seq<byte>, i: nat, b: nat, at: nat)
    requires AllInVolume(volume, blockSize, es) && flat <= ForkBytes(volume, blockSize, es)
    requires i < |es| && Blocks(es[..i]) <= b < Blocks(es[..i]) + es[i].blockCount
    requires at == es[i].startBlock + (b - Blocks(es[..i]))
    ensures ShowsBlock(flat, volume, blockSize, b, at)
  {
    hide AllInVolume, ForkBytes, Blocks;
    forall p: nat, v: nat |
      b * blockSize <= p < b * blockSize + blockSize && p < |flat| && v == at * blockSize + (p - b * blockSize)
      ensures v < |volume| && flat[p] == volume[v]
    {
      ForkByte(volume, blockSize, es, flat, i, b, at, p - b * blockSize, p, v);
    }
  }

  /** Byte `j` of block `b`. */
  lemma ForkByte(volume: seq<byte>, blockSize: nat, es: seq<Extent>, flat: seq<byte>, i: nat, b: nat, at: nat, j: nat,
                 p: nat, v: nat)
    requires AllInVolume(volume, blockSize, es) && flat <= ForkBytes(volume, blockSize, es)
    requires i < |es| && Blocks(es[..i]) <= b < Blocks(es[..i]) + es[i].blockCount
    requires at == es[i].startBlock + (b - Blocks(es[..i])) && p < |flat|
    requires j < blockSize && p == b * blockSize + j && v == at * blockSize + j
    ensures v < |volume| && flat[p] == volume[v]
  {
    hide AllInVolume, ForkBytes, Blocks;
    var first, c, whole := Blocks(es[..i]), b - Blocks(es[..i]), ForkBytes(volume, blockSize, es);
    Distribute(first, c, blockSize);
    Distribute(es[i].startBlock, c, blockSize);
    Distribute(c, 1, blockSize);
    MulLe(c + 1, es[i].blockCount, blockSize);
    BytesOfExtent(volume, blockSize, es, whole, i, c * blockSize + j, 1, p, v);
    assert whole[p] == whole[p..p + 1][0] && volume[v] == volume[v..v + 1][0];
  }

  /** A fork whose extents start with those of its record shows the record's descriptors, whichever are empty. */
  lemma RecordShows(volume: seq<byte>, blockSize: nat, descriptors: seq<Extent>, full: seq<Extent>, flat: seq<byte>)
    requires InUse(descriptors) <= full && ShowsExtents(flat, volume, blockSize, full)
    ensures ShowsExtents(flat, volume, blockSize, descriptors)
  {
    hide InUse, Blocks, ShowsBlock, Used;
    var es := InUse(descriptors);
    forall i | 0 <= i < |descriptors| && descriptors[i].blockCount > 0
      ensures ShowsExtent(flat, volume, blockSize, Blocks(descriptors[..i]), descriptors[i])
    {
      InUseAt(descriptors, i);
      var k := Used(descriptors, i);
      assert full[..k] == es[..k];
      assert ShowsExtent(flat, volume, blockSize, Blocks(full[..k]), full[k]);
    }
  }

  /** `full` is the list of all extents of a fork: those of its record when they hold the whole file; else
      those eight, followed by the ones the overflow tree has for the block they end at. */
  ghost predicate IsFullList(inline: seq<Extent>, full: seq<Extent>, rs: seq<Record>, cnid: nat, resourceFork: bool,
                             logicalSize: nat, blockSize: nat) {
    && Blocks(full) * blockSize >= logicalSize
    && if Blocks(inline) * blockSize >= logicalSize then full == inline
       else
         && |inline| == 8 && cnid != 0 && inline <= full && full != inline
         && Lookup(rs, cnid, resourceFork, Blocks(inline)) == Ok(full[|inline|..])
  }

  /** The flat file of an opened fork, in terms of its record's eight descriptors, empty ones anywhere among them: it
      shows their blocks; when they are not enough they are all in use, and it goes on with the extents that the
      overflow records hold for the block where they end. */
  lemma ForkOfRecord(volume: seq<byte>, blockSize: nat, descriptors: seq<Extent>, full: seq<Extent>, rs: seq<Record>,
                     cnid: nat, resourceFork: bool, logicalSize: nat)
    requires AllInVolume(volume, blockSize, full) && |descriptors| == 8
    requires IsFullList(InUse(descriptors), full, rs, cnid, resourceFork, logicalSize, blockSize)
    ensures logicalSize <= |ForkBytes(volume, blockSize, full)|
    ensures var flat := ForkBytes(volume, blockSize, full)[..logicalSize];
            ShowsExtents(flat, volume, blockSize, full) && ShowsExtents(flat, volume, blockSize, descriptors)
    ensures if Blocks(descriptors) * blockSize >= logicalSize then Blocks(full) == Blocks(descriptors)
            else
              var found := Lookup(rs, cnid, resourceFork, Blocks(descriptors));
              found.Ok? && full == descriptors + found.value
  {
    hide AllInVolume, ForkBytes, Blocks, ShowsExtents, Lookup;
    var flat := ForkBytes(volume, blockSize, full)[..logicalSize];
    ForkShows(volume, blockSize, full, flat);
    RecordShows(volume, blockSize, descriptors, full, flat);
    InUseBlocks(descriptors);
    if Blocks(descriptors) * blockSize < logicalSize {
      AllInUse(descriptors);
    }
  }

  lemma AllInUse(descriptors: seq<Extent>)
    requires |InUse(descriptors)| == |descriptors|
    ensures InUse(descriptors) == descriptors
  {
    if descriptors != [] {
      AllInUse(descriptors[..|descriptors| - 1]);
    }
  }

  lemma NoBlocks(es: seq<Extent>)
    ensures Blocks(es[..0]) == 0
  {
  }
}
