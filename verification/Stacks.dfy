/** Putting readers on top of each other: which stacks a cache may sit on, and whole sessions of reads over
    stacks that share cache zones. */
module Stacks {
  import opened Bytes
  import opened CacheZones
  import opened BlockAdvice
  import opened Readers
  import RT = RunTable
  import ZR = ZlibRuns
  import EM = ExtentMap
  import EO = ExtentsOverflow
  import BT = BTrees
  import INF = Inflater
  import Adc
  import AW = AdcWindow

  // ---- Advice ----

  /** Every well-formed stack advises a range inside the file that contains the offset, so that the fetching
      loop of a cache above it never sees an illegal range and always gets on. */
  lemma {:induction false} AdviceContract(r: Reader, offset: nat)
    requires Wf(r) && offset < |Contents(r)|
    ensures InRange(Advise(r, offset), offset, |Contents(r)|)
    decreases Level(r)
  {
    hide RT.IsImage, ZR.IsDecoded, EM.IsFullList, EO.InOrder;
    match r {
      case FromSub(p, start, size) =>
        AdviceContract(p, start + offset);
      case FromPartition(p) =>
        PartitionAdvice(p, offset);
      case FromZlib(z) =>
        ZlibSize(z);
        ZR.RunAdviceIsGood(z.size, offset);
      case _ =>
        DefaultAdviceIsGood(|Contents(r)|, offset);
    }
  }

  lemma PartitionAdvice(p: DMGPartition, offset: nat)
    requires Wf(FromPartition(p)) && offset < |p.flat|
    ensures var i := RT.RunAt(p.table, offset / RT.SECTOR_SIZE);
            && p.Holds(i, offset) && RT.Real(p.table, i)
            && Advise(FromPartition(p), offset) == RT.RunAdvice(p.table, i, offset)
            && InRange(RT.RunAdvice(p.table, i, offset), offset, |p.flat|)
  {
    hide RT.IsImage, RT.Tiles;
    PartitionShape(p);
    PartitionSize(p);
    var i := RT.RunAt(p.table, offset / RT.SECTOR_SIZE);
    SectorCovered(p.table, offset / RT.SECTOR_SIZE);
    RT.TiledEnd(p.table, i);
    DefaultAdviceIsGood(|p.flat|, offset);
  }

  lemma SectorCovered(t: RT.Table, sector: nat)
    requires RT.Tiles(t) && sector < t.sectorCount
    ensures RT.Covered(t, sector)
  {
  }

  // ---- What a cache may sit on ----

  ghost predicate AdvisesByDefault(r: Reader) {
    r.FromMemory? || r.FromCache? || r.FromFork?
  }

  lemma DefaultIsCacheable(r: Reader)
    requires Wf(r) && AdvisesByDefault(r)
    ensures Cacheable(r) && RandomAccess(r)
  {
    hide Wf;
    forall offset: nat | offset < |Contents(r)|
      ensures GoodAdvice(Advise(r, offset), offset, |Contents(r)|)
    {
      DefaultAdviceIsGood(|Contents(r)|, offset);
    }
  }

  /** A compressed file may always be cached: it advises whole runs, and whole runs are multiples of a cache
      block or end the file. */
  lemma ZlibIsCacheable(z: HFSZlibReader)
    requires Wf(FromZlib(z))
    ensures Cacheable(FromZlib(z))
  {
    hide Wf;
    ZlibSize(z);
    forall offset: nat | offset < z.size
      ensures GoodAdvice(ZR.RunAdvice(z.size, offset), offset, z.size)
      ensures ZR.RunAdvice(z.size, offset).0 % ZR.RUN_LENGTH == 0
    {
      ZR.RunAdviceIsGood(z.size, offset);
    }
  }

  /** A partition may be cached exactly when its compressed runs end on cache blocks (or with the image, or
      without storing a block) and are not too long for one read. */
  lemma PartitionCacheableIff(p: DMGPartition)
    requires Wf(FromPartition(p))
    ensures Cacheable(FromPartition(p)) <==> RT.RunsEndAligned(p.table) && RunsNotTooLong(p.table)
  {
    hide Wf, RT.Tiles, RT.IsImage;
    var r := FromPartition(p);
    if RT.RunsEndAligned(p.table) && RunsNotTooLong(p.table) {
      forall offset: nat | offset < |p.flat|
        ensures var a := Advise(r, offset);
                GoodAdvice(a, offset, |p.flat|) && Serves(r, a.1 - a.0, a.0)
      {
        PartitionAdviceGood(p, offset);
      }
    }
    if Cacheable(r) {
      forall i: nat | RT.Real(p.table, i) && !RT.IsPlain(p.table.runs[i].kind)
        ensures CompressedRunGood(p.table, i)
      {
        PartitionRunGood(p, i);
      }
    }
  }

  ghost predicate RunsNotTooLong(t: RT.Table) {
    forall i: nat | RT.Real(t, i) && !RT.IsPlain(t.runs[i].kind) :: t.runs[i].sectorCount * RT.SECTOR_SIZE <= INT32_MAX
  }

  ghost predicate CompressedRunGood(t: RT.Table, i: nat)
    requires i < |t.runs|
  {
    && EndAligned(t.runs[i].sectorStart * RT.SECTOR_SIZE,
                  (t.runs[i].sectorStart + t.runs[i].sectorCount) * RT.SECTOR_SIZE, t.sectorCount * RT.SECTOR_SIZE)
    && t.runs[i].sectorCount * RT.SECTOR_SIZE <= INT32_MAX
  }

  lemma PartitionAdviceGood(p: DMGPartition, offset: nat)
    requires Wf(FromPartition(p)) && offset < |p.flat| && RT.RunsEndAligned(p.table) && RunsNotTooLong(p.table)
    ensures var a := Advise(FromPartition(p), offset);
            GoodAdvice(a, offset, |p.flat|) && Serves(FromPartition(p), a.1 - a.0, a.0)
  {
    hide Wf, RT.Tiles, RT.IsImage, EndAligned;
    PartitionAdvice(p, offset);
    PartitionSize(p);
    var i := RT.RunAt(p.table, offset / RT.SECTOR_SIZE);
    if RT.IsPlain(p.table.runs[i].kind) {
      DefaultAdviceIsGood(|p.flat|, offset);
      BlockServed(p, offset, i);
    } else {
      var start := p.table.runs[i].sectorStart * RT.SECTOR_SIZE;
      SameRunAtStart(p, offset, i);
    }
  }

  lemma SameRunAtStart(p: DMGPartition, offset: nat, i: nat)
    requires Wf(FromPartition(p)) && p.Holds(i, offset) && offset < |p.flat|
    ensures var s := p.table.runs[i].sectorStart;
            s * RT.SECTOR_SIZE < |p.flat| && RT.RunAt(p.table, s) == i && s * RT.SECTOR_SIZE / RT.SECTOR_SIZE == s
  {
    hide RT.IsImage, RT.Tiles;
    PartitionShape(p);
    PartitionSize(p);
    RT.TiledEnd(p.table, i);
    var s := p.table.runs[i].sectorStart;
    assert RT.InRun(p.table, i, s);
    assert RT.Covered(p.table, s);
    RT.SameRun(p.table, i, RT.RunAt(p.table, s), s);
  }

  /** The cache block of a byte in an uncompressed run does not start inside a compressed run: that run would end in
      the middle of the block. */
  lemma BlockServed(p: DMGPartition, offset: nat, i: nat)
    requires Wf(FromPartition(p)) && offset < |p.flat| && RT.RunsEndAligned(p.table)
    requires p.Holds(i, offset) && RT.IsPlain(p.table.runs[i].kind)
    ensures var start := RoundDown(offset);
            Serves(FromPartition(p), Min(BLOCK_SIZE, |p.flat| - start), start)
  {
    hide Wf, RT.IsImage, RT.Tiles, EndAligned;
    PartitionShape(p);
    PartitionSize(p);
    var start := RoundDown(offset);
    SectorCovered(p.table, start / RT.SECTOR_SIZE);
    var j := RT.RunAt(p.table, start / RT.SECTOR_SIZE);
    if p.table.runs[j].kind == RT.LZFSE {
      var e := p.table.runs[j].sectorStart + p.table.runs[j].sectorCount;
      if e > offset / RT.SECTOR_SIZE {
        RT.SameRun(p.table, i, j, offset / RT.SECTOR_SIZE);
      }
      EndsInBlock(p.table.runs[j].sectorStart * RT.SECTOR_SIZE, e * RT.SECTOR_SIZE, offset, |p.flat|);
    }
  }

  lemma EndsInBlock(start: nat, end: nat, offset: nat, length: nat)
    requires start <= RoundDown(offset) < end <= offset < length
    ensures !EndAligned(start, end, length)
  {
  }

  lemma PartitionRunGood(p: DMGPartition, i: nat)
    requires Wf(FromPartition(p)) && Cacheable(FromPartition(p)) && RT.Real(p.table, i)
    requires !RT.IsPlain(p.table.runs[i].kind)
    ensures CompressedRunGood(p.table, i)
  {
    hide RT.IsImage, RT.Tiles, EndAligned;
    PartitionShape(p);
    PartitionSize(p);
    RT.TiledEnd(p.table, i);
    var s := p.table.runs[i].sectorStart;
    var offset := s * RT.SECTOR_SIZE;
    assert offset / RT.SECTOR_SIZE == s;
    assert p.Holds(i, offset);
    SameRunAtStart(p, offset, i);
    assert Advise(FromPartition(p), offset) == RT.RunAdvice(p.table, i, offset);
  }

  predicate FitsTwoLookbacks(run: RT.Run) {
    run.sectorCount * RT.SECTOR_SIZE <= 0x20000
  }

  /** Runs of which every piece can be read. */
  predicate ReadsAnywhere(run: RT.Run) {
    run.kind != RT.LZFSE && (run.kind == RT.ADC ==> FitsTwoLookbacks(run))
  }

  /** A read that neither throws nor leaves bytes unwritten, whatever the buffer held. */
  ghost predicate Whole(p: DMGPartition, count: nat, offset: nat) {
    && !p.FailsAt(count, offset)
    && forall i: nat, inside: nat | 0 < count && p.InsideAt(offset, i, inside) ::
         RT.RunLost(p.table, p.codecs, Contents(p.disk), p.table.runs[i], inside, p.Share(i, inside, count)) == 0
  }

  /** A partition answers every read in full exactly when it has no LZFSE run and no ADC run is longer than two
      lookbacks; then, and only then, it also meets the condition that readers on top ask for. */
  lemma PartitionRandomAccessIff(p: DMGPartition)
    requires Wf(FromPartition(p))
    ensures RandomAccess(FromPartition(p)) <==> forall i: nat | RT.Real(p.table, i) :: ReadsAnywhere(p.table.runs[i])
    ensures (forall count: nat, offset: nat :: Whole(p, count, offset)) <==> RandomAccess(FromPartition(p))
  {
    hide Wf, RT.Tiles, RT.IsImage, Whole, RT.RunOk;
    PartitionShape(p);
    PartitionSize(p);
    if forall i: nat | RT.Real(p.table, i) :: ReadsAnywhere(p.table.runs[i]) {
      forall count: nat, offset: nat
        ensures Serves(FromPartition(p), count, offset) && Whole(p, count, offset)
      {
        if offset < |p.flat| {
          SectorCovered(p.table, offset / RT.SECTOR_SIZE);
        }
        ServedIsWhole(p, count, offset);
      }
    } else {
      var i: nat :| RT.Real(p.table, i) && !ReadsAnywhere(p.table.runs[i]);
      NotServed(p, i);
      NotWhole(p, i);
    }
  }

  /** A read of all but the first byte of a run. */
  ghost function TailOf(run: RT.Run): (nat, nat)
    requires run.sectorCount > 0
  {
    (run.sectorCount * RT.SECTOR_SIZE - 1, run.sectorStart * RT.SECTOR_SIZE + 1)
  }

  lemma TailInside(p: DMGPartition, i: nat)
    requires Wf(FromPartition(p)) && RT.Real(p.table, i)
    ensures p.table.runs[i].sectorCount > 0
    ensures var (count, offset) := TailOf(p.table.runs[i]);
            && count > 0 && offset < |p.flat| && p.InsideAt(offset, i, 1) && p.Share(i, 1, count) == count
  {
    hide RT.Tiles, RT.IsImage, RT.RunOk;
    PartitionShape(p);
    PartitionSize(p);
    RT.TiledEnd(p.table, i);
    var offset := p.table.runs[i].sectorStart * RT.SECTOR_SIZE + 1;
    assert p.Holds(i, offset);
    assert RT.Covered(p.table, offset / RT.SECTOR_SIZE);
    RT.SameRun(p.table, i, RT.RunAt(p.table, offset / RT.SECTOR_SIZE), offset / RT.SECTOR_SIZE);
    p.InsideThere(offset, i, 1);
  }

  lemma NotServed(p: DMGPartition, i: nat)
    requires Wf(FromPartition(p)) && RT.Real(p.table, i) && !ReadsAnywhere(p.table.runs[i])
    ensures !RandomAccess(FromPartition(p))
  {
    hide Wf, RT.RunOk;
    TailInside(p, i);
    var (count, offset) := TailOf(p.table.runs[i]);
    assert !Serves(FromPartition(p), count, offset);
  }

  lemma NotWhole(p: DMGPartition, i: nat)
    requires Wf(FromPartition(p)) && RT.Real(p.table, i) && !ReadsAnywhere(p.table.runs[i])
    ensures exists count: nat, offset: nat :: !Whole(p, count, offset)
  {
    hide Wf, RT.RunOk, RT.RunLost;
    TailInside(p, i);
    var (count, offset) := TailOf(p.table.runs[i]);
    if p.table.runs[i].kind == RT.LZFSE {
      assert p.FailsAt(count, offset);
    } else {
      LongRunLoses(p.table, p.codecs, Contents(p.disk), p.table.runs[i]);
    }
    assert !Whole(p, count, offset);
  }

  lemma LongRunLoses(t: RT.Table, c: RT.Codecs, d: seq<byte>, r: RT.Run)
    requires RT.RunOk(t, c, d, r) && r.kind == RT.ADC && r.sectorCount > 0 && !FitsTwoLookbacks(r)
    ensures RT.RunLost(t, c, d, r, 1, r.sectorCount * RT.SECTOR_SIZE - 1) == 1
  {
    hide Adc.IsStream, Adc.Whole, AW.FullWidth;
    AW.TailLost(RT.Payload(t, d, r), 1, r.sectorCount * RT.SECTOR_SIZE - 1);
  }

  lemma ServedIsWhole(p: DMGPartition, count: nat, offset: nat)
    requires Wf(FromPartition(p)) && Serves(FromPartition(p), count, offset)
    ensures Whole(p, count, offset)
  {
    hide Wf, RT.RunOk, RT.RunLost, RT.AdcServes, RT.Tiles, RT.IsImage;
    PartitionShape(p);
    PartitionSize(p);
    p.ServedShowsImage([], seq(count, _ => 0), 0, count, offset);
    forall i: nat, inside: nat | 0 < count && p.InsideAt(offset, i, inside)
      ensures RT.RunLost(p.table, p.codecs, Contents(p.disk), p.table.runs[i], inside, p.Share(i, inside, count)) == 0
    {
      p.InsideInImage(offset, i, inside);
      RT.ServedLosesNothing(p.table, p.codecs, Contents(p.disk), p.table.runs[i], inside, p.Share(i, inside, count));
    }
  }

  /** A view of part of a file may be cached exactly when it starts on a cache block of its parent, or lies
      inside one. */
  lemma SubCacheableIff(p: Reader, start: nat, size: nat)
    requires Wf(FromSub(p, start, size)) && AdvisesByDefault(p)
    ensures Cacheable(FromSub(p, start, size)) <==>
            start % BLOCK_SIZE == 0 || start % BLOCK_SIZE + size <= BLOCK_SIZE
  {
    hide Wf;
    var r := FromSub(p, start, size);
    SubContents(p, start, size);
    if start % BLOCK_SIZE == 0 || start % BLOCK_SIZE + size <= BLOCK_SIZE {
      forall offset: nat | offset < size
        ensures GoodAdvice(Advise(r, offset), offset, size)
      {
        SubAdviceGood(|Contents(p)|, start, size, offset);
      }
      SubServes(p, start, size);
    } else {
      assert !GoodAdvice(Advise(r, 0), 0, size);
    }
  }

  lemma SubServes(p: Reader, start: nat, size: nat)
    requires AdvisesByDefault(p)
    ensures RandomAccess(FromSub(p, start, size))
  {
  }

  lemma SubContents(p: Reader, start: nat, size: nat)
    requires Wf(FromSub(p, start, size))
    ensures start + size <= |Contents(p)| && |Contents(FromSub(p, start, size))| == size
  {
  }

  /** A view advises what its parent advises for the byte there, as far as it lies in the view. */
  lemma ViewAdvice(p: Reader, start: nat, size: nat, offset: nat, x: nat)
    ensures var (inView, inParent) := (Advise(FromSub(p, start, size), offset), Advise(p, start + offset));
            inView.0 <= x < inView.1 <==> x < size && inParent.0 <= start + x < inParent.1
  {
    hide RT.RunAdvice, ZR.RunAdvice, DefaultAdvice;
  }

  lemma SubAdviceGood(length: nat, start: nat, size: nat, offset: nat)
    requires start + size <= length && offset < size
    requires start % BLOCK_SIZE == 0 || start % BLOCK_SIZE + size <= BLOCK_SIZE
    ensures var (s, e) := DefaultAdvice(length, start + offset);
            && e >= start
            && GoodAdvice((if s < start then 0 else s - start, Min(e - start, size)), offset, size)
  {
  }

  /** A view of a view is a view. */
  lemma NestedViews(r: Reader, a: nat, n: nat, b: nat, m: nat)
    requires Wf(FromSub(FromSub(r, a, n), b, m))
    ensures Contents(FromSub(FromSub(r, a, n), b, m)) == Contents(FromSub(r, a + b, m))
    ensures |Contents(FromSub(r, a, n))| == n <= |Contents(r)| - a
    ensures forall i | 0 <= i < n :: Contents(FromSub(r, a, n))[i] == Contents(r)[a + i]
  {
    PieceOfSlice(Contents(r), a, n, b, m);
  }

  // ---- Sessions ----

  datatype Request = Request(reader: nat, count: nat, offset: nat)

  ghost predicate Ready(readers: seq<Reader>, objs: set<object>) {
    forall r | r in readers :: Wf(r) && Repr(r) <= objs
  }

  /** One read of a session. */
  method ReadOne(r: Reader, count: nat, offset: nat, ghost objs: set<object>) returns (out: seq<byte>)
    requires Wf(r) && Serves(r, count, offset) && Repr(r) <= objs && Sound(objs)
    modifies objs
    ensures Sound(objs)
    ensures out == Window(Contents(r), count, offset)
  {
    hide Wf, Contents, Window, Overwrite;
    SoundPart(Repr(r), objs);
    var buf := new byte[count];
    ghost var blank := buf[..];
    var res := ReadFrom(r, buf, 0, count, offset);
    OverwriteFront(blank, Window(Contents(r), count, offset));
    return buf[..res.value];
  }

  /** Any sequence of served reads, by any number of readers that may share zones, forks and decompressors: each one
      delivers the bytes of its reader's flat file, whatever was read before. */
  method Session(readers: seq<Reader>, requests: seq<Request>, ghost objs: set<object>) returns (outs: seq<seq<byte>>)
    requires Ready(readers, objs) && Sound(objs)
    requires forall q | q in requests :: q.reader < |readers| && Serves(readers[q.reader], q.count, q.offset)
    modifies objs
    ensures Sound(objs) && |outs| == |requests|
    ensures forall i | 0 <= i < |requests| ::
              outs[i] == Window(Contents(readers[requests[i].reader]), requests[i].count, requests[i].offset)
  {
    hide Sound, Wf, Contents, Window, Serves;
    outs := [];
    for i := 0 to |requests|
      invariant Sound(objs) && |outs| == i
      invariant forall j | 0 <= j < i ::
                  outs[j] == Window(Contents(readers[requests[j].reader]), requests[j].count, requests[j].offset)
    {
      var q := requests[i];
      var out := ReadOne(readers[q.reader], q.count, q.offset, objs);
      outs := outs + [out];
    }
  }

  // ---- A whole tower ----

  /** A partition of a disk image behind its cache (DMGDisk::readerForPartition). */
  method OpenPartition(disk: Reader, table: RT.Table, codecs: RT.Codecs, zone: CacheZone, partName: Tag,
                       ghost image: seq<byte>, ghost objs: set<object>) returns (volume: Reader)
    requires Wf(disk) && RandomAccess(disk) && objs == Repr(disk) && Sound(objs) && zone.Inv()
    requires RT.Tiles(table) && RT.IsImage(table, codecs, Contents(disk), image)
    requires RT.RunsEndAligned(table) && RunsNotTooLong(table) && zone.files(partName) == image
    ensures Wf(volume) && RandomAccess(volume) && Contents(volume) == image
    ensures Repr(volume) == Repr(disk) + {zone} && Sound(Repr(volume))
  {
    hide Wf, RT.Tiles, RT.IsImage, RT.RunsEndAligned, RunsNotTooLong, Cacheable, Contents, Sound, RandomAccess;
    var p := new DMGPartition(disk, table, codecs, image);
    PartitionCacheableIff(p);
    PartitionContents(p);
    var c := new CachedReader(FromPartition(p), zone, partName);
    CacheContents(c);
    DefaultIsCacheable(FromCache(c));
    SoundWithZone(objs, zone);
    return FromCache(c);
  }

  lemma PartitionContents(p: DMGPartition)
    ensures Contents(FromPartition(p)) == p.flat && Repr(FromPartition(p)) == p.repr
  {
  }

  lemma CacheContents(c: CachedReader)
    ensures Contents(FromCache(c)) == c.flat && Repr(FromCache(c)) == c.repr
  {
  }

  lemma SoundWithZone(objs: set<object>, zone: CacheZone)
    requires Sound(objs) && zone.Inv()
    ensures Sound(objs + {zone})
  {
    hide CacheZone.Inv;
  }

  /** A resource inside a file's resource fork. */
  method OpenResource(volume: Reader, blockSize: nat, logicalSize: nat, descriptors: seq<EO.Extent>, cnid: nat,
                      overflow: EO.Overflow, ghost full: seq<EO.Extent>, start: nat, length: nat,
                      ghost objs: set<object>)
    returns (resource: Reader)
    requires Wf(volume) && RandomAccess(volume) && objs == Repr(volume) && Sound(objs)
    requires blockSize > 0 && |descriptors| == 8
    requires BT.Ranked(overflow) && EO.EightEach(overflow) && EO.InOrder(overflow)
    requires EM.AllInVolume(Contents(volume), blockSize, full) && EM.NoneEmpty(full)
    requires EM.IsFullList(EM.InUse(descriptors), full, BT.Records(overflow, BT.Leaves(overflow)), cnid, true,
                           logicalSize, blockSize)
    requires start + length <= logicalSize <= |EM.ForkBytes(Contents(volume), blockSize, full)|
    ensures Wf(resource) && RandomAccess(resource) && Sound(Repr(resource)) && fresh(Repr(resource) - objs)
    ensures Contents(resource) == EM.ForkBytes(Contents(volume), blockSize, full)[..logicalSize][start..start + length]
  {
    hide Wf, EO.InOrder, BT.LeavesUnder, EM.AllInVolume, EM.IsFullList, EM.ForkBytes, Sound,
         RandomAccess, HFSFork.Shape, HFSFork.Inv;
    var f := new HFSFork(volume, blockSize, logicalSize, descriptors, cnid, true, overflow, full, objs);
    DefaultIsCacheable(FromFork(f));
    ResourceOpened(f, start, length);
    ForkOpened(f, objs);
    return FromSub(FromFork(f), start, length);
  }

  /** A file that is stored compressed in its resource fork, behind its cache (HFSHighLevelVolume::openFile):
      whatever lies below, reading it is reading the decoded file. */
  method OpenCompressedFile(resource: Reader, size: nat, offsets: seq<(nat, nat)>, codec: INF.Codec, zone: CacheZone,
                            path: Tag, ghost flat: seq<byte>, ghost objs: set<object>) returns (file: Reader)
    requires Wf(resource) && RandomAccess(resource) && objs == Repr(resource) && Sound(objs) && zone.Inv()
    requires ZR.IsDecoded(ZR.Layout(Contents(resource), offsets, codec, size), flat) && zone.files(path) == flat
    ensures Wf(file) && RandomAccess(file) && Contents(file) == flat
    ensures Sound(Repr(file)) && fresh(Repr(file) - objs - {zone})
  {
    hide Wf, ZR.IsDecoded, Cacheable, Sound, RandomAccess, HFSZlibReader.Inv, CacheZone.Inv;
    var z := new HFSZlibReader(resource, size, offsets, codec, flat, objs);
    ZlibIsCacheable(z);
    ZlibOpened(z, objs);
    var c := new CachedReader(FromZlib(z), zone, path);
    CacheContents(c);
    DefaultIsCacheable(FromCache(c));
    SoundWithZone(objs + {z}, zone);
    return FromCache(c);
  }

  lemma ForkOpened(f: HFSFork, objs: set<object>)
    requires Wf(FromFork(f)) && f.Inv() && objs == Repr(f.volume) && Sound(objs)
    ensures f.Shape() && Sound(f.repr)
  {
    hide Sound, HFSFork.Shape, HFSFork.Inv;
    ForkShape(f);
    SoundFork(f);
  }

  lemma ResourceOpened(f: HFSFork, start: nat, length: nat)
    requires Wf(FromFork(f)) && RandomAccess(FromFork(f)) && start + length <= |f.flat|
    ensures Wf(FromSub(FromFork(f), start, length)) && RandomAccess(FromSub(FromFork(f), start, length))
    ensures Contents(FromSub(FromFork(f), start, length)) == f.flat[start..start + length]
    ensures Repr(FromSub(FromFork(f), start, length)) == f.repr
  {
  }

  lemma ZlibOpened(z: HFSZlibReader, objs: set<object>)
    requires Wf(FromZlib(z)) && z.Inv() && objs == Repr(z.reader) && Sound(objs)
    ensures Sound(z.repr) && z.repr == objs + {z}
  {
    hide ZR.IsDecoded, Sound, HFSZlibReader.Inv;
    ZlibShape(z);
    SoundZlib(z);
  }
}
