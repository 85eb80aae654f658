/** The stack of readers. Every reader stands for one flat file; this module models each reader's mechanism
    and proves that what it delivers is that file's bytes, whatever was read before. */
module Readers {
  import opened Bytes
  import opened CacheZones
  import opened BlockAdvice
  import BT = BTrees
  import EO = ExtentsOverflow
  import EM = ExtentMap
  import INF = Inflater
  import RT = RunTable
  import Adc
  import AW = AdcWindow
  import ZR = ZlibRuns

  /** The classes derived from Reader; dispatch is by cases. `FromMemory` stands for MemoryReader and
      FileReader, which deliver the bytes they hold. */
  datatype Reader =
    | FromMemory(data: seq<byte>)
    | FromSub(parent: Reader, start: nat, size: nat)
    | FromCache(cached: CachedReader)
    | FromFork(fork: HFSFork)
    | FromZlib(zlib: HFSZlibReader)
    | FromPartition(part: DMGPartition)

  // ---- What a reader stands for ----

  ghost function Level(r: Reader): nat {
    match r
    case FromMemory(_) => 0
    case FromSub(p, _, _) => Level(p) + 1
    case FromCache(c) => c.level
    case FromFork(f) => f.level
    case FromZlib(z) => z.level
    case FromPartition(p) => p.level
  }

  /** The flat file. */
  ghost function Contents(r: Reader): seq<byte> {
    match r
    case FromMemory(d) => d
    case FromSub(p, start, size) =>
      if start + size <= |Contents(p)| then Contents(p)[start..start + size] else []
    case FromCache(c) => c.flat
    case FromFork(f) => f.flat
    case FromZlib(z) => z.flat
    case FromPartition(p) => p.flat
  }

  /** The objects that a read may change. */
  ghost function Repr(r: Reader): set<object> {
    match r
    case FromMemory(_) => {}
    case FromSub(p, _, _) => Repr(p)
    case FromCache(c) => c.repr
    case FromFork(f) => f.repr
    case FromZlib(z) => z.repr
    case FromPartition(p) => p.repr
  }

  /** The range adviseOptimalBlock answers for `offset`. */
  ghost function Advise(r: Reader, offset: nat): (nat, nat) {
    match r
    case FromSub(p, start, size) =>
      var (s, e) := Advise(p, start + offset);
      (if s < start then 0 else s - start, if e < start then 0 else Min(e - start, size))
    case FromZlib(z) => ZR.RunAdvice(z.size, offset)
    case FromPartition(p) => RT.RunAdvice(p.table, RT.RunAt(p.table, offset / RT.SECTOR_SIZE), offset)
    case _ => DefaultAdvice(|Contents(r)|, offset)
  }

  /** The reads that a reader answers in full; the others hit a defect of one of the readers below. */
  ghost predicate Serves(r: Reader, count: nat, offset: nat) {
    match r
    case FromSub(p, start, size) =>
      offset > size || Serves(p, Min(count, size - offset), start + offset)
    case FromZlib(z) =>
      z.Aligned(count, offset) && (offset % ZR.RUN_LENGTH == 0 || ZR.NoneStored(z.Layout()))
    case FromPartition(p) =>
      offset < |p.flat| ==> RT.RunServes(p.table, RT.RunAt(p.table, offset / RT.SECTOR_SIZE), count, offset)
    case _ => true
  }

  ghost predicate RandomAccess(r: Reader) {
    forall count: nat, offset: nat :: Serves(r, count, offset)
  }

  const INT32_MAX := 0x7FFF_FFFF

  ghost predicate GoodAdvice(advice: (nat, nat), offset: nat, length: nat) {
    && InRange(advice, offset, length) && EndAligned(advice.0, advice.1, length)
    && advice.1 - advice.0 <= INT32_MAX
  }

  /** A cache may be put on top: advised ranges contain the offset, stay in the file, do not end inside a cache
      block they store, and are served. */
  ghost predicate Cacheable(r: Reader) {
    forall offset: nat | offset < |Contents(r)| ::
      var a := Advise(r, offset);
      GoodAdvice(a, offset, |Contents(r)|) && Serves(r, a.1 - a.0, a.0)
  }

  // ---- Well-formed stacks ----

  /** The parts of a stack fit together. Nothing here changes when it is read. */
  ghost predicate Wf(r: Reader)
    decreases Level(r)
  {
    match r
    case FromMemory(_) => true
    case FromSub(p, start, size) => Wf(p) && start + size <= |Contents(p)|
    case FromCache(c) => Level(c.backing) < c.level && Wf(c.backing) && c.Shape()
    case FromFork(f) => Level(f.volume) < f.level && Wf(f.volume) && f.Shape()
    case FromZlib(z) => Level(z.reader) < z.level && Wf(z.reader) && z.Shape()
    case FromPartition(p) => Level(p.disk) + 1 < p.level && Wf(p.disk) && p.Shape()
  }

  /** The invariants of the objects that reads change. */
  ghost predicate Sound(objs: set<object>)
    reads objs
  {
    && (forall z: CacheZone | z in objs :: z.Inv())
    && (forall f: HFSFork | f in objs :: f.Inv())
    && (forall z: HFSZlibReader | z in objs :: z.Inv())
  }

  /** A read of `count` bytes at `offset` of the flat file into `buf` at index `at`. */
  ghost predicate Delivered(flat: seq<byte>, before: seq<byte>, after: seq<byte>, at: nat, count: nat, offset: nat,
                            res: Result<nat>)
    requires at + count <= |before|
  {
    && res == Ok(Clip(|flat|, count, offset))
    && after == Overwrite(before, at, Window(flat, count, offset))
  }

  /** Byte for byte: as many bytes as the file still has behind the offset, up to `count`, are the file's, and all other
      bytes of the buffer are as they were. */
  lemma DeliveredIff(flat: seq<byte>, before: seq<byte>, after: seq<byte>, at: nat, count: nat, offset: nat,
                     res: Result<nat>)
    requires at + count <= |before|
    ensures Delivered(flat, before, after, at, count, offset, res) <==>
              var n: nat := if offset >= |flat| then 0 else if count > |flat| - offset then |flat| - offset else count;
              && res == Ok(n) && |after| == |before|
              && forall i | 0 <= i < |before| ::
                   after[i] == if at <= i < at + n then flat[offset + (i - at)] else before[i]
  {
    var w := Window(flat, count, offset);
    var written := Overwrite(before, at, w);
    forall i | 0 <= i < |before|
      ensures written[i] == if at <= i < at + |w| then flat[offset + (i - at)] else before[i]
    {
      if at <= i < at + |w| {
        assert written[i] == w[i - at];
      }
    }
  }

  function Length(r: Reader): (n: nat)
    requires Wf(r)
    ensures n == |Contents(r)|
    decreases Level(r)
  {
    match r
    case FromMemory(d) => |d|
    case FromSub(_, _, size) => size
    case FromCache(c) => Length(c.backing)
    case FromFork(f) => f.logicalSize
    case FromZlib(z) => z.size
    case FromPartition(p) => p.table.sectorCount * RT.SECTOR_SIZE
  }

  // ---- Dispatch ----

  method ReadFrom(r: Reader, buf: array<byte>, at: nat, count: nat, offset: nat) returns (res: Result<nat>)
    requires Wf(r) && Sound(Repr(r)) && buf !in Repr(r)
    requires at + count <= buf.Length && Serves(r, count, offset)
    modifies buf, Repr(r)
    ensures Sound(Repr(r))
    ensures Delivered(Contents(r), old(buf[..]), buf[..], at, count, offset, res)
    decreases Level(r), 12
  {
    match r {
      case FromMemory(d) =>
        res := ReadMemory(d, buf, at, count, offset);
      case FromSub(p, start, size) =>
        res := ReadSub(p, start, size, buf, at, count, offset);
      case FromCache(c) =>
        res := c.Read(buf, at, count, offset);
      case FromFork(f) =>
        res := f.Read(buf, at, count, offset);
      case FromZlib(z) =>
        ZlibStartsClean(z, count, offset);
        res := z.Read(buf, at, count, offset);
      case FromPartition(p) =>
        ghost var before, shown := buf[..], [];
        res, shown := p.Read(buf, at, count, offset);
        PartitionServed(p, shown, before, at, count, offset);
    }
  }

  method AdviseOptimalBlock(r: Reader, offset: nat) returns (res: Result<(nat, nat)>)
    requires Wf(r) && offset < |Contents(r)|
    ensures res == Ok(Advise(r, offset))
    decreases Level(r), 0
  {
    match r {
      case FromSub(p, start, size) =>
        res := AdviseSub(p, start, size, offset);
      case FromZlib(z) =>
        res := Ok(ZR.RunAdvice(z.size, offset));
      case FromPartition(p) =>
        res := p.AdviseOptimalBlock(offset);
      case _ =>
        res := Ok(DefaultAdvice(Length(r), offset));
    }
  }

  // ---- MemoryReader ----

  method ReadMemory(data: seq<byte>, buf: array<byte>, at: nat, count: nat, offset: nat) returns (res: Result<nat>)
    requires at + count <= buf.Length
    modifies buf
    ensures Delivered(data, old(buf[..]), buf[..], at, count, offset, res)
  {
    hide Overwrite, Window;
    if offset > |data| {
      OverwriteNothing(buf[..], at);
      WindowEmpty(data, count, offset);
      return Ok(0);
    }
    WindowMin(data, count, offset);
    var n := count;
    if n + offset > |data| {
      n := |data| - offset;
    }
    Memcpy(buf, at, data[offset..offset + n]);
    return Ok(n);
  }

  // ---- SubReader ----

  method ReadSub(parent: Reader, start: nat, size: nat, buf: array<byte>, at: nat, count: nat, offset: nat)
    returns (res: Result<nat>)
    requires Wf(FromSub(parent, start, size)) && Sound(Repr(parent)) && buf !in Repr(parent)
    requires at + count <= buf.Length && Serves(FromSub(parent, start, size), count, offset)
    modifies buf, Repr(parent)
    ensures Sound(Repr(parent))
    ensures Delivered(Contents(FromSub(parent, start, size)), old(buf[..]), buf[..], at, count, offset, res)
    decreases Level(parent), 13
  {
    hide Wf, Serves, Contents, Sound, Overwrite, Window;
    SubShape(parent, start, size, count, offset);
    if offset > size {
      OverwriteNothing(buf[..], at);
      WindowEmpty(Contents(FromSub(parent, start, size)), count, offset);
      return Ok(0);
    }
    var n := count;
    if offset + n > size {
      n := size - offset;
    }
    WindowOfSlice(Contents(parent), start, size, count, offset);
    res := ReadFrom(parent, buf, at, n, offset + start);
  }

  lemma SubShape(parent: Reader, start: nat, size: nat, count: nat, offset: nat)
    requires Wf(FromSub(parent, start, size)) && Serves(FromSub(parent, start, size), count, offset)
    ensures Wf(parent) && start + size <= |Contents(parent)|
    ensures Contents(FromSub(parent, start, size)) == Contents(parent)[start..start + size]
    ensures offset <= size ==> Serves(parent, Min(count, size - offset), start + offset)
  {
    hide CachedReader.Shape, HFSFork.Shape, HFSZlibReader.Shape, DMGPartition.Shape;
  }

  /** A window of a slice is a window of the whole. */
  lemma WindowOfSlice(flat: seq<byte>, start: nat, size: nat, count: nat, offset: nat)
    requires start + size <= |flat| && offset <= size
    ensures Window(flat[start..start + size], count, offset) == Window(flat, Min(count, size - offset), start + offset)
  {
    var s := flat[start..start + size];
    var n := Clip(size, count, offset);
    if offset < size {
      var x, y := s[offset..offset + n], flat[start + offset..start + offset + n];
      forall i | 0 <= i < n
        ensures x[i] == y[i]
      {
        assert x[i] == s[offset + i] == flat[start + offset + i] == y[i];
      }
    }
  }

  method AdviseSub(parent: Reader, start: nat, size: nat, offset: nat) returns (res: Result<(nat, nat)>)
    requires Wf(FromSub(parent, start, size)) && offset < size
    ensures res == Ok(Advise(FromSub(parent, start, size), offset))
    decreases Level(parent), 1
  {
    hide CachedReader.Shape, HFSFork.Shape, HFSZlibReader.Shape, DMGPartition.Shape;
    var advice: Result<(nat, nat)> := AdviseOptimalBlock(parent, start + offset);
    if advice.Throws? {
      return advice;
    }
    var (blockStart, blockEnd) := advice.value;
    if blockStart < start {
      blockStart := start;
    }
    blockStart := blockStart - start;
    var end := if blockEnd < start then 0 else blockEnd - start;
    if end > size {
      end := size;
    }
    return Ok((blockStart, end));
  }

  // ---- CachedReader ----

  lemma SoundPart(part: set<object>, objs: set<object>)
    requires Sound(objs) && part <= objs
    ensures Sound(part)
  {
  }

  lemma SoundZone(objs: set<object>, z: CacheZone)
    requires Sound(objs) && z in objs
    ensures z.Inv()
  {
    hide HFSFork.Inv, HFSZlibReader.Inv, CacheZone.Inv;
  }

  lemma WfShape(c: CachedReader)
    requires Wf(FromCache(c))
    ensures c.Shape() && Wf(c.backing) && Level(c.backing) < c.level
  {
  }

  lemma CacheLength(c: CachedReader)
    requires Wf(FromCache(c))
    ensures Wf(c.backing) && Level(c.backing) < c.level && Length(c.backing) == |c.flat| == |Contents(c.backing)|
  {
  }

  lemma GoodBacking(c: CachedReader, offset: nat)
    requires Wf(FromCache(c)) && offset < |c.flat|
    ensures var a := Advise(c.backing, offset);
            GoodAdvice(a, offset, |c.flat|) && Serves(c.backing, a.1 - a.0, a.0)
  {
    hide Advise, Serves;
    WfShape(c);
  }

  /** The piece of a request that lies in one cache block. */
  lemma PieceInBlock(offset: nat, done: nat, count: nat)
    requires done < count && (done == 0 || (offset + done) % BLOCK_SIZE == 0)
    ensures var from := if done == 0 then offset % BLOCK_SIZE else 0;
            var n := Min(Min(count - done, BLOCK_SIZE), BLOCK_SIZE - from);
            && 0 < n && from + n <= BLOCK_SIZE && done + n <= count
            && (offset + done) / BLOCK_SIZE * BLOCK_SIZE + from == offset + done
            && (done + n == count || (offset + done + n) % BLOCK_SIZE == 0)
  {
  }

  lemma StartRequest(b: seq<byte>, at: nat, flat: seq<byte>, offset: nat, count0: nat, count: int)
    requires at + count0 <= |b| && count == if count0 + offset > |flat| then |flat| - offset else count0
    ensures count > 0 ==> Has(b, at, 0, 0, flat, offset) && SameOutside(b, b, at, 0)
    ensures count > 0 ==> at + count <= |b| && offset + count <= |flat|
  {
    if count > 0 {
      NothingYet(b, at, flat, offset);
    }
  }

  lemma EndRequest(b: seq<byte>, before: seq<byte>, at: nat, flat: seq<byte>, offset: nat, count0: nat, count: int)
    requires at + count0 <= |before| && count == if count0 + offset > |flat| then |flat| - offset else count0
    requires count <= 0 ==> b == before
    requires count > 0 ==> Has(b, at, 0, count, flat, offset) && SameOutside(b, before, at, count)
    ensures b == Overwrite(before, at, Window(flat, count0, offset))
    ensures Clip(|flat|, count0, offset) == if count <= 0 then 0 else count
  {
    hide Has, SameOutside, Overwrite;
    if count > 0 {
      AllInPlace(b, before, at, count, flat, offset);
    } else {
      OverwriteNothing(b, at);
    }
  }

  lemma NextPiece(was: seq<byte>, b: seq<byte>, before: seq<byte>, at: nat, flat: seq<byte>, offset: nat, done: nat,
                  n: nat)
    requires at + done + n <= |was| && offset + done + n <= |flat|
    requires Has(was, at, 0, done, flat, offset) && SameOutside(was, before, at, done)
    requires b == Overwrite(was, at + done, flat[offset + done..offset + done + n])
    ensures Has(b, at, 0, done + n, flat, offset) && SameOutside(b, before, at, done + n)
  {
    hide Has, SameOutside, Overwrite;
    WiderOutside(was, before, at, done, done + n);
    WritePiece(was, b, at, flat, offset, done, n);
    JoinPieces(b, at, 0, done, done + n, flat, offset);
  }

  class CachedReader {
    const backing: Reader
    const zone: CacheZone
    const tag: Tag

    ghost const level: nat
    ghost const flat: seq<byte>
    ghost const repr: set<object>

    ghost predicate Shape() {
      && repr == Repr(backing) + {zone} && flat == Contents(backing)
      && zone.files(tag) == flat && Cacheable(backing)
    }

    constructor (backing: Reader, zone: CacheZone, tag: Tag)
      requires Wf(backing) && Cacheable(backing) && zone.files(tag) == Contents(backing)
      ensures Wf(FromCache(this)) && this.backing == backing && this.zone == zone && this.tag == tag
      ensures flat == Contents(backing) && repr == Repr(backing) + {zone}
    {
      this.backing, this.zone, this.tag := backing, zone, tag;
      this.level, this.flat, this.repr := Level(backing) + 1, Contents(backing), Repr(backing) + {zone};
    }

    /** Serves what it can from the zone block by block, and fetches each gap of missing blocks once a later
        block is found, or at the end. */
    method Read(buf: array<byte>, at: nat, count0: nat, offset: nat) returns (res: Result<nat>)
      requires Wf(FromCache(this)) && Sound(repr) && buf !in repr && at + count0 <= buf.Length
      modifies buf, repr
      ensures Sound(repr)
      ensures Delivered(flat, old(buf[..]), buf[..], at, count0, offset, res)
      decreases level, 9
    {
      hide Has, SameOutside, Overwrite, Wf, Sound, Window;
      ghost var before := buf[..];
      var count: int := count0;
      CacheLength(this);
      if count + offset > Length(backing) {
        count := Length(backing) - offset;
      }
      StartRequest(before, at, flat, offset, count0, count);
      var done, lastFetchPos := 0, 0;
      while done < count
        invariant 0 <= lastFetchPos <= done && (done <= count || done == 0)
        invariant done == 0 || done == count || (offset + done) % BLOCK_SIZE == 0
        invariant Sound(repr)
        invariant count <= 0 ==> buf[..] == before
        invariant count > 0 ==>
                    Has(buf[..], at, 0, lastFetchPos, flat, offset) && SameOutside(buf[..], before, at, done)
        decreases count - done
      {
        PieceInBlock(offset, done, count);
        var thistime := Min(count - done, BLOCK_SIZE);
        var blockNumber := (offset + done) / BLOCK_SIZE;
        var blockOffset := 0;
        if done == 0 {
          blockOffset := offset % BLOCK_SIZE;
        }
        thistime := Min(thistime, BLOCK_SIZE - blockOffset);
        if thistime == 0 {
          return Raise<nat>(LogicError);
        }
        var fromCache := GetPiece(buf, at, done, thistime, offset, blockNumber, blockOffset, before, lastFetchPos);
        if fromCache > 0 {
          // everything between the last piece fetched and this one is still missing
          var toRead := done - lastFetchPos;
          if toRead > 0 {
            var fetched: Result<nat> := FetchGap(buf, at, lastFetchPos, done, thistime, offset, before);
            if fetched.Throws? {
              return fetched;
            }
          } else {
            JoinPieces(buf[..], at, 0, done, done + thistime, flat, offset);
          }
          lastFetchPos := done + thistime;
          done := done + fromCache;
        } else {
          WiderOutside(buf[..], before, at, done, done + thistime);
          done := done + thistime;
        }
      }
      if lastFetchPos < count {
        NoPiece(buf[..], at, done, flat, offset);
        var fetched: Result<nat> := FetchGap(buf, at, lastFetchPos, done, 0, offset, before);
        if fetched.Throws? {
          return fetched;
        }
      }
      EndRequest(buf[..], before, at, flat, offset, count0, count);
      return Ok(done);
    }

    /** The lookup of one piece in the zone. */
    method GetPiece(buf: array<byte>, at: nat, done: nat, n: nat, offset: nat, block: nat, from: nat,
                    ghost before: seq<byte>, ghost last: nat) returns (fromCache: nat)
      requires Wf(FromCache(this)) && Sound(repr) && buf !in repr && 0 < n && from + n <= BLOCK_SIZE && last <= done
      requires at + done + n <= buf.Length && offset + done + n <= |flat| && block * BLOCK_SIZE + from == offset + done
      requires SameOutside(buf[..], before, at, done) && Has(buf[..], at, 0, last, flat, offset)
      modifies buf, repr
      ensures Sound(repr)
      ensures fromCache == 0 ==> buf[..] == old(buf[..])
      ensures fromCache > 0 ==>
                && fromCache == n && Has(buf[..], at, done, done + n, flat, offset)
                && SameOutside(buf[..], before, at, done + n)
      ensures Has(buf[..], at, 0, last, flat, offset)
    {
      hide Has, SameOutside, Overwrite, Good, Cacheable, Wf, BlockAgrees, DoGet, Sound;
      WfShape(this);
      ghost var was := buf[..];
      fromCache := GetBlock(buf, at + done, n, block, from);
      if fromCache > 0 {
        WiderOutside(was, before, at, done, done + n);
        WritePiece(was, buf[..], at, flat, offset, done, n);
      }
    }

    /** The zone's part of it. */
    method GetBlock(buf: array<byte>, at: nat, n: nat, block: nat, from: nat) returns (fromCache: nat)
      requires Shape() && Sound(repr) && buf !in repr && 0 < n && from + n <= BLOCK_SIZE
      requires at + n <= buf.Length && block * BLOCK_SIZE + from + n <= |flat|
      modifies buf, zone
      ensures Sound(repr)
      ensures fromCache == 0 ==> buf[..] == old(buf[..])
      ensures fromCache > 0 ==>
                && fromCache == n
                && buf[..] == Overwrite(old(buf[..]), at,
                                        flat[block * BLOCK_SIZE + from..block * BLOCK_SIZE + from + n])
    {
      hide Overwrite, Good, Cacheable, BlockAgrees, DoGet, HFSFork.Inv, HFSZlibReader.Inv;
      ghost var key := Key(block, tag);
      if key in zone.cache {
        AgreesOn(zone.cache[key].data, block, flat, from, n);
      }
      fromCache := zone.Get(tag, block, buf, at, from, n);
    }

    /** The deferred fetch of bytes `lo..hi` of a request, before the piece of `n` bytes that is in place. */
    method FetchGap(buf: array<byte>, at: nat, lo: nat, hi: nat, n: nat, offset: nat, ghost before: seq<byte>)
      returns (res: Result<nat>)
      requires Wf(FromCache(this)) && Sound(repr) && buf !in repr && lo <= hi
      requires at + hi + n <= buf.Length && offset + hi + n <= |flat|
      requires Has(buf[..], at, 0, lo, flat, offset) && Has(buf[..], at, hi, hi + n, flat, offset)
      requires SameOutside(buf[..], before, at, hi + n)
      modifies buf, repr
      ensures Sound(repr) && res.Ok?
      ensures Has(buf[..], at, 0, hi + n, flat, offset) && SameOutside(buf[..], before, at, hi + n)
      decreases level, 8
    {
      hide Has, SameOutside, Overwrite, Wf, Sound;
      ghost var was := buf[..];
      res := NonCachedRead(buf, at + lo, hi - lo, offset + lo);
      WindowInside(flat, hi - lo, offset + lo);
      WritePiece(was, buf[..], at, flat, offset, lo, hi - lo);
      JoinPieces(buf[..], at, 0, lo, hi, flat, offset);
      JoinPieces(buf[..], at, 0, hi, hi + n, flat, offset);
    }

    /** Reads whole advised blocks from the backing reader, storing every cache block in them. */
    method NonCachedRead(buf: array<byte>, at: nat, count: nat, offset: nat) returns (res: Result<nat>)
      requires Wf(FromCache(this)) && Sound(repr) && buf !in repr
      requires at + count <= buf.Length && offset + count <= |flat|
      modifies buf, repr
      ensures Sound(repr)
      ensures Delivered(flat, old(buf[..]), buf[..], at, count, offset, res)
      decreases level, 7
    {
      hide Has, SameOutside, Overwrite, Wf, Sound, EndAligned, Advise, Window, Serves, Length, Cacheable,
           CachedReader.Shape;
      ghost var before := buf[..];
      NothingYet(buf[..], at, flat, offset);
      var readPos := offset;
      var optimalBlock := new byte[0];
      while readPos < offset + count
        invariant offset <= readPos <= offset + count
        invariant Sound(repr) && fresh(optimalBlock)
        invariant Has(buf[..], at, 0, readPos - offset, flat, offset)
        invariant SameOutside(buf[..], before, at, readPos - offset)
        decreases offset + count - readPos
      {
        var advice: Result<(nat, nat)> := AdvisedBlock(readPos);
        match advice {
          case Throws(e) => return Raise<nat>(e);
          case Ok(_) =>
        }
        var (blockStart, blockEnd) := advice.value;
        var thistime := blockEnd - blockStart;
        if thistime > optimalBlock.Length {
          optimalBlock := new byte[thistime];
        }
        var rd: Result<nat> := FetchAndStore(optimalBlock, blockStart, blockEnd, readPos);
        if rd.Throws? {
          return rd;
        }
        var optimalOffset := 0;
        if readPos > blockStart {
          optimalOffset := readPos - blockStart;
        }
        var toCopy := Min(offset + count - readPos, thistime - optimalOffset);
        ghost var was, done := buf[..], readPos - offset;
        var data := optimalBlock[..thistime][optimalOffset..optimalOffset + toCopy];
        PieceOfSlice(flat, blockStart, thistime, optimalOffset, toCopy);
        Memcpy(buf, at + (readPos - offset), data);
        NextPiece(was, buf[..], before, at, flat, offset, done, toCopy);
        readPos := readPos + toCopy;
      }
      AllInPlace(buf[..], before, at, count, flat, offset);
      WindowInside(flat, count, offset);
      return Ok(count);
    }

    /** The advised block of a position, after the range tests. */
    method AdvisedBlock(readPos: nat) returns (res: Result<(nat, nat)>)
      requires Wf(FromCache(this)) && readPos < |flat|
      ensures res == Ok(Advise(backing, readPos)) && res.value.0 <= readPos < res.value.1 <= |flat|
    {
      hide Wf, EndAligned, Advise, Serves, Length, Cacheable, CachedReader.Shape;
      CacheLength(this);
      GoodBacking(this, readPos);
      var advice := AdviseOptimalBlock(backing, readPos);
      match advice {
        case Throws(e) => return Raise<(nat, nat)>(e);
        case Ok(_) =>
      }
      var (blockStart, blockEnd) := advice.value;
      if blockStart > readPos || blockEnd <= readPos {
        return Raise<(nat, nat)>(LogicError);
      }
      if blockEnd - blockStart > INT32_MAX {
        return Raise<(nat, nat)>(LogicError);
      }
      return advice;
    }

    /** The backing read of one advised block, and the storing of its cache blocks. */
    method FetchAndStore(block: array<byte>, blockStart: nat, blockEnd: nat, readPos: nat) returns (rd: Result<nat>)
      requires Wf(FromCache(this)) && Sound(repr) && block !in repr && readPos < |flat|
      requires Advise(backing, readPos) == (blockStart, blockEnd) && 0 <= blockEnd - blockStart <= block.Length
      modifies block, repr
      ensures Sound(repr) && rd == Ok(blockEnd - blockStart) && blockEnd <= |flat|
      ensures block[..blockEnd - blockStart] == flat[blockStart..blockEnd]
      decreases level, 6
    {
      hide Good, Wf, Advise, EndAligned, Window, Sound, Overwrite;
      WfShape(this);
      GoodBacking(this, readPos);
      SoundPart(Repr(backing), repr);
      SoundZone(repr, zone);
      rd := FetchBlock(block, blockStart, blockEnd - blockStart);
      if rd.Throws? {
        return rd;
      }
      if zone in Repr(backing) {
        SoundZone(Repr(backing), zone);
      }
      StoreFetched(block, blockStart, blockEnd);
    }

    method FetchBlock(block: array<byte>, blockStart: nat, thistime: nat) returns (rd: Result<nat>)
      requires Wf(backing) && Level(backing) < level && Shape() && Sound(Repr(backing)) && block !in repr
      requires Serves(backing, thistime, blockStart) && thistime <= block.Length && blockStart + thistime <= |flat|
      modifies block, Repr(backing)
      ensures Sound(Repr(backing)) && rd == Ok(thistime)
      ensures block[..thistime] == flat[blockStart..blockStart + thistime]
      decreases level, 5
    {
      hide Wf, Window, Sound, Overwrite, Serves, Cacheable;
      ghost var before := block[..];
      rd := ReadFrom(backing, block, 0, thistime, blockStart);
      if rd.Throws? {
        return rd;
      }
      if rd.value < thistime {
        return Raise<nat>(IoError);
      }
      WindowInside(flat, thistime, blockStart);
      OverwriteFront(before, Window(flat, thistime, blockStart));
    }

    method StoreFetched(block: array<byte>, blockStart: nat, blockEnd: nat)
      requires Shape() && Sound(Repr(backing)) && zone.Inv() && blockStart <= blockEnd <= |flat|
      requires blockEnd - blockStart <= block.Length
      requires block[..blockEnd - blockStart] == flat[blockStart..blockEnd] && EndAligned(blockStart, blockEnd, |flat|)
      modifies zone
      ensures Sound(repr)
    {
      hide CacheZone.Inv, HFSFork.Inv, HFSZlibReader.Inv, EndAligned, Cacheable;
      StoreBlocks(block, blockStart, blockEnd);
    }

    /** The storing loop of nonCachedRead, over the block just fetched. */
    method StoreBlocks(block: array<byte>, blockStart: nat, blockEnd: nat)
      requires Shape() && zone.Inv() && blockStart <= blockEnd <= |flat| && blockEnd - blockStart <= block.Length
      requires block[..blockEnd - blockStart] == flat[blockStart..blockEnd] && EndAligned(blockStart, blockEnd, |flat|)
      modifies zone
      ensures zone.Inv()
    {
      hide CacheZone.Inv, Shape;
      var cachePos := RoundUp(blockStart);
      while cachePos < blockEnd
        invariant cachePos % BLOCK_SIZE == 0 && cachePos >= blockStart && zone.Inv()
        invariant cachePos < blockEnd ==> blockEnd % BLOCK_SIZE == 0 || blockEnd == |flat|
        decreases blockEnd - cachePos
      {
        var n := Min(blockEnd - cachePos, BLOCK_SIZE);
        var data := block[..blockEnd - blockStart][cachePos - blockStart..cachePos - blockStart + n];
        PieceOfSlice(flat, blockStart, blockEnd - blockStart, cachePos - blockStart, n);
        StoreBlock(data, cachePos, blockEnd);
        cachePos := cachePos + BLOCK_SIZE;
      }
    }

    method StoreBlock(data: seq<byte>, cachePos: nat, ghost blockEnd: nat)
      requires Shape() && zone.Inv() && cachePos % BLOCK_SIZE == 0 && cachePos < blockEnd <= |flat|
      requires blockEnd % BLOCK_SIZE == 0 || blockEnd == |flat|
      requires var n := Min(blockEnd - cachePos, BLOCK_SIZE); data == flat[cachePos..cachePos + n]
      modifies zone
      ensures zone.Inv()
    {
      hide Good, Agrees, BlockAgrees, Evict, Cacheable;
      ghost var s := zone.Value();
      ghost var stored := zone.Store(tag, cachePos / BLOCK_SIZE, data);
      EnteredAgrees(flat, cachePos, blockEnd, stored);
      StoreAgrees(s, Key(cachePos / BLOCK_SIZE, tag), stored, zone.files);
    }
  }

  lemma WindowEmpty(flat: seq<byte>, count: nat, offset: nat)
    requires count == 0 || offset >= |flat|
    ensures Window(flat, count, offset) == [] && Clip(|flat|, count, offset) == 0
  {
  }

  lemma WindowMin(flat: seq<byte>, count: nat, offset: nat)
    requires offset <= |flat|
    ensures var n := Min(count, |flat| - offset);
            Clip(|flat|, count, offset) == n && Window(flat, count, offset) == flat[offset..offset + n]
  {
  }

  lemma WindowClipped(flat: seq<byte>, count0: nat, count: nat, offset: nat)
    requires offset <= |flat| && count == if offset + count0 > |flat| then |flat| - offset else count0
    ensures Window(flat, count0, offset) == Window(flat, count, offset)
    ensures Clip(|flat|, count0, offset) == Clip(|flat|, count, offset)
  {
  }

  // ---- HFSFork ----

  class HFSFork {
    const volume: Reader
    const blockSize: nat
    const logicalSize: nat
    const cnid: nat
    const resourceFork: bool
    const overflow: EO.Overflow
    var extents: seq<EO.Extent>

    ghost const inline: seq<EO.Extent>  // the extents of the fork record
    ghost const full: seq<EO.Extent>    // all extents of the fork
    ghost const level: nat
    ghost const flat: seq<byte>
    ghost const repr: set<object>

    ghost predicate Shape() {
      && this in repr && this !in Repr(volume) && repr == Repr(volume) + {this}
      && RandomAccess(volume) && blockSize > 0
      && BT.Ranked(overflow) && EO.EightEach(overflow) && EO.InOrder(overflow)
      && EM.AllInVolume(Contents(volume), blockSize, full) && EM.NoneEmpty(full)
      && EM.IsFullList(inline, full, Records(), cnid, resourceFork, logicalSize, blockSize)
      && |flat| == logicalSize && flat <= EM.ForkBytes(Contents(volume), blockSize, full)
    }

    /** The flat list of the overflow tree's records. */
    ghost function Records(): seq<EO.Record>
      requires BT.Ranked(overflow)
    {
      BT.Records(overflow, BT.Leaves(overflow))
    }

    /** Earlier reads have loaded all overflow extents or none. */
    ghost predicate Inv()
      reads this
    {
      extents == inline || extents == full
    }

    constructor (volume: Reader, blockSize: nat, logicalSize: nat, descriptors: seq<EO.Extent>, cnid: nat,
                 resourceFork: bool, overflow: EO.Overflow, ghost full: seq<EO.Extent>, ghost below: set<object>)
      requires below == Repr(volume)
      requires Wf(volume) && RandomAccess(volume) && blockSize > 0 && |descriptors| == 8
      requires BT.Ranked(overflow) && EO.EightEach(overflow) && EO.InOrder(overflow)
      requires EM.AllInVolume(Contents(volume), blockSize, full) && EM.NoneEmpty(full)
      requires EM.IsFullList(EM.InUse(descriptors), full, BT.Records(overflow, BT.Leaves(overflow)), cnid, resourceFork,
                             logicalSize, blockSize)
      ensures Wf(FromFork(this)) && Inv() && extents == EM.InUse(descriptors)
      ensures flat == EM.ForkBytes(Contents(volume), blockSize, full)[..logicalSize]
      ensures EM.ShowsExtents(flat, Contents(volume), blockSize, descriptors)
      ensures this.volume == volume && repr == Repr(volume) + {this} && fresh(this)
    {
      hide EO.InOrder, EM.ForkBytes, EM.ShowsExtents, EM.IsFullList, EM.AllInVolume;
      EM.ForkOfRecord(Contents(volume), blockSize, descriptors, full, BT.Records(overflow, BT.Leaves(overflow)), cnid,
                      resourceFork, logicalSize);
      this.volume, this.blockSize, this.logicalSize := volume, blockSize, logicalSize;
      this.cnid, this.resourceFork, this.overflow := cnid, resourceFork, overflow;
      this.full, this.inline := full, EM.InUse(descriptors);
      this.level := Level(volume) + 1;
      this.flat := EM.ForkBytes(Contents(volume), blockSize, full)[..logicalSize];
      this.repr := Repr(volume) + {this};
      var es: seq<EO.Extent> := [];
      assert descriptors[..0] == [];
      for i := 0 to 8
        invariant es == EM.InUse(descriptors[..i])
      {
        TakeTake(descriptors, i);
        if descriptors[i].blockCount > 0 {
          es := es + [descriptors[i]];
        }
      }
      assert descriptors[..8] == descriptors;
      extents := es;
      new;
      assert this !in below;
    }

    /** Appends what the overflow tree holds from block `blocksSoFar` on; on a tree whose records are not in
        order, what the search meets there. */
    method LoadFromOverflowsFile(blocksSoFar: nat) returns (res: Result<()>)
      requires BT.Ranked(overflow) && EO.EightEach(overflow)
      modifies this
      ensures cnid == 0 ==> res == Throws(LogicError) && extents == old(extents)
      ensures cnid != 0 && |old(extents)| < 8 ==> res == Throws(IoError) && extents == old(extents)
      ensures res == Ok(()) ==> |extents| != |old(extents)|
      ensures cnid != 0 && |old(extents)| >= 8 && EO.InOrder(overflow) ==>
                var found := EO.Lookup(Records(), cnid, resourceFork, blocksSoFar);
                if found.Throws? then res == Throws(found.error) && extents == old(extents)
                else if found.value == [] then res == Throws(IoError) && extents == old(extents)
                else res == Ok(()) && extents == old(extents) + found.value
    {
      hide EO.InOrder, BT.LeavesUnder, BT.Records, EO.Lookup;
      var oldCount := |extents|;
      if cnid == 0 {
        return Raise<()>(LogicError);
      }
      if oldCount < 8 {
        return Raise<()>(IoError);
      }
      var more := EO.FindExtentsForFile(overflow, cnid, resourceFork, blocksSoFar, extents);
      if more.Throws? {
        return Raise<()>(more.error);
      }
      extents := more.value;
      if |extents| == oldCount {
        return Raise<()>(IoError);
      }
      return Ok(());
    }

    lemma ExtentsPrefix()
      requires Shape() && Inv()
      ensures extents <= full
    {
      hide EM.AllInVolume, EO.InOrder, EM.ForkBytes, EO.Lookup;
    }

    /** Reaching the end of the loaded extents before the end of the file means that the overflow extents
        are still to be loaded. */
    lemma MustLoad(blocksSoFar: nat, position: nat)
      requires Shape() && Inv()
      requires blocksSoFar == EM.Blocks(extents) && position >= blocksSoFar * blockSize && position < logicalSize
      ensures extents == inline && inline != full && cnid != 0 && |extents| == 8
      ensures EO.Lookup(Records(), cnid, resourceFork, blocksSoFar) == Ok(full[|inline|..])
      ensures inline + full[|inline|..] == full && full[|inline|..] != []
    {
      hide EM.AllInVolume, EO.InOrder, EM.ForkBytes, EO.Lookup;
    }

    method LoadRest(blocksSoFar: nat, ghost position: nat) returns (res: Result<()>)
      requires Shape() && Inv()
      requires blocksSoFar == EM.Blocks(extents) && position >= blocksSoFar * blockSize && position < logicalSize
      modifies this
      ensures res.Ok? && extents == full && |extents| > |old(extents)|
    {
      hide EM.AllInVolume, EM.ForkBytes, EO.Lookup, EM.IsFullList;
      MustLoad(blocksSoFar, position);
      res := LoadFromOverflowsFile(blocksSoFar);
    }

    /** One scan over the loaded extents, from number `i0` on. */
    method ScanExtents(i0: nat, blocks0: nat, inside0: nat, firstBlock: nat, ghost offset: nat)
      returns (i: nat, blocksSoFar: nat, offsetInExtent: nat, found: bool)
      requires extents <= full && blockSize > 0 && firstBlock == offset / blockSize
      requires i0 <= |extents| && blocks0 == EM.Blocks(full[..i0]) && blocks0 <= firstBlock
      requires blocks0 * blockSize + inside0 == offset
      ensures i <= |extents| && blocksSoFar == EM.Blocks(full[..i]) && blocksSoFar <= firstBlock
      ensures blocksSoFar * blockSize + offsetInExtent == offset
      ensures if found then i < |extents| && firstBlock < blocksSoFar + full[i].blockCount else i == |extents|
    {
      hide EM.Blocks;
      i, blocksSoFar, offsetInExtent := i0, blocks0, inside0;
      while i < |extents|
        invariant i <= |extents| && blocksSoFar == EM.Blocks(full[..i]) && blocksSoFar <= firstBlock
        invariant blocksSoFar * blockSize + offsetInExtent == offset
      {
        if extents[i].blockCount + blocksSoFar > firstBlock {
          return i, blocksSoFar, offsetInExtent, true;
        }
        EM.StepBytes(full, i, blockSize);
        EM.BlocksUpTo(full, i);
        blocksSoFar := blocksSoFar + extents[i].blockCount;
        EM.BlockOfByte(offset, blockSize, blocksSoFar);
        offsetInExtent := offsetInExtent - extents[i].blockCount * blockSize;
        i := i + 1;
      }
      found := false;
    }

    /** The search for the extent that holds the byte at `offset`. */
    method LocateExtent(offset: nat) returns (res: Result<(nat, nat, nat)>)
      requires Shape() && Inv() && offset < logicalSize
      modifies this
      ensures Inv() && res.Ok?
      ensures var (x, blocks, inside) := res.value;
              && x < |extents| && extents <= full && blocks == EM.Blocks(full[..x])
              && blocks * blockSize + inside == offset && inside < full[x].blockCount * blockSize
    {
      hide Shape, EM.Blocks;
      ShapeBasics();
      ExtentsPrefix();
      var firstBlock := offset / blockSize;
      var found := false;
      var i: nat, blocksSoFar: nat, offsetInExtent: nat := 0, 0, offset;
      EM.NoBlocks(full);
      while !found
        invariant Inv() && extents <= full
        invariant i <= |extents| && blocksSoFar == EM.Blocks(full[..i]) && blocksSoFar <= firstBlock
        invariant blocksSoFar * blockSize + offsetInExtent == offset
        invariant found ==> i < |extents| && firstBlock < blocksSoFar + full[i].blockCount
        decreases |full| - |extents|, !found
      {
        i, blocksSoFar, offsetInExtent, found := ScanExtents(i, blocksSoFar, offsetInExtent, firstBlock, offset);
        if !found {
          EM.BlockOfByte(offset, blockSize, blocksSoFar);
          assert full[..i] == extents;
          var rest := LoadRest(blocksSoFar, offset);
          match rest {
            case Throws(e) => return Raise<(nat, nat, nat)>(e);
            case Ok(_) =>
          }
        }
      }
      EM.BlockOfByte(offset, blockSize, blocksSoFar + full[i].blockCount);
      EM.Distribute(blocksSoFar, full[i].blockCount, blockSize);
      return Ok((i, blocksSoFar, offsetInExtent));
    }

    lemma ShapeBasics()
      requires Shape()
      ensures this in repr && this !in Repr(volume) && repr == Repr(volume) + {this}
      ensures RandomAccess(volume) && blockSize > 0
      ensures |flat| == logicalSize && EM.NoneEmpty(full)
    {
    }

    /** Reads extent after extent, loading the overflow extents when the others are used up. */
    method Read(buf: array<byte>, at: nat, count0: nat, offset: nat) returns (res: Result<nat>)
      requires Wf(FromFork(this)) && Sound(repr) && buf !in repr && at + count0 <= buf.Length
      modifies buf, repr
      ensures Sound(repr)
      ensures Delivered(flat, old(buf[..]), buf[..], at, count0, offset, res)
      decreases level, 9
    {
      hide Has, SameOutside, Overwrite, Window, Wf, Shape, EM.Blocks, Sound;
      ForkShape(this);
      ShapeBasics();
      ghost var before := buf[..];
      var count := count0;
      if offset > logicalSize {
        count := 0;
      } else if offset + count > logicalSize {
        count := logicalSize - offset;
      }
      if count == 0 {
        OverwriteNothing(buf[..], at);
        WindowEmpty(flat, count0, offset);
        return Ok(0);
      }
      ForkSound(this);
      var located := LocateExtent(offset);
      match located {
        case Throws(e) => return Raise<nat>(e);
        case Ok(_) =>
      }
      var (extent, blocksSoFar, offsetInExtent) := located.value;
      var read := 0;
      NothingYet(buf[..], at, flat, offset);
      while read < count && read + offset < logicalSize
        invariant read <= count && Inv() && Sound(Repr(volume))
        invariant extent <= |extents| && extents <= full && blocksSoFar == EM.Blocks(full[..extent])
        invariant read < count ==>
                    && blocksSoFar * blockSize + offsetInExtent == offset + read
                    && (extent < |full| ==> offsetInExtent < full[extent].blockCount * blockSize)
                    && (extent == |extents| ==> offsetInExtent == 0)
        invariant Has(buf[..], at, 0, read, flat, offset) && SameOutside(buf[..], before, at, read)
        decreases count - read
      {
        if extent >= |extents| {
          assert full[..extent] == extents;
          var loaded := LoadRest(blocksSoFar, offset + read);
          match loaded {
            case Throws(e) => return Raise<nat>(e);
            case Ok(_) =>
          }
        }
        var inExtent := extents[extent].blockCount * blockSize - offsetInExtent;
        var thistime := Min(inExtent, count - read);
        if thistime == 0 {
          return Raise<nat>(LogicError);
        }
        var got: Result<nat> := ReadExtent(buf, at, read, extent, offsetInExtent, thistime, offset, before);
        if got.Throws? {
          return got;
        }
        read := read + got.value;
        if got.value != thistime {
          break;
        }
        EM.BlocksUpTo(full, extent);
        EM.StepBytes(full, extent, blockSize);
        NextExtentNotEmpty(extent + 1);
        blocksSoFar := blocksSoFar + extents[extent].blockCount;
        extent := extent + 1;
        offsetInExtent := 0;
      }
      AllInPlace(buf[..], before, at, count, flat, offset);
      WindowInside(flat, count, offset);
      WindowClipped(flat, count0, count, offset);
      SoundFork(this);
      return Ok(read);
    }

    /** The volume read for the piece of a request that lies in extent `x`. */
    method ReadExtent(buf: array<byte>, at: nat, read: nat, x: nat, inside: nat, n: nat, offset: nat,
                      ghost before: seq<byte>) returns (got: Result<nat>)
      requires Wf(volume) && Level(volume) < level && Shape() && Sound(Repr(volume)) && buf !in repr
      requires x < |extents| && extents <= full && inside + n <= full[x].blockCount * blockSize
      requires offset + read + n <= logicalSize && at + read + n <= buf.Length
      requires offset + read == EM.Blocks(full[..x]) * blockSize + inside
      requires Has(buf[..], at, 0, read, flat, offset) && SameOutside(buf[..], before, at, read)
      modifies buf, Repr(volume)
      ensures Sound(Repr(volume)) && got == Ok(n)
      ensures Has(buf[..], at, 0, read + n, flat, offset) && SameOutside(buf[..], before, at, read + n)
      decreases level, 8
    {
      hide Has, SameOutside, Overwrite, Window, Shape, EM.Blocks, Sound, Wf;
      ShapeBasics();
      ghost var was := buf[..];
      var volumeOffset := extents[x].startBlock * blockSize + inside;
      PieceOfFork(offset + read, x, inside, n, volumeOffset);
      WindowInside(Contents(volume), n, volumeOffset);
      got := ReadFrom(volume, buf, at + read, n, volumeOffset);
      NextPiece(was, buf[..], before, at, flat, offset, read, n);
    }

    lemma NextExtentNotEmpty(x: nat)
      requires Shape() && x <= |full|
      ensures x < |full| ==> full[x].blockCount * blockSize > 0
    {
      if x < |full| {
        assert full[x] in full;
        EM.Positive(full[x].blockCount, blockSize);
      }
    }

    /** Bytes of the flat file inside extent `x` are bytes of the volume. */
    lemma PieceOfFork(position: nat, x: nat, inside: nat, n: nat, v: nat)
      requires Shape() && x < |full| && inside + n <= full[x].blockCount * blockSize && position + n <= logicalSize
      requires position == EM.Blocks(full[..x]) * blockSize + inside && v == full[x].startBlock * blockSize + inside
      ensures v + n <= |Contents(volume)| && flat[position..position + n] == Contents(volume)[v..v + n]
    {
      hide EM.AllInVolume, EO.InOrder, EM.IsFullList;
      var whole := EM.ForkBytes(Contents(volume), blockSize, full);
      EM.BytesOfExtent(Contents(volume), blockSize, full, whole, x, inside, n, position, v);
      assert whole[..logicalSize][position..position + n] == whole[position..position + n];
    }
  }

  lemma ForkShape(f: HFSFork)
    requires Wf(FromFork(f))
    ensures f.Shape() && Wf(f.volume) && Level(f.volume) < f.level
  {
  }

  lemma ForkSound(f: HFSFork)
    requires f.Shape() && Sound(f.repr)
    ensures f.Inv() && Sound(Repr(f.volume))
  {
    hide EM.AllInVolume, EO.InOrder, EM.IsFullList;
  }

  lemma SoundFork(f: HFSFork)
    requires f.Shape() && f.Inv() && Sound(Repr(f.volume))
    ensures Sound(f.repr)
  {
    hide EM.AllInVolume, EO.InOrder, EM.IsFullList;
  }

  // ---- HFSZlibReader ----

  class HFSZlibReader {
    const reader: Reader
    const size: nat
    const offsets: seq<(nat, nat)>
    const codec: INF.Codec

    // z_stream, the run and position it has reached, and whether that run turned out to be stored plain
    var strm: INF.Strm
    var lastRun: int
    var lastEnd: nat
    var inputPos: nat
    var lastUncompressed: bool

    ghost const level: nat
    ghost const flat: seq<byte>
    ghost const repr: set<object>

    ghost function Layout(): ZR.Layout {
      ZR.Layout(Contents(reader), offsets, codec, size)
    }

    ghost predicate Shape() {
      && this in repr && this !in Repr(reader) && repr == Repr(reader) + {this}
      && RandomAccess(reader) && ZR.IsDecoded(Layout(), flat)
    }

    ghost predicate IsRun(k: int) {
      0 <= k < ZR.RunCount(size) && ZR.LayoutOk(Layout()) && ZR.RunOk(Layout(), k)
    }

    // ---- What the decompressor's state means ----

    /** The stream stands behind `produced` bytes of run `k`, `inputPos` compressed bytes into it. */
    ghost predicate InStream(k: nat, produced: nat)
      requires IsRun(k)
      reads this
    {
      var c := ZR.Compressed(Layout(), k);
      && !ZR.Stored(Layout(), k) && inputPos <= |c| && strm.fed == c[..inputPos]
      && strm.produced == produced && INF.Inside(codec, strm, c)
    }

    ghost predicate AtStart()
      reads this
    {
      strm == INF.FRESH && lastEnd == 0 && inputPos == 0
    }

    ghost predicate Inv()
      reads this
    {
      && (lastRun == -1 || IsRun(lastRun))
      && if lastUncompressed then lastEnd > 0 && inputPos == lastEnd + 1 && !ZR.NoneStored(Layout())
         else AtStart() || (lastRun != -1 && InStream(lastRun, lastEnd))
    }

    /** A stored run was read since run `run` was, and the state still carries that run's number: the next
        read resumes in `run` as if it were stored. */
    ghost predicate Confused(run: nat, offset: nat)
      requires IsRun(run)
      reads this
    {
      lastUncompressed && run == lastRun && offset >= lastEnd && !ZR.Stored(Layout(), run)
    }

    /** The bytes a read delivers: those of the run, or its raw bytes when it is taken for stored. */
    ghost function Source(run: nat, raw: bool): seq<byte>
      requires IsRun(run)
    {
      if raw then ZR.Compressed(Layout(), run)[1..] else ZR.Plain(Layout(), run)
    }

    /** Ready to deliver the next bytes of `run` from position `lastEnd` on. */
    ghost predicate Ready(run: nat, raw: bool)
      requires IsRun(run)
      reads this
    {
      if raw then
        if lastUncompressed then
          && lastEnd > 0 && inputPos == lastEnd + 1 && !ZR.NoneStored(Layout())
          && (ZR.Stored(Layout(), run) || lastRun == run)
        else AtStart() && ZR.Stored(Layout(), run)
      else !lastUncompressed && InStream(run, lastEnd)
    }

    constructor (reader: Reader, size: nat, offsets: seq<(nat, nat)>, codec: INF.Codec, ghost flat: seq<byte>,
                 ghost below: set<object>)
      requires below == Repr(reader) && Wf(reader) && RandomAccess(reader)
      requires ZR.IsDecoded(ZR.Layout(Contents(reader), offsets, codec, size), flat)
      ensures Wf(FromZlib(this)) && Inv() && !lastUncompressed && this.flat == flat
      ensures this.reader == reader && repr == Repr(reader) + {this} && fresh(this)
      ensures this.size == size && this.offsets == offsets && this.codec == codec
    {
      hide ZR.IsDecoded, ZR.LayoutOk, ZR.NoneStored, InStream, CachedReader.Shape, HFSFork.Shape, DMGPartition.Shape;
      this.reader, this.size, this.offsets, this.codec := reader, size, offsets, codec;
      strm, lastRun, lastEnd, inputPos, lastUncompressed := INF.FRESH, -1, 0, 0, false;
      this.level, this.flat, this.repr := Level(reader) + 1, flat, Repr(reader) + {this};
      new;
      assert this !in below;
    }

    lemma RunIsThere(k: nat)
      requires Shape() && k < ZR.RunCount(size)
      ensures IsRun(k)
    {
    }

    /** zlibExit and zlibInit. */
    method Restart()
      requires Inv()
      modifies this
      ensures Inv() && AtStart() && !lastUncompressed && lastRun == old(lastRun)
    {
      strm, lastEnd, inputPos, lastUncompressed := INF.FRESH, 0, 0, false;
    }

    lemma StartOfStream(run: nat)
      requires IsRun(run) && AtStart() && !ZR.Stored(Layout(), run)
      ensures InStream(run, 0)
    {
      var c := ZR.Compressed(Layout(), run);
      assert c[..0] == [];
    }

    /** After the restart test the state fits the run that is asked for. */
    lemma BecomesReady(run: nat, raw: bool)
      requires Inv() && IsRun(run)
      requires if AtStart() && !lastUncompressed then raw == ZR.Stored(Layout(), run)
               else run == lastRun && raw == (ZR.Stored(Layout(), run) || lastUncompressed)
      ensures Ready(run, raw)
    {
      hide ZR.RunOk, ZR.LayoutOk, INF.Inside;
      if AtStart() && !raw {
        StartOfStream(run);
      }
    }

    /** Reads from one run: resumes where the last read stopped, restarts the run to go back, or decodes and
        drops what lies between to go forward. */
    method ReadRun(run: nat, buf: array<byte>, at: nat, count: nat, offset: nat) returns (res: Result<nat>)
      requires Wf(FromZlib(this)) && Sound(repr) && buf !in repr && at + count <= buf.Length
      requires IsRun(run) && offset <= |Source(run, Raw(run, offset))|
      modifies buf, repr
      ensures Sound(repr)
      ensures Delivered(Source(run, old(Raw(run, offset))), old(buf[..]), buf[..], at, count, offset, res)
      ensures lastEnd == offset + res.value
      ensures count > 0 ==> Ready(run, old(Raw(run, offset)))
      ensures count > 0 ==>
                if old(Raw(run, offset)) then lastUncompressed && lastRun == old(lastRun) else lastRun == run
      decreases level, 8, offset
    {
      hide Wf, Shape, Overwrite, Window, InStream, Sound, IsRun, ZR.Stored;
      ghost var raw := Raw(run, offset);
      ZlibShape(this);
      ZlibSound(this);
      if run != lastRun || offset < lastEnd {
        Restart();
      }
      BecomesReady(run, raw);
      if lastEnd < offset {
        var waste := new byte[512];
        while lastEnd < offset
          invariant lastEnd <= offset && Ready(run, raw) && Inv() && Sound(Repr(reader))
          invariant raw ==> lastRun == old(lastRun)
          invariant buf[..] == old(buf[..])
          decreases offset - lastEnd
        {
          SoundZlib(this);
          ReadyStaysRaw(run, raw);
          var thistime := Min(512, offset - lastEnd);
          var wasted: Result<nat> := ReadRun(run, waste, 0, thistime, lastEnd);
          ZlibSound(this);
          if wasted.Throws? {
            return wasted;
          }
        }
      }
      res := Deliver(run, buf, at, count, raw);
      SoundZlib(this);
    }

    /** Whether a read at `offset` of `run` takes the run for stored. */
    ghost predicate Raw(run: nat, offset: nat)
      requires IsRun(run)
      reads this
    {
      ZR.Stored(Layout(), run) || Confused(run, offset)
    }

    lemma ReadyStaysRaw(run: nat, raw: bool)
      requires IsRun(run) && Ready(run, raw)
      ensures Raw(run, lastEnd) == raw
    {
      hide ZR.RunOk, ZR.LayoutOk, INF.Inside;
    }

    /** The decompression loop: delivers from position `lastEnd` on. */
    method Deliver(run: nat, buf: array<byte>, at: nat, count: nat, ghost raw: bool) returns (res: Result<nat>)
      requires Wf(reader) && Level(reader) < level && Shape() && Sound(Repr(reader)) && buf !in repr
      requires at + count <= buf.Length && IsRun(run) && Ready(run, raw) && Inv() && lastEnd <= |Source(run, raw)|
      modifies buf, repr
      ensures Sound(Repr(reader)) && Inv()
      ensures Delivered(Source(run, raw), old(buf[..]), buf[..], at, count, old(lastEnd), res)
      ensures lastEnd == old(lastEnd) + res.value
      ensures count > 0 ==> Ready(run, raw)
      ensures count > 0 ==> if raw then lastUncompressed && lastRun == old(lastRun) else lastRun == run
      decreases level, 7
    {
      hide Wf, Shape, Overwrite, Window, InStream, Sound, IsRun, ZR.Stored, ZR.Plain, ZR.Marker, ZR.Compressed,
           Has, SameOutside, Source, Ready, Inv, ContinuesRun;
      ghost var before := buf[..];
      ghost var start: nat, startPos: nat := lastEnd, inputPos;
      ghost var plain := Source(run, raw);
      ShapeParts();
      RunBasics(run);
      ReadyBasics(run, raw);
      var inputBuffer := new byte[512];
      var done: nat, readCompressedSoFar: nat := 0, 0;
      NothingYet(buf[..], at, plain, start);
      while done < count
        invariant done <= count && Sound(Repr(reader)) && lastEnd == start && fresh(inputBuffer)
        invariant raw ==> done == 0 && readCompressedSoFar == 0 && inputPos == startPos && Ready(run, true) && Inv()
        invariant lastRun == old(lastRun)
        invariant raw ==> buf[..] == before
        invariant !raw ==> !lastUncompressed && InStream(run, start + done) && startPos <= inputPos <= offsets[run].1
        invariant !raw && done < count ==> readCompressedSoFar == inputPos - startPos
        invariant !raw && done < count ==> readCompressedSoFar == 0 || inputPos < offsets[run].1
        invariant Has(buf[..], at, 0, done, plain, start) && SameOutside(buf[..], before, at, done)
        decreases if raw then 0 else offsets[run].1 - inputPos, count - done
      {
        if raw {
          ReadyBasics(run, raw);
        } else {
          StreamBasics(run, start + done);
        }
        var thisTimeCompressed := Min(offsets[run].1 - readCompressedSoFar, 512);
        var input: seq<byte> := [];
        if !lastUncompressed {
          var got := FetchInput(run, inputBuffer, thisTimeCompressed);
          match got {
            case Throws(e) => return Raise<nat>(e);
            case Ok(bytes) => input := bytes;
          }
        }
        readCompressedSoFar := readCompressedSoFar + |input|;
        if lastUncompressed || (done == 0 && |input| > 0 && inputPos == 0 && ZR.Marker(input[0])) {
          res := ReadStored(run, buf, at, count);
          return;
        }
        var produced, status := InflateInto(run, input, buf, at, done, count - done, start, before);
        if status == INF.BUF_ERROR {
          return Raise<nat>(IoError);
        }
        done := done + produced;
        if status == INF.STREAM_END {
          break;
        }
      }
      FinishRun(run, done, raw);
      RunDelivered(buf[..], before, at, done, plain, start, count);
      return Ok(done);
    }

    lemma RunDelivered(b: seq<byte>, before: seq<byte>, at: nat, done: nat, plain: seq<byte>, start: nat, count: nat)
      requires Has(b, at, 0, done, plain, start) && SameOutside(b, before, at, done) && at + count <= |before|
      requires done <= count && (done == count || start + done == |plain|)
      ensures Delivered(plain, before, b, at, count, start, Ok(done))
    {
      hide Overwrite, Has, SameOutside;
      HasBounds(b, at, 0, done, plain, start);
      AllInPlace(b, before, at, done, plain, start);
      WindowMin(plain, count, start);
    }

    lemma ShapeParts()
      requires Shape()
      ensures this in repr && this !in Repr(reader) && repr == Repr(reader) + {this} && RandomAccess(reader)
    {
    }

    /** The next piece of compressed input, as far as the reader below has it. */
    method FetchInput(run: nat, inputBuffer: array<byte>, n: nat) returns (res: Result<seq<byte>>)
      requires Wf(reader) && Level(reader) < level && Shape() && Sound(Repr(reader)) && inputBuffer !in repr
      requires n <= inputBuffer.Length && n > 0 && IsRun(run) && inputPos <= offsets[run].1
      modifies inputBuffer, Repr(reader)
      ensures Sound(Repr(reader)) && res.Ok?
      ensures ContinuesRun(run, res.value)
      ensures inputPos == 0 ==> |res.value| > 0 && ZR.Marker(res.value[0]) == ZR.Stored(Layout(), run)
      decreases level, 6
    {
      hide Wf, Sound, Overwrite, Window, ZR.Stored, ZR.Plain, ZR.Marker, ZR.Compressed, IsRun, ZR.IsDecoded;
      RunBasics(run);
      NextInput(run, inputPos, n);
      ghost var before := inputBuffer[..];
      var got: Result<nat> := ReadFrom(reader, inputBuffer, 0, n, inputPos + offsets[run].0);
      match got {
        case Throws(e) => return Raise<seq<byte>>(e);
        case Ok(rd) =>
          OverwriteFront(before, Window(Contents(reader), n, inputPos + offsets[run].0));
          return Ok(inputBuffer[..rd]);
      }
    }

    /** The input goes on where the run's compressed bytes were left; it may run past their end. */
    ghost predicate ContinuesRun(run: nat, input: seq<byte>)
      requires IsRun(run)
      reads this
    {
      var c := ZR.Compressed(Layout(), run);
      && inputPos <= |c| && (c[..inputPos] + input <= c || c <= c[..inputPos] + input)
      && (inputPos < |c| ==> |input| > 0)
    }

    /** One inflate call, straight into the output buffer. */
    method InflateInto(ghost run: nat, input: seq<byte>, buf: array<byte>, at: nat, done: nat, room: nat,
                       ghost start: nat, ghost before: seq<byte>) returns (produced: nat, status: INF.Status)
      requires IsRun(run) && InStream(run, start + done) && ContinuesRun(run, input) && room > 0 && !lastUncompressed
      requires at + done + room <= buf.Length
      requires Has(buf[..], at, 0, done, Source(run, false), start) && SameOutside(buf[..], before, at, done)
      modifies this`strm, this`inputPos, buf
      ensures InStream(run, start + done + produced) && produced <= room
      ensures old(inputPos) <= inputPos <= offsets[run].1
      ensures Has(buf[..], at, 0, done + produced, Source(run, false), start)
      ensures SameOutside(buf[..], before, at, done + produced)
      ensures status != INF.BUF_ERROR
      ensures status == INF.STREAM_END ==> start + done + produced == |Source(run, false)|
      ensures status == INF.OK ==> inputPos < offsets[run].1
      ensures status == INF.OK ==> (inputPos == old(inputPos) + |input| && |input| > 0) || produced == room
    {
      hide InStream, IsRun, ZR.Stored, ZR.Compressed, ZR.Plain, Has, SameOutside, Overwrite, ContinuesRun;
      RunBasics(run);
      var out;
      out, status := InflateStep(run, input, room, start + done);
      produced := |out|;
      StreamBasics(run, start + done + produced);
      ghost var was := buf[..];
      Memcpy(buf, at + done, out);
      NextPiece(was, buf[..], before, at, Source(run, false), start, done, produced);
    }

    method FinishRun(run: nat, done: nat, ghost raw: bool)
      requires IsRun(run)
      requires if raw then done == 0 && Inv() && Ready(run, true)
               else !lastUncompressed && InStream(run, lastEnd + done)
      modifies this`lastEnd, this`lastRun
      ensures Inv() && lastEnd == old(lastEnd) + done && lastRun == run
      ensures !raw ==> Ready(run, false)
    {
      hide ZR.RunOk, ZR.LayoutOk, INF.Inside;
      lastEnd := lastEnd + done;
      lastRun := run;
    }

    lemma RunBasics(run: nat)
      requires IsRun(run)
      ensures run < |offsets| && offsets[run].1 > 0 && offsets[run].0 + offsets[run].1 <= |Contents(reader)|
      ensures |ZR.Compressed(Layout(), run)| == offsets[run].1
      ensures ZR.Stored(Layout(), run) <==> ZR.Marker(ZR.Compressed(Layout(), run)[0])
      ensures |ZR.Plain(Layout(), run)| == ZR.RunLength(size, run) > 0
    {
    }

    lemma ReadyBasics(run: nat, raw: bool)
      requires IsRun(run) && Ready(run, raw)
      ensures raw ==> lastUncompressed || (inputPos == 0 && ZR.Stored(Layout(), run))
      ensures !raw ==> !lastUncompressed && InStream(run, lastEnd) && Source(run, raw) == ZR.Plain(Layout(), run)
    {
    }

    lemma StreamBasics(run: nat, produced: nat)
      requires IsRun(run) && InStream(run, produced)
      ensures !ZR.Stored(Layout(), run) && inputPos <= offsets[run].1
      ensures produced <= |ZR.Plain(Layout(), run)|
    {
    }

    /** A stored run holds at least one byte, so that reading it leaves `lastEnd` positive. */
    lemma NotEmpty(run: nat)
      requires IsRun(run)
      ensures ZR.Stored(Layout(), run) ==> |Source(run, true)| > 0 && !ZR.NoneStored(Layout())
    {
    }

    /** What the reader below delivers for the next piece of compressed input. */
    lemma NextInput(run: nat, pos: nat, n: nat)
      requires IsRun(run) && pos <= offsets[run].1
      ensures var c, input := ZR.Compressed(Layout(), run), Window(Contents(reader), n, pos + offsets[run].0);
              && (c[..pos] + input <= c || c <= c[..pos] + input)
              && (pos < |c| && n > 0 ==> |input| > 0 && input[0] == c[pos])
    {
      hide ZR.Stored, ZR.Plain;
      var c, parent, first := ZR.Compressed(Layout(), run), Contents(reader), offsets[run].0;
      var input := Window(parent, n, pos + first);
      if pos + |input| <= |c| {
        assert c[..pos] + input == c[..pos + |input|];
      } else {
        assert (c[..pos] + input)[..|c|] == c;
      }
    }

    /** The bytes of a stored run, or the raw bytes of one taken for stored. */
    lemma StoredBytes(run: nat, pos: nat, n: nat)
      requires IsRun(run) && pos + n + 1 <= offsets[run].1
      ensures var from := pos + 1 + offsets[run].0;
              && from + n <= |Contents(reader)| && pos + n <= |Source(run, true)| == offsets[run].1 - 1
              && Source(run, true)[pos..pos + n] == Contents(reader)[from..from + n]
    {
      hide ZR.Stored, ZR.Plain;
      var c, parent, first := ZR.Compressed(Layout(), run), Contents(reader), offsets[run].0;
      var x, y := c[1..][pos..pos + n], parent[pos + 1 + first..pos + 1 + first + n];
      forall i | 0 <= i < n
        ensures x[i] == y[i]
      {
        assert x[i] == c[1 + pos + i] == parent[first + 1 + pos + i] == y[i];
      }
    }

    method ReadStored(run: nat, buf: array<byte>, at: nat, count: nat) returns (res: Result<nat>)
      requires Wf(reader) && Level(reader) < level && Shape() && Sound(Repr(reader)) && buf !in repr
      requires at + count <= buf.Length && IsRun(run) && Ready(run, true) && Inv() && lastEnd <= |Source(run, true)|
      requires count > 0
      modifies buf, repr
      ensures Sound(Repr(reader)) && Inv() && Ready(run, true)
      ensures Delivered(Source(run, true), old(buf[..]), buf[..], at, count, old(lastEnd), res)
      ensures lastEnd == old(lastEnd) + res.value && lastUncompressed && lastRun == old(lastRun)
      decreases level, 6
    {
      hide Wf, Overwrite, Sound, Window, Shape, IsRun, InStream, Ready, Inv, Source, ZR.Stored, ZR.NoneStored, ZR.Plain;
      ShapeParts();
      RunBasics(run);
      NotEmpty(run);
      StoredBasics(run);
      if !lastUncompressed {
        inputPos := inputPos + 1;
      }
      var n := Min(count, offsets[run].1 - lastEnd - 1);
      var got: Result<nat> := FetchStored(run, buf, at, n);
      match got {
        case Throws(e) => return Raise<nat>(e);
        case Ok(read) =>
          inputPos := inputPos + read;
          lastEnd := lastEnd + read;
      }
      WindowMin(Source(run, true), count, old(lastEnd));
      lastUncompressed := true;
      StoredReady(run);
      return got;
    }

    /** The next bytes behind the marker, read straight into the output. */
    method FetchStored(run: nat, buf: array<byte>, at: nat, n: nat) returns (got: Result<nat>)
      requires Wf(reader) && Level(reader) < level && Shape() && Sound(Repr(reader)) && buf !in repr
      requires at + n <= buf.Length && IsRun(run) && lastEnd + n + 1 <= offsets[run].1 && inputPos == lastEnd + 1
      modifies buf, Repr(reader)
      ensures Sound(Repr(reader)) && got == Ok(n) && lastEnd + n <= |Source(run, true)|
      ensures buf[..] == Overwrite(old(buf[..]), at, Source(run, true)[lastEnd..lastEnd + n])
      decreases level, 5
    {
      hide Wf, Overwrite, Sound, Window, Shape, IsRun, Source;
      ShapeParts();
      RunBasics(run);
      StoredBytes(run, lastEnd, n);
      WindowInside(Contents(reader), n, inputPos + offsets[run].0);
      got := ReadFrom(reader, buf, at, n, inputPos + offsets[run].0);
    }

    lemma StoredBasics(run: nat)
      requires IsRun(run) && Ready(run, true) && Inv()
      ensures if lastUncompressed then lastEnd > 0 && inputPos == lastEnd + 1 else lastEnd == inputPos == 0
      ensures ZR.Stored(Layout(), run) || (lastRun == run && lastUncompressed)
      ensures !ZR.NoneStored(Layout()) && (lastRun == -1 || IsRun(lastRun))
      ensures |Source(run, true)| == offsets[run].1 - 1
    {
      hide ZR.RunOk, ZR.LayoutOk, INF.Inside, InStream;
      RunBasics(run);
      NotEmpty(run);
    }

    lemma StoredReady(run: nat)
      requires IsRun(run) && lastUncompressed && lastEnd > 0 && inputPos == lastEnd + 1
      requires ZR.Stored(Layout(), run) || lastRun == run
      requires !ZR.NoneStored(Layout()) && (lastRun == -1 || IsRun(lastRun))
      ensures Inv() && Ready(run, true)
    {
      hide ZR.RunOk, ZR.LayoutOk;
    }

    method InflateStep(ghost run: nat, input: seq<byte>, room: nat, ghost produced: nat)
      returns (out: seq<byte>, status: INF.Status)
      requires IsRun(run) && InStream(run, produced) && room > 0 && ContinuesRun(run, input)
      modifies this`strm, this`inputPos
      ensures InStream(run, produced + |out|) && |out| <= room && inputPos >= old(inputPos)
      ensures produced + |out| <= |ZR.Plain(Layout(), run)|
      ensures out == ZR.Plain(Layout(), run)[produced..produced + |out|]
      ensures status != INF.BUF_ERROR
      ensures status == INF.STREAM_END ==> produced + |out| == |ZR.Plain(Layout(), run)|
      ensures status == INF.OK ==> inputPos < offsets[run].1
      ensures status == INF.OK ==> (inputPos == old(inputPos) + |input| && |input| > 0) || |out| == room
    {
      hide ZR.IsDecoded;
      ghost var c := ZR.Compressed(Layout(), run);
      var t;
      t, out, status := INF.Inflate(codec, strm, input, room, c);
      inputPos := inputPos + (|t.fed| - |strm.fed|);
      strm := t;
    }

    /** The part of a request that can be answered: it starts at a run, or stays in one. */
    ghost predicate Aligned(count: nat, offset: nat) {
      offset % ZR.RUN_LENGTH == 0 || offset % ZR.RUN_LENGTH + Clip(size, count, offset) <= ZR.RUN_LENGTH
    }

    /** A read at `offset` does not resume a run that is mistaken for a stored one. */
    ghost predicate Clean(offset: nat)
      reads this
    {
      offset < size ==>
        IsRun(offset / ZR.RUN_LENGTH) && !Confused(offset / ZR.RUN_LENGTH, offset % ZR.RUN_LENGTH)
    }

    /** The requests that are answered: those that do not start in the middle of a run and leave it; when the run is
        mistaken for a stored one its raw bytes must reach far enough. */
    ghost predicate Answered(clean: bool, count: nat, offset: nat) {
      && Aligned(count, offset)
      && (clean || (RawThere(offset) && offset % ZR.RUN_LENGTH + Clip(size, count, offset) <= |RawAt(offset)|))
    }

    ghost predicate RawThere(offset: nat) {
      IsRun(offset / ZR.RUN_LENGTH)
    }

    ghost function RawAt(offset: nat): seq<byte>
      requires RawThere(offset)
    {
      Source(offset / ZR.RUN_LENGTH, true)
    }

    /** The file as such a request shows it: the decoded one, or with raw bytes in the place of the request. */
    ghost function Shown(clean: bool, count: nat, offset: nat): seq<byte>
      requires |flat| == size && Answered(clean, count, offset)
    {
      var from, n := offset % ZR.RUN_LENGTH, Clip(size, count, offset);
      if clean || n == 0 then flat else Overwrite(flat, offset, RawAt(offset)[from..from + n])
    }

    /** A mistaken read whose end can be told: it stays in its run, or its raw bytes end before its first share. */
    ghost predicate Bounded(count: nat, offset: nat) {
      && RawThere(offset) && offset % ZR.RUN_LENGTH <= |RawAt(offset)|
      && (Aligned(count, offset)
          || |RawAt(offset)| < offset % ZR.RUN_LENGTH + Min(ZR.RUN_LENGTH, Clip(size, count, offset)))
    }

    /** Reads run by run. The first run's share is not shortened by the position inside it, so a request that
        starts inside a run and leaves it fails. */
    method Read(buf: array<byte>, at: nat, count0: nat, offset: nat) returns (res: Result<nat>)
      requires Wf(FromZlib(this)) && Sound(repr) && buf !in repr && at + count0 <= buf.Length
      requires |flat| == size && (Clean(offset) || Bounded(count0, offset))
      modifies buf, repr
      ensures Sound(repr)
      ensures if Answered(old(Clean(offset)), count0, offset) then
                Delivered(Shown(old(Clean(offset)), count0, offset), old(buf[..]), buf[..], at, count0, offset, res)
              else res == Throws(IoError)
      decreases level, 10
    {
      hide Has, SameOutside, Overwrite, Wf, Sound, Window, Clean, Shown, RawThere, RawAt, Answered;
      ghost var before, clean := buf[..], Clean(offset);
      ghost var shown := if Answered(clean, count0, offset) then Shown(clean, count0, offset) else flat;
      ShownSize(clean, count0, offset);
      var count: int := count0;
      if offset + count > size {
        count := size - offset;
      }
      StartRequest(before, at, shown, offset, count0, count);
      var done := 0;
      while done < count
        invariant 0 <= done && (done <= count || done == 0) && Sound(repr)
        invariant done == 0 || done == count || (clean && (offset + done) % ZR.RUN_LENGTH == 0)
        invariant if done > 0 then Answered(clean, count0, offset) else Clean(offset) == clean
        invariant done == 0 ==> buf[..] == before
        invariant count > 0 ==> Has(buf[..], at, 0, done, shown, offset) && SameOutside(buf[..], before, at, done)
        decreases count - done
      {
        var runOffset := 0;
        var runIndex := (offset + done) / ZR.RUN_LENGTH;
        if done == 0 {
          runOffset := offset % ZR.RUN_LENGTH;
        }
        var thisTime := Min(ZR.RUN_LENGTH, count - done);
        ghost var was := buf[..];
        var read: Result<nat> := ReadShare(runIndex, buf, at, thisTime, runOffset, offset, done, count0, clean, shown);
        if read.Throws? {
          return read;
        }
        if read.value != thisTime {
          return Raise<nat>(IoError);
        }
        NextPiece(was, buf[..], before, at, shown, offset, done, thisTime);
        done := done + thisTime;
      }
      if count <= 0 {
        AnsweredNothing(clean, count0, offset);
      }
      EndRequest(buf[..], before, at, shown, offset, count0, count);
      return Ok(done);
    }

    lemma ShownSize(clean: bool, count: nat, offset: nat)
      requires |flat| == size
      ensures Answered(clean, count, offset) ==> |Shown(clean, count, offset)| == size
    {
    }

    /** What a request that is not mistaken gets: the decoded file, unless it starts inside a run and leaves it. */
    lemma AnsweredIff(count: nat, offset: nat)
      requires |flat| == size
      ensures Answered(true, count, offset) <==>
              offset >= size || offset % 0x10000 == 0 || offset % 0x10000 + Min(count, size - offset) <= 0x10000
      ensures Answered(true, count, offset) ==> Shown(true, count, offset) == flat
    {
      hide Source;
    }

    lemma AnsweredNothing(clean: bool, count: nat, offset: nat)
      requires Clip(size, count, offset) == 0 && (clean || Bounded(count, offset))
      ensures Answered(clean, count, offset)
    {
      hide Source, IsRun;
    }

    /** One run's share of a request: all of it, or less than was asked for when the request is not answered. */
    method ReadShare(run: nat, buf: array<byte>, at: nat, n: nat, runOffset: nat, ghost offset: nat, done: nat,
                     ghost count0: nat, ghost clean: bool, ghost shown: seq<byte>) returns (read: Result<nat>)
      requires Wf(FromZlib(this)) && Sound(repr) && buf !in repr && at + done + n <= buf.Length && |flat| == size
      requires done < Clip(size, count0, offset) && n == Min(ZR.RUN_LENGTH, Clip(size, count0, offset) - done)
      requires run == (offset + done) / ZR.RUN_LENGTH && runOffset == (if done == 0 then offset % ZR.RUN_LENGTH else 0)
      requires done == 0 || (clean && (offset + done) % ZR.RUN_LENGTH == 0)
      requires if done > 0 then Answered(clean, count0, offset) else Clean(offset) == clean
      requires clean || Bounded(count0, offset)
      requires shown == if Answered(clean, count0, offset) then Shown(clean, count0, offset) else flat
      modifies buf, repr
      ensures Sound(repr) && read.Ok? && (read.value == n <==> Answered(clean, count0, offset))
      ensures Answered(clean, count0, offset) ==>
                && offset + done + n <= |shown|
                && buf[..] == Overwrite(old(buf[..]), at + done, shown[offset + done..offset + done + n])
                && (done + n == Clip(size, count0, offset) || (clean && (offset + done + n) % ZR.RUN_LENGTH == 0))
      decreases level, 9
    {
      hide Wf, Sound, Shape, Inv, IsRun, Overwrite, Window, Source, Shown, Answered, Bounded, Clean, Raw;
      ZlibShape(this);
      ZlibSound(this);
      ShownSize(clean, count0, offset);
      if clean {
        RunOfRequest(offset, done, count0, n, run, runOffset, shown);
      } else {
        RunMistaken(offset, count0, n, run, runOffset, shown);
      }
      read := ReadRun(run, buf, at + done, n, runOffset);
    }

    /** What a share of a request reads: the bytes shown, all of them exactly when the request is answered. */
    ghost predicate ShareRead(source: seq<byte>, shown: seq<byte>, answered: bool, from: nat, runOffset: nat, n: nat)
    {
      && runOffset <= |source| && (Clip(|source|, n, runOffset) == n <==> answered)
      && (answered ==> from + n <= |shown| && Window(source, n, runOffset) == shown[from..from + n])
    }

    /** A share of a request that is not mistaken. */
    lemma RunOfRequest(offset: nat, done: nat, count0: nat, n: nat, run: nat, runOffset: nat, shown: seq<byte>)
      requires Shape() && Inv() && offset + done < size && done < Clip(size, count0, offset) && |flat| == size
      requires n == Min(ZR.RUN_LENGTH, Clip(size, count0, offset) - done)
      requires run == (offset + done) / ZR.RUN_LENGTH && runOffset == (if done == 0 then offset % ZR.RUN_LENGTH else 0)
      requires done == 0 || (offset + done) % ZR.RUN_LENGTH == 0
      requires if done > 0 then Answered(true, count0, offset) else Clean(offset)
      requires shown == if Answered(true, count0, offset) then Shown(true, count0, offset) else flat
      ensures IsRun(run)
      ensures ShareRead(Source(run, Raw(run, runOffset)), shown, Answered(true, count0, offset), offset + done,
                        runOffset, n)
      ensures Answered(true, count0, offset) && done + n < Clip(size, count0, offset) ==>
                (offset + done + n) % ZR.RUN_LENGTH == 0
    {
      hide InStream, ZR.Compressed, ZR.IsDecoded, ZR.LayoutOk, Shape, Inv, IsRun, Source, Raw, Clean, ZR.Plain,
           ZR.RunOk, Answered, Shown, Aligned, ShareRead, Window;
      CleanShown(count0, offset);
      ZR.RunOfByte(size, offset + done);
      RunIsThere(run);
      RunBasics(run);
      NotMistaken(offset, run, runOffset);
      PlainIsSource(run);
      ShareArith(offset, done, count0, n, ZR.RunLength(size, run), runOffset);
      PlainShare(run, runOffset, n, Aligned(count0, offset));
    }

    lemma CleanShown(count: nat, offset: nat)
      requires |flat| == size
      ensures Answered(true, count, offset) == Aligned(count, offset)
      ensures Answered(true, count, offset) ==> Shown(true, count, offset) == flat
    {
      hide Source;
    }

    /** A share of a decoded run is a piece of the decoded file. */
    lemma PlainShare(run: nat, runOffset: nat, n: nat, answered: bool)
      requires Shape() && run < ZR.RunCount(size) && IsRun(run) && runOffset < ZR.RunLength(size, run)
      requires Clip(ZR.RunLength(size, run), n, runOffset) == n <==> answered
      ensures ShareRead(ZR.Plain(Layout(), run), flat, answered, run * ZR.RUN_LENGTH + runOffset, runOffset, n)
    {
      hide InStream, ZR.Compressed, ZR.IsDecoded, ZR.LayoutOk, Shape, Inv, IsRun, ZR.Plain, ZR.RunOk, Window;
      DecodedThere();
      RunBasics(run);
      if answered {
        ZR.BytesOfRun(Layout(), flat, run, runOffset, n);
        WindowInside(ZR.Plain(Layout(), run), n, runOffset);
      }
    }

    lemma NotMistaken(offset: nat, run: nat, runOffset: nat)
      requires Inv() && IsRun(run)
      requires runOffset == 0 ||
               (offset < size && run == offset / ZR.RUN_LENGTH && runOffset == offset % ZR.RUN_LENGTH && Clean(offset))
      ensures Raw(run, runOffset) == ZR.Stored(Layout(), run)
    {
      hide InStream, ZR.RunOk, ZR.LayoutOk;
    }

    lemma DecodedThere()
      requires Shape()
      ensures ZR.IsDecoded(Layout(), flat)
    {
    }

    /** A share ends at its run's end or before, exactly when the request is aligned. */
    lemma ShareArith(offset: nat, done: nat, count0: nat, n: nat, length: nat, runOffset: nat)
      requires offset + done < size && done < Clip(size, count0, offset)
      requires n == Min(ZR.RUN_LENGTH, Clip(size, count0, offset) - done)
      requires runOffset == (offset + done) % ZR.RUN_LENGTH && (done > 0 ==> runOffset == 0 && Aligned(count0, offset))
      requires length == Min(ZR.RUN_LENGTH, size - (offset + done - runOffset))
      ensures runOffset < length && (Clip(length, n, runOffset) == n <==> Aligned(count0, offset))
      ensures Aligned(count0, offset) && done + n < Clip(size, count0, offset)
              ==> (offset + done + n) % ZR.RUN_LENGTH == 0
    {
    }

    /** The only share of a request whose run is mistaken for a stored one. */
    lemma RunMistaken(offset: nat, count0: nat, n: nat, run: nat, runOffset: nat, shown: seq<byte>)
      requires 0 < Clip(size, count0, offset) && n == Min(ZR.RUN_LENGTH, Clip(size, count0, offset)) && |flat| == size
      requires run == offset / ZR.RUN_LENGTH && runOffset == offset % ZR.RUN_LENGTH
      requires Inv() && !Clean(offset) && Bounded(count0, offset)
      requires shown == if Answered(false, count0, offset) then Shown(false, count0, offset) else flat
      ensures IsRun(run)
      ensures ShareRead(Source(run, Raw(run, runOffset)), shown, Answered(false, count0, offset), offset, runOffset, n)
      ensures Answered(false, count0, offset) ==> n == Clip(size, count0, offset)
    {
      hide InStream, IsRun, ZR.Stored, ZR.NoneStored, Source, AtStart;
      assert runOffset > 0;
      var raw := Source(run, true);
      WindowMin(raw, n, runOffset);
      if Answered(false, count0, offset) {
        assert shown[offset..offset + n] == raw[runOffset..runOffset + n];
      }
    }

    lemma PlainIsSource(run: nat)
      requires IsRun(run)
      ensures Source(run, ZR.Stored(Layout(), run)) == ZR.Plain(Layout(), run)
    {
    }
  }

  lemma ZlibStartsClean(z: HFSZlibReader, count: nat, offset: nat)
    requires Wf(FromZlib(z)) && Sound(z.repr) && Serves(FromZlib(z), count, offset)
    ensures z.Clean(offset) && |z.flat| == z.size && z.Answered(true, count, offset)
    ensures z.Shown(true, count, offset) == z.flat
  {
    hide Wf, ZR.IsDecoded, Sound, HFSZlibReader.InStream, HFSZlibReader.Source;
    ZlibShape(z);
    ZlibSound(z);
    ZlibSize(z);
    if offset < z.size {
      ZR.RunOfByte(z.size, offset);
      z.RunIsThere(offset / ZR.RUN_LENGTH);
      if offset % ZR.RUN_LENGTH != 0 {
        NeverConfused(z, offset / ZR.RUN_LENGTH, offset % ZR.RUN_LENGTH);
      }
    }
  }

  /** Without stored runs no read is ever taken for one. */
  lemma NeverConfused(z: HFSZlibReader, run: nat, offset: nat)
    requires z.Inv() && z.IsRun(run) && ZR.NoneStored(z.Layout())
    ensures !z.Raw(run, offset)
  {
    assert ZR.HasRun(z.Layout(), run);
  }

  /** With them it happens: a compressed run `a` is read from its start, then a stored run `b`; a read that goes on
      in `a` where the one in `b` stopped delivers the compressed bytes of `a`. */
  method StaleRun(z: HFSZlibReader, buf: array<byte>, a: nat, b: nat, n: nat, m: nat)
    requires Wf(FromZlib(z)) && Sound(z.repr) && !z.lastUncompressed && buf !in z.repr
    requires z.IsRun(a) && z.IsRun(b) && !ZR.Stored(z.Layout(), a) && ZR.Stored(z.Layout(), b)
    requires 0 < n <= |ZR.Plain(z.Layout(), b)| && n < |ZR.Compressed(z.Layout(), a)| && n <= buf.Length
             && m <= buf.Length
    modifies buf, z.repr
    ensures var raw := ZR.Compressed(z.Layout(), a)[1..];
            m <= |raw| - n ==> buf[..m] == raw[n..n + m]
  {
    hide Wf, Sound, ZR.Plain, ZR.Stored, HFSZlibReader.InStream, HFSZlibReader.Ready, Overwrite, ZR.LayoutOk,
         ZR.RunOk, Window;
    ZlibShape(z);
    z.PlainIsSource(a);
    z.PlainIsSource(b);
    z.RunBasics(a);
    var first := z.ReadRun(a, buf, 0, 1, 0);
    var second := z.ReadRun(b, buf, 0, n, 0);
    WindowMin(z.Source(b, true), n, 0);
    ghost var before := buf[..];
    var third := z.ReadRun(a, buf, 0, m, n);
    var raw := z.Source(a, true);
    WindowMin(raw, m, n);
    OverwriteFront(before, Window(raw, m, n));
  }

  /** A codec for the example: a stream is three bytes and decodes to 65536 copies of the second. */
  function CopyCodec(): INF.Codec {
    INF.Codec((p: seq<byte>) => if |p| >= 2 then seq(ZR.RUN_LENGTH, _ => p[1]) else [], (p: seq<byte>) => |p| == 3)
  }

  const STALE_BYTES: seq<byte> := [8, 7, 0, 0xf, 1]
  const STALE_OFFSETS: seq<(nat, nat)> := [(0, 3), (3, 2)]

  ghost function StaleFile(): seq<byte> {
    seq(ZR.RUN_LENGTH + 1, i => if i < ZR.RUN_LENGTH then 7 else 1)
  }

  ghost function StaleLayout(): ZR.Layout {
    ZR.Layout(STALE_BYTES, STALE_OFFSETS, CopyCodec(), ZR.RUN_LENGTH + 1)
  }

  lemma CopyCodecStreams(a: byte, b: byte, c: byte)
    ensures INF.IsCoded(CopyCodec(), [a, b, c])
    ensures CopyCodec().dec([a, b, c]) == seq(ZR.RUN_LENGTH, _ => b)
  {
    var s := [a, b, c];
    assert s[..2] == [a, b];
  }

  lemma StaleRuns()
    ensures var l := StaleLayout();
            && ZR.HasRun(l, 0) && ZR.Compressed(l, 0) == [8, 7, 0] && !ZR.Stored(l, 0)
            && ZR.HasRun(l, 1) && ZR.Compressed(l, 1) == [0xf, 1] && ZR.Stored(l, 1) && ZR.Plain(l, 1) == [1]
            && ZR.Plain(l, 0) == seq(ZR.RUN_LENGTH, _ => 7)
  {
    hide INF.IsCoded;
    var l := StaleLayout();
    assert ZR.Compressed(l, 0) == [8, 7, 0] && ZR.Compressed(l, 1) == [0xf, 1];
    assert [0xf, 1][1..] == [1];
    CopyCodecStreams(8, 7, 0);
  }

  lemma StaleIsDecoded()
    ensures ZR.IsDecoded(StaleLayout(), StaleFile()) && ZR.RunCount(StaleLayout().size) == 2
  {
    hide ZR.Stored, ZR.Compressed, ZR.Plain, INF.Streaming, INF.IsStream, CopyCodec;
    StaleRuns();
    CopyCodecStreams(8, 7, 0);
    var flat := StaleFile();
    assert flat[0..ZR.RUN_LENGTH] == seq(ZR.RUN_LENGTH, _ => 7);
    assert flat[ZR.RUN_LENGTH..ZR.RUN_LENGTH + 1] == [1];
  }

  /** Such a layout: a run of 65536 copies of 7 and a stored run of one byte. After reading the first byte of the first
      run and the byte of the second, the second byte of the file reads as 0. */
  method StaleRunExample() returns (got: seq<byte>)
    ensures got == [0] && StaleFile()[1] == 7
  {
    hide Wf, ZR.IsDecoded, ZR.LayoutOk, HFSZlibReader.InStream, ZR.Stored, ZR.Compressed, ZR.Plain;
    StaleRuns();
    StaleIsDecoded();
    var reader := FromMemory(STALE_BYTES);
    MemoryIsThere(STALE_BYTES);
    var z := new HFSZlibReader(reader, ZR.RUN_LENGTH + 1, STALE_OFFSETS, CopyCodec(), StaleFile(), {});
    ZlibShape(z);
    z.RunIsThere(0);
    z.RunIsThere(1);
    var buf := new byte[1];
    StaleRun(z, buf, 0, 1, 1, 1);
    return buf[..1];
  }

  lemma MemoryIsThere(data: seq<byte>)
    ensures var r := FromMemory(data);
            Wf(r) && RandomAccess(r) && Repr(r) == {} && Contents(r) == data
  {
  }

  lemma ZlibShape(z: HFSZlibReader)
    requires Wf(FromZlib(z))
    ensures z.Shape() && Wf(z.reader) && Level(z.reader) < z.level
    ensures z in z.repr && z !in Repr(z.reader) && z.repr == Repr(z.reader) + {z}
  {
  }

  lemma ZlibSize(z: HFSZlibReader)
    requires Wf(FromZlib(z))
    ensures |z.flat| == z.size
  {
  }

  lemma ZlibSound(z: HFSZlibReader)
    requires z.Shape() && Sound(z.repr)
    ensures z.Inv() && Sound(Repr(z.reader))
  {
    hide ZR.IsDecoded;
  }

  lemma SoundZlib(z: HFSZlibReader)
    requires z.Shape() && z.Inv() && Sound(Repr(z.reader))
    ensures Sound(z.repr)
  {
    hide ZR.IsDecoded;
  }

  // ---- DMGDecompressor ----

  /** The base class, with the methods of the two classes that add no fields, DMGDecompressor_ADC and
      DMGDecompressor_LZFSE. */
  class DMGDecompressor {
    const reader: Reader
    const buf: array<byte>
    var pos: nat

    ghost const source: seq<byte>
    ghost const level: nat

    constructor (reader: Reader)
      ensures this.reader == reader && pos == 0 && fresh(buf) && fresh(this) && buf.Length == AW.INPUT_SIZE
      ensures source == Contents(reader) && level == Level(reader)
    {
      this.reader, buf, pos := reader, new byte[AW.INPUT_SIZE], 0;
      this.source, this.level := Contents(reader), Level(reader);
    }

    ghost predicate Usable(objs: set<object>) {
      && Wf(reader) && RandomAccess(reader) && objs == Repr(reader) && this !in objs && buf !in objs
      && buf.Length == AW.INPUT_SIZE && source == Contents(reader) && level == Level(reader)
    }

    lemma Basics(objs: set<object>)
      requires Usable(objs)
      ensures objs == Repr(reader) && this !in objs && buf !in objs && buf.Length == AW.INPUT_SIZE
    {
    }

    /** The next input, from the position processed so far. */
    method ReadSome(ghost objs: set<object>) returns (res: Result<nat>)
      requires Usable(objs) && Sound(objs)
      modifies buf, objs
      ensures Sound(objs)
      ensures pos >= |source| ==> res == Throws(IoError)
      ensures pos < |source| ==>
                && res == Ok(Min(AW.INPUT_SIZE, |source| - pos))
                && buf[..res.value] == AW.Chunk(source, pos)
      decreases level, 14
    {
      hide Wf, Sound, Overwrite, Window;
      ghost var before := buf[..];
      var rd: Result<nat> := ReadFrom(reader, buf, 0, AW.INPUT_SIZE, pos);
      if rd.Throws? {
        return rd;
      }
      if rd.value <= 0 {
        return Raise<nat>(IoError);
      }
      WindowMin(source, AW.INPUT_SIZE, pos);
      OverwriteFront(before, Window(source, AW.INPUT_SIZE, pos));
      return rd;
    }

    method Processed(bytes: nat)
      modifies this`pos
      ensures pos == old(pos) + bytes
    {
      pos := pos + bytes;
    }

    // ---- ADC ----

    /** One round of the loop up to the copying: reads input and decodes it behind the window's bytes. */
    method DecodeSome(window: array<byte>, restartIndex: nat, bytesWritten: int, ghost objs: set<object>,
                      ghost base: nat)
      returns (res: Result<(nat, nat)>)
      requires Usable(objs) && Sound(objs) && window !in objs && window != buf && window.Length == AW.CAPACITY
      requires restartIndex < 2 * AW.LOOKBACK && pos <= |source|
      requires AW.Reached(source, pos, base, window[..restartIndex])
      modifies buf, window, objs
      ensures Sound(objs)
      ensures pos == |source| ==> res == Throws(IoError)
      ensures pos < |source| ==>
                && res.Ok? && var (used, written) := res.value;
                && used > 0 && written <= AW.CAPACITY
                && (pos + used, window[..written])
                   == AW.AfterRound(source, pos, old(window[..restartIndex]))
      decreases level, 15
    {
      hide Wf, Sound, AW.At, AW.Reached, AW.Chunk, Adc.Safe, Adc.Decode;
      ghost var shown := window[..restartIndex];
      var got := ReadSome(objs);
      match got {
        case Throws(e) => return Raise<(nat, nat)>(e);
        case Ok(n) =>
          AW.Round(source, pos, base, shown);
          var input := buf[..n];
          var used, written := Adc.AdcDecompress(input, AW.CAPACITY, window, restartIndex, bytesWritten);
          if used == 0 {
            return Raise<(nat, nat)>(IoError);
          }
          return Ok((used, written));
      }
    }

    /** Decodes `count` bytes at `offset0` of the stream. What the first slide after the start of the request
        drops from the front of the window is counted as delivered, so that a request which starts inside a
        lookback and does not fit the window over it stays short by its distance from that lookback's start. */
    method DecompressAdc(output: array<byte>, at: nat, count: nat, offset0: int, ghost objs: set<object>)
      returns (res: Result<nat>)
      requires Usable(objs) && Sound(objs) && pos == 0 && Adc.IsStream(source)
      requires output !in objs && output != buf && at + count <= output.Length
      modifies this`pos, buf, output, objs
      ensures Sound(objs)
      ensures Decompressed(source, old(output[..]), output[..], at, count, offset0, res)
      decreases level, 16
    {
      hide Wf, Sound, AW.At, AW.Reached, Adc.Decode, Adc.IsStream, Adc.Whole, Has, SameOutside, Overwrite,
           Decompressed, Usable, Progress, Partial;
      Basics(objs);
      ghost var before, s := output[..], source;
      if offset0 < 0 {
        NegativeOffset(s, before, at, count, offset0);
        return Raise<nat>(IoError);
      }
      var countLeft, offset := count, offset0;
      var outAt, restartIndex, bytesWritten := at, 0, 0;
      var window := new byte[AW.CAPACITY];
      ghost var base: nat, delivered: nat, lost: nat := 0, 0, 0;
      assert window[..0] == [];
      if count > 0 {
        ProgressStart(s, offset0, count);
      }
      PartialStart(before, at, Adc.Whole(s), offset0);
      while countLeft > 0
        invariant Sound(objs) && fresh(window) && 0 <= countLeft && delivered + countLeft + lost == count
        invariant countLeft > 0 ==>
                    && 0 <= restartIndex <= AW.CAPACITY && outAt == at + delivered
                    && Progress(s, pos, base, window[..restartIndex], offset, offset0, delivered, countLeft, lost)
        invariant countLeft == 0 && count > 0 ==> AW.Answered(s, offset0, count) && lost == AW.Lost(s, offset0, count)
        invariant Partial(output[..], before, at, delivered, Adc.Whole(s), offset0)
        decreases countLeft > 0, |s| - pos
      {
        ghost var shown := window[..restartIndex];
        ProgressBasics(s, pos, base, shown, offset, offset0, delivered, countLeft, lost);
        var some := DecodeSome(window, restartIndex, bytesWritten, objs, base);
        match some {
          case Throws(e) =>
            UsedUp(s, base, shown, offset, offset0, delivered, countLeft, lost, before, output[..], at, count);
            return Raise<nat>(e);
          case Ok(_) =>
        }
        var (used, written) := some.value;
        bytesWritten := written;
        outAt, restartIndex, offset, countLeft, base, delivered, lost :=
          CopyOut(output, at, outAt, window, written, used, offset, countLeft, shown, base, offset0, delivered, lost,
                  before);
      }
      AllDelivered(s, before, output[..], at, count, offset0, delivered);
      return Ok(count);
    }

    /** What a round does with the decoded bytes: copies out the rest of the request when the window holds it, or slides
        the window when that is full. */
    method CopyOut(output: array<byte>, ghost at: nat, outAt: nat, window: array<byte>, written: nat, used: nat,
                   offset: nat, countLeft: nat, ghost shown: seq<byte>, ghost base: nat, ghost start: nat,
                   ghost delivered: nat, ghost lost: nat, ghost before: seq<byte>)
      returns (outAt': nat, restartIndex: nat, offset': nat, countLeft': int, ghost base': nat, ghost delivered': nat,
               ghost lost': nat)
      requires window != output && written <= window.Length && pos < |source|
      requires outAt == at + delivered && outAt + countLeft <= output.Length
      requires Progress(source, pos, base, shown, offset, start, delivered, countLeft, lost)
      requires (pos + used, window[..written]) == AW.AfterRound(source, pos, shown)
      requires Partial(output[..], before, at, delivered, Adc.Whole(source), start)
      modifies this`pos, output, window
      ensures pos == old(pos) + used <= |source| && used > 0
      ensures countLeft' >= 0 && delivered' + countLeft' + lost' == delivered + countLeft + lost
      ensures Partial(output[..], before, at, delivered', Adc.Whole(source), start)
      ensures if countLeft' > 0 then
                && restartIndex <= window.Length && outAt' == at + delivered'
                && Progress(source, pos, base', window[..restartIndex], offset', start, delivered', countLeft', lost')
              else
                var count := delivered + countLeft + lost;
                AW.Answered(source, start, count) && lost' == AW.Lost(source, start, count)
    {
      hide AW.Reached, AW.AfterRound, AW.Lost, AW.Answered, Adc.IsStream, Adc.Whole, Partial, Progress;
      outAt', restartIndex, offset', countLeft' := outAt, 0, offset, countLeft;
      base', delivered', lost' := base, delivered, lost;
      ProgressBasics(source, pos, base, shown, offset, start, delivered, countLeft, lost);
      AW.RoundAdvances(source, pos, base, shown);
      ghost var after := window[..written];
      if written >= offset + countLeft {
        CopyFromWindow(output, at, outAt, window, written, offset, countLeft, pos + used, base, start, delivered,
                       before);
        ProgressFinish(source, pos, base, shown, offset, start, delivered, countLeft, lost, pos + used, after);
        delivered' := delivered + countLeft;
        countLeft' := 0;
      } else if written >= 2 * AW.LOOKBACK {
        ProgressSlide(source, pos, base, shown, offset, start, delivered, countLeft, lost, pos + used, after);
        outAt', offset', countLeft' := SlideOn(output, at, outAt, window, written, offset, countLeft, pos + used, base,
                                               start, delivered, before);
        if offset < AW.LOOKBACK {
          delivered', lost' := delivered + (AW.LOOKBACK - offset), lost + offset;
        }
        restartIndex, base' := written - AW.LOOKBACK, base + AW.LOOKBACK;
        ProgressLeft(source, pos + used, base', after[AW.LOOKBACK..], offset', start, delivered', countLeft', lost');
      } else {
        ProgressMore(source, pos, base, shown, offset, start, delivered, countLeft, lost, pos + used, after);
        restartIndex := written;
      }
      Processed(used);
    }

    lemma ProgressLeft(s: seq<byte>, at: nat, base: nat, window: seq<byte>, offset: int, offset0: nat, delivered: nat,
                       countLeft: int, lost: nat)
      requires Progress(s, at, base, window, offset, offset0, delivered, countLeft, lost)
      ensures countLeft > 0
    {
    }

    /** The window is full: what it shows of the request up to one lookback is copied out, and it slides. */
    method SlideOn(output: array<byte>, ghost at: nat, outAt: nat, window: array<byte>, written: nat, offset0: nat,
                   countLeft0: int, ghost pos': nat, ghost base: nat, ghost start: nat, ghost delivered: nat,
                   ghost before: seq<byte>) returns (outAt': nat, offset: nat, countLeft: int)
      requires window != output && 2 * AW.LOOKBACK <= written <= window.Length && Adc.IsStream(source)
      requires written < offset0 + countLeft0 && outAt == at + delivered && outAt + countLeft0 <= output.Length
      requires base + offset0 == start + delivered && AW.Reached(source, pos', base, window[..written])
      requires Partial(output[..], before, at, delivered, Adc.Whole(source), start)
      modifies output, window
      ensures window[..written - AW.LOOKBACK] == old(window[..written])[AW.LOOKBACK..]
      ensures if offset0 < AW.LOOKBACK then
                var n := AW.LOOKBACK - offset0;
                && outAt' == outAt + n && offset == 0 && countLeft == countLeft0 - AW.LOOKBACK
                && Partial(output[..], before, at, delivered + n, Adc.Whole(source), start)
              else
                && outAt' == outAt && offset == offset0 - AW.LOOKBACK && countLeft == countLeft0
                && Partial(output[..], before, at, delivered, Adc.Whole(source), start)
    {
      hide AW.Reached, Adc.IsStream, Adc.Whole, Partial;
      outAt', offset, countLeft := outAt, offset0, countLeft0;
      if offset < AW.LOOKBACK {
        CopyFromWindow(output, at, outAt, window, written, offset, AW.LOOKBACK - offset, pos', base, start, delivered,
                       before);
        outAt' := outAt' + (AW.LOOKBACK - offset);
        offset := 0;
        countLeft := countLeft - (AW.LOOKBACK - offset);
      } else {
        offset := offset - AW.LOOKBACK;
      }
      SlideWindow(window, written);
    }

    /** `delivered` bytes of the request are in the output, and nothing else has changed. */
    ghost predicate Partial(b: seq<byte>, before: seq<byte>, at: nat, delivered: nat, d: seq<byte>, offset0: nat) {
      if offset0 <= |d| then Has(b, at, 0, delivered, d, offset0) && SameOutside(b, before, at, delivered)
      else delivered == 0 && b == before
    }

    lemma PartialStart(b: seq<byte>, at: nat, d: seq<byte>, offset0: nat)
      requires at <= |b|
      ensures Partial(b, b, at, 0, d, offset0)
    {
      if offset0 <= |d| {
        NothingYet(b, at, d, offset0);
      }
    }

    /** What a request leaves in the output: it succeeds exactly when it is answered, with all its bytes but the
        lost ones delivered. */
    static ghost predicate Decompressed(s: seq<byte>, before: seq<byte>, after: seq<byte>, at: nat, count: nat,
                                        offset0: int, res: Result<nat>)
      requires at + count <= |before| && Adc.IsStream(s)
    {
      if offset0 < 0 then res == Throws(IoError) && after == before
      else if count == 0 then res == Ok(0) && after == before
      else if AW.Answered(s, offset0, count) then
        var lost := AW.Lost(s, offset0, count);
        && res == Ok(count) && lost <= count
        && after == Overwrite(before, at, Adc.Whole(s)[offset0..offset0 + count - lost])
      else res == Throws(IoError)
    }

    lemma NegativeOffset(s: seq<byte>, before: seq<byte>, at: nat, count: nat, offset0: int)
      requires at + count <= |before| && offset0 < 0 && Adc.IsStream(s)
      ensures Decompressed(s, before, before, at, count, offset0, Throws(IoError))
    {
    }

    lemma AllDelivered(s: seq<byte>, before: seq<byte>, after: seq<byte>, at: nat, count: nat, offset0: nat,
                       delivered: nat)
      requires at + count <= |before| && Adc.IsStream(s)
      requires if count == 0 then delivered == 0
               else AW.Answered(s, offset0, count) && delivered + AW.Lost(s, offset0, count) == count
      requires Partial(after, before, at, delivered, Adc.Whole(s), offset0)
      ensures Decompressed(s, before, after, at, count, offset0, Ok(count))
    {
      hide Has, SameOutside, Overwrite, AW.Lost, Adc.IsStream, Adc.Whole, AW.FullWidth;
      var d := Adc.Whole(s);
      if offset0 <= |d| {
        HasBounds(after, at, 0, delivered, d, offset0);
        AllInPlace(after, before, at, delivered, d, offset0);
      }
      if delivered == 0 && offset0 <= |d| {
        OverwriteNothing(before, at);
        assert d[offset0..offset0] == [];
      }
    }

    /** memcpy of `n` window bytes to the output. */
    method CopyFromWindow(output: array<byte>, ghost at: nat, outAt: nat, window: array<byte>, written: nat,
                          offset: nat, n: nat, ghost pos': nat, ghost base: nat, ghost offset0: nat,
                          ghost delivered: nat, ghost before: seq<byte>)
      requires window != output && written <= window.Length && offset + n <= written && Adc.IsStream(source)
      requires outAt == at + delivered && outAt + n <= output.Length && base + offset == offset0 + delivered
      requires AW.Reached(source, pos', base, window[..written])
      requires Partial(output[..], before, at, delivered, Adc.Whole(source), offset0)
      modifies output
      ensures Partial(output[..], before, at, delivered + n, Adc.Whole(source), offset0)
    {
      hide AW.At, Adc.IsStream, Adc.Whole, Has, SameOutside, Overwrite;
      ghost var k: nat :| AW.At(source, k, pos', base, window[..written]);
      AW.WindowShows(source, k, pos', base, window[..written], offset, n);
      ghost var was := output[..];
      Memcpy(output, outAt, window[..written][offset..offset + n]);
      NextPiece(was, output[..], before, at, Adc.Whole(source), offset0, delivered, n);
    }

    /** memmove of the window's second half and what follows it to the front. */
    method SlideWindow(window: array<byte>, written: nat)
      requires 2 * AW.LOOKBACK <= written <= window.Length
      modifies window
      ensures window[..written - AW.LOOKBACK] == old(window[..written])[AW.LOOKBACK..]
    {
      forall i | 0 <= i < written - AW.LOOKBACK {
        window[i] := window[i + AW.LOOKBACK];
      }
    }

    /** How far a request has got between two rounds. As long as nothing is delivered the window has still to slide to
        the lookback the request starts in. Afterwards either the window has just slid away from that lookback, or
        the stream went on behind the bytes that were in it. */
    ghost predicate Progress(s: seq<byte>, at: nat, base: nat, window: seq<byte>, offset: int, offset0: nat,
                             delivered: nat, countLeft: int, lost: nat) {
      && Adc.IsStream(s) && at <= |s| && AW.Reached(s, at, base, window) && |window| < 2 * AW.LOOKBACK
      && 0 <= offset && base + offset == offset0 + delivered && base % AW.LOOKBACK == 0 && countLeft > 0
      && var r := offset0 % AW.LOOKBACK;
      && var start, w := offset0 - r, AW.FullWidth(s, offset0 - r);
      && if delivered == 0 then
           && lost == 0 && base <= start && |window| < offset + countLeft
           && AW.Width(s, at, base, window, start) == w
         else
           && offset == 0 && lost == r && base >= start + AW.LOOKBACK
           && (r > 0 ==> r + (delivered + countLeft + lost) > Max(2 * AW.LOOKBACK, w))
           && (r == 0 || !JustSlid(base, window, start, w) ==> |window| < countLeft)
           && (JustSlid(base, window, start, w) || start + w < |Adc.Whole(s)|)
    }

    ghost predicate JustSlid(base: nat, window: seq<byte>, start: nat, width: nat) {
      base == start + AW.LOOKBACK && |window| + AW.LOOKBACK == width
    }

    lemma ProgressStart(s: seq<byte>, offset0: nat, count: nat)
      requires count > 0 && Adc.IsStream(s)
      ensures Progress(s, 0, 0, [], offset0, offset0, 0, count, 0)
    {
      hide AW.Width, AW.At, Adc.IsStream, Adc.Whole;
      AW.AtStart(s);
    }

    lemma ProgressBasics(s: seq<byte>, at: nat, base: nat, window: seq<byte>, offset: int, offset0: nat,
                         delivered: nat, countLeft: int, lost: nat)
      requires Progress(s, at, base, window, offset, offset0, delivered, countLeft, lost)
      ensures 0 <= offset && base + offset == offset0 + delivered && |window| < 2 * AW.LOOKBACK
      ensures at <= |s| && AW.Reached(s, at, base, window) && countLeft > 0 && Adc.IsStream(s)
    {
      hide AW.Width, AW.FullWidth, AW.Reached, Adc.IsStream, Adc.Whole;
    }

    /** The stream is used up: the request is not answered. */
    lemma UsedUp(s: seq<byte>, base: nat, window: seq<byte>, offset: int, offset0: nat, delivered: nat, countLeft: int,
                 lost: nat, before: seq<byte>, after: seq<byte>, at: nat, count: nat)
      requires Progress(s, |s|, base, window, offset, offset0, delivered, countLeft, lost)
      requires delivered + countLeft + lost == count && at + count <= |before|
      ensures Decompressed(s, before, after, at, count, offset0, Throws(IoError))
    {
      hide AW.At, AW.FullWidth, Adc.IsStream, Adc.Whole, Overwrite;
      var k: nat :| AW.At(s, k, |s|, base, window);
      AW.AllDecoded(s, k, |s|, base, window);
    }

    /** The window holds the rest of the request. */
    lemma ProgressFinish(s: seq<byte>, at: nat, base: nat, window: seq<byte>, offset: int, offset0: nat,
                         delivered: nat, countLeft: int, lost: nat, at': nat, after: seq<byte>)
      requires Progress(s, at, base, window, offset, offset0, delivered, countLeft, lost) && at < |s|
      requires (at', after) == AW.AfterRound(s, at, window) && |after| >= offset + countLeft
      ensures AW.Answered(s, offset0, delivered + countLeft + lost)
      ensures AW.Lost(s, offset0, delivered + countLeft + lost) == lost
    {
      hide AW.At, AW.FullWidth, AW.AfterRound, Adc.IsStream, Adc.Whole;
      var k: nat :| AW.At(s, k, at, base, window);
      AW.RoundAdvances(s, at, base, window);
      AW.AllDecoded(s, k, at, base, window);
      var k': nat :| AW.At(s, k', at', base, after);
      AW.AllDecoded(s, k', at', base, after);
    }

    /** The window has grown, but not far enough to slide. */
    lemma ProgressMore(s: seq<byte>, at: nat, base: nat, window: seq<byte>, offset: int, offset0: nat,
                       delivered: nat, countLeft: int, lost: nat, at': nat, after: seq<byte>)
      requires Progress(s, at, base, window, offset, offset0, delivered, countLeft, lost) && at < |s|
      requires (at', after) == AW.AfterRound(s, at, window)
      requires |after| < offset + countLeft && |after| < 2 * AW.LOOKBACK
      ensures Progress(s, at', base, after, offset, offset0, delivered, countLeft, lost)
    {
      hide AW.At, AW.FullWidth, AW.AfterRound, Adc.IsStream, Adc.Whole;
      var k: nat :| AW.At(s, k, at, base, window);
      AW.RoundAdvances(s, at, base, window);
      AW.AllDecoded(s, k, at, base, window);
    }

    /** The window slides. */
    lemma ProgressSlide(s: seq<byte>, at: nat, base: nat, window: seq<byte>, offset: int, offset0: nat,
                        delivered: nat, countLeft: int, lost: nat, at': nat, after: seq<byte>)
      requires Progress(s, at, base, window, offset, offset0, delivered, countLeft, lost) && at < |s|
      requires (at', after) == AW.AfterRound(s, at, window)
      requires 2 * AW.LOOKBACK <= |after| < offset + countLeft
      ensures if offset < AW.LOOKBACK then
                Progress(s, at', base + AW.LOOKBACK, after[AW.LOOKBACK..], 0, offset0,
                         delivered + (AW.LOOKBACK - offset), countLeft - AW.LOOKBACK, lost + offset)
              else
                Progress(s, at', base + AW.LOOKBACK, after[AW.LOOKBACK..], offset - AW.LOOKBACK, offset0, delivered,
                         countLeft, lost)
    {
      hide AW.At, AW.FullWidth, AW.AfterRound, Adc.IsStream, Adc.Whole;
      var k: nat :| AW.At(s, k, at, base, window);
      AW.RoundAdvances(s, at, base, window);
      AW.AllDecoded(s, k, at, base, window);
    }

    // ---- LZFSE ----

    /** Decodes the run from its first byte into `output`, whatever was decoded before. The input is gathered whole,
        since the decoder works on whole buffers, and is then used up. */
    method DecodeLzfse(decode: seq<byte> -> seq<byte>, output: array<byte>, at: nat, outputBytes: nat,
                       ghost objs: set<object>) returns (res: Result<nat>)
      requires Usable(objs) && Sound(objs) && (pos == 0 || pos >= |source|)
      requires output !in objs && output != buf && at + outputBytes <= output.Length
      modifies this`pos, buf, output, objs
      ensures Sound(objs)
      ensures var n := Min(outputBytes, |decode(source)|);
              if old(pos) >= |source| || n == 0 then res == Throws(IoError) && output[..] == old(output[..])
              else
                && res == Ok(n) && output[..] == Overwrite(old(output[..]), at, decode(source)[..n])
                && pos == |source|
      decreases level, 17
    {
      hide Wf, Sound, Overwrite, Usable;
      Basics(objs);
      UsableLength(objs);
      var gathered := Gather(objs);
      match gathered {
        case Throws(e) => return Raise<nat>(e);
        case Ok(_) =>
      }
      var (input, complete) := gathered.value;
      var decoded := decode(input);
      var outSize := Min(outputBytes, |decoded|);
      ghost var before := output[..];
      Memcpy(output, at, decoded[..outSize]);
      if outSize == 0 {
        OverwriteNothing(before, at);
        return Raise<nat>(IoError);
      }
      if !complete {
        Processed(|input|);
      }
      return Ok(outSize);
    }

    /** The whole input: one chunk, not counted as processed, when that holds it all, or else chunk after chunk. */
    method Gather(ghost objs: set<object>) returns (res: Result<(seq<byte>, bool)>)
      requires Usable(objs) && Sound(objs) && (pos == 0 || pos >= |source|)
      modifies this`pos, buf, objs
      ensures Sound(objs)
      ensures if old(pos) >= |source| then res == Throws(IoError)
              else res.Ok? && res.value.0 == source && pos == if res.value.1 then |source| else 0
      decreases level, 16
    {
      hide Wf, Sound, Overwrite, Usable, AW.Chunk;
      Basics(objs);
      UsableLength(objs);
      ghost var s := source;
      var got := ReadSome(objs);
      match got {
        case Throws(e) => return Raise<(seq<byte>, bool)>(e);
        case Ok(_) =>
      }
      var inputBytes := got.value;
      var readerTotalSize := Length(reader);
      AW.ChunkExtends(s, 0);
      assert s[..0] + AW.Chunk(s, 0) == AW.Chunk(s, 0) && s[..|s|] == s;
      if inputBytes >= readerTotalSize {
        return Ok((buf[..inputBytes], false));
      }
      var inputBig := new byte[readerTotalSize];
      Append(inputBig, 0, inputBytes);
      assert inputBig[..0] + buf[..inputBytes] == buf[..inputBytes];
      Processed(inputBytes);
      while inputBytes < readerTotalSize
        invariant Sound(objs) && fresh(inputBig)
        invariant pos == inputBytes <= |s| && inputBig[..inputBytes] == s[..inputBytes]
      {
        var next: Result<nat> := GatherNext(inputBig, inputBytes, objs);
        match next {
          case Throws(e) => return Raise<(seq<byte>, bool)>(e);
          case Ok(nextReadBytes) => inputBytes := inputBytes + nextReadBytes;
        }
      }
      return Ok((inputBig[..inputBytes], true));
    }

    /** The next chunk, behind what is gathered already. */
    method GatherNext(inputBig: array<byte>, have: nat, ghost objs: set<object>) returns (res: Result<nat>)
      requires Usable(objs) && Sound(objs) && inputBig !in objs && inputBig != buf
      requires pos == have < inputBig.Length == |source| && inputBig[..have] == source[..have]
      modifies this`pos, buf, inputBig, objs
      ensures Sound(objs) && res.Ok? && 0 < res.value && pos == have + res.value <= |source|
      ensures inputBig[..pos] == source[..pos]
      decreases level, 15
    {
      hide Wf, Sound, Usable, AW.Chunk;
      Basics(objs);
      var next := ReadSome(objs);
      match next {
        case Throws(e) => return Raise<nat>(e);
        case Ok(nextReadBytes) =>
          AW.ChunkExtends(source, have);
          ChunkSize(have);
          Append(inputBig, have, nextReadBytes);
          Processed(nextReadBytes);
      }
      return next;
    }

    lemma ChunkSize(have: nat)
      requires have < |source|
      ensures |AW.Chunk(source, have)| == Min(AW.INPUT_SIZE, |source| - have) > 0
    {
    }

    method Append(inputBig: array<byte>, have: nat, more: nat)
      requires inputBig != buf && more <= buf.Length && have + more <= inputBig.Length
      modifies inputBig
      ensures inputBig[..have + more] == old(inputBig[..have]) + buf[..more]
    {
      hide Overwrite;
      ghost var was := inputBig[..];
      Memcpy(inputBig, have, buf[..more]);
      Gathered(was, was[..have], buf[..more]);
    }

    lemma UsableLength(objs: set<object>)
      requires Usable(objs)
      ensures Wf(reader) && Length(reader) == |source|
    {
    }

    lemma Gathered(was: seq<byte>, have: seq<byte>, more: seq<byte>)
      requires |have| + |more| <= |was| && was[..|have|] == have
      ensures Overwrite(was, |have|, more)[..|have| + |more|] == have + more
    {
    }

    /** Drops what lies before `offset0` by decoding it. The first call uses up the input and the next one finds none,
        so that only reads from the start of the run are answered. */
    method DecompressLzfse(decode: seq<byte> -> seq<byte>, output: array<byte>, at: nat, count: nat, offset0: int,
                           ghost objs: set<object>) returns (res: Result<nat>)
      requires Usable(objs) && Sound(objs) && pos == 0
      requires output !in objs && output != buf && at + count <= output.Length
      modifies this`pos, buf, output, objs
      ensures Sound(objs)
      ensures var n := Min(count, |decode(source)|);
              if offset0 > 0 || |source| == 0 || n == 0 then
                res == Throws(IoError) && output[..] == old(output[..])
              else res == Ok(n) && output[..] == Overwrite(old(output[..]), at, decode(source)[..n])
      decreases level, 18
    {
      hide Wf, Sound, Overwrite, Usable;
      Basics(objs);
      var offset := offset0;
      while offset > 0
        invariant Sound(objs) && output[..] == old(output[..])
        invariant if offset == offset0 then pos == 0 else offset0 > 0 && pos >= |source|
      {
        var waste := new byte[4096];
        var toRead := Min(waste.Length, offset);
        var got: Result<nat> := DecodeLzfse(decode, waste, 0, toRead, objs);
        if got.Throws? {
          return got;
        }
        offset := offset - got.value;
      }
      res := DecodeLzfse(decode, output, at, count, objs);
    }
  }

  // ---- DMGDecompressor_Zlib and DMGDecompressor_Bzip2 ----

  /** The two classes differ in what they report at the end of the stream, and for a call without room. */
  class StreamDecompressor {
    const base: DMGDecompressor
    const codec: INF.Codec
    const bzip2: bool

    // the stream, and the input it has not consumed yet
    var strm: INF.Strm
    var input: seq<byte>

    constructor (reader: Reader, codec: INF.Codec, bzip2: bool)
      ensures this.codec == codec && this.bzip2 == bzip2 && AtStart()
      ensures base.reader == reader && base.buf.Length == AW.INPUT_SIZE && fresh(this) && fresh(base) && fresh(base.buf)
      ensures base.source == Contents(reader) && base.level == Level(reader)
    {
      this.base := new DMGDecompressor(reader);
      this.codec, this.bzip2, strm, input := codec, bzip2, INF.FRESH, [];
    }

    ghost predicate AtStart()
      reads this, base
    {
      strm == INF.FRESH && input == [] && base.pos == 0
    }

    ghost predicate Usable(objs: set<object>) {
      base.Usable(objs) && this !in objs && INF.IsCoded(codec, base.source)
    }

    /** What was processed is what the stream consumed and what it has still before it. */
    ghost predicate Inv()
      reads this, base
    {
      var s := base.source;
      base.pos <= |s| && strm.fed + input == s[..base.pos] && INF.Inside(codec, strm, s)
    }

    lemma Basics(objs: set<object>)
      requires Usable(objs)
      ensures base.Usable(objs) && this !in objs && base !in objs && base.buf !in objs
      ensures objs == Repr(base.reader) && INF.IsCoded(codec, base.source)
    {
    }

    lemma StartInv(objs: set<object>)
      requires Usable(objs) && AtStart()
      ensures Inv()
    {
      hide Wf;
      var s := base.source;
      assert s[..0] == [];
    }

    /** What a call does to the stream and the output. Behind the stream's end it finds no input to go on with.
        Otherwise it delivers the next bytes, up to the end; there the zlib class reports how many they were, the
        bzip2 class how many were asked for. */
    ghost predicate NextOut(old0: INF.Strm, now: INF.Strm, before: seq<byte>, after: seq<byte>, at: nat, count: nat,
                            res: Result<int>)
      requires at + count <= |before|
    {
      var s := base.source;
      var d, p := codec.dec(s), old0.produced;
      && p <= |d|
      && if old0.fed == s then res == Throws(IoError) && after == before && now == old0
         else
           var n := Min(count, |d| - p);
           && after == Overwrite(before, at, d[p..p + n]) && now.produced == p + n && (n < count ==> now.fed == s)
           && if count > 0 then res == Ok(if bzip2 then count else n) else res.Ok? && res.value <= 0
    }

    method DecompressNext(output: array<byte>, at: nat, count: nat, ghost objs: set<object>) returns (res: Result<int>)
      requires Usable(objs) && Sound(objs) && Inv()
      requires output !in objs && output != base.buf && at + count <= output.Length
      modifies this, base`pos, base.buf, output, objs
      ensures Sound(objs) && Inv() && NextOut(old(strm), strm, old(output[..]), output[..], at, count, res)
      decreases base.level, 16
    {
      hide Wf, Sound, Overwrite, Usable, DMGDecompressor.Usable, INF.IsCoded, INF.Inside, Has, SameOutside, NextOut,
           Inv;
      Basics(objs);
      InvBasics(objs);
      ghost var s, before, strm0 := base.source, output[..], strm;
      ghost var d, p: nat := codec.dec(s), strm.produced;
      var done: nat := 0;
      NothingYet(before, at, d, p);
      while true
        invariant Sound(objs) && Inv() && (done < count || done == count == 0)
        invariant strm.produced == p + done <= |d| && strm0.fed <= strm.fed <= s
        invariant strm.fed == s ==> strm == strm0 && done == 0
        invariant Has(output[..], at, 0, done, d, p) && SameOutside(output[..], before, at, done)
        decreases |s| - |strm.fed|
      {
        var ready := Refill(objs);
        match ready {
          case Throws(e) =>
            AllInPlace(output[..], before, at, done, d, p);
            NothingNext(strm0, before, at, count);
            assert d[p..p] == [];
            OverwriteNothing(before, at);
            return Raise<int>(e);
          case Ok(_) =>
        }
        var out, status := InflateNext(count - done, objs);
        ghost var was := output[..];
        Memcpy(output, at + done, out);
        NextPiece(was, output[..], before, at, d, p, done, |out|);
        done := done + |out|;
        if status == INF.STREAM_END || (status == INF.BUF_ERROR && !bzip2) || done == count {
          AllInPlace(output[..], before, at, done, d, p);
          EndNext(strm0, strm, before, output[..], at, count, done, status);
        }
        if status == INF.STREAM_END {
          return Ok(if bzip2 then count else done);
        }
        if status == INF.BUF_ERROR && !bzip2 {
          return Ok(-5);
        }
        if done == count {
          break;
        }
      }
      return Ok(count);
    }

    lemma InvBasics(objs: set<object>)
      requires Usable(objs) && Inv()
      ensures var s := base.source;
              && base.pos <= |s| && strm.fed <= s && strm.produced <= |codec.dec(s)|
              && strm.fed + input == s[..base.pos]
              && (strm.fed == s ==> strm.produced == |codec.dec(s)|) && |s| > 0
    {
      hide Wf, DMGDecompressor.Usable;
      Basics(objs);
      assert codec.dec(strm.fed) <= codec.dec(base.source);
    }

    lemma NothingNext(strm0: INF.Strm, before: seq<byte>, at: nat, count: nat)
      requires at + count <= |before| && strm0.fed == base.source && strm0.produced <= |codec.dec(strm0.fed)|
      ensures NextOut(strm0, strm0, before, before, at, count, Throws(IoError))
    {
    }

    lemma EndNext(strm0: INF.Strm, now: INF.Strm, before: seq<byte>, after: seq<byte>, at: nat, count: nat, done: nat,
                  status: INF.Status)
      requires at + count <= |before| && strm0.fed != base.source && done <= count
      requires var s := base.source;
               var d, p := codec.dec(s), strm0.produced;
               && p + done <= |d| && now.produced == p + done && after == Overwrite(before, at, d[p..p + done])
               && (status == INF.STREAM_END <==> now.fed == s) && (now.fed == s ==> now.produced == |d|)
      requires status == INF.STREAM_END || done == count
      requires status == INF.BUF_ERROR ==> count == 0
      ensures NextOut(strm0, now, before, after, at, count,
                      Ok(if status == INF.STREAM_END then (if bzip2 then count else done)
                         else if status == INF.BUF_ERROR && !bzip2 then -5 else count))
    {
      hide Overwrite;
    }

    /** The next input, when all of it is consumed. */
    method Refill(ghost objs: set<object>) returns (res: Result<()>)
      requires Usable(objs) && Sound(objs) && Inv()
      modifies this`input, base`pos, base.buf, objs
      ensures Sound(objs) && Inv()
      ensures if old(strm.fed) == base.source then res == Throws(IoError)
              else res.Ok? && |input| > 0
      decreases base.level, 15
    {
      hide Wf, Sound, Usable, DMGDecompressor.Usable, INF.IsCoded, INF.Inside;
      Basics(objs);
      ghost var s := base.source;
      if |input| == 0 {
        var got := base.ReadSome(objs);
        match got {
          case Throws(e) => return Raise<()>(e);
          case Ok(n) =>
            AW.ChunkExtends(s, base.pos);
            base.Processed(n);
            input := base.buf[..n];
        }
      }
      return Ok(());
    }

    /** One call of the streaming decoder on what input there is. */
    method InflateNext(room: nat, ghost objs: set<object>) returns (out: seq<byte>, status: INF.Status)
      requires Usable(objs) && Inv() && |input| > 0
      modifies this
      ensures Inv() && old(strm.fed) <= strm.fed <= base.source
      ensures var d, p := codec.dec(base.source), old(strm.produced);
              && |out| <= room && strm.produced == p + |out| <= |d| && out == d[p..p + |out|]
      ensures status == INF.STREAM_END <==> strm.fed == base.source
      ensures strm.fed == base.source ==> strm.produced == |codec.dec(base.source)|
      ensures status == INF.OK ==> |strm.fed| > |old(strm.fed)| || |out| == room
      ensures status == INF.BUF_ERROR ==> room == 0
    {
      hide Wf, Usable, DMGDecompressor.Usable, INF.IsStream, INF.Streaming;
      Basics(objs);
      ghost var s := base.source;
      assert strm.fed + input <= s;
      var t;
      t, out, status := INF.Inflate(codec, strm, input, room, s);
      var used := |t.fed| - |strm.fed|;
      assert t.fed == strm.fed + input[..used];
      assert strm.fed + input == t.fed + input[used..];
      strm, input := t, input[used..];
    }

    /** Decodes and drops what lies before `offset0`. The result is what the caller is to return, if anything. */
    method Skip(offset0: int, ghost objs: set<object>) returns (res: Option<Result<int>>)
      requires Usable(objs) && Sound(objs) && AtStart()
      modifies this, base`pos, base.buf, objs
      ensures Sound(objs) && Inv()
      ensures var s := base.source;
              var d := codec.dec(s);
              if offset0 < |d| then res == None && strm.fed != s && strm.produced == Max(0, offset0)
              else res == None ==> strm.produced == |d|
      decreases base.level, 17
    {
      hide Wf, Sound, Overwrite, Usable, DMGDecompressor.Usable, INF.IsCoded, INF.Inside, Inv, NextOut;
      Basics(objs);
      StartInv(objs);
      InvBasics(objs);
      ghost var s := base.source;
      ghost var d := codec.dec(s);
      var offset := offset0;
      while offset > 0
        invariant Sound(objs) && Inv() && strm.produced <= |d|
        invariant if strm.fed == s then offset0 >= |d| && strm.produced == |d|
                  else strm.produced + offset == offset0 || (offset0 <= 0 && offset == offset0 && strm.produced == 0)
        invariant offset >= 0 || offset == offset0
      {
        var waste := new byte[4096];
        var toRead := Min(waste.Length, offset);
        ghost var strm0, before := strm, waste[..];
        var got: Result<int> := DecompressNext(waste, 0, toRead, objs);
        InvBasics(objs);
        SkipStep(strm0, strm, before, waste[..], toRead, got);
        match got {
          case Throws(e) => return Some(got);
          case Ok(bytesDecompressed) =>
            if bytesDecompressed <= 0 {
              return Some(got);
            }
            offset := offset - bytesDecompressed;
        }
      }
      return None;
    }

    /** What a dropping call does to the position. */
    lemma SkipStep(strm0: INF.Strm, now: INF.Strm, before: seq<byte>, after: seq<byte>, count: nat, res: Result<int>)
      requires 0 < count <= |before| && NextOut(strm0, now, before, after, 0, count, res)
      ensures var s := base.source;
              var d, p := codec.dec(s), strm0.produced;
              if strm0.fed == s then res.Throws?
              else if p + count <= |d| then res == Ok(count) && now.produced == p + count
              else now.fed == s && now.produced == |d| && (res.Ok? ==> res.value <= count)
    {
      hide Overwrite;
    }

    /** Decodes `count` bytes at `offset0` of the stream, by decoding and dropping what lies before. */
    method Decompress(output: array<byte>, at: nat, count: nat, offset0: int, ghost objs: set<object>)
      returns (res: Result<int>)
      requires Usable(objs) && Sound(objs) && AtStart()
      requires output !in objs && output != base.buf && at + count <= output.Length
      modifies this, base`pos, base.buf, output, objs
      ensures Sound(objs)
      ensures var d := codec.dec(base.source);
              if offset0 < |d| then
                var from := Max(0, offset0);
                var n := Min(count, |d| - from);
                && output[..] == Overwrite(old(output[..]), at, d[from..from + n])
                && (count > 0 ==> res == Ok(if bzip2 then count else n))
              else output[..] == old(output[..])
      decreases base.level, 18
    {
      hide Wf, Sound, Overwrite, Usable, DMGDecompressor.Usable, INF.IsCoded, INF.Inside, Inv, NextOut;
      Basics(objs);
      var skipped := Skip(offset0, objs);
      match skipped {
        case Some(early) => return early;
        case None =>
      }
      ghost var strm0, before := strm, output[..];
      res := DecompressNext(output, at, count, objs);
      Delivers(strm0, strm, before, output[..], at, count, offset0, res);
    }

    lemma Delivers(strm0: INF.Strm, now: INF.Strm, before: seq<byte>, after: seq<byte>, at: nat, count: nat,
                   offset0: int, res: Result<int>)
      requires at + count <= |before| && NextOut(strm0, now, before, after, at, count, res)
      requires var s := base.source;
               var d := codec.dec(s);
               if offset0 < |d| then strm0.fed != s && strm0.produced == Max(0, offset0) else strm0.produced == |d|
      ensures var d := codec.dec(base.source);
              if offset0 < |d| then
                var from := Max(0, offset0);
                var n := Min(count, |d| - from);
                && after == Overwrite(before, at, d[from..from + n])
                && (count > 0 ==> res == Ok(if bzip2 then count else n))
              else after == before
    {
      hide Overwrite;
      var d := codec.dec(base.source);
      OverwriteNothing(before, at);
      assert d[|d|..|d|] == [];
    }
  }

  // ---- DMGPartition ----

  class DMGPartition {
    const disk: Reader
    const table: RT.Table
    const codecs: RT.Codecs
    const sectors: map<nat, nat>

    ghost const level: nat
    ghost const flat: seq<byte>
    ghost const repr: set<object>

    ghost predicate Shape() {
      && repr == Repr(disk) && RandomAccess(disk)
      && RT.Tiles(table) && RT.SectorsOf(table, sectors) && RT.IsImage(table, codecs, Contents(disk), flat)
    }

    constructor (disk: Reader, table: RT.Table, codecs: RT.Codecs, ghost flat: seq<byte>)
      requires Wf(disk) && RandomAccess(disk)
      requires RT.Tiles(table) && RT.IsImage(table, codecs, Contents(disk), flat)
      ensures Wf(FromPartition(this)) && this.flat == flat && repr == Repr(disk)
      ensures this.disk == disk && this.table == table && this.codecs == codecs
    {
      hide RT.Tiles, RT.IsImage, RT.SectorsUpTo;
      this.disk, this.table, this.codecs := disk, table, codecs;
      this.level, this.flat, this.repr := Level(disk) + 2, flat, Repr(disk);
      var m := RT.SectorMap(table);
      this.sectors := m;
    }

    ghost predicate Holds(i: nat, offset: nat) {
      RT.InRun(table, i, offset / RT.SECTOR_SIZE)
    }

    /** The run that holds a byte is the one the sector map finds, and it ends where the next one starts. */
    lemma Lookup(offset: nat, k: Option<nat>) returns (i: nat)
      requires Shape() && offset < |flat| && RT.IsUpperBound(sectors.Keys, offset / RT.SECTOR_SIZE, k)
      ensures Holds(i, offset) && i == RT.RunAt(table, offset / RT.SECTOR_SIZE)
      ensures RT.RunOk(table, codecs, Contents(disk), table.runs[i]) && table.runs[i].sectorCount > 0
      ensures var s, e := table.runs[i].sectorStart, table.runs[i].sectorStart + table.runs[i].sectorCount;
              && s in sectors && sectors[s] == i && RT.IsPrevious(sectors.Keys, k, s)
              && e <= table.sectorCount && (if e == table.sectorCount then k.None? else k == Some(e))
              && s * RT.SECTOR_SIZE <= offset < e * RT.SECTOR_SIZE
    {
      hide RT.RunOk, RT.RunBytes;
      var x := offset / RT.SECTOR_SIZE;
      assert RT.Covered(table, x);
      i := RT.RunAt(table, x);
      RT.LookupIsRight(table, sectors, x, i, k);
      RT.TiledEnd(table, i);
    }

    lemma PreviousUnique(k: Option<nat>, a: nat, b: nat)
      requires RT.IsPrevious(sectors.Keys, k, a) && RT.IsPrevious(sectors.Keys, k, b)
      ensures a == b
    {
    }

    method AdviseOptimalBlock(offset: nat) returns (res: Result<(nat, nat)>)
      requires Wf(FromPartition(this)) && offset < |flat|
      ensures res == Ok(Advise(FromPartition(this), offset))
    {
      hide Wf, RT.Tiles, RT.IsImage, RT.RunOk;
      PartitionShape(this);
      var length := table.sectorCount * RT.SECTOR_SIZE;
      var next := RT.UpperBound(sectors.Keys, offset / RT.SECTOR_SIZE);
      var i := Lookup(offset, next);
      var run := RT.Previous(sectors.Keys, next);
      if run.None? {
        return Raise<(nat, nat)>(IoError);
      }
      PreviousUnique(next, run.value, table.runs[i].sectorStart);
      var blockEnd := if next.None? then length else next.value * RT.SECTOR_SIZE;
      var blockStart := run.value * RT.SECTOR_SIZE;
      var kind := table.runs[sectors[run.value]].kind;
      if kind == RT.ZeroFill || kind == RT.Unknown || kind == RT.Raw {
        var (s, e) := DefaultAdvice(length, offset);
        blockStart, blockEnd := s, e;
      }
      return Ok((blockStart, blockEnd));
    }

    // ---- What a read of the image does ----

    ghost function RunIndex(offset: nat): nat {
      RT.RunAt(table, offset / RT.SECTOR_SIZE)
    }

    /** The run that holds byte `offset` is there, and this is the byte's place in it. */
    ghost predicate InsideAt(offset: nat, i: nat, inside: nat) {
      && Holds(i, offset) && i == RunIndex(offset) && RT.RunOk(table, codecs, Contents(disk), table.runs[i])
      && table.runs[i].sectorStart * RT.SECTOR_SIZE + inside == offset
      && inside < table.runs[i].sectorCount * RT.SECTOR_SIZE
    }

    /** How much of a request its first run holds. */
    ghost function Share(i: nat, inside: nat, count: nat): nat
      requires i < |table.runs| && inside < table.runs[i].sectorCount * RT.SECTOR_SIZE
    {
      Min(count, table.runs[i].sectorCount * RT.SECTOR_SIZE - inside)
    }

    /** A read that starts inside an LZFSE run throws. */
    ghost predicate FailsAt(count: nat, offset: nat) {
      && 0 < count && offset < |flat|
      && exists i: nat, inside: nat :: InsideAt(offset, i, inside) && RT.RunFails(table.runs[i], inside)
    }

    /** A read that starts inside an ADC run may leave the last bytes of that run's share unwritten. `shown` is the
        image with those bytes as they were in the buffer. */
    ghost predicate Shows(shown: seq<byte>, before: seq<byte>, at: nat, count: nat, offset: nat)
      requires at + count <= |before|
    {
      && |shown| == |flat|
      && if count == 0 || offset >= |flat| then shown == flat
         else
           exists i: nat, inside: nat ::
             InsideAt(offset, i, inside) && ShowsRun(shown, before, at, count, offset, i, inside)
    }

    ghost predicate ShowsRun(shown: seq<byte>, before: seq<byte>, at: nat, count: nat, offset: nat, i: nat, inside: nat)
      requires at + count <= |before| && InsideAt(offset, i, inside)
    {
      var n := Share(i, inside, count);
      var lost := RT.RunLost(table, codecs, Contents(disk), table.runs[i], inside, n);
      && offset + n <= |flat|
      && shown == Overwrite(flat, offset + n - lost, before[at + n - lost..at + n])
    }

    lemma InsideUnique(offset: nat, i: nat, inside: nat, j: nat, inside': nat)
      requires InsideAt(offset, i, inside) && InsideAt(offset, j, inside')
      ensures i == j && inside == inside'
    {
      hide RT.RunOk;
    }

    lemma InsideThere(offset: nat, i: nat, inside: nat)
      requires Shape() && offset < |flat| && Holds(i, offset) && i == RunIndex(offset)
      requires table.runs[i].sectorStart * RT.SECTOR_SIZE + inside == offset
      ensures InsideAt(offset, i, inside) && RT.Real(table, i)
    {
      hide RT.RunBytes, RT.RunOk, RT.Tiles;
    }

    lemma InsideInImage(offset: nat, i: nat, inside: nat)
      requires Shape() && InsideAt(offset, i, inside)
      ensures offset < |flat| && RT.Real(table, i)
    {
      hide RT.RunOk, RT.RunBytes;
      RT.TiledEnd(table, i);
    }

    /** The reads that throw: those of at least one byte that start behind the first byte of an LZFSE run. */
    lemma FailsIff(count: nat, offset: nat)
      requires Shape()
      ensures FailsAt(count, offset) <==>
              count > 0 && exists i | 0 <= i < |table.runs| ::
                && table.runs[i].kind == RT.LZFSE
                && table.runs[i].sectorStart * 512 < offset
                && offset < (table.runs[i].sectorStart + table.runs[i].sectorCount) * 512
    {
      hide RT.RunOk, RT.RunBytes, RT.Tiles, RT.IsImage, Shape;
      forall i: nat | i < |table.runs| && table.runs[i].kind == RT.LZFSE && table.runs[i].sectorStart * 512 <= offset
                      && offset < (table.runs[i].sectorStart + table.runs[i].sectorCount) * 512
        ensures offset < |flat| && InsideAt(offset, i, offset - table.runs[i].sectorStart * 512)
      {
        assert RT.Real(table, i) && Holds(i, offset);
        HeldInImage(i, offset);
      }
    }

    lemma HeldInImage(i: nat, offset: nat)
      requires Shape() && RT.Real(table, i) && Holds(i, offset)
      ensures offset < |flat| && InsideAt(offset, i, offset - table.runs[i].sectorStart * 512)
    {
      hide RT.RunOk, RT.RunBytes;
      RT.TiledEnd(table, i);
      assert RT.Covered(table, offset / RT.SECTOR_SIZE);
      RT.SameRun(table, i, RunIndex(offset), offset / RT.SECTOR_SIZE);
    }

    /** Where a read that does not throw may differ from the image: only in the last `inside % 0x10000` bytes of its
        share of an ADC run, and only when that share starts `inside` bytes into the run and ends more than two
        lookbacks behind the multiple of 0x10000 before. */
    lemma ShownDiffers(shown: seq<byte>, before: seq<byte>, at: nat, count: nat, offset: nat, p: nat)
      requires Shape() && at + count <= |before| && Shows(shown, before, at, count, offset)
      requires p < |flat| && |shown| == |flat| && shown[p] != flat[p]
      ensures count > 0 && offset < |flat|
      ensures exists i | 0 <= i < |table.runs| ::
                && table.runs[i].kind == RT.ADC && Holds(i, offset)
                && var inside := offset - table.runs[i].sectorStart * 512;
                   var n := Min(count, (table.runs[i].sectorStart + table.runs[i].sectorCount) * 512 - offset);
                   && inside >= 0 && inside % 0x10000 + n > 0x20000 && offset + n - inside % 0x10000 <= p < offset + n
    {
      hide RT.RunOk, RT.IsImage, RT.Tiles, ShowsRun, InsideAt;
      var i: nat, inside: nat :| InsideAt(offset, i, inside) && ShowsRun(shown, before, at, count, offset, i, inside);
      RunDiffers(shown, before, at, count, offset, i, inside, p);
    }

    lemma RunDiffers(shown: seq<byte>, before: seq<byte>, at: nat, count: nat, offset: nat, i: nat, inside: nat, p: nat)
      requires at + count <= |before| && InsideAt(offset, i, inside)
      requires ShowsRun(shown, before, at, count, offset, i, inside)
      requires p < |flat| && |shown| == |flat| && shown[p] != flat[p]
      ensures i < |table.runs| && table.runs[i].kind == RT.ADC && Holds(i, offset)
      ensures inside == offset - table.runs[i].sectorStart * 512
      ensures var n := Min(count, (table.runs[i].sectorStart + table.runs[i].sectorCount) * 512 - offset);
              inside % 0x10000 + n > 0x20000 && offset + n - inside % 0x10000 <= p < offset + n
    {
      hide RT.RunOk, RT.RunLost;
      RT.LostAtMost(table, codecs, Contents(disk), table.runs[i], inside, Share(i, inside, count));
    }

    /** A served read does not fail, and shows the image. */
    lemma ServedShowsImage(shown: seq<byte>, before: seq<byte>, at: nat, count: nat, offset: nat)
      requires Shape() && Serves(FromPartition(this), count, offset) && at + count <= |before|
      ensures !FailsAt(count, offset)
      ensures Shows(shown, before, at, count, offset) ==> shown == flat
    {
      hide RT.RunOk, RT.RunLost, RT.AdcServes, RT.IsImage, RT.Tiles, Overwrite;
      if 0 < count && offset < |flat| {
        forall i: nat, inside: nat | InsideAt(offset, i, inside)
          ensures !RT.RunFails(table.runs[i], inside)
          ensures ShowsRun(shown, before, at, count, offset, i, inside) ==> shown == flat
        {
          var n := Share(i, inside, count);
          RT.ServedLosesNothing(table, codecs, Contents(disk), table.runs[i], inside, n);
          assert before[at + n..at + n] == [];
          if offset + n <= |flat| {
            OverwriteNothing(flat, offset + n);
          }
        }
      }
    }

    /** Reads run by run. It throws exactly when the first run is LZFSE and the read starts inside it. */
    method Read(buf: array<byte>, at: nat, count: nat, offset: nat) returns (res: Result<nat>, ghost shown: seq<byte>)
      requires Wf(FromPartition(this)) && Sound(repr) && buf !in repr && at + count <= buf.Length
      modifies buf, repr
      ensures Sound(repr)
      ensures FailsAt(count, offset) ==> res == Throws(IoError)
      ensures Shows(shown, old(buf[..]), at, count, offset)
      ensures !FailsAt(count, offset) ==> Delivered(shown, old(buf[..]), buf[..], at, count, offset, res)
      decreases level, 11
    {
      hide Wf, Shape, Sound, Has, SameOutside, Overwrite, Window, RT.IsUpperBound, RT.IsPrevious, RT.RunOk, InsideAt,
           FailsAt, Shows;
      PartitionShape(this);
      PartitionSize(this);
      ghost var before := buf[..];
      shown := FirstShown(before, at, count, offset);
      var done := 0;
      if offset < |flat| {
        NothingYet(buf[..], at, shown, offset);
      }
      while done < count
        invariant 0 <= done <= count && Sound(repr)
        invariant done > 0 ==> !FailsAt(count, offset)
        invariant offset < |flat| ==>
                    && offset + done <= |flat|
                    && Has(buf[..], at, 0, done, shown, offset) && SameOutside(buf[..], before, at, done)
                    && (0 < done < count ==> AtRunStart(offset + done))
                    && (done > 0 ==> shown[offset + done..] == flat[offset + done..])
        invariant offset >= |flat| ==> done == 0
        invariant done == 0 ==> buf[..] == before
      {
        var next := RT.UpperBound(sectors.Keys, (offset + done) / RT.SECTOR_SIZE);
        if offset + done >= table.sectorCount * RT.SECTOR_SIZE {
          break;
        }
        var run := RT.Previous(sectors.Keys, next);
        ghost var i := Lookup(offset + done, next);
        RunFound(next, run, i);
        if run.None? {
          return Raise<nat>(IoError), shown;
        }
        var offsetInSector: int := 0;
        if done == 0 {
          offsetInSector := offset - run.value * RT.SECTOR_SIZE;
        } else {
          StartsHere(offset + done, i);
        }
        InsideThere(offset + done, i, offsetInSector);
        var got: Result<nat> := ReadPart(buf, at, done, sectors[run.value], offsetInSector, count - done, offset,
                                         before, count, shown);
        if got.Throws? {
          return got, shown;
        }
        if got.value == 0 {
          return Raise<nat>(IoError), shown;
        }
        done := done + got.value;
      }
      if count == 0 || offset >= |flat| {
        NothingFails(count, offset);
      }
      if offset < |flat| {
        AllInPlace(buf[..], before, at, done, shown, offset);
        WindowMin(shown, count, offset);
      } else {
        WindowEmpty(shown, count, offset);
        OverwriteNothing(before, at);
      }
      return Ok(done), shown;
    }

    lemma NothingFails(count: nat, offset: nat)
      requires count == 0 || offset >= |flat|
      ensures !FailsAt(count, offset)
    {
    }

    lemma FirstShown(before: seq<byte>, at: nat, count: nat, offset: nat) returns (shown: seq<byte>)
      requires Shape() && at + count <= |before|
      ensures |shown| == |flat| && Shows(shown, before, at, count, offset)
    {
      hide RT.RunOk, RT.RunLost, RT.IsImage, RT.RunBytes;
      shown := flat;
      if 0 < count && offset < |flat| {
        var i, inside := FindInside(offset);
        var n := Share(i, inside, count);
        RT.TiledEnd(table, i);
        var lost := RT.RunLost(table, codecs, Contents(disk), table.runs[i], inside, n);
        PartitionLength();
        shown := Overwrite(flat, offset + n - lost, before[at + n - lost..at + n]);
        assert ShowsRun(shown, before, at, count, offset, i, inside);
      }
    }

    lemma PartitionLength()
      requires Shape()
      ensures |flat| == table.sectorCount * RT.SECTOR_SIZE && RT.Tiles(table)
    {
    }

    lemma FindInside(offset: nat) returns (i: nat, inside: nat)
      requires Shape() && offset < |flat|
      ensures InsideAt(offset, i, inside) && RT.Real(table, i)
    {
      hide RT.RunOk, RT.RunBytes;
      assert RT.Covered(table, offset / RT.SECTOR_SIZE);
      i := RunIndex(offset);
      inside := offset - table.runs[i].sectorStart * RT.SECTOR_SIZE;
      InsideThere(offset, i, inside);
    }

    lemma RunFound(k: Option<nat>, p: Option<nat>, i: nat)
      requires i < |table.runs| && RT.IsPrevious(sectors.Keys, k, table.runs[i].sectorStart)
      requires p.Some? ==> RT.IsPrevious(sectors.Keys, k, p.value)
      requires p.None? ==> forall j | j in sectors.Keys :: k.Some? && k.value <= j
      ensures p == Some(table.runs[i].sectorStart)
    {
    }

    /** Whichever run holds this byte starts with it. */
    ghost predicate AtRunStart(offset: nat) {
      forall i: nat | Holds(i, offset) :: table.runs[i].sectorStart * RT.SECTOR_SIZE == offset
    }

    lemma StartsHere(offset: nat, i: nat)
      requires AtRunStart(offset) && Holds(i, offset)
      ensures table.runs[i].sectorStart * RT.SECTOR_SIZE == offset
    {
    }

    /** The end of a run, unless it is the end of the image, is the start of the next one. */
    lemma EndIsNextStart(i: nat)
      requires Shape() && RT.Real(table, i)
      ensures AtRunStart((table.runs[i].sectorStart + table.runs[i].sectorCount) * RT.SECTOR_SIZE)
    {
      hide RT.IsImage, RT.Tiles;
      var e := table.runs[i].sectorStart + table.runs[i].sectorCount;
      RT.TiledEnd(table, i);
      forall j: nat | Holds(j, e * RT.SECTOR_SIZE)
        ensures table.runs[j].sectorStart == e
      {
        assert e * RT.SECTOR_SIZE / RT.SECTOR_SIZE == e;
        if table.runs[j].sectorStart < e {
          RT.SameRun(table, i, j, e - 1);
        }
      }
    }

    /** The share of run `i` in a request, of which `done` bytes are in place. */
    method ReadPart(buf: array<byte>, at: nat, done: nat, i: nat, offsetInSector: nat, count: nat, ghost offset: nat,
                    ghost before: seq<byte>, ghost count0: nat, ghost shown: seq<byte>) returns (got: Result<nat>)
      requires Wf(disk) && Level(disk) + 1 < level && Shape() && Sound(repr) && buf !in repr
      requires count > 0 && count0 == done + count && at + count0 <= buf.Length
      requires offset + done < |flat| && InsideAt(offset + done, i, offsetInSector) && RT.Real(table, i)
      requires |shown| == |flat| && |before| == buf.Length
      requires if done == 0 then Shows(shown, before, at, count, offset) && buf[..] == before
               else offsetInSector == 0 && shown[offset + done..] == flat[offset + done..]
      requires Has(buf[..], at, 0, done, shown, offset) && SameOutside(buf[..], before, at, done)
      modifies buf, repr
      ensures Sound(repr)
      ensures if done == 0 && FailsAt(count, offset) then got == Throws(IoError)
              else got.Ok? && 0 < got.value <= count && offset + done + got.value <= |flat|
      ensures got.Ok? ==>
                && Has(buf[..], at, 0, done + got.value, shown, offset)
                && SameOutside(buf[..], before, at, done + got.value)
                && shown[offset + done + got.value..] == flat[offset + done + got.value..]
                && (got.value < count ==> AtRunStart(offset + done + got.value))
      decreases level, 10
    {
      hide Wf, Sound, Shape, Has, SameOutside, Overwrite, Window, RT.RunOk, RT.RunBytes, RT.RunLost, FailsAt, Shows;
      ghost var was := buf[..];
      FailsHere(i, offsetInSector, count, offset, done);
      got := ReadRun(buf, at + done, i, offsetInSector, count);
      if got.Ok? {
        ghost var n := got.value;
        PartShown(shown, was, buf[..], before, at, i, offsetInSector, count, offset, done);
        EndIsNextStart(i);
        NextPiece(was, buf[..], before, at, shown, offset, done, n);
      }
    }

    lemma FailsHere(i: nat, inside: nat, count: nat, offset: nat, done: nat)
      requires count > 0 && offset + done < |flat| && InsideAt(offset + done, i, inside)
      requires done > 0 ==> inside == 0
      ensures RT.RunFails(table.runs[i], inside) <==> done == 0 && FailsAt(count, offset)
    {
      hide RT.RunOk;
      if done == 0 && FailsAt(count, offset) {
        var j: nat, inside': nat :| InsideAt(offset, j, inside') && RT.RunFails(table.runs[j], inside');
        InsideUnique(offset, i, inside, j, inside');
      }
    }

    /** What a run's read wrote is what is shown there. */
    lemma PartShown(shown: seq<byte>, was: seq<byte>, now: seq<byte>, before: seq<byte>, at: nat, i: nat, inside: nat,
                    count: nat, offset: nat, done: nat)
      requires Shape() && count > 0 && offset + done < |flat| && InsideAt(offset + done, i, inside) && RT.Real(table, i)
      requires at + done + count <= |was| == |before| && |shown| == |flat|
      requires if done == 0 then Shows(shown, before, at, count, offset) && was == before
               else inside == 0 && shown[offset + done..] == flat[offset + done..]
      requires RunRead(was, now, at + done, i, inside, count, Ok(Share(i, inside, count)))
      ensures var n := Share(i, inside, count);
              && offset + done + n <= |flat|
              && now == Overwrite(was, at + done, shown[offset + done..offset + done + n])
              && shown[offset + done + n..] == flat[offset + done + n..]
    {
      hide RT.RunOk, RT.RunBytes, RT.RunLost, RT.IsImage, RT.Tiles, Overwrite, InsideAt;
      InsideBasics(offset + done, i, inside);
      var n, run, from := Share(i, inside, count), table.runs[i], offset + done;
      var lost := RT.RunLost(table, codecs, Contents(disk), run, inside, n);
      PieceOfImage(i, inside, n);
      PieceOfImage(i, inside, n - lost);
      if done == 0 {
        ShownFirst(shown, before, at, i, inside, count, offset);
        HolePunched(flat, shown, was, at, from, n, lost);
      } else {
        RT.ServedLosesNothing(table, codecs, Contents(disk), run, 0, n);
        TailSlice(flat, shown, from, n);
      }
    }

    lemma InsideBasics(offset: nat, i: nat, inside: nat)
      requires InsideAt(offset, i, inside)
      ensures i < |table.runs| && RT.RunOk(table, codecs, Contents(disk), table.runs[i])
      ensures table.runs[i].sectorStart * RT.SECTOR_SIZE + inside == offset
      ensures inside < table.runs[i].sectorCount * RT.SECTOR_SIZE
    {
      hide RT.RunOk;
    }

    lemma ShownFirst(shown: seq<byte>, before: seq<byte>, at: nat, i: nat, inside: nat, count: nat, offset: nat)
      requires at + count <= |before| && count > 0 && offset < |flat| && Shows(shown, before, at, count, offset)
      requires InsideAt(offset, i, inside)
      ensures ShowsRun(shown, before, at, count, offset, i, inside)
    {
      hide RT.RunOk, RT.RunLost;
      var j: nat, inside': nat :|
        InsideAt(offset, j, inside') && ShowsRun(shown, before, at, count, offset, j, inside');
      InsideUnique(offset, i, inside, j, inside');
    }

    /** Writing all but the last bytes is writing all of what is shown. */
    lemma HolePunched(flat: seq<byte>, shown: seq<byte>, was: seq<byte>, at: nat, from: nat, n: nat, lost: nat)
      requires lost <= n && at + n <= |was| && from + n <= |flat|
      requires shown == Overwrite(flat, from + n - lost, was[at + n - lost..at + n])
      ensures Overwrite(was, at, flat[from..from + n - lost]) == Overwrite(was, at, shown[from..from + n])
      ensures shown[from + n..] == flat[from + n..]
    {
      var x, y := Overwrite(was, at, flat[from..from + n - lost]), Overwrite(was, at, shown[from..from + n]);
      forall k | 0 <= k < |was|
        ensures x[k] == y[k]
      {
        if at <= k < at + n {
          assert y[k] == shown[from + (k - at)];
        }
      }
    }

    lemma TailSlice(flat: seq<byte>, shown: seq<byte>, from: nat, n: nat)
      requires |shown| == |flat| && from + n <= |flat| && shown[from..] == flat[from..]
      ensures shown[from..from + n] == flat[from..from + n] && shown[from + n..] == flat[from + n..]
    {
      assert shown[from..from + n] == shown[from..][..n] && flat[from..from + n] == flat[from..][..n];
      assert shown[from + n..] == shown[from..][n..] && flat[from + n..] == flat[from..][n..];
    }

    /** Bytes of a run are bytes of the image. */
    lemma PieceOfImage(i: nat, inside: nat, n: nat)
      requires Shape() && RT.Real(table, i) && inside + n <= table.runs[i].sectorCount * RT.SECTOR_SIZE
      ensures RT.RunOk(table, codecs, Contents(disk), table.runs[i])
      ensures var from := table.runs[i].sectorStart * RT.SECTOR_SIZE + inside;
              from + n <= |flat|
              && flat[from..from + n] == RT.RunBytes(table, codecs, Contents(disk), table.runs[i])[inside..inside + n]
    {
      hide RT.RunBytes, RT.RunOk;
      RT.TiledEnd(table, i);
      PieceOfSlice(flat, table.runs[i].sectorStart * RT.SECTOR_SIZE, table.runs[i].sectorCount * RT.SECTOR_SIZE,
                   inside, n);
    }

    /** A read of up to `count` bytes of run `i` from its byte `inside` on. */
    ghost predicate RunRead(before: seq<byte>, after: seq<byte>, at: nat, i: nat, inside: nat, count: nat,
                            res: Result<int>)
      requires at + count <= |before| && i < |table.runs| && RT.RunOk(table, codecs, Contents(disk), table.runs[i])
      requires inside < table.runs[i].sectorCount * RT.SECTOR_SIZE
    {
      var run, n := table.runs[i], Share(i, inside, count);
      if RT.RunFails(run, inside) then res == Throws(IoError) && after == before
      else
        var lost := RT.RunLost(table, codecs, Contents(disk), run, inside, n);
        && res == Ok(n)
        && after == Overwrite(before, at, RT.RunBytes(table, codecs, Contents(disk), run)[inside..inside + n - lost])
    }

    /** Reads from one run, by its type. */
    method ReadRun(buf: array<byte>, at: nat, i: nat, offsetInSector: nat, count0: nat) returns (res: Result<nat>)
      requires Wf(disk) && Level(disk) + 1 < level && Shape() && Sound(repr) && buf !in repr
               && at + count0 <= buf.Length
      requires RT.Real(table, i) && RT.RunOk(table, codecs, Contents(disk), table.runs[i])
      requires offsetInSector < table.runs[i].sectorCount * RT.SECTOR_SIZE
      modifies buf, repr
      ensures Sound(repr)
      ensures count0 > 0 ==> RunRead(old(buf[..]), buf[..], at, i, offsetInSector, count0, res)
      decreases level, 9
    {
      hide Wf, Sound, Overwrite, Window, RT.Tiles, RT.IsImage, RT.RunBytes, RT.RunOk, RT.RunLost, RunRead;
      ghost var run, d, before := table.runs[i], Contents(disk), buf[..];
      var kind := table.runs[i].kind;
      var start := table.runs[i].compOffset + table.dataStart;
      var count := Min(count0, table.runs[i].sectorCount * RT.SECTOR_SIZE - offsetInSector);
      res := Ok(0);
      KnownKind(run);
      RT.RunPiece(table, codecs, d, run, offsetInSector, count);
      if kind == RT.Unknown || kind == RT.ZeroFill {
        Memcpy(buf, at, RT.Zeros(count));
        ReadOfPlain(before, buf[..], at, i, count0, offsetInSector, RT.Zeros(count));
        return Ok(count);
      }
      if kind == RT.Raw {
        WindowInside(d, count, start + offsetInSector);
        res := ReadFrom(disk, buf, at, count, start + offsetInSector);
        ReadOfPlain(before, buf[..], at, i, count0, offsetInSector, Window(d, count, start + offsetInSector));
        return;
      }
      if kind == RT.LZFSE && !codecs.hasLzfse {
        return Raise<nat>(NotImplemented);
      }
      if kind == RT.LZFSE || kind == RT.Zlib || kind == RT.Bzip2 || kind == RT.ADC {
        var dec: Result<int> := Decompress(buf, at, i, count, offsetInSector);
        if count0 > 0 {
          ReadOfShare(before, buf[..], at, i, count0, offsetInSector, dec);
        }
        if dec.Throws? {
          return Raise<nat>(dec.error);
        }
        if dec.value < count {
          return Raise<nat>(IoError);
        }
        return Ok(count);
      }
    }

    /** An uncompressed run delivers its bytes. */
    lemma ReadOfPlain(before: seq<byte>, after: seq<byte>, at: nat, i: nat, count: nat, inside: nat, data: seq<byte>)
      requires i < |table.runs| && table.runs[i].kind != RT.ADC && table.runs[i].kind != RT.LZFSE
      requires RT.RunOk(table, codecs, Contents(disk), table.runs[i])
      requires at + count <= |before| && inside < table.runs[i].sectorCount * RT.SECTOR_SIZE
      requires var n := Share(i, inside, count);
               data == RT.RunBytes(table, codecs, Contents(disk), table.runs[i])[inside..inside + n]
      requires at + |data| <= |before| && after == Overwrite(before, at, data)
      ensures RunRead(before, after, at, i, inside, count, Ok(Share(i, inside, count)))
    {
      hide RT.RunOk, RT.RunBytes, Overwrite;
    }

    /** Asking for more than the run's share changes nothing. */
    lemma ReadOfShare(before: seq<byte>, after: seq<byte>, at: nat, i: nat, count: nat, inside: nat, res: Result<int>)
      requires i < |table.runs| && RT.RunOk(table, codecs, Contents(disk), table.runs[i]) && count > 0
      requires at + count <= |before| && inside < table.runs[i].sectorCount * RT.SECTOR_SIZE
      requires RunRead(before, after, at, i, inside, Share(i, inside, count), res)
      ensures RunRead(before, after, at, i, inside, count, res)
      ensures res.Throws? ==> res == Throws(IoError)
      ensures res.Ok? ==> res == Ok(Share(i, inside, count))
    {
      hide RT.RunOk, RT.RunBytes, RT.RunLost, Overwrite;
    }

    lemma KnownKind(run: RT.Run)
      requires RT.RunOk(table, codecs, Contents(disk), run)
      ensures run.kind == RT.ZeroFill || run.kind == RT.Unknown || run.kind == RT.Raw || run.kind == RT.ADC
              || run.kind == RT.Zlib || run.kind == RT.Bzip2 || (run.kind == RT.LZFSE && codecs.hasLzfse)
    {
      hide Adc.IsStream, Adc.Whole, INF.IsCoded;
    }

    /** A fresh decompressor of the run's kind over its compressed bytes. */
    method Decompress(buf: array<byte>, at: nat, i: nat, count: nat, offset: nat) returns (dec: Result<int>)
      requires Wf(disk) && Level(disk) + 1 < level && Shape() && Sound(repr) && buf !in repr && at + count <= buf.Length
      requires RT.Real(table, i) && RT.RunOk(table, codecs, Contents(disk), table.runs[i])
      requires offset < table.runs[i].sectorCount * RT.SECTOR_SIZE
      requires RT.IsCompressed(table.runs[i].kind) && offset + count <= table.runs[i].sectorCount * RT.SECTOR_SIZE
      modifies buf, repr
      ensures Sound(repr)
      ensures count > 0 ==> RunRead(old(buf[..]), buf[..], at, i, offset, count, dec)
      decreases level, 8
    {
      hide Wf, Sound, Shape, RT.RunOk, RT.IsPiece, RunRead;
      var start, length := table.runs[i].compOffset + table.dataStart, table.runs[i].compLength;
      var sub := FromSub(disk, start, length);
      SubOfRun(i, offset, count);
      var kind := table.runs[i].kind;
      if kind == RT.ADC {
        dec := AdcRun(sub, buf, at, i, count, offset);
      } else if kind == RT.LZFSE {
        dec := LzfseRun(sub, buf, at, i, count, offset);
      } else if kind == RT.Zlib {
        dec := StreamRun(sub, codecs.zlib, false, buf, at, i, count, offset);
      } else {
        dec := StreamRun(sub, codecs.bzip2, true, buf, at, i, count, offset);
      }
    }

    lemma SubOfRun(i: nat, offset: nat, count: nat)
      requires Wf(disk) && Level(disk) + 1 < level && Shape()
      requires RT.Real(table, i) && RT.RunOk(table, codecs, Contents(disk), table.runs[i])
      requires RT.IsCompressed(table.runs[i].kind) && offset + count <= table.runs[i].sectorCount * RT.SECTOR_SIZE
      ensures var run, d := table.runs[i], Contents(disk);
              var sub := FromSub(disk, run.compOffset + table.dataStart, run.compLength);
              && CodedSub(sub, i)
              && (run.kind == RT.ADC ==>
                    && Adc.IsStream(Contents(sub))
                    && RT.IsPiece(table, codecs, d, run, Adc.Whole(Contents(sub)), offset, count))
              && (run.kind == RT.Zlib ==>
                    && INF.IsCoded(codecs.zlib, Contents(sub))
                    && RT.IsPiece(table, codecs, d, run, codecs.zlib.dec(Contents(sub)), offset, count))
              && (run.kind == RT.Bzip2 ==>
                    && INF.IsCoded(codecs.bzip2, Contents(sub))
                    && RT.IsPiece(table, codecs, d, run, codecs.bzip2.dec(Contents(sub)), offset, count))
              && (run.kind == RT.LZFSE ==>
                    && |Contents(sub)| > 0
                    && RT.IsPiece(table, codecs, d, run, codecs.lzfse(Contents(sub)), offset, count))
    {
      hide RT.RunOk, RT.IsImage, RT.Tiles, RT.IsPiece, Adc.IsStream, INF.IsCoded, RT.SectorsOf;
      RT.CompressedPiece(table, codecs, Contents(disk), table.runs[i], offset, count);
      SubRandomAccess(disk, table.runs[i].compOffset + table.dataStart, table.runs[i].compLength);
    }

    /** A view of the compressed bytes of run `i`. */
    ghost predicate CodedSub(sub: Reader, i: nat) {
      && Wf(sub) && RandomAccess(sub) && Repr(sub) == repr && Level(sub) + 1 < level + 1
      && i < |table.runs| && RT.RunOk(table, codecs, Contents(disk), table.runs[i])
      && RT.Slice(Contents(disk), table.runs[i].compOffset + table.dataStart, table.runs[i].compLength)
      && Contents(sub) == RT.Payload(table, Contents(disk), table.runs[i])
    }

    lemma CodedBasics(sub: Reader, i: nat)
      requires CodedSub(sub, i)
      ensures Wf(sub) && RandomAccess(sub) && Repr(sub) == repr && Level(sub) < level
      ensures i < |table.runs| && RT.RunOk(table, codecs, Contents(disk), table.runs[i])
    {
    }

    method AdcRun(sub: Reader, buf: array<byte>, at: nat, i: nat, count: nat, offset: nat) returns (dec: Result<nat>)
      requires CodedSub(sub, i) && Sound(repr) && buf !in repr && at + count <= buf.Length
      requires table.runs[i].kind == RT.ADC && offset < table.runs[i].sectorCount * RT.SECTOR_SIZE
      requires Adc.IsStream(Contents(sub))
      requires RT.IsPiece(table, codecs, Contents(disk), table.runs[i], Adc.Whole(Contents(sub)), offset, count)
      modifies buf, repr
      ensures Sound(repr)
      ensures count > 0 ==> RunRead(old(buf[..]), buf[..], at, i, offset, count, dec)
      decreases level, 7
    {
      hide Wf, Sound, CodedSub, RT.RunOk, RT.IsPiece, Adc.IsStream, Adc.Whole, RunRead, DMGDecompressor.Decompressed;
      CodedBasics(sub, i);
      ghost var before := buf[..];
      var decompressor := new DMGDecompressor(sub);
      dec := decompressor.DecompressAdc(buf, at, count, offset, repr);
      if count > 0 {
        ReadOfAdc(sub, before, buf[..], at, i, count, offset, dec);
      }
    }

    method LzfseRun(sub: Reader, buf: array<byte>, at: nat, i: nat, count: nat, offset: nat) returns (dec: Result<nat>)
      requires CodedSub(sub, i) && Sound(repr) && buf !in repr && at + count <= buf.Length
      requires table.runs[i].kind == RT.LZFSE && offset < table.runs[i].sectorCount * RT.SECTOR_SIZE
      requires |Contents(sub)| > 0
      requires RT.IsPiece(table, codecs, Contents(disk), table.runs[i], codecs.lzfse(Contents(sub)), offset, count)
      modifies buf, repr
      ensures Sound(repr)
      ensures count > 0 ==> RunRead(old(buf[..]), buf[..], at, i, offset, count, dec)
      decreases level, 7
    {
      hide Wf, Sound, CodedSub, RT.RunOk, RT.IsPiece, Overwrite, RunRead;
      CodedBasics(sub, i);
      ghost var before := buf[..];
      PieceInside(table.runs[i], codecs.lzfse(Contents(sub)), offset, count);
      var decompressor := new DMGDecompressor(sub);
      dec := decompressor.DecompressLzfse(codecs.lzfse, buf, at, count, offset, repr);
      if count > 0 {
        ReadOfLzfse(codecs.lzfse(Contents(sub)), before, buf[..], at, i, count, offset, dec);
      }
    }

    method StreamRun(sub: Reader, codec: INF.Codec, bzip2: bool, buf: array<byte>, at: nat, i: nat, count: nat,
                     offset: nat)
      returns (dec: Result<int>)
      requires CodedSub(sub, i) && Sound(repr) && buf !in repr && at + count <= buf.Length
      requires table.runs[i].kind == RT.Zlib || table.runs[i].kind == RT.Bzip2
      requires offset < table.runs[i].sectorCount * RT.SECTOR_SIZE && INF.IsCoded(codec, Contents(sub))
      requires RT.IsPiece(table, codecs, Contents(disk), table.runs[i], codec.dec(Contents(sub)), offset, count)
      modifies buf, repr
      ensures Sound(repr)
      ensures count > 0 ==> RunRead(old(buf[..]), buf[..], at, i, offset, count, dec)
      decreases level, 7
    {
      hide Wf, Sound, CodedSub, RT.RunOk, RT.IsPiece, INF.IsCoded, Overwrite, RunRead;
      CodedBasics(sub, i);
      ghost var before := buf[..];
      PieceInside(table.runs[i], codec.dec(Contents(sub)), offset, count);
      var decompressor := new StreamDecompressor(sub, codec, bzip2);
      dec := decompressor.Decompress(buf, at, count, offset, repr);
      if count > 0 {
        ReadOfStream(codec.dec(Contents(sub)), before, buf[..], at, i, count, offset, dec);
      }
    }

    lemma ReadOfAdc(sub: Reader, before: seq<byte>, after: seq<byte>, at: nat, i: nat, count: nat, offset: nat,
                    res: Result<nat>)
      requires CodedSub(sub, i) && table.runs[i].kind == RT.ADC && at + count <= |before| && count > 0
      requires offset < table.runs[i].sectorCount * RT.SECTOR_SIZE && Adc.IsStream(Contents(sub))
      requires RT.IsPiece(table, codecs, Contents(disk), table.runs[i], Adc.Whole(Contents(sub)), offset, count)
      requires DMGDecompressor.Decompressed(Contents(sub), before, after, at, count, offset, res)
      ensures RunRead(before, after, at, i, offset, count, res)
    {
      hide Wf, Repr, RandomAccess, RT.RunOk, RT.RunBytes, Adc.IsStream, Adc.Whole, Overwrite, AW.Lost, AW.Answered;
      var p := RT.Payload(table, Contents(disk), table.runs[i]);
      PieceInside(table.runs[i], Adc.Whole(p), offset, count);
      AW.InsideIsAnswered(p, offset, count);
      ShorterPiece(table.runs[i], Adc.Whole(p), offset, count, AW.Lost(p, offset, count));
    }

    lemma PieceInside(run: RT.Run, whole: seq<byte>, offset: nat, n: nat)
      requires RT.RunOk(table, codecs, Contents(disk), run)
               && RT.IsPiece(table, codecs, Contents(disk), run, whole, offset, n)
      ensures offset + n <= |whole| && offset + n <= run.sectorCount * RT.SECTOR_SIZE
    {
      hide RT.RunOk, RT.RunBytes;
    }

    lemma ReadOfStream(whole: seq<byte>, before: seq<byte>, after: seq<byte>, at: nat, i: nat, count: nat, offset: nat,
                       res: Result<int>)
      requires i < |table.runs| && table.runs[i].kind != RT.ADC && !RT.RunFails(table.runs[i], offset)
      requires RT.RunOk(table, codecs, Contents(disk), table.runs[i]) && at + count <= |before| && count > 0
      requires RT.IsPiece(table, codecs, Contents(disk), table.runs[i], whole, offset, count)
      requires res == Ok(count) && offset + count <= |whole|
      requires after == Overwrite(before, at, whole[offset..offset + count])
      ensures RunRead(before, after, at, i, offset, count, res)
    {
      hide RT.RunOk, RT.RunBytes, Overwrite;
    }

    lemma ReadOfLzfse(whole: seq<byte>, before: seq<byte>, after: seq<byte>, at: nat, i: nat, count: nat, offset: nat,
                      res: Result<int>)
      requires i < |table.runs| && table.runs[i].kind == RT.LZFSE && at + count <= |before| && count > 0
      requires RT.RunOk(table, codecs, Contents(disk), table.runs[i])
      requires RT.IsPiece(table, codecs, Contents(disk), table.runs[i], whole, offset, count)
      requires offset < table.runs[i].sectorCount * RT.SECTOR_SIZE
      requires if offset > 0 then res == Throws(IoError) && after == before
               else
                 var n := Min(count, |whole|);
                 res == Ok(n) && after == Overwrite(before, at, whole[..n])
      ensures RunRead(before, after, at, i, offset, count, res)
    {
      hide RT.RunOk, RT.RunBytes, Overwrite;
      PieceInside(table.runs[i], whole, offset, count);
      if offset == 0 {
        assert whole[0..count] == whole[..count];
        ReadOfStream(whole, before, after, at, i, count, offset, res);
      }
    }

    lemma ShorterPiece(run: RT.Run, whole: seq<byte>, offset: nat, n: nat, lost: nat)
      requires RT.RunOk(table, codecs, Contents(disk), run)
               && RT.IsPiece(table, codecs, Contents(disk), run, whole, offset, n)
      requires lost <= n
      ensures RT.RunBytes(table, codecs, Contents(disk), run)[offset..offset + n - lost]
              == whole[offset..offset + n - lost]
    {
      hide RT.RunOk, RT.RunBytes;
      var bytes := RT.RunBytes(table, codecs, Contents(disk), run);
      PieceOfSlice(bytes, offset, n, 0, n - lost);
      PieceOfSlice(whole, offset, n, 0, n - lost);
    }
  }

  lemma SubRandomAccess(p: Reader, start: nat, size: nat)
    requires RandomAccess(p)
    ensures RandomAccess(FromSub(p, start, size))
  {
  }

  lemma PartitionShape(p: DMGPartition)
    requires Wf(FromPartition(p))
    ensures p.Shape() && Wf(p.disk) && Level(p.disk) + 1 < p.level && p.repr == Repr(p.disk)
  {
  }

  lemma PartitionServed(p: DMGPartition, shown: seq<byte>, before: seq<byte>, at: nat, count: nat, offset: nat)
    requires Wf(FromPartition(p)) && Serves(FromPartition(p), count, offset) && at + count <= |before|
    ensures !p.FailsAt(count, offset)
    ensures p.Shows(shown, before, at, count, offset) ==> shown == p.flat
  {
    hide Wf, Serves, DMGPartition.Shape, DMGPartition.FailsAt, DMGPartition.Shows;
    PartitionShape(p);
    p.ServedShowsImage(shown, before, at, count, offset);
  }

  lemma PartitionSize(p: DMGPartition)
    requires Wf(FromPartition(p))
    ensures |p.flat| == p.table.sectorCount * RT.SECTOR_SIZE
  {
  }
}
