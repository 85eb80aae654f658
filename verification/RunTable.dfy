/** The run table of a DMG partition: which run holds which sector, and the flat image the runs describe
    (src/dmg.h, src/DMGPartition.cpp). */
module RunTable {
  import opened Bytes
  import opened BlockAdvice
  import Adc
  import AW = AdcWindow
  import INF = Inflater

  const SECTOR_SIZE := 512

  datatype RunType = ZeroFill | Raw | Unknown | ADC | Zlib | Bzip2 | LZFSE | Comment | Terminator | Other

  datatype Run = Run(kind: RunType, sectorStart: nat, sectorCount: nat, compOffset: nat, compLength: nat)

  datatype Table = Table(runs: seq<Run>, sectorCount: nat, dataStart: nat)

  /** The foreign formats: two streaming ones, and LZFSE, which decodes a whole buffer at once (nothing when it
      cannot). `hasLzfse` says whether the program was built with it. */
  datatype Codecs = Codecs(zlib: INF.Codec, bzip2: INF.Codec, lzfse: seq<byte> -> seq<byte>, hasLzfse: bool)

  // ---- Tiling ----

  ghost predicate Real(t: Table, i: nat) {
    i < |t.runs| && t.runs[i].kind != Comment && t.runs[i].kind != Terminator
  }

  ghost predicate InRun(t: Table, i: nat, sector: nat) {
    Real(t, i) && t.runs[i].sectorStart <= sector < t.runs[i].sectorStart + t.runs[i].sectorCount
  }

  ghost predicate Covered(t: Table, sector: nat) {
    exists i: nat :: InRun(t, i, sector)
  }

  /** The runs other than comments and terminators have positive size and cover every sector once. */
  ghost predicate Tiles(t: Table) {
    && (forall i: nat | Real(t, i) ::
          t.runs[i].sectorCount > 0 && t.runs[i].sectorStart + t.runs[i].sectorCount <= t.sectorCount)
    && (forall sector: nat | sector < t.sectorCount :: Covered(t, sector))
    && (forall i: nat, j: nat, sector: nat | InRun(t, i, sector) && InRun(t, j, sector) :: i == j)
  }

  /** What the constructor makes of the table: start sector to run number, later runs winning. */
  ghost predicate SectorsOf(t: Table, sectors: map<nat, nat>) {
    SectorsUpTo(t, sectors, |t.runs|)
  }

  /** The same of the first `n` runs. */
  ghost predicate SectorsUpTo(t: Table, m: map<nat, nat>, n: nat) {
    && (forall i: nat | i < n && Real(t, i) :: t.runs[i].sectorStart in m)
    && (forall s | s in m :: LastRunAt(t, m[s], n, s))
  }

  ghost predicate LastRunAt(t: Table, i: nat, n: nat, sector: nat) {
    && i < n && Real(t, i) && t.runs[i].sectorStart == sector
    && forall j: nat | i < j < n && Real(t, j) :: t.runs[j].sectorStart != sector
  }

  lemma NoSectors(t: Table)
    ensures SectorsUpTo(t, map[], 0)
  {
  }

  lemma NextSector(t: Table, m: map<nat, nat>, i: nat)
    requires i < |t.runs| && SectorsUpTo(t, m, i)
    ensures SectorsUpTo(t, if Real(t, i) then m[t.runs[i].sectorStart := i] else m, i + 1)
  {
    var m' := if Real(t, i) then m[t.runs[i].sectorStart := i] else m;
    forall s | s in m'
      ensures LastRunAt(t, m'[s], i + 1, s)
    {
      if s in m {
        assert LastRunAt(t, m[s], i, s);
      }
    }
  }

  /** The constructor's loop. */
  method SectorMap(t: Table) returns (m: map<nat, nat>)
    ensures SectorsOf(t, m)
  {
    hide SectorsUpTo;
    m := map[];
    NoSectors(t);
    for i := 0 to |t.runs|
      invariant SectorsUpTo(t, m, i)
    {
      NextSector(t, m, i);
      if t.runs[i].kind == Comment || t.runs[i].kind == Terminator {
        continue;
      }
      m := m[t.runs[i].sectorStart := i];
    }
  }

  ghost predicate IsUpperBound(keys: set<nat>, x: nat, k: Option<nat>) {
    match k
    case None => forall j | j in keys :: j <= x
    case Some(b) => b in keys && b > x && forall j | j in keys && j > x :: j >= b
  }

  ghost predicate IsPrevious(keys: set<nat>, k: Option<nat>, p: nat) {
    p in keys && (k.Some? ==> p < k.value) && forall j | j in keys && (k.Some? ==> j < k.value) :: j <= p
  }

  /** std::map::upper_bound. */
  method UpperBound(keys: set<nat>, x: nat) returns (k: Option<nat>)
    ensures IsUpperBound(keys, x, k)
  {
    k := None;
    var rest := keys;
    while rest != {}
      invariant rest <= keys
      invariant IsUpperBound(keys - rest, x, k)
      decreases rest
    {
      var j :| j in rest;
      assert keys - (rest - {j}) == keys - rest + {j};
      rest := rest - {j};
      if j > x && (k.None? || j < k.value) {
        k := Some(j);
      }
    }
    assert keys - rest == keys;
  }

  /** `--it` on a std::map iterator that is not at the beginning. */
  method Previous(keys: set<nat>, k: Option<nat>) returns (p: Option<nat>)
    ensures p.Some? ==> IsPrevious(keys, k, p.value)
    ensures p.None? ==> forall j | j in keys :: k.Some? && k.value <= j
  {
    p := None;
    var rest := keys;
    while rest != {}
      invariant rest <= keys
      invariant p.Some? ==> IsPrevious(keys - rest, k, p.value)
      invariant p.None? ==> forall j | j in keys - rest :: k.Some? && k.value <= j
      decreases rest
    {
      var j :| j in rest;
      assert keys - (rest - {j}) == keys - rest + {j};
      rest := rest - {j};
      if (k.None? || j < k.value) && (p.None? || j > p.value) {
        p := Some(j);
      }
    }
    assert keys - rest == keys;
  }

  /** In a tiled table the run before the upper bound of a sector is the run that holds it, and the upper
      bound is that run's end, unless the image ends there. */
  lemma LookupIsRight(t: Table, sectors: map<nat, nat>, x: nat, i: nat, k: Option<nat>)
    requires Tiles(t) && SectorsOf(t, sectors) && InRun(t, i, x) && IsUpperBound(sectors.Keys, x, k)
    ensures var s, e := t.runs[i].sectorStart, t.runs[i].sectorStart + t.runs[i].sectorCount;
            && s in sectors && sectors[s] == i
            && IsPrevious(sectors.Keys, k, s)
            && (if e == t.sectorCount then k.None? else k == Some(e))
  {
    var s, e := t.runs[i].sectorStart, t.runs[i].sectorStart + t.runs[i].sectorCount;
    KeysApart(t, sectors, i);
    if e < t.sectorCount {
      EndIsStart(t, sectors, i);
    }
  }

  lemma KeysApart(t: Table, sectors: map<nat, nat>, i: nat)
    requires Tiles(t) && SectorsOf(t, sectors) && Real(t, i)
    ensures var s, e := t.runs[i].sectorStart, t.runs[i].sectorStart + t.runs[i].sectorCount;
            && s in sectors && sectors[s] == i
            && forall j | j in sectors :: j == s || j < s || (e <= j && j < t.sectorCount)
  {
    var s, e := t.runs[i].sectorStart, t.runs[i].sectorStart + t.runs[i].sectorCount;
    assert InRun(t, i, s);
    forall j | j in sectors
      ensures j < t.sectorCount && (s <= j < e ==> sectors[j] == i)
    {
      assert InRun(t, sectors[j], j);
      if s <= j < e {
        assert InRun(t, i, j);
      }
    }
  }

  lemma EndIsStart(t: Table, sectors: map<nat, nat>, i: nat)
    requires Tiles(t) && SectorsOf(t, sectors) && Real(t, i)
    requires t.runs[i].sectorStart + t.runs[i].sectorCount < t.sectorCount
    ensures t.runs[i].sectorStart + t.runs[i].sectorCount in sectors
  {
    var e := t.runs[i].sectorStart + t.runs[i].sectorCount;
    assert Covered(t, e);
    var j: nat :| InRun(t, j, e);
    if t.runs[j].sectorStart < e {
      assert InRun(t, i, e - 1) && InRun(t, j, e - 1);
    }
  }

  // ---- The image ----

  function Zeros(n: nat): (z: seq<byte>)
    ensures |z| == n && forall i | 0 <= i < n :: z[i] == 0
  {
    seq(n, _ => 0)
  }

  ghost predicate Slice(d: seq<byte>, offset: nat, length: nat) {
    offset + length <= |d|
  }

  ghost function Payload(t: Table, d: seq<byte>, r: Run): seq<byte>
    requires Slice(d, r.compOffset + t.dataStart, r.compLength)
  {
    d[r.compOffset + t.dataStart..r.compOffset + t.dataStart + r.compLength]
  }

  /** The run's data is where the table says, is of a known kind, and decodes to enough bytes. */
  ghost predicate RunOk(t: Table, c: Codecs, d: seq<byte>, r: Run) {
    match r.kind
    case ZeroFill => true
    case Unknown => true
    case Raw => Slice(d, r.compOffset + t.dataStart, r.sectorCount * SECTOR_SIZE)
    case ADC =>
      && Slice(d, r.compOffset + t.dataStart, r.compLength)
      && Adc.IsStream(Payload(t, d, r)) && |Adc.Whole(Payload(t, d, r))| >= r.sectorCount * SECTOR_SIZE
    case Zlib =>
      && Slice(d, r.compOffset + t.dataStart, r.compLength) && INF.IsCoded(c.zlib, Payload(t, d, r))
      && |c.zlib.dec(Payload(t, d, r))| >= r.sectorCount * SECTOR_SIZE
    case Bzip2 =>
      && Slice(d, r.compOffset + t.dataStart, r.compLength) && INF.IsCoded(c.bzip2, Payload(t, d, r))
      && |c.bzip2.dec(Payload(t, d, r))| >= r.sectorCount * SECTOR_SIZE
    case LZFSE =>
      && c.hasLzfse && Slice(d, r.compOffset + t.dataStart, r.compLength) && r.compLength > 0
      && |c.lzfse(Payload(t, d, r))| >= r.sectorCount * SECTOR_SIZE
    case _ => false
  }

  ghost function RunBytes(t: Table, c: Codecs, d: seq<byte>, r: Run): (b: seq<byte>)
    requires RunOk(t, c, d, r)
    ensures |b| == r.sectorCount * SECTOR_SIZE
  {
    var n := r.sectorCount * SECTOR_SIZE;
    match r.kind
    case ZeroFill => Zeros(n)
    case Unknown => Zeros(n)
    case Raw => d[r.compOffset + t.dataStart..r.compOffset + t.dataStart + n]
    case ADC => Adc.Whole(Payload(t, d, r))[..n]
    case Zlib => c.zlib.dec(Payload(t, d, r))[..n]
    case Bzip2 => c.bzip2.dec(Payload(t, d, r))[..n]
    case LZFSE => c.lzfse(Payload(t, d, r))[..n]
  }

  ghost predicate RunsOk(t: Table, c: Codecs, d: seq<byte>) {
    forall i: nat | Real(t, i) :: RunOk(t, c, d, t.runs[i])
  }

  /** `flat` is the image: each run's bytes stand at its sectors. */
  ghost predicate IsImage(t: Table, c: Codecs, d: seq<byte>, flat: seq<byte>) {
    && RunsOk(t, c, d) && |flat| == t.sectorCount * SECTOR_SIZE
    && forall i: nat | Real(t, i) && t.runs[i].sectorStart + t.runs[i].sectorCount <= t.sectorCount ::
         flat[t.runs[i].sectorStart * SECTOR_SIZE..(t.runs[i].sectorStart + t.runs[i].sectorCount) * SECTOR_SIZE]
         == RunBytes(t, c, d, t.runs[i])
  }

  /** A tiled table has only one image. */
  lemma ImageUnique(t: Table, c: Codecs, d: seq<byte>, a: seq<byte>, b: seq<byte>)
    requires Tiles(t) && IsImage(t, c, d, a) && IsImage(t, c, d, b)
    ensures a == b
  {
    forall p | 0 <= p < |a|
      ensures a[p] == b[p]
    {
      assert Covered(t, p / SECTOR_SIZE);
      var i: nat :| InRun(t, i, p / SECTOR_SIZE);
      ByteOfImage(t, c, d, a, i, p);
      ByteOfImage(t, c, d, b, i, p);
    }
  }

  lemma ByteOfImage(t: Table, c: Codecs, d: seq<byte>, flat: seq<byte>, i: nat, p: nat)
    requires Tiles(t) && IsImage(t, c, d, flat) && InRun(t, i, p / SECTOR_SIZE) && p < |flat|
    ensures var s := t.runs[i].sectorStart * SECTOR_SIZE;
            s <= p < s + t.runs[i].sectorCount * SECTOR_SIZE && flat[p] == RunBytes(t, c, d, t.runs[i])[p - s]
  {
    hide RunBytes, RunOk, Tiles;
    TiledEnd(t, i);
    var s, e := t.runs[i].sectorStart * SECTOR_SIZE, (t.runs[i].sectorStart + t.runs[i].sectorCount) * SECTOR_SIZE;
    assert flat[s..e][p - s] == flat[p];
  }

  lemma TiledEnd(t: Table, i: nat)
    requires Tiles(t) && Real(t, i)
    ensures t.runs[i].sectorCount > 0 && t.runs[i].sectorStart + t.runs[i].sectorCount <= t.sectorCount
  {
  }

  /** Byte `p` of the image, `x` bytes into run `i`, by the run's kind; the run's data starts `compOffset` bytes behind
      where the partition's data does. */
  lemma ImageByte(t: Table, c: Codecs, d: seq<byte>, flat: seq<byte>, i: nat, x: nat)
    requires Tiles(t) && IsImage(t, c, d, flat) && i < |t.runs| && x < t.runs[i].sectorCount * 512
    requires t.runs[i].kind != Comment && t.runs[i].kind != Terminator
    ensures var r, p := t.runs[i], t.runs[i].sectorStart * 512 + x;
            var from := t.dataStart + r.compOffset;
            && p < |flat|
            && (r.kind == ZeroFill || r.kind == Unknown ==> flat[p] == 0)
            && (r.kind == Raw ==> from + x < |d| && flat[p] == d[from + x])
            && (r.kind == ADC || r.kind == Zlib || r.kind == Bzip2 || r.kind == LZFSE ==>
                  && from + r.compLength <= |d|
                  && var whole := DecodedAs(c, r.kind, d[from..from + r.compLength]);
                     x < |whole| && flat[p] == whole[x])
  {
    hide RunOk, RunBytes, Tiles, DecodedAs;
    var r, p := t.runs[i], t.runs[i].sectorStart * 512 + x;
    TiledEnd(t, i);
    assert p / SECTOR_SIZE < r.sectorStart + r.sectorCount;
    ByteOfImage(t, c, d, flat, i, p);
    ByteOfRun(t, c, d, r, x);
  }

  lemma ByteOfRun(t: Table, c: Codecs, d: seq<byte>, r: Run, x: nat)
    requires RunOk(t, c, d, r) && x < r.sectorCount * 512
    ensures var from, b := t.dataStart + r.compOffset, RunBytes(t, c, d, r)[x];
            && (r.kind == ZeroFill || r.kind == Unknown ==> b == 0)
            && (r.kind == Raw ==> from + x < |d| && b == d[from + x])
            && (r.kind == ADC || r.kind == Zlib || r.kind == Bzip2 || r.kind == LZFSE ==>
                  && from + r.compLength <= |d|
                  && var whole := DecodedAs(c, r.kind, d[from..from + r.compLength]);
                     x < |whole| && b == whole[x])
  {
    hide Adc.IsStream, Adc.Whole, INF.IsCoded;
  }

  /** What compressed data decodes to. */
  ghost function DecodedAs(c: Codecs, kind: RunType, s: seq<byte>): seq<byte> {
    match kind
    case ADC => if Adc.IsStream(s) then Adc.Whole(s) else []
    case Zlib => c.zlib.dec(s)
    case Bzip2 => c.bzip2.dec(s)
    case LZFSE => c.lzfse(s)
    case _ => []
  }

  /** The bytes of all runs, in table order. */
  ghost function Concat(t: Table, c: Codecs, d: seq<byte>, n: nat): seq<byte>
    requires n <= |t.runs| && RunsOk(t, c, d)
  {
    if n == 0 then []
    else Concat(t, c, d, n - 1) + (if Real(t, n - 1) then RunBytes(t, c, d, t.runs[n - 1]) else [])
  }

  /** The first `n` runs, listed in order, tile the sectors up to `end`. */
  ghost predicate InOrder(t: Table, n: nat, end: nat)
    requires n <= |t.runs|
  {
    if n == 0 then end == 0
    else if Real(t, n - 1) then
      t.runs[n - 1].sectorStart + t.runs[n - 1].sectorCount == end && InOrder(t, n - 1, t.runs[n - 1].sectorStart)
    else InOrder(t, n - 1, end)
  }

  lemma {:induction false} ConcatPiece(t: Table, c: Codecs, d: seq<byte>, n: nat, end: nat)
    requires n <= |t.runs| && RunsOk(t, c, d) && InOrder(t, n, end)
    ensures |Concat(t, c, d, n)| == end * SECTOR_SIZE
    ensures forall i: nat | i < n && Real(t, i) ::
              var s, e := t.runs[i].sectorStart, t.runs[i].sectorStart + t.runs[i].sectorCount;
              e <= end && Concat(t, c, d, n)[s * SECTOR_SIZE..e * SECTOR_SIZE] == RunBytes(t, c, d, t.runs[i])
  {
    hide RunBytes, RunOk;
    if n > 0 {
      if Real(t, n - 1) {
        ConcatPiece(t, c, d, n - 1, t.runs[n - 1].sectorStart);
      } else {
        ConcatPiece(t, c, d, n - 1, end);
        assert Concat(t, c, d, n) == Concat(t, c, d, n - 1);
      }
    }
  }

  /** When the runs are listed in order, the image is their bytes one behind the other. */
  lemma ImageIsConcat(t: Table, c: Codecs, d: seq<byte>)
    requires RunsOk(t, c, d) && InOrder(t, |t.runs|, t.sectorCount)
    ensures IsImage(t, c, d, Concat(t, c, d, |t.runs|))
  {
    hide RunBytes, RunOk, Concat;
    ConcatPiece(t, c, d, |t.runs|, t.sectorCount);
  }

  // ---- Advice ----

  /** The number of the run that holds a sector. */
  ghost function RunAt(t: Table, sector: nat): (i: nat)
    ensures Covered(t, sector) ==> InRun(t, i, sector)
  {
    if Covered(t, sector) then
      var i: nat :| InRun(t, i, sector);
      i
    else 0
  }

  /** Reads of a run that are answered in full: for LZFSE those that start with the run; for ADC those that start
      at a multiple of 0x10000 inside the run, or that end before the window has to slide; all of other runs. */
  ghost predicate RunServes(t: Table, i: nat, count: nat, offset: nat) {
    i < |t.runs| && offset >= t.runs[i].sectorStart * SECTOR_SIZE ==>
      var inside := offset - t.runs[i].sectorStart * SECTOR_SIZE;
      && (t.runs[i].kind == LZFSE ==> inside == 0)
      && (t.runs[i].kind == ADC ==>
            && inside <= t.runs[i].sectorCount * SECTOR_SIZE
            && AdcServes(Min(count, t.runs[i].sectorCount * SECTOR_SIZE - inside), inside))
  }

  ghost predicate AdcServes(count: nat, offset: nat) {
    offset % 0x10000 == 0 || offset % 0x10000 + count <= 0x20000
  }

  /** A read of a run that throws. */
  predicate RunFails(r: Run, inside: nat) {
    r.kind == LZFSE && inside > 0
  }

  /** How many bytes at the end of a read of `n` bytes of a run are not written. */
  ghost function RunLost(t: Table, c: Codecs, d: seq<byte>, r: Run, inside: nat, n: nat): (lost: nat)
    requires RunOk(t, c, d, r)
    ensures lost <= n
  {
    if r.kind == ADC then
      AW.LostBound(Payload(t, d, r), inside, n);
      AW.Lost(Payload(t, d, r), inside, n)
    else 0
  }

  lemma LostAtMost(t: Table, c: Codecs, d: seq<byte>, r: Run, inside: nat, n: nat)
    requires RunOk(t, c, d, r)
    ensures RunLost(t, c, d, r, inside, n) > 0 ==>
              r.kind == ADC && RunLost(t, c, d, r, inside, n) == inside % 0x10000 && inside % 0x10000 + n > 0x20000
  {
    hide Adc.IsStream, Adc.Whole, AW.FullWidth;
  }

  /** Served reads neither fail nor lose bytes. */
  lemma ServedLosesNothing(t: Table, c: Codecs, d: seq<byte>, r: Run, inside: nat, n: nat)
    requires RunOk(t, c, d, r) && (r.kind == ADC ==> AdcServes(n, inside))
    ensures RunLost(t, c, d, r, inside, n) == 0
  {
    hide Adc.IsStream, Adc.Whole;
    if r.kind == ADC {
      AW.NothingLost(Payload(t, d, r), inside, n);
    }
  }

  ghost predicate IsPlain(k: RunType) {
    k == ZeroFill || k == Unknown || k == Raw
  }

  /** The range advised for a byte of run `i`. */
  ghost function RunAdvice(t: Table, i: nat, offset: nat): (nat, nat) {
    if i >= |t.runs| then (0, 0)
    else
    var r := t.runs[i];
    if IsPlain(r.kind) then DefaultAdvice(t.sectorCount * SECTOR_SIZE, offset)
    else (r.sectorStart * SECTOR_SIZE, (r.sectorStart + r.sectorCount) * SECTOR_SIZE)
  }

  /** Every compressed run ends on a cache block, or ends the image, or stores no block at all. */
  ghost predicate RunsEndAligned(t: Table) {
    forall i: nat | Real(t, i) && !IsPlain(t.runs[i].kind) ::
      EndAligned(t.runs[i].sectorStart * SECTOR_SIZE, (t.runs[i].sectorStart + t.runs[i].sectorCount) * SECTOR_SIZE,
                 t.sectorCount * SECTOR_SIZE)
  }

  ghost predicate IsCompressed(k: RunType) {
    k == ADC || k == Zlib || k == Bzip2 || k == LZFSE
  }

  /** The bytes advised for one of a compressed run are those of the run, no more and no less. */
  lemma AdvisedIsRun(t: Table, i: nat, offset: nat, p: nat)
    requires InRun(t, i, offset / 512) && IsCompressed(t.runs[i].kind)
    ensures var a := RunAdvice(t, i, offset);
            a.0 <= p < a.1 <==> t.runs[i].sectorStart <= p / 512 < t.runs[i].sectorStart + t.runs[i].sectorCount
  {
  }

  /** Bytes of an uncompressed run. */
  lemma RunPiece(t: Table, c: Codecs, d: seq<byte>, r: Run, inside: nat, n: nat)
    requires RunOk(t, c, d, r) && inside + n <= r.sectorCount * SECTOR_SIZE
    ensures r.kind == ZeroFill || r.kind == Unknown ==> RunBytes(t, c, d, r)[inside..inside + n] == Zeros(n)
    ensures r.kind == Raw ==>
              var from := r.compOffset + t.dataStart + inside;
              from + n <= |d| && RunBytes(t, c, d, r)[inside..inside + n] == d[from..from + n]
  {
    hide Adc.IsStream, Adc.Whole;
    if r.kind == Raw {
      PieceOfSlice(d, r.compOffset + t.dataStart, r.sectorCount * SECTOR_SIZE, inside, n);
    }
  }

  /** Bytes of a compressed run. */
  lemma CompressedPiece(t: Table, c: Codecs, d: seq<byte>, r: Run, offset: nat, n: nat)
    requires RunOk(t, c, d, r) && IsCompressed(r.kind) && offset + n <= r.sectorCount * SECTOR_SIZE
    ensures Slice(d, r.compOffset + t.dataStart, r.compLength)
    ensures var p := Payload(t, d, r);
            && (r.kind == ADC ==> Adc.IsStream(p) && IsPiece(t, c, d, r, Adc.Whole(p), offset, n))
            && (r.kind == Zlib ==> INF.IsCoded(c.zlib, p) && IsPiece(t, c, d, r, c.zlib.dec(p), offset, n))
            && (r.kind == Bzip2 ==> INF.IsCoded(c.bzip2, p) && IsPiece(t, c, d, r, c.bzip2.dec(p), offset, n))
            && (r.kind == LZFSE ==> |p| > 0 && IsPiece(t, c, d, r, c.lzfse(p), offset, n))
  {
    hide Adc.IsStream, Adc.Whole, INF.IsCoded;
    var size, p := r.sectorCount * SECTOR_SIZE, Payload(t, d, r);
    var whole :=
      match r.kind
      case ADC => Adc.Whole(p)
      case Zlib => c.zlib.dec(p)
      case Bzip2 => c.bzip2.dec(p)
      case _ => c.lzfse(p);
    TakeOfTake(whole, size, offset, n);
  }

  /** `whole` has the run's bytes from `offset` on. */
  ghost predicate IsPiece(t: Table, c: Codecs, d: seq<byte>, r: Run, whole: seq<byte>, offset: nat, n: nat)
    requires RunOk(t, c, d, r)
  {
    && offset + n <= |whole| && offset + n <= r.sectorCount * SECTOR_SIZE
    && RunBytes(t, c, d, r)[offset..offset + n] == whole[offset..offset + n]
  }

  lemma TakeOfTake(s: seq<byte>, size: nat, offset: nat, n: nat)
    requires size <= |s| && offset + n <= size
    ensures s[..size][offset..offset + n] == s[offset..offset + n]
  {
    PieceOfSlice(s, 0, size, offset, n);
    assert s[0..size] == s[..size];
  }

  lemma SameRun(t: Table, i: nat, j: nat, sector: nat)
    requires Tiles(t) && InRun(t, i, sector) && InRun(t, j, sector)
    ensures i == j
  {
  }
}
