/** What a reader may advise a cache to fetch (Reader::adviseOptimalBlock), and when fetching it leaves the
    cache in agreement with the file. */
module BlockAdvice {
  import opened Bytes
  import opened CacheZones

  function RoundDown(x: nat): (r: nat)
    ensures r % BLOCK_SIZE == 0 && r <= x < r + BLOCK_SIZE
  {
    x - x % BLOCK_SIZE
  }

  /** `(x + 4095) & ~4095`. */
  function RoundUp(x: nat): (r: nat)
    ensures r % BLOCK_SIZE == 0 && x <= r < x + BLOCK_SIZE
  {
    RoundDown(x + (BLOCK_SIZE - 1))
  }

  /** Reader::adviseOptimalBlock: the 4096-byte block around `offset`, cut at the end of the file. */
  function DefaultAdvice(length: nat, offset: nat): (nat, nat) {
    (RoundDown(offset), Min(RoundDown(offset) + BLOCK_SIZE, length))
  }

  /** The advised range contains the offset and stays inside the file. */
  ghost predicate InRange(advice: (nat, nat), offset: nat, length: nat) {
    advice.0 <= offset < advice.1 <= length
  }

  /** The advised range does not end in the middle of a cache block that it would store. */
  ghost predicate EndAligned(start: nat, end: nat, length: nat) {
    end % BLOCK_SIZE == 0 || end == length || end <= RoundUp(start)
  }

  lemma DefaultAdviceIsGood(length: nat, offset: nat)
    requires offset < length
    ensures var a := DefaultAdvice(length, offset);
            InRange(a, offset, length) && EndAligned(a.0, a.1, length)
    ensures var a := DefaultAdvice(length, offset);
            a.0 % 4096 == 0 && a.1 <= a.0 + 4096 && (a.1 == a.0 + 4096 || a.1 == length)
  {
  }

  // ---- The storing loop of CachedReader::nonCachedRead ----

  /** The entry stored for the block at `pos`: the bytes fetched up to `end`, then whatever was there. */
  ghost function Entered(flat: seq<byte>, pos: nat, end: nat, junk: Block): (b: Block)
    requires pos < end <= |flat|
  {
    var n := Min(end - pos, BLOCK_SIZE);
    flat[pos..pos + n] + junk[n..]
  }

  ghost function StoreAt(s: State, tag: Tag, flat: seq<byte>, pos: nat, end: nat, junk: Block): (t: State)
    requires Good(s) && pos < end <= |flat|
    ensures Good(t) && t.max == s.max
  {
    DoStore(s, Key(pos / BLOCK_SIZE, tag), Entered(flat, pos, end, junk))
  }

  /** The zone after storing every block boundary from `pos` up to `end`. */
  ghost function StoreRun(s: State, tag: Tag, flat: seq<byte>, pos: nat, end: nat, junk: Block): (t: State)
    requires Good(s) && pos % BLOCK_SIZE == 0 && end <= |flat|
    ensures Good(t) && t.max == s.max
    decreases end - pos
  {
    if pos >= end then s
    else
      StoreRun(StoreAt(s, tag, flat, pos, end, junk), tag, flat, pos + BLOCK_SIZE, end, junk)
  }

  lemma EnteredAgrees(flat: seq<byte>, pos: nat, end: nat, block: Block)
    requires pos % BLOCK_SIZE == 0 && pos < end <= |flat|
    requires end % BLOCK_SIZE == 0 || end == |flat|
    requires var n := Min(end - pos, BLOCK_SIZE); block[..n] == flat[pos..pos + n]
    ensures BlockAgrees(block, pos / BLOCK_SIZE, flat)
  {
    var n := Min(end - pos, BLOCK_SIZE);
    forall j | 0 <= j < BLOCK_SIZE && pos / BLOCK_SIZE * BLOCK_SIZE + j < |flat|
      ensures block[j] == flat[pos / BLOCK_SIZE * BLOCK_SIZE + j]
    {
      assert pos / BLOCK_SIZE * BLOCK_SIZE == pos;
      assert j < n;
      assert block[..n][j] == flat[pos..pos + n][j];
    }
  }

  lemma {:induction false} StoreRunAgrees(s: State, tag: Tag, files: Tag -> seq<byte>, pos: nat, end: nat, junk: Block)
    requires Good(s) && Agrees(s, files) && pos % BLOCK_SIZE == 0 && end <= |files(tag)|
    requires pos < end ==> end % BLOCK_SIZE == 0 || end == |files(tag)|
    ensures Agrees(StoreRun(s, tag, files(tag), pos, end, junk), files)
    decreases end - pos
  {
    hide Good, Agrees, DoStore;
    if pos < end {
      var flat := files(tag);
      var block := Entered(flat, pos, end, junk);
      EnteredAgrees(flat, pos, end, block);
      StoreAgrees(s, Key(pos / BLOCK_SIZE, tag), block, files);
      StoreRunAgrees(DoStore(s, Key(pos / BLOCK_SIZE, tag), block), tag, files, pos + BLOCK_SIZE, end, junk);
    }
  }

  /** No node of the age list, live or stale, belongs to block `b` or a later one of this file. */
  ghost predicate Unvisited(s: State, tag: Tag, b: nat) {
    forall n | n in s.age && n.key.tag == tag :: n.key.block < b
  }

  /** The node pushed last survives eviction when no stale node shares its key. */
  lemma {:induction false} EvictKeepsYoungest(s: State, k: Key)
    requires Good(s) && s.max >= 1 && k in s.cache
    requires |s.age| > 0 && s.age[|s.age| - 1].key == k
    requires forall i | 0 <= i < |s.age| - 1 :: s.age[i].key != k
    ensures k in Evict(s).cache && Evict(s).cache[k].data == s.cache[k].data
    decreases |s.age|
  {
    hide Good;
    if |s.cache| > s.max {
      OneNodeOneKey(s, k);
      var t := PopFront(s);
      forall i | 0 <= i < |t.age| - 1
        ensures t.age[i].key != k
      {
        assert t.age[i] == s.age[i + 1];
      }
      EvictKeepsYoungest(t, k);
    }
  }

  lemma OneNodeOneKey(s: State, k: Key)
    requires Good(s) && |s.age| > 0 && s.age[|s.age| - 1].key == k
    ensures |s.age| == 1 ==> |s.cache| <= 1
  {
    if |s.age| == 1 {
      assert s.age == [s.age[0]];
      SubsetSize(s.cache.Keys, {k});
      assert |s.cache.Keys| == |s.cache|;
    }
  }

  lemma {:induction false} EvictVisits(s: State, n: AgeNode)
    requires Good(s)
    ensures n in Evict(s).age ==> n in s.age
    decreases |s.age|
  {
    if |s.cache| > s.max {
      AgeNotEmpty(s);
      EvictVisits(PopFront(s), n);
    }
  }

  lemma UnvisitedNotCached(s: State, tag: Tag, b: nat)
    requires Good(s) && Unvisited(s, tag, b)
    ensures Key(b, tag) !in s.cache
  {
  }

  lemma DoStoreVisits(s: State, tag: Tag, b: nat, data: Block)
    requires Good(s) && Unvisited(s, tag, b) && s.max >= 1
    ensures var t := DoStore(s, Key(b, tag), data);
            Unvisited(t, tag, b + 1) && Key(b, tag) in t.cache && t.cache[Key(b, tag)].data == data
  {
    hide Evict;
    var k := Key(b, tag);
    UnvisitedNotCached(s, tag, b);
    var t := Touch(s, k, data);
    forall n | n in Evict(t).age && n.key.tag == tag
      ensures n.key.block < b + 1
    {
      EvictVisits(t, n);
    }
    EvictKeepsYoungest(t, k);
  }

  /** The last block such a loop stores is in the cache afterwards, short tail and all. */
  lemma {:induction false} LastBlockStays(s: State, tag: Tag, flat: seq<byte>, pos: nat, end: nat, junk: Block)
    requires Good(s) && s.max >= 1 && pos % BLOCK_SIZE == 0 && pos <= RoundDown(end) < end <= |flat|
    requires Unvisited(s, tag, pos / BLOCK_SIZE)
    ensures var t, k := StoreRun(s, tag, flat, pos, end, junk), Key(RoundDown(end) / BLOCK_SIZE, tag);
            k in t.cache && t.cache[k].data == Entered(flat, RoundDown(end), end, junk)
    decreases end - pos
  {
    hide Good, DoStore, Unvisited, Entered;
    var b := pos / BLOCK_SIZE;
    var block := Entered(flat, pos, end, junk);
    DoStoreVisits(s, tag, b, block);
    var t := DoStore(s, Key(b, tag), block);
    if pos == RoundDown(end) {
      assert StoreRun(t, tag, flat, pos + BLOCK_SIZE, end, junk) == t;
    } else {
      assert (pos + BLOCK_SIZE) / BLOCK_SIZE == b + 1;
      LastBlockStays(t, tag, flat, pos + BLOCK_SIZE, end, junk);
    }
  }

  /** Storing a fetched range leaves a cache that agrees with the file, whatever the entries' unwritten
      tails hold, if and only if the range does not end inside a block it stores. */
  lemma StoringIsFaithfulIff(s: State, tag: Tag, files: Tag -> seq<byte>, start: nat, end: nat)
    requires Good(s) && Agrees(s, files) && s.max >= 1 && Unvisited(s, tag, 0)
    requires start < end <= |files(tag)|
    ensures (forall junk: Block :: Agrees(StoreRun(s, tag, files(tag), RoundUp(start), end, junk), files))
            <==> EndAligned(start, end, |files(tag)|)
  {
    hide Good, Agrees, DoStore;
    var flat := files(tag);
    if EndAligned(start, end, |flat|) {
      forall junk: Block
        ensures Agrees(StoreRun(s, tag, flat, RoundUp(start), end, junk), files)
      {
        StoreRunAgrees(s, tag, files, RoundUp(start), end, junk);
      }
    } else {
      var wrong: byte := if flat[end] == 0 then 1 else 0;
      var junk: Block := seq(BLOCK_SIZE, _ => wrong);
      UnvisitedLater(s, tag, RoundUp(start) / BLOCK_SIZE);
      LastBlockStays(s, tag, flat, RoundUp(start), end, junk);
      ShortEntryDisagrees(StoreRun(s, tag, flat, RoundUp(start), end, junk), tag, files, end, junk);
    }
  }

  lemma UnvisitedLater(s: State, tag: Tag, b: nat)
    requires Unvisited(s, tag, 0)
    ensures Unvisited(s, tag, b)
  {
  }

  /** The byte just behind a short entry is the entry's unwritten tail, not the file's byte. */
  lemma ShortEntryDisagrees(t: State, tag: Tag, files: Tag -> seq<byte>, end: nat, junk: Block)
    requires RoundDown(end) < end < |files(tag)| && junk[end - RoundDown(end)] != files(tag)[end]
    requires var k := Key(RoundDown(end) / BLOCK_SIZE, tag);
             k in t.cache && t.cache[k].data == Entered(files(tag), RoundDown(end), end, junk)
    ensures !Agrees(t, files)
  {
    var k := Key(RoundDown(end) / BLOCK_SIZE, tag);
    var j := end - RoundDown(end);
    assert k.block * BLOCK_SIZE + j == end;
    assert t.cache[k].data[j] == junk[j];
  }
}
