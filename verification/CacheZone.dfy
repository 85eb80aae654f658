/** The block cache shared by all cached readers, and its least-recently-used discipline
    (src/CacheZone.h, src/CacheZone.cpp). */
module CacheZones {
  import opened Bytes

  const BLOCK_SIZE := 4096

  type Tag = string

  datatype Key = Key(block: nat, tag: Tag)

  type Block = s: seq<byte> | |s| == BLOCK_SIZE witness seq(BLOCK_SIZE, _ => 0)

  /** A node of the age list. The list's iterators are modelled by the nodes' identities. */
  datatype AgeNode = AgeNode(id: nat, key: Key)

  datatype Entry = Entry(itAge: nat, data: Block)

  /** The cache as a value: the map, the age list from oldest to newest, the next free node identity. */
  datatype State = State(cache: map<Key, Entry>, age: seq<AgeNode>, next: nat, max: nat)

  // ---- The invariant that holds after every history ----

  ghost predicate Good(s: State) {
    && Ordered(s.age)
    && (forall n | n in s.age :: n.id < s.next)
    && (forall k | k in s.cache :: AgeNode(s.cache[k].itAge, k) in s.age)
  }

  function Empty(max: nat): (s: State)
    ensures Good(s)
  {
    State(map[], [], 0, max)
  }

  lemma AgeNotEmpty(s: State)
    requires Good(s) && |s.cache| > 0
    ensures |s.age| > 0
  {
    assert s.cache.Keys != {};
    var k :| k in s.cache;
    assert AgeNode(s.cache[k].itAge, k) in s.age;
  }

  function PopFront(s: State): (t: State)
    requires |s.age| > 0
    ensures Good(s) ==> Good(t)
  {
    s.(cache := s.cache - {s.age[0].key}, age := s.age[1..])
  }

  function Evict(s: State): (t: State)
    requires Good(s)
    ensures Good(t) && t.max == s.max && |t.cache| <= t.max
    decreases |s.age|
  {
    if |s.cache| <= s.max then s
    else
      AgeNotEmpty(s);
      Evict(PopFront(s))
  }

  /** A new node at the young end, with `k`'s entry pointing to it. */
  function Touch(s: State, k: Key, data: Block): (t: State)
    ensures Good(s) ==> Good(t)
  {
    State(s.cache[k := Entry(s.next, data)], s.age + [AgeNode(s.next, k)], s.next + 1, s.max)
  }

  /** `store`: an entry that is already there keeps its data, and its old node stays in the list. */
  function DoStore(s: State, k: Key, data: Block): (t: State)
    requires Good(s)
    ensures Good(t) && t.max == s.max && |t.cache| <= t.max
  {
    Evict(Touch(s, k, if k in s.cache then s.cache[k].data else data))
  }

  function Erase(age: seq<AgeNode>, id: nat): seq<AgeNode> {
    if age == [] then []
    else if age[0].id == id then age[1..]
    else [age[0]] + Erase(age[1..], id)
  }

  /** The state after `get`: a hit moves the entry's node to the young end. */
  function DoGet(s: State, k: Key): (t: State)
    requires Good(s)
    ensures Good(t) && t.max == s.max && t.cache.Keys == s.cache.Keys
  {
    if k !in s.cache then s
    else
      EraseKeeps(s, k);
      Touch(s.(cache := s.cache - {k}, age := Erase(s.age, s.cache[k].itAge)), k, s.cache[k].data)
  }

  lemma {:induction false} EraseIn(age: seq<AgeNode>, id: nat, n: AgeNode)
    ensures n in Erase(age, id) ==> n in age
    ensures n in age && n.id != id ==> n in Erase(age, id)
  {
    if age != [] {
      assert age == [age[0]] + age[1..];
      if age[0].id != id {
        EraseIn(age[1..], id, n);
      }
    }
  }

  ghost predicate Ordered(age: seq<AgeNode>) {
    forall i, j | 0 <= i < j < |age| :: age[i].id < age[j].id
  }

  lemma OrderedTail(age: seq<AgeNode>)
    requires Ordered(age) && age != []
    ensures Ordered(age[1..]) && forall n | n in age[1..] :: age[0].id < n.id
  {
    var e := age[1..];
    forall i, j | 0 <= i < j < |e|
      ensures e[i].id < e[j].id
    {
      assert e[i] == age[i + 1] && e[j] == age[j + 1];
    }
  }

  lemma {:induction false} EraseOrdered(age: seq<AgeNode>, id: nat)
    requires Ordered(age)
    ensures Ordered(Erase(age, id))
  {
    if age != [] {
      OrderedTail(age);
      if age[0].id != id {
        EraseOrdered(age[1..], id);
        var e := Erase(age[1..], id);
        forall n | n in e
          ensures age[0].id < n.id
        {
          EraseIn(age[1..], id, n);
        }
        var r := [age[0]] + e;
        forall i, j | 0 <= i < j < |r|
          ensures r[i].id < r[j].id
        {
          assert r[j] == e[j - 1];
          if i > 0 {
            assert r[i] == e[i - 1];
          }
        }
      }
    }
  }

  lemma EraseKeeps(s: State, k: Key)
    requires Good(s) && k in s.cache
    ensures Good(s.(cache := s.cache - {k}, age := Erase(s.age, s.cache[k].itAge)))
  {
    var id := s.cache[k].itAge;
    EraseOrdered(s.age, id);
    forall n: AgeNode
      ensures n in Erase(s.age, id) ==> n in s.age
      ensures n in s.age && n.id != id ==> n in Erase(s.age, id)
    {
      EraseIn(s.age, id, n);
    }
    forall j | j in s.cache && j != k
      ensures s.cache[j].itAge != id
    {
      NodesDiffer(s, j, k);
    }
  }

  lemma NodesDiffer(s: State, j: Key, k: Key)
    requires Good(s) && j in s.cache && k in s.cache && j != k
    ensures s.cache[j].itAge != s.cache[k].itAge
  {
    var a :| 0 <= a < |s.age| && s.age[a] == AgeNode(s.cache[j].itAge, j);
    var b :| 0 <= b < |s.age| && s.age[b] == AgeNode(s.cache[k].itAge, k);
  }

  // ---- What the cached bytes stand for ----

  /** A cached block agrees with the file its tag names, as far as that file goes. */
  ghost predicate BlockAgrees(data: Block, block: nat, flat: seq<byte>) {
    forall j | 0 <= j < BLOCK_SIZE && block * BLOCK_SIZE + j < |flat| :: data[j] == flat[block * BLOCK_SIZE + j]
  }

  ghost predicate Agrees(s: State, files: Tag -> seq<byte>) {
    forall k | k in s.cache :: BlockAgrees(s.cache[k].data, k.block, files(k.tag))
  }

  lemma AgreesOn(data: Block, block: nat, flat: seq<byte>, from: nat, n: nat)
    requires BlockAgrees(data, block, flat) && from + n <= BLOCK_SIZE && block * BLOCK_SIZE + from + n <= |flat|
    ensures data[from..from + n] == flat[block * BLOCK_SIZE + from..block * BLOCK_SIZE + from + n]
  {
  }

  /** Every cached entry of `t` carries data it had in `s`. */
  ghost predicate NoNewData(t: State, s: State) {
    forall k | k in t.cache :: k in s.cache && t.cache[k].data == s.cache[k].data
  }

  lemma EvictStep(s: State)
    requires Good(s) && |s.cache| > s.max
    ensures |s.age| > 0
    ensures var t := State(s.cache - {s.age[0].key}, s.age[1..], s.next, s.max);
            Good(t) && Evict(s) == Evict(t)
  {
    hide Good;
    AgeNotEmpty(s);
    assert PopFront(s) == State(s.cache - {s.age[0].key}, s.age[1..], s.next, s.max);
  }

  lemma EvictOnlyIfFull(s: State)
    requires Good(s) && |s.cache| <= s.max
    ensures Evict(s) == s
  {
  }

  lemma {:induction false} EvictNoNewData(s: State)
    requires Good(s)
    ensures NoNewData(Evict(s), s)
    decreases |s.age|
  {
    if |s.cache| > s.max {
      AgeNotEmpty(s);
      EvictNoNewData(PopFront(s));
    }
  }

  lemma NoNewDataAgrees(t: State, s: State, files: Tag -> seq<byte>)
    requires NoNewData(t, s) && Agrees(s, files)
    ensures Agrees(t, files)
  {
  }

  lemma SameDataAgrees(s: State, t: State, files: Tag -> seq<byte>)
    requires Agrees(s, files) && t.cache == s.cache
    ensures Agrees(t, files)
  {
  }

  /** Storing a cached key keeps the old data and a new key gets the new data; whatever else is still there afterwards
      is as it was. */
  lemma StoreKeepsOld(s: State, k: Key, data: Block)
    requires Good(s)
    ensures var t := DoStore(s, k, data);
            forall j | j in t.cache ::
              if j in s.cache then t.cache[j].data == s.cache[j].data else j == k && t.cache[j].data == data
  {
    EvictNoNewData(Touch(s, k, if k in s.cache then s.cache[k].data else data));
  }

  lemma StoreAgrees(s: State, k: Key, data: Block, files: Tag -> seq<byte>)
    requires Good(s) && Agrees(s, files) && BlockAgrees(data, k.block, files(k.tag))
    ensures Agrees(DoStore(s, k, data), files)
  {
    EvictNoNewData(Touch(s, k, if k in s.cache then s.cache[k].data else data));
  }

  lemma GetAgrees(s: State, k: Key, files: Tag -> seq<byte>)
    requires Good(s) && Agrees(s, files)
    ensures Agrees(DoGet(s, k), files)
  {
  }

  /** A hit moves the key's live node to the young end. */
  lemma GetIsTouch(s: State, k: Key)
    requires Good(s)
    ensures DoGet(s, k) ==
            if k !in s.cache then s
            else State(s.cache[k := Entry(s.next, s.cache[k].data)],
                       Erase(s.age, s.cache[k].itAge) + [AgeNode(s.next, k)], s.next + 1, s.max)
  {
    hide Erase;
    if k in s.cache {
      var e := Entry(s.next, s.cache[k].data);
      assert s.cache[k := e] == (s.cache - {k})[k := e];
    }
  }

  // ---- The class ----

  class CacheZone {
    var cache: map<Key, Entry>
    var cacheAge: seq<AgeNode>
    var maxBlocks: nat
    var queries: nat
    var hits: nat
    var nextNode: nat

    /** Which file each tag stands for; the volume is read-only, so this never changes. */
    ghost const files: Tag -> seq<byte>

    ghost function Value(): State
      reads this
    {
      State(cache, cacheAge, nextNode, maxBlocks)
    }

    ghost predicate Inv()
      reads this
    {
      Good(Value()) && |cache| <= maxBlocks && Agrees(Value(), files) && hits <= queries
    }

    constructor (max: nat, ghost files: Tag -> seq<byte>)
      ensures Value() == Empty(max) && this.files == files && Inv()
    {
      cache, cacheAge, maxBlocks, queries, hits, nextNode := map[], [], max, 0, 0, 0;
      this.files := files;
    }

    method SetMaxBlocks(max: nat)
      requires Inv()
      modifies this
      ensures Inv() && maxBlocks == max
      ensures Value() == Evict(old(Value()).(max := max))
    {
      hide Evict, Agrees;
      ghost var s := Value().(max := max);
      EvictNoNewData(s);
      SameDataAgrees(Value(), s, files);
      NoNewDataAgrees(Evict(s), s, files);
      maxBlocks := max;
      assert Value() == s;
      EvictCache();
    }

    method EvictCache()
      requires Good(Value())
      modifies this`cache, this`cacheAge
      ensures Value() == Evict(old(Value()))
    {
      hide Good;
      ghost var evicted := Evict(Value());
      while |cache| > maxBlocks
        invariant Good(Value()) && Evict(Value()) == evicted
        invariant maxBlocks == old(maxBlocks) && nextNode == old(nextNode)
        decreases |cacheAge|
      {
        EvictStep(Value());
        cache := cache - {cacheAge[0].key};
        cacheAge := cacheAge[1..];
      }
      EvictOnlyIfFull(Value());
    }

    /** Stores `data` as block `blockId` of `vfile`. What lies behind it in the fixed-size entry is whatever
        was on the stack, so `block` is any block that starts with `data`. */
    method Store(vfile: Tag, blockId: nat, data: seq<byte>) returns (ghost block: Block)
      requires Good(Value()) && |data| <= BLOCK_SIZE
      modifies this
      ensures block[..|data|] == data
      ensures Value() == DoStore(old(Value()), Key(blockId, vfile), block)
      ensures queries == old(queries) && hits == old(hits)
    {
      hide Good, Evict;
      var key := Key(blockId, vfile);
      assert |seq(BLOCK_SIZE - |data|, _ => 0 as byte)| == BLOCK_SIZE - |data|;
      var rest: seq<byte> :| |rest| == BLOCK_SIZE - |data|;
      var entry: Block := data + rest;
      block := entry;
      ghost var s := Value();
      if key !in cache {
        cache := cache[key := Entry(nextNode, entry)];
      }
      cacheAge := cacheAge + [AgeNode(nextNode, key)];
      cache := cache[key := cache[key].(itAge := nextNode)];
      nextNode := nextNode + 1;
      ghost var t := Touch(s, key, if key in s.cache then s.cache[key].data else entry);
      assert Value() == t;
      if |cache| > maxBlocks {
        EvictCache();
      } else {
        EvictOnlyIfFull(t);
      }
    }

    /** Copies up to `maxBytes` bytes of a cached block into `buf`; 0 when the block is not cached. */
    method Get(vfile: Tag, blockId: nat, buf: array<byte>, at: nat, offset: nat, maxBytes: nat) returns (n: nat)
      requires Inv() && offset <= BLOCK_SIZE && at + maxBytes <= buf.Length
      modifies this, buf
      ensures Inv() && Value() == DoGet(old(Value()), Key(blockId, vfile))
      ensures queries == old(queries) + 1
      ensures var key := Key(blockId, vfile);
              if key !in old(cache) then n == 0 && buf[..] == old(buf[..]) && hits == old(hits)
              else
                && n == Min(BLOCK_SIZE - offset, maxBytes) && hits == old(hits) + 1
                && buf[..] == Overwrite(old(buf[..]), at, old(cache)[key].data[offset..offset + n])
    {
      hide Good, Agrees, Erase, DoGet;
      var key := Key(blockId, vfile);
      ghost var s := Value();
      GetAgrees(s, key, files);
      GetIsTouch(s, key);
      queries := queries + 1;
      if key !in cache {
        return 0;
      }
      n := Min(BLOCK_SIZE - offset, maxBytes);
      var data := cache[key].data;
      Memcpy(buf, at, data[offset..offset + n]);
      cacheAge := Erase(cacheAge, cache[key].itAge) + [AgeNode(nextNode, key)];
      cache := cache[key := cache[key].(itAge := nextNode)];
      nextNode := nextNode + 1;
      hits := hits + 1;
    }
  }

  // ---- Exact least-recently-used order ----

  function Keys(age: seq<AgeNode>): (ks: seq<Key>)
    ensures |ks| == |age| && forall i | 0 <= i < |age| :: ks[i] == age[i].key
  {
    seq(|age|, i requires 0 <= i < |age| => age[i].key)
  }

  ghost predicate NoDup(ks: seq<Key>) {
    forall i, j | 0 <= i < j < |ks| :: ks[i] != ks[j]
  }

  ghost function Elements(ks: seq<Key>): set<Key> {
    set k | k in ks
  }

  /** The age list lists the cached keys, each once. */
  ghost predicate Exact(s: State) {
    NoDup(Keys(s.age)) && Elements(Keys(s.age)) == s.cache.Keys
  }

  function Without(ks: seq<Key>, k: Key): (r: seq<Key>)
    ensures forall j :: j in r <==> j in ks && j != k
    ensures |r| <= |ks|
  {
    if ks == [] then []
    else if ks[0] == k then Without(ks[1..], k)
    else [ks[0]] + Without(ks[1..], k)
  }

  datatype Op = StoreOp(key: Key, data: Block) | GetOp(key: Key)

  function Apply(s: State, op: Op): (t: State)
    requires Good(s)
    ensures Good(t) && t.max == s.max && (|s.cache| <= s.max ==> |t.cache| <= t.max)
  {
    match op
    case StoreOp(k, d) => DoStore(s, k, d)
    case GetOp(k) =>
      var t := DoGet(s, k);
      assert |t.cache.Keys| == |s.cache.Keys|;
      t
  }

  /** The cache after a history of operations, starting empty. */
  function Play(max: nat, ops: seq<Op>): (s: State)
    ensures Good(s) && s.max == max && |s.cache| <= max
  {
    if ops == [] then Empty(max) else Apply(Play(max, ops[..|ops| - 1]), ops[|ops| - 1])
  }

  /** The keys used, oldest use first: every store, and every get that hits. */
  function Uses(max: nat, ops: seq<Op>): seq<Key> {
    if ops == [] then []
    else
      var before, op := Uses(max, ops[..|ops| - 1]), ops[|ops| - 1];
      if op.StoreOp? || op.key in Play(max, ops[..|ops| - 1]).cache then before + [op.key] else before
  }

  /** Every store is of a key that is not cached at that moment. */
  ghost predicate FreshStores(max: nat, ops: seq<Op>) {
    ops == [] ||
    (FreshStores(max, ops[..|ops| - 1]) &&
     var op := ops[|ops| - 1]; op.StoreOp? ==> op.key !in Play(max, ops[..|ops| - 1]).cache)
  }

  /** The distinct keys of a use sequence, in order of their last use. */
  function ByLastUse(uses: seq<Key>): (r: seq<Key>)
    ensures forall k :: k in r <==> k in uses
  {
    if uses == [] then []
    else
      var k := uses[|uses| - 1];
      assert uses == uses[..|uses| - 1] + [k];
      Without(ByLastUse(uses[..|uses| - 1]), k) + [k]
  }

  function LastN(ks: seq<Key>, n: nat): (r: seq<Key>)
    ensures |r| == Min(n, |ks|)
  {
    ks[|ks| - Min(n, |ks|)..]
  }

  /** The position of the last use of a key. */
  function LastUse(uses: seq<Key>, k: Key): (i: nat)
    requires k in uses
    ensures i < |uses| && uses[i] == k && k !in uses[i + 1..]
  {
    if uses[|uses| - 1] == k then |uses| - 1
    else
      var front := uses[..|uses| - 1];
      assert uses == front + [uses[|uses| - 1]];
      var i := LastUse(front, k);
      assert uses[i + 1..] == front[i + 1..] + [uses[|uses| - 1]];
      i
  }

  lemma {:induction false} WithoutAbsent(ks: seq<Key>, k: Key)
    requires k !in ks
    ensures Without(ks, k) == ks
  {
    if ks != [] {
      WithoutAbsent(ks[1..], k);
    }
  }

  lemma {:induction false} WithoutAppend(a: seq<Key>, b: seq<Key>, k: Key)
    ensures Without(a + b, k) == Without(a, k) + Without(b, k)
  {
    if a == [] {
      assert a + b == b;
    } else {
      assert (a + b)[1..] == a[1..] + b;
      WithoutAppend(a[1..], b, k);
    }
  }

  lemma NoDupTail(ks: seq<Key>)
    requires NoDup(ks) && ks != []
    ensures NoDup(ks[1..]) && ks[0] !in ks[1..]
  {
    var e := ks[1..];
    forall i, j | 0 <= i < j < |e|
      ensures e[i] != e[j]
    {
      assert e[i] == ks[i + 1] && e[j] == ks[j + 1];
    }
  }

  lemma NoDupCons(k: Key, ks: seq<Key>)
    requires NoDup(ks) && k !in ks
    ensures NoDup([k] + ks) && NoDup(ks + [k])
  {
    var r := [k] + ks;
    forall i, j | 0 <= i < j < |r|
      ensures r[i] != r[j]
    {
      assert r[j] == ks[j - 1];
      assert i > 0 ==> r[i] == ks[i - 1];
    }
  }

  lemma {:induction false} WithoutNoDup(ks: seq<Key>, k: Key)
    requires NoDup(ks)
    ensures NoDup(Without(ks, k))
    ensures k in ks ==> |Without(ks, k)| == |ks| - 1
  {
    if ks != [] {
      NoDupTail(ks);
      WithoutNoDup(ks[1..], k);
      if ks[0] == k {
        WithoutAbsent(ks[1..], k);
      } else {
        NoDupCons(ks[0], Without(ks[1..], k));
      }
    }
  }

  lemma {:induction false} ByLastUseNoDup(uses: seq<Key>)
    ensures NoDup(ByLastUse(uses))
  {
    if uses != [] {
      ByLastUseNoDup(uses[..|uses| - 1]);
      WithoutNoDup(ByLastUse(uses[..|uses| - 1]), uses[|uses| - 1]);
      NoDupCons(uses[|uses| - 1], Without(ByLastUse(uses[..|uses| - 1]), uses[|uses| - 1]));
    }
  }

  /** `ByLastUse` really is the order of last uses. */
  lemma {:induction false} ByLastUseOrder(uses: seq<Key>, i: nat, j: nat)
    requires i < j < |ByLastUse(uses)|
    ensures ByLastUse(uses)[i] in uses && ByLastUse(uses)[j] in uses
    ensures LastUse(uses, ByLastUse(uses)[i]) < LastUse(uses, ByLastUse(uses)[j])
  {
    var front, k := uses[..|uses| - 1], uses[|uses| - 1];
    assert uses == front + [k];
    var r := ByLastUse(front);
    var w := Without(r, k);
    assert ByLastUse(uses)[i] == w[i];
    if j < |w| {
      var i', j' := WithoutOrder(r, k, i, j);
      ByLastUseOrder(front, i', j');
    }
  }

  lemma {:induction false} WithoutOrder(ks: seq<Key>, k: Key, i: nat, j: nat) returns (i': nat, j': nat)
    requires i < j < |Without(ks, k)|
    ensures i' < j' < |ks| && ks[i'] == Without(ks, k)[i] && ks[j'] == Without(ks, k)[j]
  {
    if ks[0] == k {
      i', j' := WithoutOrder(ks[1..], k, i, j);
      i', j' := i' + 1, j' + 1;
    } else if i > 0 {
      i', j' := WithoutOrder(ks[1..], k, i - 1, j - 1);
      i', j' := i' + 1, j' + 1;
    } else {
      var x := Without(ks[1..], k)[j - 1];
      assert x in ks[1..];
      j' :| 0 <= j' < |ks[1..]| && ks[1..][j'] == x;
      i', j' := 0, j' + 1;
    }
  }

  lemma {:induction false} CountElements(ks: seq<Key>)
    requires NoDup(ks)
    ensures |Elements(ks)| == |ks|
  {
    if ks != [] {
      NoDupTail(ks);
      CountElements(ks[1..]);
      assert ks == [ks[0]] + ks[1..];
      assert Elements(ks) == {ks[0]} + Elements(ks[1..]);
    }
  }

  lemma {:induction false} EraseIsWithout(age: seq<AgeNode>, id: nat, k: Key)
    requires Ordered(age) && NoDup(Keys(age)) && AgeNode(id, k) in age
    ensures Keys(Erase(age, id)) == Without(Keys(age), k)
  {
    hide Ordered, NoDup, Erase, Without, Keys;
    var n, first, rest := AgeNode(id, k), age[0], age[1..];
    assert age == [first] + rest;
    OrderedTail(age);
    KeysHead(first, rest);
    NoDupHead(first.key, Keys(rest));
    EraseHead(first, rest, id);
    WithoutHead(first.key, Keys(rest), k);
    if first == n {
      WithoutAbsent(Keys(rest), k);
    } else {
      assert n in rest;
      KeyListed(rest, n);
      EraseIsWithout(rest, id, k);
      KeysHead(first, Erase(rest, id));
    }
  }

  lemma KeysHead(first: AgeNode, rest: seq<AgeNode>)
    ensures Keys([first] + rest) == [first.key] + Keys(rest)
  {
  }

  lemma NoDupHead(first: Key, rest: seq<Key>)
    requires NoDup([first] + rest)
    ensures NoDup(rest) && first !in rest
  {
    NoDupTail([first] + rest);
    assert ([first] + rest)[1..] == rest;
  }

  lemma EraseHead(first: AgeNode, rest: seq<AgeNode>, id: nat)
    ensures Erase([first] + rest, id) == if first.id == id then rest else [first] + Erase(rest, id)
  {
    assert ([first] + rest)[1..] == rest;
  }

  lemma WithoutHead(first: Key, rest: seq<Key>, k: Key)
    ensures Without([first] + rest, k) == if first == k then Without(rest, k) else [first] + Without(rest, k)
  {
    assert ([first] + rest)[1..] == rest;
  }

  lemma KeyListed(age: seq<AgeNode>, n: AgeNode)
    requires n in age
    ensures n.key in Keys(age)
  {
    var i :| 0 <= i < |age| && age[i] == n;
    assert Keys(age)[i] == n.key;
  }

  /** A hit moves the key to the young end of an exact listing. */
  lemma GetExact(s: State, k: Key)
    requires Good(s) && Exact(s) && k in s.cache
    ensures Exact(DoGet(s, k))
    ensures Keys(DoGet(s, k).age) == Without(Keys(s.age), k) + [k]
  {
    hide Good, Without;
    var t := DoGet(s, k);
    var id := s.cache[k].itAge;
    EraseIsWithoutIn(s, k);
    assert Keys(t.age) == Keys(Erase(s.age, id)) + [k];
    WithoutNoDup(Keys(s.age), k);
    NoDupCons(k, Without(Keys(s.age), k));
  }

  lemma EraseIsWithoutIn(s: State, k: Key)
    requires Good(s) && Exact(s) && k in s.cache
    ensures Keys(Erase(s.age, s.cache[k].itAge)) == Without(Keys(s.age), k)
  {
    EraseIsWithout(s.age, s.cache[k].itAge, k);
  }

  lemma PopFrontExact(s: State)
    requires Exact(s) && |s.age| > 0
    ensures Exact(PopFront(s)) && Keys(PopFront(s).age) == Keys(s.age)[1..]
  {
    var ks := Keys(s.age);
    NoDupTail(ks);
    assert Keys(s.age[1..]) == ks[1..];
    assert ks == [ks[0]] + ks[1..];
    assert Elements(ks[1..]) == Elements(ks) - {ks[0]};
  }

  /** Eviction from an exact listing keeps its youngest keys. */
  lemma {:induction false} EvictExact(s: State)
    requires Good(s) && Exact(s)
    ensures Exact(Evict(s)) && Keys(Evict(s).age) == LastN(Keys(s.age), s.max)
    decreases |s.age|
  {
    hide Good, Exact, PopFront;
    CountExact(s);
    if |s.cache| > s.max {
      AgeNotEmpty(s);
      PopFrontExact(s);
      EvictExact(PopFront(s));
    }
  }

  lemma CountExact(s: State)
    requires Exact(s)
    ensures |s.cache| == |Keys(s.age)|
  {
    CountElements(Keys(s.age));
    assert |s.cache.Keys| == |s.cache|;
  }

  lemma StoreExact(s: State, k: Key, data: Block)
    requires Good(s) && Exact(s) && k !in s.cache
    ensures Exact(DoStore(s, k, data))
    ensures Keys(DoStore(s, k, data).age) == LastN(Keys(s.age) + [k], s.max)
  {
    hide Good, Evict;
    var t := Touch(s, k, data);
    NoDupCons(k, Keys(s.age));
    assert Keys(t.age) == Keys(s.age) + [k];
    assert Elements(Keys(t.age)) == Elements(Keys(s.age)) + {k};
    EvictExact(t);
  }

  lemma LastNSuffix(a: seq<Key>, b: seq<Key>, n: nat)
    requires |b| >= n || a == []
    ensures LastN(a + b, n) == LastN(b, n)
  {
    if a == [] {
      assert a + b == b;
    }
  }

  /** The window of the `n` last-used keys after `k` is used once more. */
  lemma WindowAfterUse(r: seq<Key>, k: Key, n: nat)
    requires NoDup(r)
    ensures var w, r' := LastN(r, n), Without(r, k) + [k];
            LastN(r', n) == if k in w then Without(w, k) + [k] else LastN(w + [k], n)
  {
    hide Without;
    var w := LastN(r, n);
    var p := r[..|r| - |w|];
    assert r == p + w;
    WithoutAppend(p, w, k);
    if k in w {
      assert k !in p;
      WithoutAbsent(p, k);
      WithoutNoDupSuffix(p, w, k);
      assert Without(r, k) + [k] == p + (Without(w, k) + [k]);
      LastNSuffix(p, Without(w, k) + [k], n);
    } else {
      WithoutAbsent(w, k);
      assert Without(r, k) + [k] == Without(p, k) + (w + [k]);
      if p == [] {
        WithoutAbsent(p, k);
      }
      LastNSuffix(Without(p, k), w + [k], n);
    }
  }

  lemma WithoutNoDupSuffix(p: seq<Key>, w: seq<Key>, k: Key)
    requires NoDup(p + w) && k in w
    ensures |Without(w, k)| == |w| - 1
  {
    forall i, j | 0 <= i < j < |w|
      ensures w[i] != w[j]
    {
      assert (p + w)[|p| + i] == w[i] && (p + w)[|p| + j] == w[j];
    }
    WithoutNoDup(w, k);
  }

  /** Exact LRU: when no store repeats a cached key, the age list is, at every moment, the distinct keys used
      so far in order of their last use, cut to the `max` youngest, and those are the cached keys. */
  lemma {:induction false} ExactLru(max: nat, ops: seq<Op>)
    requires FreshStores(max, ops)
    ensures var s := Play(max, ops);
            && Exact(s)
            && Keys(s.age) == LastN(ByLastUse(Uses(max, ops)), max)
            && s.cache.Keys == Elements(LastN(ByLastUse(Uses(max, ops)), max))
  {
    hide Good, Without, DoStore, DoGet;
    if ops == [] {
    } else {
      var front, op := ops[..|ops| - 1], ops[|ops| - 1];
      ExactLru(max, front);
      var s := Play(max, front);
      var r := ByLastUse(Uses(max, front));
      ByLastUseNoDup(Uses(max, front));
      WindowAfterUse(r, op.key, max);
      assert Keys(s.age) == LastN(r, max);
      assert op.key in s.cache <==> op.key in LastN(r, max);
      assert (Uses(max, front) + [op.key])[..|Uses(max, front)|] == Uses(max, front);
      if op.StoreOp? {
        StoreExact(s, op.key, op.data);
      } else if op.key in s.cache {
        GetExact(s, op.key);
      } else {
        GetMiss(s, op.key);
      }
    }
  }

  lemma GetMiss(s: State, k: Key)
    requires Good(s) && k !in s.cache
    ensures DoGet(s, k) == s
  {
  }

  /** Storing a key that is cached leaves its old node behind. */
  lemma StoreTwiceInexact(s: State, k: Key, data: Block)
    requires Good(s) && |s.cache| <= s.max && k in s.cache
    ensures !Exact(DoStore(s, k, data))
  {
    var t := Touch(s, k, s.cache[k].data);
    assert t.cache.Keys == s.cache.Keys;
    assert |t.cache.Keys| == |s.cache.Keys|;
    EvictOnlyIfFull(t);
    var i :| 0 <= i < |s.age| && s.age[i] == AgeNode(s.cache[k].itAge, k);
    assert Keys(t.age)[i] == k && Keys(t.age)[|s.age|] == k;
  }

  /** The listing is exact after every operation. */
  ghost predicate AlwaysExact(max: nat, ops: seq<Op>) {
    Exact(Play(max, ops)) && (ops == [] || AlwaysExact(max, ops[..|ops| - 1]))
  }

  /** Exactness throughout a history is exactly the absence of repeated stores. */
  lemma {:induction false} AlwaysExactIff(max: nat, ops: seq<Op>)
    ensures AlwaysExact(max, ops) <==> FreshStores(max, ops)
  {
    hide Good, Exact, DoStore, DoGet, Evict;
    if ops == [] {
      ExactLru(max, ops);
    } else {
      AlwaysExactIff(max, ops[..|ops| - 1]);
      var s, op := Play(max, ops[..|ops| - 1]), ops[|ops| - 1];
      if FreshStores(max, ops) {
        ExactLru(max, ops);
      } else if op.StoreOp? && op.key in s.cache {
        StoreTwiceInexact(s, op.key, op.data);
      }
    }
  }

  lemma OneMoreStore(max: nat, ops: seq<Op>, k: Key, data: Block)
    ensures Play(max, ops + [StoreOp(k, data)]) == DoStore(Play(max, ops), k, data)
    ensures Uses(max, ops + [StoreOp(k, data)]) == Uses(max, ops) + [k]
  {
    hide DoStore;
    assert (ops + [StoreOp(k, data)])[..|ops|] == ops;
  }

  lemma OneMoreUse(uses: seq<Key>, k: Key)
    ensures ByLastUse(uses + [k]) == Without(ByLastUse(uses), k) + [k]
  {
    hide Without;
    assert (uses + [k])[..|uses|] == uses;
  }

  /** A history with a repeated store that throws out the key used last but one and keeps an older one. */
  lemma RepeatedStoreEvictsYoung(a: Key, b: Key, c: Key, d: Block)
    requires a != b && b != c && a != c
    ensures var ops := [] + [StoreOp(a, d)] + [StoreOp(b, d)] + [StoreOp(a, d)] + [StoreOp(c, d)];
            && ByLastUse(Uses(2, ops)) == [b, a, c]
            && Play(2, ops).cache.Keys == {b, c}
  {
    hide Good, Play, Uses, ByLastUse, DoStore;
    var o0: seq<Op> := [];
    var o1 := o0 + [StoreOp(a, d)];
    var o2 := o1 + [StoreOp(b, d)];
    var o3 := o2 + [StoreOp(a, d)];
    OneMoreStore(2, o0, a, d);
    OneMoreStore(2, o1, b, d);
    OneMoreStore(2, o2, a, d);
    OneMoreStore(2, o3, c, d);
    FourStores(a, b, c, d);
    FourUses(a, b, c);
    PlayNothing(2);
  }

  lemma PlayNothing(max: nat)
    ensures Play(max, []) == Empty(max) && Uses(max, []) == []
  {
  }

  lemma FourUses(a: Key, b: Key, c: Key)
    requires a != b && b != c && a != c
    ensures ByLastUse([] + [a] + [b] + [a] + [c]) == [b, a, c]
  {
    OneMoreUse([], a);
    OneMoreUse([] + [a], b);
    OneMoreUse([] + [a] + [b], a);
    OneMoreUse([] + [a] + [b] + [a], c);
    assert ByLastUse([] + [a]) == [a];
    assert ByLastUse([] + [a] + [b]) == [a, b];
    assert ByLastUse([] + [a] + [b] + [a]) == [b, a];
  }

  lemma FourStores(a: Key, b: Key, c: Key, d: Block)
    requires a != b && b != c && a != c
    ensures DoStore(DoStore(DoStore(DoStore(Empty(2), a, d), b, d), a, d), c, d).cache.Keys == {b, c}
  {
    hide Good, Evict;
    var m1 := map[a := Entry(0, d)];
    var m2 := map[a := Entry(0, d), b := Entry(1, d)];
    var m3 := map[a := Entry(2, d), b := Entry(1, d)];
    var s1 := State(m1, [AgeNode(0, a)], 1, 2);
    var s2 := State(m2, [AgeNode(0, a), AgeNode(1, b)], 2, 2);
    var s3 := State(m3, [AgeNode(0, a), AgeNode(1, b), AgeNode(2, a)], 3, 2);
    assert m1.Keys == {a} && m2.Keys == {a, b} && m3.Keys == {a, b};
    assert Touch(Empty(2), a, d) == s1;
    EvictOnlyIfFull(s1);
    assert Touch(s1, b, d) == s2;
    EvictOnlyIfFull(s2);
    assert Touch(s2, a, d) == s3;
    EvictOnlyIfFull(s3);
    LastStore(s3, a, b, c, d);
  }

  lemma LastStore(s: State, a: Key, b: Key, c: Key, d: Block)
    requires Good(s) && s.cache.Keys == {a, b} && a != b && b != c && a != c
    requires s.max == 2 && |s.age| > 0 && s.age[0].key == a
    ensures DoStore(s, c, d).cache.Keys == {b, c}
  {
    hide Good;
    var t := Touch(s, c, d);
    assert t.cache.Keys == {a, b, c} && |t.cache.Keys| == 3;
    assert PopFront(t).cache.Keys == {b, c} && |PopFront(t).cache.Keys| == 2;
    EvictOnlyIfFull(PopFront(t));
  }
}
