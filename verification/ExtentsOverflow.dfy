/** Looking up a file's overflow extents (src/HFSExtentsOverflowBTree.cpp). */
module ExtentsOverflow {
  import opened Bytes
  import opened BTrees

  datatype ExtentKey = ExtentKey(forkType: nat, fileID: nat, startBlock: nat)

  datatype Extent = Extent(startBlock: nat, blockCount: nat)

  /** An overflow record: its key and its eight extent descriptors. */
  type Record = (ExtentKey, seq<Extent>)

  type Overflow = BTree<ExtentKey, seq<Extent>>

  function Fork(resourceFork: bool): nat {
    if resourceFork then 0xff else 0
  }

  function CnidComparator(index: ExtentKey, desired: ExtentKey): int {
    if index.forkType > desired.forkType then 1
    else if index.forkType < desired.forkType then -1
    else if index.fileID > desired.fileID then 1
    else if index.fileID < desired.fileID then -1
    else 0
  }

  /** The comparator orders keys by fork, then file, and cannot tell the records of one fork apart. */
  lemma CnidComparatorIsPreorder()
    ensures IsPreorder(CnidComparator)
    ensures forall a, b ::
              && (CnidComparator(a, b) < 0
                  <==> a.forkType < b.forkType || (a.forkType == b.forkType && a.fileID < b.fileID))
              && (CnidComparator(a, b) == 0 <==> a.forkType == b.forkType && a.fileID == b.fileID)
              && (CnidComparator(a, b) > 0
                  <==> a.forkType > b.forkType || (a.forkType == b.forkType && a.fileID > b.fileID))
  {
  }

  /** The tree as the volume keeps it: its records, read leaf by leaf, ascend by fork and then by file number. */
  ghost predicate InOrder(t: Overflow) {
    && Connected(t)
    && var rs := Records(t, Leaves(t));
       forall p, q | 0 <= p < q < |rs| ::
         rs[p].0.forkType < rs[q].0.forkType
         || (rs[p].0.forkType == rs[q].0.forkType && rs[p].0.fileID <= rs[q].0.fileID)
  }

  /** Those are the trees the search is right on: ascending for its comparator means ascending by these numbers. */
  lemma InOrderIff(t: Overflow)
    ensures InOrder(t) <==> WellFormed(t, CnidComparator)
  {
    hide Connected, WellFormed, Records, LeavesUnder;
    CnidComparatorIsPreorder();
    WellFormedIff(t, CnidComparator);
  }

  function Wanted(cnid: nat, resourceFork: bool, startBlock: nat): Record -> bool {
    (r: Record) => r.0.forkType == Fork(resourceFork) && r.0.fileID == cnid && r.0.startBlock >= startBlock
  }

  /** The descriptors before the first empty one. */
  function CutAtEmpty(extents: seq<Extent>): (cut: seq<Extent>)
    ensures cut <= extents
    ensures forall e | e in cut :: e.blockCount > 0
    ensures |cut| < |extents| ==> extents[|cut|].blockCount == 0
  {
    if extents == [] || extents[0].blockCount == 0 then [] else [extents[0]] + CutAtEmpty(extents[1..])
  }

  ghost function Flatten(rs: seq<Record>): (es: seq<Extent>)
    ensures forall e | e in es :: e.blockCount > 0
  {
    if rs == [] then [] else CutAtEmpty(rs[0].1) + Flatten(rs[1..])
  }

  lemma {:induction false} FlattenAppend(a: seq<Record>, b: seq<Record>)
    ensures Flatten(a + b) == Flatten(a) + Flatten(b)
  {
    if a == [] {
      assert a + b == b;
    } else {
      assert (a + b)[1..] == a[1..] + b;
      FlattenAppend(a[1..], b);
    }
  }

  lemma FlattenOne(r: Record)
    ensures Flatten([r]) == CutAtEmpty(r.1)
  {
    assert Flatten([r][1..]) == [];
  }

  /** What a lookup should answer, in terms of the tree's flat list of records. */
  ghost function Lookup(rs: seq<Record>, cnid: nat, resourceFork: bool, startBlock: nat): Result<seq<Extent>> {
    var matches := Select(rs, Wanted(cnid, resourceFork, startBlock));
    if matches == [] then Ok([])
    else if matches[0].0.startBlock != startBlock then Throws(IoError)
    else Ok(Flatten(matches))
  }

  /** What the lookup finds, record by record. Records of another fork or file, or of an earlier block, do not matter;
      the first that does has to start at the wanted block; the extents of it and of every later one, up to an empty
      descriptor, are found in this order. */
  lemma LookupGrows(rs: seq<Record>, r: Record, cnid: nat, resourceFork: bool, startBlock: nat)
    ensures Lookup([], cnid, resourceFork, startBlock) == Ok([])
    ensures var fork := if resourceFork then 0xff else 0;
            var before, after := Lookup(rs, cnid, resourceFork, startBlock),
                                 Lookup(rs + [r], cnid, resourceFork, startBlock);
            if r.0.forkType != fork || r.0.fileID != cnid || r.0.startBlock < startBlock then after == before
            else if forall x | x in rs ::
                      x.0.forkType != fork || x.0.fileID != cnid || x.0.startBlock < startBlock
            then after == if r.0.startBlock != startBlock then Throws(IoError) else Ok(CutAtEmpty(r.1))
            else after == if before.Throws? then before else Ok(before.value + CutAtEmpty(r.1))
  {
    hide Flatten, CutAtEmpty;
    var wanted := Wanted(cnid, resourceFork, startBlock);
    var found := Select(rs, wanted);
    SelectAppend(rs, [r], wanted);
    assert Select([r][1..], wanted) == [];
    NothingYet(wanted);
    if wanted(r) {
      assert Select([r], wanted) == [r];
      FlattenAppend(found, [r]);
      FlattenOne(r);
      if forall x | x in rs :: !wanted(x) {
        SelectNone(rs, wanted);
        assert [] + [r] == [r];
      } else {
        SelectSome(rs, wanted);
        assert (found + [r])[0] == found[0];
      }
    } else {
      assert found + [] == found;
    }
  }

  lemma SelectSome(rs: seq<Record>, wanted: Record -> bool)
    requires exists x :: x in rs && wanted(x)
    ensures Select(rs, wanted) != []
  {
    hide Select, Count;
    var x :| x in rs && wanted(x);
    var i :| 0 <= i < |rs| && rs[i] == x;
    SelectInOrder(rs, wanted);
  }

  ghost predicate EightEach(t: Overflow) {
    forall n | n in t.nodes && t.nodes[n].body.LeafNode? :: forall r | r in t.nodes[n].body.recs :: |r.1| == 8
  }

  /** The appending loop over one record's descriptors. */
  method AppendExtents(extents: seq<Extent>, extra: seq<Extent>) returns (out: seq<Extent>)
    requires |extents| == 8
    ensures out == extra + CutAtEmpty(extents)
  {
    out := extra;
    ghost var cut := CutAtEmpty(extents);
    for x := 0 to 8
      invariant x <= |cut| && out == extra + cut[..x]
    {
      if extents[x].blockCount == 0 {
        return;
      }
      out := out + [extents[x]];
    }
  }

  /** One leaf's records, `seen` being the matching ones of the leaves before. */
  method ScanLeaf(recs: seq<Record>, cnid: nat, resourceFork: bool, startBlock: nat, extra: seq<Extent>,
                  first: bool, ghost given: seq<Extent>, ghost seen: seq<Record>)
    returns (r: Result<seq<Extent>>, first': bool)
    requires forall rec | rec in recs :: |rec.1| == 8
    requires first == (seen == []) && extra == given + Flatten(seen)
    requires seen != [] ==> seen[0].0.startBlock == startBlock
    ensures var matches := seen + Select(recs, Wanted(cnid, resourceFork, startBlock));
            if matches != [] && matches[0].0.startBlock != startBlock then r == Throws(IoError)
            else r == Ok(given + Flatten(matches)) && first' == (matches == [])
  {
    hide Flatten, Select, CutAtEmpty;
    first' := first;
    var out := extra;
    var wanted := Wanted(cnid, resourceFork, startBlock);
    ghost var matched := seen;
    var i := 0;
    assert recs[0..] == recs;
    while i < |recs|
      invariant i <= |recs|
      invariant seen + Select(recs, wanted) == matched + Select(recs[i..], wanted)
      invariant out == given + Flatten(matched) && first' == (matched == [])
      invariant matched != [] ==> matched[0].0.startBlock == startBlock
    {
      var rec := recs[i];
      SelectFrom(recs, i, wanted);
      ghost var rest := Select(recs[i + 1..], wanted);
      if wanted(rec) {
        if first' {
          if rec.0.startBlock != startBlock {
            return Throws(IoError), first';
          }
          first' := false;
        }
        assert matched + ([rec] + rest) == matched + [rec] + rest;
        ghost var before := out;
        out := AppendExtents(rec.1, out);
        FlattenAppend(matched, [rec]);
        FlattenOne(rec);
        assert given + Flatten(matched) + CutAtEmpty(rec.1) == given + (Flatten(matched) + CutAtEmpty(rec.1));
        matched := matched + [rec];
      } else {
        assert [] + rest == rest;
      }
      i := i + 1;
    }
    SelectNone(recs[i..], wanted);
    assert matched + [] == matched;
    return Ok(out), first';
  }

  /** Appends to `extraExtents` the extents of a file's fork from `startBlock` on. */
  method FindExtentsForFile(t: Overflow, cnid: nat, resourceFork: bool, startBlock: nat, extraExtents: seq<Extent>)
    returns (r: Result<seq<Extent>>)
    requires Ranked(t) && EightEach(t)
    ensures InOrder(t) ==>
              r == match Lookup(Records(t, Leaves(t)), cnid, resourceFork, startBlock)
                   case Ok(found) => Ok(extraExtents + found)
                   case Throws(e) => Throws(e)
  {
    hide LeavesUnder, Flatten, FoundRange, Select, Records, WellFormed, Walk, CutAtEmpty, Lookup, EightEach,
         RecordsOf, InOrder;
    InOrderIff(t);
    var key := ExtentKey(Fork(resourceFork), cnid, 0);
    ghost var wanted := Wanted(cnid, resourceFork, startBlock);
    var leaves := FindLeafNodes(t, key, CnidComparator);
    if leaves.Throws? {
      return Throws(leaves.error);
    }
    var l := leaves.value;
    WalkInTree(t, l);
    ghost var all := Select(Records(t, l), wanted);
    if WellFormed(t, CnidComparator) {
      SearchedAll(t, cnid, resourceFork, startBlock, l);
      LookupOf(Records(t, Leaves(t)), cnid, resourceFork, startBlock, all);
    }
    ghost var seen: seq<Record> := [];
    NothingYet(wanted);
    assert extraExtents + [] == extraExtents && l[0..] == l;
    var out, first := extraExtents, true;
    var i := 0;
    while i < |l|
      invariant i <= |l|
      invariant all == seen + Select(Records(t, l[i..]), wanted)
      invariant first == (seen == []) && out == extraExtents + Flatten(seen)
      invariant seen != [] ==> seen[0].0.startBlock == startBlock
    {
      LeafThenRest(t, l, i, wanted);
      var recs := RecordsOf(t, l[i]);
      EightInLeaf(t, l[i]);
      var s;
      s, first := ScanLeaf(recs, cnid, resourceFork, startBlock, out, first, extraExtents, seen);
      ghost var more := Select(recs, wanted);
      JoinJoin(seen, more, Select(Records(t, l[i + 1..]), wanted));
      seen := seen + more;
      if s.Throws? {
        return Throws(s.error);
      }
      out := s.value;
      i := i + 1;
    }
    NothingLeft(t, l, wanted);
    assert seen + [] == seen;
    return Ok(out);
  }

  lemma EightInLeaf(t: Overflow, n: nat)
    requires EightEach(t)
    ensures forall rec | rec in RecordsOf(t, n) :: |rec.1| == 8
  {
  }

  lemma LookupOf(rs: seq<Record>, cnid: nat, resourceFork: bool, startBlock: nat, matches: seq<Record>)
    requires matches == Select(rs, Wanted(cnid, resourceFork, startBlock))
    ensures Lookup(rs, cnid, resourceFork, startBlock) ==
            if matches != [] && matches[0].0.startBlock != startBlock then Throws(IoError) else Ok(Flatten(matches))
  {
  }

  lemma NothingYet(wanted: Record -> bool)
    ensures Select([], wanted) == [] && Flatten([]) == []
  {
  }

  // ---- An example: data forks of files 16, 18 and 20, a leaf for each, and a root over them ----

  function DataKey(fileID: nat): ExtentKey { ExtentKey(0, fileID, 8) }

  function EightExtents(): seq<Extent> {
    [Extent(1, 1), Extent(3, 1), Extent(5, 1), Extent(7, 1), Extent(9, 1), Extent(11, 1), Extent(13, 1), Extent(15, 1)]
  }

  function OneFileLeaf(fileID: nat, fLink: nat): Node<ExtentKey, seq<Extent>> {
    Node(fLink, 1, DataKey(fileID), LeafNode([(DataKey(fileID), EightExtents())]))
  }

  function ThreeFiles(): Overflow {
    var root := IndexNode([IndexRec(DataKey(16), 2), IndexRec(DataKey(18), 3), IndexRec(DataKey(20), 4)]);
    BTree(map[1 := Node(0, 2, DataKey(16), root), 2 := OneFileLeaf(16, 3), 3 := OneFileLeaf(18, 4),
              4 := OneFileLeaf(20, 0)], 1)
  }

  /** It is a tree the search is right on, and the last leaf's file is found there. */
  lemma ThreeFilesExample()
    ensures var t := ThreeFiles();
            && InOrder(t) && EightEach(t) && Leaves(t) == [2, 3, 4]
            && Lookup(Records(t, Leaves(t)), 20, false, 8) == Ok(EightExtents())
  {
    hide Connected, Lookup, Records, ThreeFiles, EightExtents, LeavesUnder, EightEach;
    ThreeLeaves();
    ThreeConnected();
    ThreeRecords();
    ThreeFound(EightExtents());
    EightThere();
  }

  lemma EightThere()
    ensures EightEach(ThreeFiles()) && CutAtEmpty(EightExtents()) == EightExtents()
  {
    hide CutAtEmpty;
    assert |EightExtents()| == 8;
    NothingCut(EightExtents());
  }

  lemma ThreeFound(e: seq<Extent>)
    ensures Lookup([(DataKey(16), e), (DataKey(18), e), (DataKey(20), e)], 20, false, 8) == Ok(CutAtEmpty(e))
  {
    hide Lookup;
    var a, b, c := (DataKey(16), e), (DataKey(18), e), (DataKey(20), e);
    LookupGrows([], a, 20, false, 8);
    LookupGrows([a], b, 20, false, 8);
    LookupGrows([a, b], c, 20, false, 8);
    assert [] + [a] == [a] && [a] + [b] == [a, b] && [a, b] + [c] == [a, b, c];
  }

  lemma {:induction false} NothingCut(es: seq<Extent>)
    requires forall e | e in es :: e.blockCount > 0
    ensures CutAtEmpty(es) == es
  {
    if es != [] {
      NothingCut(es[1..]);
    }
  }

  lemma ThreeLeaves()
    ensures Ranked(ThreeFiles()) && Leaves(ThreeFiles()) == [2, 3, 4]
  {
    hide EightExtents, LeavesUnder, LeavesOf;
    RootAlone(ThreeFiles(), 2, 3, 4);
  }

  lemma LeafAlone(t: Overflow, n: nat)
    requires Ranked(t) && n in t.nodes && t.nodes[n].body.LeafNode?
    ensures LeavesUnder(t, n) == [n] && IndexKeysRight(t, n)
  {
  }

  /** The leaves under a root with three children that are leaves. */
  lemma RootAlone(t: Overflow, a: nat, b: nat, c: nat)
    requires Ranked(t) && t.root in t.nodes && t.nodes[t.root].body.IndexNode?
    requires var cs := t.nodes[t.root].body.children;
             |cs| == 3 && cs[0].child == a && cs[1].child == b && cs[2].child == c
    requires forall n | n in [a, b, c] :: n in t.nodes && t.nodes[n].body.LeafNode?
    ensures Leaves(t) == [a, b, c]
  {
    var cs := t.nodes[t.root].body.children;
    LeavesOfCons(t, t.root, 0);
    LeavesOfCons(t, t.root, 1);
    LeavesOfCons(t, t.root, 2);
    assert cs[0..] == cs && cs[3..] == [];
    assert a in [a, b, c] && b in [a, b, c] && c in [a, b, c];
  }

  lemma ThreeConnected()
    ensures Connected(ThreeFiles())
  {
    hide LeavesUnder, EightExtents;
    var t := ThreeFiles();
    ThreeLeaves();
    LeafAlone(t, 2);
    LeafAlone(t, 3);
    LeafAlone(t, 4);
    assert IndexKeysRight(t, 1);
  }

  lemma ThreeRecords()
    ensures var (t, e) := (ThreeFiles(), EightExtents());
            Ranked(t) && Records(t, [2, 3, 4]) == [(DataKey(16), e), (DataKey(18), e), (DataKey(20), e)]
  {
    ThreeLeaves();
    var t := ThreeFiles();
    assert [2, 3, 4][1..] == [3, 4] && [3, 4][1..] == [4] && [4][1..] == [];
    assert Records(t, [4]) == RecordsOf(t, 4) + Records(t, []);
    assert Records(t, [3, 4]) == RecordsOf(t, 3) + Records(t, [4]);
    assert Records(t, [2, 3, 4]) == RecordsOf(t, 2) + Records(t, [3, 4]);
  }

  /** The leaves the range search returns hold every wanted record of the tree. */
  lemma SearchedAll(t: Overflow, cnid: nat, resourceFork: bool, startBlock: nat, l: seq<nat>)
    requires WellFormed(t, CnidComparator)
    requires FoundRange(t, CnidComparator, ExtentKey(Fork(resourceFork), cnid, 0), l)
    ensures var wanted := Wanted(cnid, resourceFork, startBlock);
            Select(Records(t, l), wanted) == Select(Records(t, Leaves(t)), wanted)
  {
    hide LeavesUnder, FoundRange, Select, Records, WellFormed;
    FoundHasAll(t, CnidComparator, ExtentKey(Fork(resourceFork), cnid, 0), l, Wanted(cnid, resourceFork, startBlock));
  }
}
