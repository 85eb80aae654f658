/** On-disk B-trees: descent, leaf chain, and range search (src/HFSBTree.cpp, src/HFSBTreeNode.h;
    Apple Technical Note TN1150, section "B-Trees"). Nodes are decoded when they are loaded. */
module BTrees {
  import opened Bytes

  datatype IndexRec<K> = IndexRec(key: K, child: nat)

  datatype Body<K, V> =
    | IndexNode(children: seq<IndexRec<K>>)
    | LeafNode(recs: seq<(K, V)>)
    | HeaderNode
    | MapNode
    | InvalidNode

  /** `firstKey` is the key that lies right behind the node descriptor (HFSBTreeNode::getKey). */
  datatype Node<K, V> = Node(fLink: nat, height: nat, firstKey: K, body: Body<K, V>)

  datatype BTree<K, V> = BTree(nodes: map<nat, Node<K, V>>, root: nat)

  // ---- Descent ----

  /** An index node has records, and every child it names that exists is lower than it. */
  ghost predicate Ranked<K, V>(t: BTree<K, V>) {
    forall n | n in t.nodes && t.nodes[n].body.IndexNode? ::
      && |t.nodes[n].body.children| > 0
      && forall r | r in t.nodes[n].body.children && r.child in t.nodes :: t.nodes[r.child].height < t.nodes[n].height
  }

  /** The halving search of std::lower_bound and std::upper_bound over `keys[lo..lo + len]`. */
  function PartitionPoint<K>(keys: seq<K>, below: K -> bool, lo: nat, len: nat): (p: nat)
    requires lo + len <= |keys|
    ensures lo <= p <= lo + len
    decreases len
  {
    if len == 0 then lo
    else
      var half := len / 2;
      if below(keys[lo + half]) then PartitionPoint(keys, below, lo + half + 1, len - half - 1)
      else PartitionPoint(keys, below, lo, half)
  }

  function ScanPoint<K>(keys: seq<K>, below: K -> bool): (p: nat)
    ensures p <= |keys|
  {
    if keys == [] || !below(keys[0]) then 0 else 1 + ScanPoint(keys[1..], below)
  }

  ghost predicate Partitioned<K>(keys: seq<K>, below: K -> bool) {
    forall i, j | 0 <= i < j < |keys| && below(keys[j]) :: below(keys[i])
  }

  ghost predicate Splits<K>(keys: seq<K>, below: K -> bool, p: nat) {
    && p <= |keys|
    && (forall i | 0 <= i < p :: below(keys[i]))
    && (forall i | p <= i < |keys| :: !below(keys[i]))
  }

  lemma {:induction false} PartitionPointSplits<K>(keys: seq<K>, below: K -> bool, lo: nat, len: nat)
    requires Partitioned(keys, below) && lo + len <= |keys|
    requires forall i | 0 <= i < lo :: below(keys[i])
    requires forall i | lo + len <= i < |keys| :: !below(keys[i])
    ensures Splits(keys, below, PartitionPoint(keys, below, lo, len))
    decreases len
  {
    if len > 0 {
      var half := len / 2;
      if below(keys[lo + half]) {
        PartitionPointSplits(keys, below, lo + half + 1, len - half - 1);
      } else {
        PartitionPointSplits(keys, below, lo, half);
      }
    }
  }

  lemma {:induction false} ScanPointSplits<K>(keys: seq<K>, below: K -> bool)
    requires Partitioned(keys, below)
    ensures Splits(keys, below, ScanPoint(keys, below))
  {
    if keys != [] && below(keys[0]) {
      var rest := keys[1..];
      forall i, j | 0 <= i < j < |rest| && below(rest[j])
        ensures below(rest[i])
      {
        assert rest[i] == keys[i + 1] && rest[j] == keys[j + 1];
      }
      ScanPointSplits(rest, below);
      var p := ScanPoint(rest, below);
      forall i | 0 <= i < |keys|
        ensures i < p + 1 ==> below(keys[i])
        ensures i >= p + 1 ==> !below(keys[i])
      {
        if i > 0 {
          assert keys[i] == rest[i - 1];
        }
      }
    }
  }

  /** On sorted records the binary search finds what a scan from the left finds. */
  lemma BinarySearchIsScan<K>(keys: seq<K>, below: K -> bool)
    requires Partitioned(keys, below)
    ensures PartitionPoint(keys, below, 0, |keys|) == ScanPoint(keys, below)
  {
    PartitionPointSplits(keys, below, 0, |keys|);
    ScanPointSplits(keys, below);
    var p, q := PartitionPoint(keys, below, 0, |keys|), ScanPoint(keys, below);
    var least := if p < q then p else q;
    var witnessed := least < |keys| && below(keys[least]);
  }

  /** Which keys lie left of the child to enter: those less than the wanted key for a wildcard search
      (lower_bound), those not greater for an exact one (upper_bound). */
  function Below<K>(comp: (K, K) -> int, d: K, wildcard: bool): K -> bool {
    if wildcard then k => comp(k, d) < 0 else k => !(comp(d, k) < 0)
  }

  function KeysOf<K>(children: seq<IndexRec<K>>): (ks: seq<K>)
    ensures |ks| == |children| && forall i | 0 <= i < |ks| :: ks[i] == children[i].key
  {
    seq(|children|, i requires 0 <= i < |children| => children[i].key)
  }

  function ChildPosition<K>(children: seq<IndexRec<K>>, below: K -> bool): (p: nat)
    requires |children| > 0
    ensures p < |children|
  {
    var point := PartitionPoint(KeysOf(children), below, 0, |children|);
    if point == 0 then 0 else point - 1
  }

  /** HFSBTree::traverseTree. The result is the number of the leaf reached, or None for the null pointer;
      a node that cannot be read raises. */
  function Traverse<K, V>(t: BTree<K, V>, n: nat, below: K -> bool): (r: Result<Option<nat>>)
    requires Ranked(t)
    ensures r.Ok? && r.value.Some? ==> r.value.value in t.nodes && t.nodes[r.value.value].body.LeafNode?
    decreases if n in t.nodes then t.nodes[n].height + 1 else 0
  {
    if n !in t.nodes then Throws(RuntimeError)
    else
      match t.nodes[n].body
      case IndexNode(children) => Traverse(t, children[ChildPosition(children, below)].child, below)
      case LeafNode(_) => Ok(Some(n))
      case _ => Ok(None)
  }

  function FindLeafNode<K, V>(t: BTree<K, V>, d: K, comp: (K, K) -> int, wildcard: bool): (r: Result<Option<nat>>)
    requires Ranked(t)
    ensures r.Ok? && r.value.Some? ==> r.value.value in t.nodes && t.nodes[r.value.value].body.LeafNode?
  {
    Traverse(t, t.root, Below(comp, d, wildcard))
  }

  // ---- Well-formed trees ----

  ghost predicate IsPreorder<K(!new)>(comp: (K, K) -> int) {
    && (forall a, b :: comp(a, b) < 0 <==> comp(b, a) > 0)
    && (forall a, b, c :: comp(a, b) <= 0 && comp(b, c) <= 0 ==> comp(a, c) <= 0)
  }

  /** The leaves under node `n`, left to right. */
  ghost function LeavesUnder<K, V>(t: BTree<K, V>, n: nat): seq<nat>
    requires Ranked(t)
    decreases if n in t.nodes then t.nodes[n].height + 1 else 0, 1, 0
  {
    if n !in t.nodes then []
    else
      match t.nodes[n].body
      case IndexNode(children) => LeavesOf(t, n, children)
      case LeafNode(_) => [n]
      case _ => []
  }

  ghost function LeavesOf<K, V>(t: BTree<K, V>, n: nat, children: seq<IndexRec<K>>): seq<nat>
    requires Ranked(t) && n in t.nodes && t.nodes[n].body.IndexNode?
    requires forall r | r in children :: r in t.nodes[n].body.children
    decreases t.nodes[n].height + 1, 0, |children|
  {
    if children == [] then []
    else LeavesUnder(t, children[0].child) + LeavesOf(t, n, children[1..])
  }

  ghost predicate IsLeaf<K, V>(t: BTree<K, V>, n: nat) {
    && n in t.nodes && t.nodes[n].body.LeafNode? && |t.nodes[n].body.recs| > 0
    && t.nodes[n].firstKey == t.nodes[n].body.recs[0].0
  }

  /** Every index record below `n` carries the first key of the subtree it points to. */
  ghost predicate IndexKeysRight<K, V>(t: BTree<K, V>, n: nat)
    requires Ranked(t)
    decreases if n in t.nodes then t.nodes[n].height + 1 else 0
  {
    n in t.nodes && (t.nodes[n].body.IndexNode? ==>
      forall r | r in t.nodes[n].body.children ::
        r.child in t.nodes && IndexKeysRight(t, r.child)
        && var l := LeavesUnder(t, r.child); |l| > 0 && l[0] in t.nodes && r.key == t.nodes[l[0]].firstKey)
  }

  /** All records of leaf `a` come before (or tie with) all records of leaf `b`. */
  ghost predicate Precedes<K, V>(t: BTree<K, V>, comp: (K, K) -> int, a: nat, b: nat)
    requires IsLeaf(t, a) && IsLeaf(t, b)
  {
    forall x, y | x in t.nodes[a].body.recs && y in t.nodes[b].body.recs :: comp(x.0, y.0) <= 0
  }

  ghost predicate LeafSorted<K, V>(t: BTree<K, V>, comp: (K, K) -> int, a: nat)
    requires IsLeaf(t, a)
  {
    var rs := t.nodes[a].body.recs;
    forall i, j | 0 <= i < j < |rs| :: comp(rs[i].0, rs[j].0) <= 0
  }

  ghost predicate Sorted<K, V>(t: BTree<K, V>, comp: (K, K) -> int, l: seq<nat>) {
    && (forall i | 0 <= i < |l| :: IsLeaf(t, l[i]) && LeafSorted(t, comp, l[i]))
    && (forall i, j | 0 <= i < j < |l| :: Precedes(t, comp, l[i], l[j]))
  }

  ghost predicate Chained<K, V>(t: BTree<K, V>, l: seq<nat>) {
    && (forall i | 0 <= i < |l| :: l[i] in t.nodes && l[i] != 0)
    && (forall i | 0 <= i < |l| - 1 :: t.nodes[l[i]].fLink == l[i + 1])
    && (|l| > 0 ==> t.nodes[l[|l| - 1]].fLink == 0)
    && (forall i, j | 0 <= i < j < |l| :: l[i] != l[j])
  }

  ghost predicate WellFormed<K(!new), V>(t: BTree<K, V>, comp: (K, K) -> int) {
    && Ranked(t) && IsPreorder(comp)
    && IndexKeysRight(t, t.root)
    && var l := LeavesUnder(t, t.root); |l| > 0 && Sorted(t, comp, l) && Chained(t, l)
  }

  ghost function Leaves<K, V>(t: BTree<K, V>): seq<nat>
    requires Ranked(t)
  {
    LeavesUnder(t, t.root)
  }

  // ---- Where descent ends ----

  /** `a` is the last leaf whose first key is below the wanted one, or the first leaf when there is none. */
  ghost predicate StartsAt<K, V>(t: BTree<K, V>, l: seq<nat>, below: K -> bool, a: nat) {
    && a < |l| && (forall i | 0 <= i < |l| :: l[i] in t.nodes)
    && (a > 0 ==> below(t.nodes[l[a]].firstKey))
    && (forall i | a < i < |l| :: !below(t.nodes[l[i]].firstKey))
  }

  /** First keys of later leaves are not below the wanted key once one of them is not. */
  ghost predicate FirstKeysPartitioned<K, V>(t: BTree<K, V>, l: seq<nat>, below: K -> bool) {
    && (forall i | 0 <= i < |l| :: l[i] in t.nodes)
    && (forall i, j | 0 <= i < j < |l| && below(t.nodes[l[j]].firstKey) :: below(t.nodes[l[i]].firstKey))
  }

  lemma {:induction false} LeavesOfSplit<K, V>(t: BTree<K, V>, n: nat, a: seq<IndexRec<K>>, b: seq<IndexRec<K>>)
    requires Ranked(t) && n in t.nodes && t.nodes[n].body.IndexNode?
    requires forall r | r in a + b :: r in t.nodes[n].body.children
    ensures forall r | r in a :: r in a + b
    ensures forall r | r in b :: r in a + b
    ensures LeavesOf(t, n, a + b) == LeavesOf(t, n, a) + LeavesOf(t, n, b)
    decreases |a|
  {
    assert forall r | r in a :: r in a + b;
    assert forall r | r in b :: r in a + b;
    if a == [] {
      assert a + b == b;
    } else {
      assert (a + b)[1..] == a[1..] + b;
      assert (a + b)[0] == a[0] && forall r | r in a[1..] + b :: r in a + b;
      LeavesOfSplit(t, n, a[1..], b);
      JoinJoin(LeavesUnder(t, a[0].child), LeavesOf(t, n, a[1..]), LeavesOf(t, n, b));
    }
  }

  /** The leaves under one child sit in one piece of the leaves under its parent, and the next child's
      first leaf comes right behind them. */
  lemma ChildPiece<K, V>(t: BTree<K, V>, n: nat, p: nat) returns (o: nat)
    requires Ranked(t) && n in t.nodes && t.nodes[n].body.IndexNode? && p < |t.nodes[n].body.children|
    ensures var cs, l := t.nodes[n].body.children, LeavesUnder(t, n);
            var c := LeavesUnder(t, cs[p].child);
            && o + |c| <= |l| && l[o..o + |c|] == c && (p == 0 ==> o == 0)
            && (p + 1 == |cs| ==> o + |c| == |l|)
            && (p + 1 < |cs| ==> LeavesUnder(t, cs[p + 1].child) <= l[o + |c|..])
  {
    ChildSplit(t, n, p);
    var cs := t.nodes[n].body.children;
    var pre, c, rest := LeavesOf(t, n, cs[..p]), LeavesUnder(t, cs[p].child), LeavesOf(t, n, cs[p + 1..]);
    o := |pre|;
    PieceInJoin(LeavesUnder(t, n), pre, c, rest);
  }

  lemma ChildSplit<K, V>(t: BTree<K, V>, n: nat, p: nat)
    requires Ranked(t) && n in t.nodes && t.nodes[n].body.IndexNode? && p < |t.nodes[n].body.children|
    ensures var cs := t.nodes[n].body.children;
            var rest := LeavesOf(t, n, cs[p + 1..]);
            && LeavesUnder(t, n) == LeavesOf(t, n, cs[..p]) + (LeavesUnder(t, cs[p].child) + rest)
            && (p == 0 ==> LeavesOf(t, n, cs[..p]) == []) && (p + 1 == |cs| ==> rest == [])
            && (p + 1 < |cs| ==> LeavesUnder(t, cs[p + 1].child) <= rest)
  {
    var cs := t.nodes[n].body.children;
    assert cs == cs[..p] + cs[p..];
    LeavesOfSplit(t, n, cs[..p], cs[p..]);
    LeavesOfCons(t, n, p);
    if p + 1 < |cs| {
      LeavesOfCons(t, n, p + 1);
    }
  }

  lemma LeavesOfCons<K, V>(t: BTree<K, V>, n: nat, p: nat)
    requires Ranked(t) && n in t.nodes && t.nodes[n].body.IndexNode? && p < |t.nodes[n].body.children|
    ensures var cs := t.nodes[n].body.children;
            LeavesOf(t, n, cs[p..]) == LeavesUnder(t, cs[p].child) + LeavesOf(t, n, cs[p + 1..])
  {
    var cs := t.nodes[n].body.children;
    assert cs[p..][0] == cs[p] && cs[p..][1..] == cs[p + 1..];
  }

  lemma PieceInJoin<T>(l: seq<T>, pre: seq<T>, c: seq<T>, rest: seq<T>)
    requires l == pre + (c + rest)
    ensures |pre| + |c| <= |l| && l[|pre|..|pre| + |c|] == c && l[|pre| + |c|..] == rest
  {
  }

  lemma {:induction false} TraverseReaches<K, V>(t: BTree<K, V>, n: nat, below: K -> bool)
    requires Ranked(t) && IndexKeysRight(t, n) && |LeavesUnder(t, n)| > 0
    requires FirstKeysPartitioned(t, LeavesUnder(t, n), below)
    ensures var l := LeavesUnder(t, n);
            exists a: nat :: StartsAt(t, l, below, a) && Traverse(t, n, below) == Ok(Some(l[a]))
    decreases t.nodes[n].height
  {
    var l := LeavesUnder(t, n);
    if t.nodes[n].body.IndexNode? {
      var cs := t.nodes[n].body.children;
      var p := ChildPosition(cs, below);
      var o := ChildPiece(t, n, p);
      var c := LeavesUnder(t, cs[p].child);
      ChildPartitioned(t, n, below, p, o);
      TraverseReaches(t, cs[p].child, below);
      var a: nat :| StartsAt(t, c, below, a) && Traverse(t, cs[p].child, below) == Ok(Some(c[a]));
      ChildStart(t, n, below, p, o, a);
      assert StartsAt(t, l, below, o + a);
      assert l[o + a] == c[a];
    } else {
      assert StartsAt(t, l, below, 0);
    }
  }

  lemma ChildPartitioned<K, V>(t: BTree<K, V>, n: nat, below: K -> bool, p: nat, o: nat)
    requires Ranked(t) && IndexKeysRight(t, n) && t.nodes[n].body.IndexNode?
    requires p < |t.nodes[n].body.children|
    requires FirstKeysPartitioned(t, LeavesUnder(t, n), below)
    requires var c := LeavesUnder(t, t.nodes[n].body.children[p].child);
             o + |c| <= |LeavesUnder(t, n)| && LeavesUnder(t, n)[o..o + |c|] == c
    ensures var r := t.nodes[n].body.children[p];
            && r.child in t.nodes && IndexKeysRight(t, r.child) && |LeavesUnder(t, r.child)| > 0
            && FirstKeysPartitioned(t, LeavesUnder(t, r.child), below)
  {
    hide Traverse, LeavesUnder;
    var r, l := t.nodes[n].body.children[p], LeavesUnder(t, n);
    assert r in t.nodes[n].body.children;
    var c := LeavesUnder(t, r.child);
    forall i | 0 <= i < |c|
      ensures c[i] == l[o + i]
    {
    }
  }

  /** The index records of a node are partitioned like the first keys of the leaves below it. */
  lemma IndexPartitioned<K, V>(t: BTree<K, V>, n: nat, below: K -> bool)
    requires Ranked(t) && IndexKeysRight(t, n) && t.nodes[n].body.IndexNode?
    requires FirstKeysPartitioned(t, LeavesUnder(t, n), below)
    ensures Partitioned(KeysOf(t.nodes[n].body.children), below)
  {
    hide Traverse, LeavesUnder;
    var cs, l := t.nodes[n].body.children, LeavesUnder(t, n);
    var ks := KeysOf(cs);
    forall i, j | 0 <= i < j < |ks| && below(ks[j])
      ensures below(ks[i])
    {
      var a := FirstLeafAt(t, n, i);
      var b := FirstLeafAt(t, n, j);
      FirstLeavesOrdered(t, n, i, j, a, b);
      assert cs[i] in cs && cs[j] in cs;
    }
  }

  /** The position, among the leaves of `n`, of the first leaf of its child `i`. */
  ghost function FirstLeafAt<K, V>(t: BTree<K, V>, n: nat, i: nat): (a: nat)
    requires Ranked(t) && IndexKeysRight(t, n) && t.nodes[n].body.IndexNode?
    requires i < |t.nodes[n].body.children|
    ensures var cs := t.nodes[n].body.children;
            && a == |LeavesOf(t, n, cs[..i])|
            && a < |LeavesUnder(t, n)| && |LeavesUnder(t, cs[i].child)| > 0
            && LeavesUnder(t, n)[a] == LeavesUnder(t, cs[i].child)[0]
  {
    var cs := t.nodes[n].body.children;
    assert cs == cs[..i] + cs[i..];
    LeavesOfSplit(t, n, cs[..i], cs[i..]);
    assert cs[i] in cs;
    assert cs[i..][0] == cs[i];
    |LeavesOf(t, n, cs[..i])|
  }

  lemma FirstLeavesOrdered<K, V>(t: BTree<K, V>, n: nat, i: nat, j: nat, a: nat, b: nat)
    requires Ranked(t) && IndexKeysRight(t, n) && t.nodes[n].body.IndexNode?
    requires i < j < |t.nodes[n].body.children|
    requires a == FirstLeafAt(t, n, i) && b == FirstLeafAt(t, n, j)
    ensures a < b
  {
    var cs := t.nodes[n].body.children;
    assert cs[..j] == cs[..i] + cs[i..j];
    assert forall r | r in cs[..i] + cs[i..j] :: r in cs;
    LeavesOfSplit(t, n, cs[..i], cs[i..j]);
    assert cs[i..j][0] == cs[i] && cs[i] in cs;
  }

  lemma ChildStart<K, V>(t: BTree<K, V>, n: nat, below: K -> bool, p: nat, o: nat, a: nat)
    requires Ranked(t) && IndexKeysRight(t, n) && t.nodes[n].body.IndexNode?
    requires FirstKeysPartitioned(t, LeavesUnder(t, n), below)
    requires p == ChildPosition(t.nodes[n].body.children, below)
    requires var cs, l := t.nodes[n].body.children, LeavesUnder(t, n);
             var c := LeavesUnder(t, cs[p].child);
             && o + |c| <= |l| && l[o..o + |c|] == c && (p == 0 ==> o == 0)
             && (p + 1 == |cs| ==> o + |c| == |l|)
             && (p + 1 < |cs| ==> LeavesUnder(t, cs[p + 1].child) <= l[o + |c|..])
             && StartsAt(t, c, below, a)
    ensures StartsAt(t, LeavesUnder(t, n), below, o + a)
  {
    hide Traverse, LeavesUnder;
    var cs, l := t.nodes[n].body.children, LeavesUnder(t, n);
    var c, ks := LeavesUnder(t, cs[p].child), KeysOf(cs);
    IndexPartitioned(t, n, below);
    PartitionPointSplits(ks, below, 0, |cs|);
    assert cs[p] in cs;
    assert forall i | 0 <= i < |c| :: c[i] == l[o + i];
    if p > 0 {
      assert below(ks[p]);
    }
    if p + 1 < |cs| {
      var d := LeavesUnder(t, cs[p + 1].child);
      assert cs[p + 1] in cs;
      assert d[0] == l[o + |c|..][0] == l[o + |c|];
      assert !below(ks[p + 1]);
    }
    forall i | o + a < i < |l|
      ensures !below(t.nodes[l[i]].firstKey)
    {
      if i < o + |c| {
        assert l[i] == c[i - o];
      }
    }
  }

  // ---- Range search ----

  lemma FirstKeysOrdered<K(!new), V>(t: BTree<K, V>, comp: (K, K) -> int, d: K, wildcard: bool)
    requires WellFormed(t, comp)
    ensures FirstKeysPartitioned(t, Leaves(t), Below(comp, d, wildcard))
  {
    hide LeavesUnder, IndexKeysRight;
    var l, below := Leaves(t), Below(comp, d, wildcard);
    forall i, j | 0 <= i < j < |l| && below(t.nodes[l[j]].firstKey)
      ensures below(t.nodes[l[i]].firstKey)
    {
      FirstKeysLe(t, comp, i, j);
      BelowDownward(comp, d, t.nodes[l[i]].firstKey, t.nodes[l[j]].firstKey);
    }
  }

  lemma BelowDownward<K(!new)>(comp: (K, K) -> int, d: K, x: K, y: K)
    requires IsPreorder(comp) && comp(x, y) <= 0
    ensures comp(y, d) < 0 ==> comp(x, d) < 0
    ensures comp(d, x) < 0 ==> comp(d, y) < 0
    ensures comp(y, d) <= 0 ==> comp(x, d) <= 0
  {
    var dx, dy, xd, yd, yx := comp(d, x), comp(d, y), comp(x, d), comp(y, d), comp(y, x);
  }

  lemma FirstKeysLe<K(!new), V>(t: BTree<K, V>, comp: (K, K) -> int, i: nat, j: nat)
    requires Ranked(t) && Sorted(t, comp, Leaves(t)) && i < j < |Leaves(t)|
    ensures comp(t.nodes[Leaves(t)[i]].firstKey, t.nodes[Leaves(t)[j]].firstKey) <= 0
  {
    hide LeavesUnder;
    var l := Leaves(t);
    assert Precedes(t, comp, l[i], l[j]);
    assert t.nodes[l[i]].body.recs[0] in t.nodes[l[i]].body.recs;
    assert t.nodes[l[j]].body.recs[0] in t.nodes[l[j]].body.recs;
  }

  /** `l[a..b]` is what a range search for `d` returns: from the last leaf that starts below `d` up to,
      and without, the first later leaf that starts above it. */
  ghost predicate IsRange<K, V>(t: BTree<K, V>, comp: (K, K) -> int, d: K, l: seq<nat>, a: nat, b: nat) {
    && a < b <= |l| && StartsAt(t, l, Below(comp, d, true), a)
    && (forall i | a < i < b :: comp(t.nodes[l[i]].firstKey, d) <= 0)
    && (b < |l| ==> comp(t.nodes[l[b]].firstKey, d) > 0)
  }

  ghost predicate FoundRange<K, V>(t: BTree<K, V>, comp: (K, K) -> int, d: K, rv: seq<nat>)
    requires Ranked(t)
  {
    exists a: nat, b: nat | a < b <= |Leaves(t)| :: IsRange(t, comp, d, Leaves(t), a, b) && rv == Leaves(t)[a..b]
  }

  /** Each node of the walk is the forward link of the one before. */
  ghost predicate Walk<K, V>(t: BTree<K, V>, rv: seq<nat>) {
    && (forall i | 0 <= i < |rv| :: rv[i] in t.nodes)
    && (forall i | 0 <= i < |rv| - 1 :: t.nodes[rv[i]].fLink == rv[i + 1])
  }

  /** HFSBTree::findLeafNodes. The links visited bound the walk on any tree whose descent ends, however
      its forward links run; on a well-formed tree the walk is the range of leaves for `d`. */
  method FindLeafNodes<K(!new), V>(t: BTree<K, V>, d: K, comp: (K, K) -> int) returns (r: Result<seq<nat>>)
    requires Ranked(t)
    ensures r.Ok? ==> Walk(t, r.value) && |r.value| <= |t.nodes| + 1
    ensures WellFormed(t, comp) ==>
              r.Ok? && FoundRange(t, comp, d, r.value)
  {
    hide WellFormed, LeavesUnder, RangeSoFar, IsRange, Walk, FindLeafNode;
    ghost var wf, l := WellFormed(t, comp), Leaves(t);
    ghost var a: nat := 0;
    if wf {
      a := RangeStart(t, comp, d);
    }
    var found := FindLeafNode(t, d, comp, true);
    if found.Throws? {
      return Throws(found.error);
    }
    if found.value.None? {
      WalkNowhere(t);
      return Ok([]);
    }
    var current := found.value.value;
    var rv := [current];
    var uniqLink: set<nat> := {};
    ghost var b: nat := a + 1;
    WalkStart(t, current);
    while t.nodes[current].fLink != 0
      invariant current in t.nodes && uniqLink <= t.nodes.Keys
      invariant 1 <= |rv| <= |uniqLink| + 1 && rv[|rv| - 1] == current && Walk(t, rv)
      invariant wf ==> RangeSoFar(t, comp, d, l, a, b, rv, uniqLink)
      decreases |t.nodes.Keys - uniqLink|
    {
      var link := t.nodes[current].fLink;
      if wf {
        RangeExtend(t, comp, d, l, a, b, rv, uniqLink, link);
      }
      if link in uniqLink {
        break;
      }
      uniqLink := uniqLink + {link};
      if link !in t.nodes {
        return Throws(RuntimeError);
      }
      if comp(t.nodes[link].firstKey, d) > 0 {
        break;
      }
      WalkOn(t, rv, link);
      current, rv, b := link, rv + [link], b + 1;
    }
    SubsetSize(uniqLink, t.nodes.Keys);
    if wf && t.nodes[current].fLink == 0 {
      RangeEnd(t, comp, d, l, a, b, rv, uniqLink);
    }
    return Ok(rv);
  }

  lemma WalkNowhere<K, V>(t: BTree<K, V>)
    ensures Walk(t, [])
  {
  }

  lemma WalkStart<K, V>(t: BTree<K, V>, n: nat)
    requires n in t.nodes
    ensures Walk(t, [n])
  {
  }

  lemma WalkOn<K, V>(t: BTree<K, V>, rv: seq<nat>, link: nat)
    requires Walk(t, rv) && |rv| > 0 && link in t.nodes && t.nodes[rv[|rv| - 1]].fLink == link
    ensures Walk(t, rv + [link])
  {
  }

  /** The walk has collected `l[a..b]`, and followed only links into it. */
  ghost predicate RangeSoFar<K, V>(t: BTree<K, V>, comp: (K, K) -> int, d: K, l: seq<nat>, a: nat, b: nat,
                                   rv: seq<nat>, links: set<nat>) {
    && a < b <= |l| && Chained(t, l) && StartsAt(t, l, Below(comp, d, true), a)
    && (forall i | a < i < b :: comp(t.nodes[l[i]].firstKey, d) <= 0)
    && rv == l[a..b] && forall x | x in links :: x in l[..b]
  }

  lemma RangeExtend<K, V>(t: BTree<K, V>, comp: (K, K) -> int, d: K, l: seq<nat>, a: nat, b: nat,
                          rv: seq<nat>, links: set<nat>, link: nat)
    requires RangeSoFar(t, comp, d, l, a, b, rv, links)
    requires t.nodes[rv[|rv| - 1]].fLink == link != 0
    ensures link in t.nodes && link !in links
    ensures if comp(t.nodes[link].firstKey, d) > 0 then a < b <= |l| && IsRange(t, comp, d, l, a, b) && rv == l[a..b]
            else RangeSoFar(t, comp, d, l, a, b + 1, rv + [link], links + {link})
  {
    hide StartsAt;
    NextLink(t, l, b);
    assert l[..b + 1] == l[..b] + [l[b]];
    assert l[a..b + 1] == rv + [l[b]];
  }

  lemma RangeEnd<K, V>(t: BTree<K, V>, comp: (K, K) -> int, d: K, l: seq<nat>, a: nat, b: nat,
                       rv: seq<nat>, links: set<nat>)
    requires RangeSoFar(t, comp, d, l, a, b, rv, links)
    requires t.nodes[rv[|rv| - 1]].fLink == 0
    ensures a < b <= |l| && IsRange(t, comp, d, l, a, b) && rv == l[a..b]
  {
    hide StartsAt;
    NextLink(t, l, b);
  }

  lemma RangeStart<K(!new), V>(t: BTree<K, V>, comp: (K, K) -> int, d: K) returns (a: nat)
    requires WellFormed(t, comp)
    ensures var l := Leaves(t);
            && a < |l| && FindLeafNode(t, d, comp, true) == Ok(Some(l[a]))
            && RangeSoFar(t, comp, d, l, a, a + 1, [l[a]], {})
  {
    hide LeavesUnder, IndexKeysRight, Sorted, Traverse;
    FirstKeysOrdered(t, comp, d, true);
    TraverseReaches(t, t.root, Below(comp, d, true));
    a :| StartsAt(t, Leaves(t), Below(comp, d, true), a) && FindLeafNode(t, d, comp, true) == Ok(Some(Leaves(t)[a]));
  }

  /** On a chain the next link is new, exists, and is the next leaf. */
  lemma NextLink<K, V>(t: BTree<K, V>, l: seq<nat>, b: nat)
    requires Chained(t, l) && 0 < b <= |l|
    ensures t.nodes[l[b - 1]].fLink == 0 <==> b == |l|
    ensures b < |l| ==> t.nodes[l[b - 1]].fLink == l[b] && l[b] in t.nodes && l[b] !in l[..b]
  {
  }

  // ---- What the searches find ----

  /** Range search is complete: every leaf that holds a record equal to `d` is in the range. */
  lemma RangeComplete<K(!new), V>(t: BTree<K, V>, comp: (K, K) -> int, d: K, a: nat, b: nat, i: nat, k: nat)
    requires WellFormed(t, comp) && IsRange(t, comp, d, Leaves(t), a, b)
    requires i < |Leaves(t)| && IsLeaf(t, Leaves(t)[i]) && k < |t.nodes[Leaves(t)[i]].body.recs|
    requires comp(t.nodes[Leaves(t)[i]].body.recs[k].0, d) == 0
    ensures a <= i < b
  {
    hide LeavesUnder, IndexKeysRight, Chained;
    var l := Leaves(t);
    var key := t.nodes[l[i]].body.recs[k].0;
    assert t.nodes[l[i]].body.recs[k] in t.nodes[l[i]].body.recs;
    if i < a {
      FirstRecord(t, l[a]);
      assert Precedes(t, comp, l[i], l[a]);
      BelowDownward(comp, d, key, t.nodes[l[a]].firstKey);
    } else if i >= b {
      FirstRecord(t, l[b]);
      FirstRecord(t, l[i]);
      if i > b {
        assert Precedes(t, comp, l[b], l[i]);
      }
      AboveAfter(t, comp, d, l[b], l[i], k);
    }
  }

  /** Which leaves a range search returns, by their first keys: those that do not start above `d`, or are the first
      leaf, and behind which no leaf starts below it. */
  lemma FoundLeaves<K(!new), V>(t: BTree<K, V>, comp: (K, K) -> int, d: K, rv: seq<nat>, i: nat)
    requires WellFormed(t, comp) && FoundRange(t, comp, d, rv) && i < |Leaves(t)|
    requires Leaves(t)[i] in t.nodes && (i + 1 < |Leaves(t)| ==> Leaves(t)[i + 1] in t.nodes)
    ensures Leaves(t)[i] in rv <==>
              && (i == 0 || comp(t.nodes[Leaves(t)[i]].firstKey, d) <= 0)
              && (i + 1 == |Leaves(t)| || comp(t.nodes[Leaves(t)[i + 1]].firstKey, d) >= 0)
  {
    hide LeavesUnder, IndexKeysRight, Chained, Sorted, IsRange;
    var l := Leaves(t);
    var a: nat, b: nat :| a < b <= |l| && IsRange(t, comp, d, l, a, b) && rv == l[a..b];
    InSlice(t, l, a, b, i);
    StartAndEnd(t, comp, d, a, b, i);
    if i + 1 < |l| {
      StartAndEnd(t, comp, d, a, b, i + 1);
    }
  }

  lemma InSlice<K, V>(t: BTree<K, V>, l: seq<nat>, a: nat, b: nat, i: nat)
    requires Chained(t, l) && a < b <= |l| && i < |l|
    ensures l[i] in l[a..b] <==> a <= i < b
  {
    if a <= i < b {
      assert l[a..b][i - a] == l[i];
    }
  }

  /** The first keys of the leaves before, in and behind a range. */
  lemma StartAndEnd<K(!new), V>(t: BTree<K, V>, comp: (K, K) -> int, d: K, a: nat, b: nat, i: nat)
    requires WellFormed(t, comp) && IsRange(t, comp, d, Leaves(t), a, b)
    requires i < |Leaves(t)| && Leaves(t)[i] in t.nodes
    ensures var c := comp(t.nodes[Leaves(t)[i]].firstKey, d);
            && (i <= a && a > 0 ==> c < 0) && (i > a ==> c >= 0) && (a < i < b ==> c <= 0) && (i >= b ==> c > 0)
  {
    hide LeavesUnder, IndexKeysRight, Chained;
    var l := Leaves(t);
    if i < a {
      FirstKeysLe(t, comp, i, a);
      BelowDownward(comp, d, t.nodes[l[i]].firstKey, t.nodes[l[a]].firstKey);
    } else if i > b {
      FirstKeysLe(t, comp, b, i);
      BelowDownward(comp, d, t.nodes[l[b]].firstKey, t.nodes[l[i]].firstKey);
    }
  }

  lemma AboveAfter<K(!new), V>(t: BTree<K, V>, comp: (K, K) -> int, d: K, a: nat, b: nat, k: nat)
    requires IsPreorder(comp) && IsLeaf(t, a) && IsLeaf(t, b) && LeafSorted(t, comp, b)
    requires a == b || Precedes(t, comp, a, b)
    requires comp(t.nodes[a].firstKey, d) > 0 && k < |t.nodes[b].body.recs|
    ensures comp(t.nodes[b].body.recs[k].0, d) != 0
  {
    FirstNotAfter(t, comp, a, b, k);
    BelowDownward(comp, d, t.nodes[a].firstKey, t.nodes[b].body.recs[k].0);
  }

  lemma FirstRecord<K, V>(t: BTree<K, V>, n: nat)
    requires IsLeaf(t, n)
    ensures t.nodes[n].body.recs[0] in t.nodes[n].body.recs && t.nodes[n].firstKey == t.nodes[n].body.recs[0].0
  {
  }

  lemma FirstNotAfter<K(!new), V>(t: BTree<K, V>, comp: (K, K) -> int, a: nat, b: nat, k: nat)
    requires IsPreorder(comp) && IsLeaf(t, a) && IsLeaf(t, b) && LeafSorted(t, comp, b)
    requires a == b || Precedes(t, comp, a, b)
    requires k < |t.nodes[b].body.recs|
    ensures comp(t.nodes[a].firstKey, t.nodes[b].body.recs[k].0) <= 0
  {
    FirstRecord(t, a);
    var key := t.nodes[b].body.recs[k].0;
    if a == b && k == 0 {
      var refl := comp(key, key);
    }
    assert t.nodes[b].body.recs[k] in t.nodes[b].body.recs;
  }

  /** No two records compare equal. */
  ghost predicate Distinct<K, V>(t: BTree<K, V>, comp: (K, K) -> int)
    requires Ranked(t)
  {
    forall i, j, x, y | 0 <= i < j < |Leaves(t)| && IsLeaf(t, Leaves(t)[i]) && IsLeaf(t, Leaves(t)[j])
      && x in t.nodes[Leaves(t)[i]].body.recs && y in t.nodes[Leaves(t)[j]].body.recs :: comp(x.0, y.0) != 0
  }

  /** Exact descent ends in the only leaf that can hold the key, when keys are distinct. */
  lemma ExactDescent<K(!new), V>(t: BTree<K, V>, comp: (K, K) -> int, d: K) returns (a: nat)
    requires WellFormed(t, comp)
    ensures a < |Leaves(t)| && FindLeafNode(t, d, comp, false) == Ok(Some(Leaves(t)[a]))
    ensures Distinct(t, comp) ==>
              forall i, k |
                0 <= i < |Leaves(t)| && IsLeaf(t, Leaves(t)[i]) && 0 <= k < |t.nodes[Leaves(t)[i]].body.recs|
                && comp(t.nodes[Leaves(t)[i]].body.recs[k].0, d) == 0 :: i == a
  {
    hide LeavesUnder, IndexKeysRight, Sorted, Chained, Traverse, Distinct, IsPreorder;
    var l := Leaves(t);
    FirstKeysOrdered(t, comp, d, false);
    TraverseReaches(t, t.root, Below(comp, d, false));
    a :| StartsAt(t, l, Below(comp, d, false), a) && FindLeafNode(t, d, comp, false) == Ok(Some(l[a]));
    if Distinct(t, comp) {
      forall i, k | 0 <= i < |l| && IsLeaf(t, l[i]) && 0 <= k < |t.nodes[l[i]].body.recs|
        && comp(t.nodes[l[i]].body.recs[k].0, d) == 0
        ensures i == a
      {
        if i < a {
          ExactNotBefore(t, comp, d, l[i], l[a], i, a, k);
        } else if i > a {
          ExactNotAfter(t, comp, d, i, k);
        }
      }
    }
  }

  lemma ExactNotBefore<K(!new), V>(t: BTree<K, V>, comp: (K, K) -> int, d: K, n: nat, m: nat, i: nat, a: nat, k: nat)
    requires WellFormed(t, comp) && Distinct(t, comp) && i < a < |Leaves(t)| && n == Leaves(t)[i] && m == Leaves(t)[a]
    requires IsLeaf(t, n) && k < |t.nodes[n].body.recs| && m in t.nodes && !(comp(d, t.nodes[m].firstKey) < 0)
    ensures comp(t.nodes[n].body.recs[k].0, d) != 0
  {
    hide LeavesUnder, IndexKeysRight, Chained;
    FirstRecord(t, m);
    var rec, first := t.nodes[n].body.recs[k], t.nodes[m].body.recs[0];
    assert rec in t.nodes[n].body.recs;
    assert Precedes(t, comp, n, m);
    StrictlyBelow(comp, rec.0, first.0, d);
  }

  lemma StrictlyBelow<K(!new)>(comp: (K, K) -> int, x: K, y: K, d: K)
    requires IsPreorder(comp) && comp(x, y) <= 0 && comp(x, y) != 0 && !(comp(d, y) < 0)
    ensures comp(x, d) < 0
  {
    var yd, dx, yx := comp(y, d), comp(d, x), comp(y, x);
  }

  lemma ExactNotAfter<K(!new), V>(t: BTree<K, V>, comp: (K, K) -> int, d: K, i: nat, k: nat)
    requires WellFormed(t, comp) && i < |Leaves(t)| && IsLeaf(t, Leaves(t)[i])
    requires k < |t.nodes[Leaves(t)[i]].body.recs| && comp(d, t.nodes[Leaves(t)[i]].firstKey) < 0
    ensures comp(t.nodes[Leaves(t)[i]].body.recs[k].0, d) != 0
  {
    hide LeavesUnder, IndexKeysRight, Chained;
    var n := Leaves(t)[i];
    FirstNotAfter(t, comp, n, n, k);
    var key := t.nodes[n].body.recs[k].0;
    BelowDownward(comp, d, t.nodes[n].firstKey, key);
    var yd, dy := comp(key, d), comp(d, key);
  }

  // ---- The records of a list of leaves ----

  function RecordsOf<K, V>(t: BTree<K, V>, n: nat): seq<(K, V)> {
    if n in t.nodes && t.nodes[n].body.LeafNode? then t.nodes[n].body.recs else []
  }

  ghost function Records<K, V>(t: BTree<K, V>, l: seq<nat>): seq<(K, V)> {
    if l == [] then [] else RecordsOf(t, l[0]) + Records(t, l[1..])
  }

  ghost function Select<R>(rs: seq<R>, wanted: R -> bool): seq<R> {
    if rs == [] then []
    else (if wanted(rs[0]) then [rs[0]] else []) + Select(rs[1..], wanted)
  }

  lemma {:induction false} SelectAppend<R>(a: seq<R>, b: seq<R>, wanted: R -> bool)
    ensures Select(a + b, wanted) == Select(a, wanted) + Select(b, wanted)
  {
    if a == [] {
      assert a + b == b;
    } else {
      assert (a + b)[0] == a[0] && (a + b)[1..] == a[1..] + b;
      SelectAppend(a[1..], b, wanted);
      JoinJoin(if wanted(a[0]) then [a[0]] else [], Select(a[1..], wanted), Select(b, wanted));
    }
  }

  lemma JoinJoin<T>(x: seq<T>, y: seq<T>, z: seq<T>)
    ensures x + (y + z) == x + y + z
  {
  }

  lemma SelectFrom<R>(rs: seq<R>, i: nat, wanted: R -> bool)
    requires i < |rs|
    ensures Select(rs[i..], wanted) == (if wanted(rs[i]) then [rs[i]] else []) + Select(rs[i + 1..], wanted)
  {
    assert rs[i..][1..] == rs[i + 1..];
  }

  lemma WalkInTree<K, V>(t: BTree<K, V>, l: seq<nat>)
    requires Walk(t, l)
    ensures forall i | 0 <= i < |l| :: l[i] in t.nodes
  {
  }

  lemma NothingLeft<K, V>(t: BTree<K, V>, l: seq<nat>, wanted: ((K, V)) -> bool)
    ensures Select(Records(t, l[|l|..]), wanted) == []
  {
  }

  lemma LeafThenRest<K, V>(t: BTree<K, V>, l: seq<nat>, i: nat, wanted: ((K, V)) -> bool)
    requires i < |l| && l[i] in t.nodes
    ensures Select(Records(t, l[i..]), wanted)
            == Select(RecordsOf(t, l[i]), wanted) + Select(Records(t, l[i + 1..]), wanted)
  {
    hide Select;
    assert l[i..][0] == l[i] && l[i..][1..] == l[i + 1..];
    SelectAppend(RecordsOf(t, l[i]), Records(t, l[i + 1..]), wanted);
  }

  lemma {:induction false} SelectNone<R>(rs: seq<R>, wanted: R -> bool)
    requires forall r | r in rs :: !wanted(r)
    ensures Select(rs, wanted) == []
  {
    if rs != [] {
      SelectNone(rs[1..], wanted);
    }
  }

  lemma {:induction false} RecordsAppend<K, V>(t: BTree<K, V>, a: seq<nat>, b: seq<nat>)
    ensures Records(t, a + b) == Records(t, a) + Records(t, b)
  {
    if a == [] {
      assert a + b == b;
    } else {
      assert (a + b)[1..] == a[1..] + b;
      RecordsAppend(t, a[1..], b);
    }
  }

  lemma {:induction false} RecordsFrom<K, V>(t: BTree<K, V>, l: seq<nat>, r: (K, V)) returns (i: nat, k: nat)
    requires r in Records(t, l)
    ensures i < |l| && l[i] in t.nodes && t.nodes[l[i]].body.LeafNode?
    ensures k < |t.nodes[l[i]].body.recs| && t.nodes[l[i]].body.recs[k] == r
  {
    if l[0] in t.nodes && t.nodes[l[0]].body.LeafNode? && r in t.nodes[l[0]].body.recs {
      i := 0;
      k :| 0 <= k < |t.nodes[l[0]].body.recs| && t.nodes[l[0]].body.recs[k] == r;
    } else {
      i, k := RecordsFrom(t, l[1..], r);
      i := i + 1;
    }
  }

  // ---- The records of a tree, in order ----

  /** Record `k` of a leaf stands behind the records of the leaves before it. */
  lemma {:induction false} RecordsAt<K, V>(t: BTree<K, V>, l: seq<nat>, i: nat, k: nat)
    requires i < |l| && k < |RecordsOf(t, l[i])|
    ensures var p := |Records(t, l[..i])| + k; p < |Records(t, l)| && Records(t, l)[p] == RecordsOf(t, l[i])[k]
  {
    hide RecordsOf;
    assert l == l[..i] + l[i..];
    RecordsAppend(t, l[..i], l[i..]);
    assert l[i..][0] == l[i];
  }

  /** Every record of the list is one of those. */
  lemma {:induction false} RecordsIndex<K, V>(t: BTree<K, V>, l: seq<nat>, p: nat) returns (i: nat, k: nat)
    requires p < |Records(t, l)|
    ensures i < |l| && k < |RecordsOf(t, l[i])| && p == |Records(t, l[..i])| + k
    ensures Records(t, l)[p] == RecordsOf(t, l[i])[k]
    decreases |l|
  {
    hide RecordsOf;
    var n := |RecordsOf(t, l[0])|;
    if p < n {
      i, k := 0, p;
      assert l[..0] == [];
    } else {
      i, k := RecordsIndex(t, l[1..], p - n);
      i := i + 1;
      assert l[..i][0] == l[0] && l[..i][1..] == l[1..][..i - 1];
    }
  }

  lemma RecordsBefore<K, V>(t: BTree<K, V>, l: seq<nat>, i: nat, j: nat)
    requires i < j < |l|
    ensures |Records(t, l[..i])| + |RecordsOf(t, l[i])| <= |Records(t, l[..j])|
  {
    hide RecordsOf;
    var rest := l[i..j];
    assert l[..j] == l[..i] + rest && rest[0] == l[i];
    RecordsAppend(t, l[..i], rest);
  }

  /** The leaves are there, reached by index records with the right keys, and linked in that order. Nothing here
      depends on how keys compare. */
  ghost predicate Connected<K, V>(t: BTree<K, V>) {
    && Ranked(t) && IndexKeysRight(t, t.root)
    && var l := LeavesUnder(t, t.root);
       |l| > 0 && Chained(t, l) && forall i | 0 <= i < |l| :: IsLeaf(t, l[i])
  }

  ghost predicate Ascending<K, V>(rs: seq<(K, V)>, comp: (K, K) -> int) {
    forall p, q | 0 <= p < q < |rs| :: comp(rs[p].0, rs[q].0) <= 0
  }

  /** A tree is well-formed exactly when it hangs together and its records, read leaf by leaf, are in order. */
  lemma WellFormedIff<K(!new), V>(t: BTree<K, V>, comp: (K, K) -> int)
    ensures WellFormed(t, comp) <==> Connected(t) && IsPreorder(comp) && Ascending(Records(t, Leaves(t)), comp)
  {
    hide LeavesUnder, IndexKeysRight, Chained, IsPreorder, Records;
    if Connected(t) {
      var l := Leaves(t);
      if Ascending(Records(t, l), comp) {
        forall i | 0 <= i < |l|
          ensures LeafSorted(t, comp, l[i])
        {
          LeafAscending(t, l, comp, i);
        }
        forall i, j | 0 <= i < j < |l|
          ensures Precedes(t, comp, l[i], l[j])
        {
          LeavesAscending(t, l, comp, i, j);
        }
      }
      if Sorted(t, comp, l) {
        forall p, q | 0 <= p < q < |Records(t, l)|
          ensures comp(Records(t, l)[p].0, Records(t, l)[q].0) <= 0
        {
          SortedAscends(t, l, comp, p, q);
        }
      }
    }
  }

  lemma LeafAscending<K, V>(t: BTree<K, V>, l: seq<nat>, comp: (K, K) -> int, i: nat)
    requires i < |l| && IsLeaf(t, l[i]) && Ascending(Records(t, l), comp)
    ensures LeafSorted(t, comp, l[i])
  {
    hide Records;
    var rs := t.nodes[l[i]].body.recs;
    forall x, y | 0 <= x < y < |rs|
      ensures comp(rs[x].0, rs[y].0) <= 0
    {
      RecordsAt(t, l, i, x);
      RecordsAt(t, l, i, y);
    }
  }

  lemma LeavesAscending<K, V>(t: BTree<K, V>, l: seq<nat>, comp: (K, K) -> int, i: nat, j: nat)
    requires i < j < |l| && IsLeaf(t, l[i]) && IsLeaf(t, l[j]) && Ascending(Records(t, l), comp)
    ensures Precedes(t, comp, l[i], l[j])
  {
    hide Records;
    RecordsBefore(t, l, i, j);
    var a, b := t.nodes[l[i]].body.recs, t.nodes[l[j]].body.recs;
    forall x, y | x in a && y in b
      ensures comp(x.0, y.0) <= 0
    {
      var m :| 0 <= m < |a| && a[m] == x;
      var n :| 0 <= n < |b| && b[n] == y;
      RecordsAt(t, l, i, m);
      RecordsAt(t, l, j, n);
    }
  }

  lemma SortedAscends<K, V>(t: BTree<K, V>, l: seq<nat>, comp: (K, K) -> int, p: nat, q: nat)
    requires Sorted(t, comp, l) && p < q < |Records(t, l)|
    ensures comp(Records(t, l)[p].0, Records(t, l)[q].0) <= 0
  {
    hide Records;
    var i, m := RecordsIndex(t, l, p);
    var j, n := RecordsIndex(t, l, q);
    if i < j {
      assert Precedes(t, comp, l[i], l[j]);
      assert RecordsOf(t, l[i])[m] in t.nodes[l[i]].body.recs && RecordsOf(t, l[j])[n] in t.nodes[l[j]].body.recs;
    } else if j < i {
      RecordsBefore(t, l, j, i);
    } else {
      assert LeafSorted(t, comp, l[i]);
    }
  }

  /** How many of the first `i` elements are wanted. */
  ghost function Count<R>(rs: seq<R>, wanted: R -> bool, i: nat): nat
    requires i <= |rs|
  {
    if i == 0 then 0 else Count(rs, wanted, i - 1) + (if wanted(rs[i - 1]) then 1 else 0)
  }

  /** Selecting keeps the wanted elements, each as often as it is there, in their order. */
  lemma {:induction false} SelectInOrder<R>(rs: seq<R>, wanted: R -> bool)
    ensures |Select(rs, wanted)| == Count(rs, wanted, |rs|)
    ensures forall i | 0 <= i < |rs| && wanted(rs[i]) ::
              Count(rs, wanted, i) < |Select(rs, wanted)| && Select(rs, wanted)[Count(rs, wanted, i)] == rs[i]
  {
    if rs != [] {
      var front, last := rs[..|rs| - 1], [rs[|rs| - 1]];
      assert rs == front + last;
      SelectInOrder(front, wanted);
      SelectAppend(front, last, wanted);
      assert Select(last[1..], wanted) == [];
      forall i | 0 <= i < |rs|
        ensures Count(rs, wanted, i) == Count(front, wanted, i)
      {
        CountFront(rs, wanted, i);
      }
    }
  }

  lemma {:induction false} CountFront<R>(rs: seq<R>, wanted: R -> bool, i: nat)
    requires i < |rs|
    ensures Count(rs, wanted, i) == Count(rs[..|rs| - 1], wanted, i)
  {
    if i > 0 {
      CountFront(rs, wanted, i - 1);
    }
  }

  /** Searching the range is searching the whole tree, for records that compare equal to `d`. */
  lemma RangeHasAll<K(!new), V>(t: BTree<K, V>, comp: (K, K) -> int, d: K, a: nat, b: nat, wanted: ((K, V)) -> bool)
    requires WellFormed(t, comp) && IsRange(t, comp, d, Leaves(t), a, b)
    requires forall r :: wanted(r) ==> comp(r.0, d) == 0
    ensures Select(Records(t, Leaves(t)[a..b]), wanted) == Select(Records(t, Leaves(t)), wanted)
  {
    hide LeavesUnder, IndexKeysRight, Chained, Sorted, IsPreorder, IsRange, Records, Select;
    var l := Leaves(t);
    RangeBounds(t, comp, d, l, a, b);
    var x, y, z := l[..a], l[a..b], l[b..];
    assert l == x + (y + z);
    RecordsAppend(t, x, y + z);
    RecordsAppend(t, y, z);
    SelectAppend(Records(t, x), Records(t, y + z), wanted);
    SelectAppend(Records(t, y), Records(t, z), wanted);
    forall r | r in Records(t, x)
      ensures !wanted(r)
    {
      var i, k := RecordsFrom(t, x, r);
      NotOutside(t, comp, d, a, b, i, k);
    }
    SelectNone(Records(t, x), wanted);
    forall r | r in Records(t, z)
      ensures !wanted(r)
    {
      var i, k := RecordsFrom(t, z, r);
      NotOutside(t, comp, d, a, b, b + i, k);
    }
    SelectNone(Records(t, z), wanted);
    assert Select(Records(t, y), wanted) + [] == Select(Records(t, y), wanted);
  }

  lemma FoundHasAll<K(!new), V>(t: BTree<K, V>, comp: (K, K) -> int, d: K, rv: seq<nat>, wanted: ((K, V)) -> bool)
    requires WellFormed(t, comp) && FoundRange(t, comp, d, rv)
    requires forall r :: wanted(r) ==> comp(r.0, d) == 0
    ensures Select(Records(t, rv), wanted) == Select(Records(t, Leaves(t)), wanted)
  {
    hide LeavesUnder, IndexKeysRight, Chained, Sorted, IsPreorder, IsRange, Records, Select;
    var a: nat, b: nat :| a < b <= |Leaves(t)| && IsRange(t, comp, d, Leaves(t), a, b) && rv == Leaves(t)[a..b];
    RangeHasAll(t, comp, d, a, b, wanted);
  }

  lemma RangeBounds<K, V>(t: BTree<K, V>, comp: (K, K) -> int, d: K, l: seq<nat>, a: nat, b: nat)
    requires IsRange(t, comp, d, l, a, b)
    ensures a < b <= |l|
  {
  }

  lemma NotOutside<K(!new), V>(t: BTree<K, V>, comp: (K, K) -> int, d: K, a: nat, b: nat, i: nat, k: nat)
    requires WellFormed(t, comp) && IsRange(t, comp, d, Leaves(t), a, b)
    requires i < |Leaves(t)| && (i < a || b <= i)
    requires Leaves(t)[i] in t.nodes && t.nodes[Leaves(t)[i]].body.LeafNode?
    requires k < |t.nodes[Leaves(t)[i]].body.recs|
    ensures comp(t.nodes[Leaves(t)[i]].body.recs[k].0, d) != 0
  {
    hide LeavesUnder, IndexKeysRight, Chained, IsRange, IsPreorder;
    assert IsLeaf(t, Leaves(t)[i]);
    if comp(t.nodes[Leaves(t)[i]].body.recs[k].0, d) == 0 {
      RangeComplete(t, comp, d, a, b, i, k);
    }
  }
}
