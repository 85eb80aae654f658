/** Paths, directory listings and hard links over the catalog tree (src/HFSCatalogBTree.cpp). Names are the UTF-8
    forms of the stored ones; `fold` stands for case folding. */
module Catalog {
  import opened Bytes
  import opened BTrees

  const ROOT_PARENT_ID: nat := 1
  const ROOT_FOLDER_ID: nat := 2
  const HARD_LINK_FILE_TYPE: nat := 0x686C6E6B
  const PRIVATE_DATA: string := "\0\0\0\0HFS+ Private Data"

  datatype Key = Key(parentID: nat, name: string)

  /** A file or folder record. Both kinds keep their number, file type and link number at the same place. */
  datatype Entry = Entry(isFolder: bool, id: nat, fileType: nat, iNode: nat)

  datatype Data = Item(entry: Entry) | Thread

  type Record = (Key, Data)

  type Tree = BTree<Key, Data>

  /** How a mounted volume compares names, and where it keeps the targets of hard links (0 when it has none). */
  datatype Volume = Volume(caseSensitive: bool, fold: string -> string, hardLinkDirID: nat)

  function IdOnlyComparator(index: Key, desired: Key): int {
    if desired.parentID > index.parentID then -1
    else if index.parentID > desired.parentID then 1
    else 0
  }

  /** The comparator orders keys by their directory and cannot tell the records of one directory apart. */
  lemma IdOnlyComparatorIsPreorder()
    ensures IsPreorder(IdOnlyComparator)
    ensures forall a, b ::
              && (IdOnlyComparator(a, b) < 0 <==> a.parentID < b.parentID)
              && (IdOnlyComparator(a, b) == 0 <==> a.parentID == b.parentID)
              && (IdOnlyComparator(a, b) > 0 <==> a.parentID > b.parentID)
  {
  }

  /** The tree as the volume keeps it: its records, read leaf by leaf, ascend by the number of their directory. */
  ghost predicate ByDirectory(t: Tree) {
    && Connected(t)
    && var rs := Records(t, Leaves(t));
       forall p, q | 0 <= p < q < |rs| :: rs[p].0.parentID <= rs[q].0.parentID
  }

  /** Those are the trees the search is right on. */
  lemma ByDirectoryIff(t: Tree)
    ensures ByDirectory(t) <==> WellFormed(t, IdOnlyComparator)
  {
    hide Connected, WellFormed, Records, LeavesUnder;
    IdOnlyComparatorIsPreorder();
    WellFormedIff(t, IdOnlyComparator);
  }

  // ---- Text ----

  function Replaced(s: string, oldChar: char, newChar: char): (t: string)
    ensures |t| == |s|
    ensures forall i | 0 <= i < |s| :: t[i] == if s[i] == oldChar then newChar else s[i]
  {
    seq(|s|, i requires 0 <= i < |s| => if s[i] == oldChar then newChar else s[i])
  }

  /** The first place of `c` in `s`, or |s|. */
  function Find(s: string, c: char, pos: nat): (p: nat)
    requires pos <= |s|
    ensures pos <= p <= |s| && c !in s[pos..p]
    ensures p < |s| ==> s[p] == c
    decreases |s| - pos
  {
    if pos == |s| || s[pos] == c then pos else Find(s, c, pos + 1)
  }

  method ReplaceChars(s: string, oldChar: char, newChar: char) returns (t: string)
    ensures t == Replaced(s, oldChar, newChar)
  {
    t := s;
    var pos := Find(t, oldChar, 0);
    ghost var from: nat := 0;
    while pos < |t|
      invariant from <= pos <= |t| == |s|
      invariant forall i | 0 <= i < from :: t[i] == Replaced(s, oldChar, newChar)[i]
      invariant forall i | from <= i < |s| :: t[i] == s[i]
      invariant oldChar !in t[from..pos] && (pos < |t| ==> t[pos] == oldChar)
    {
      assert forall i | from <= i < pos :: t[i] == t[from..pos][i - from];
      t := t[pos := newChar];
      from := pos + 1;
      pos := Find(t, oldChar, pos + 1);
    }
    assert forall i | from <= i < pos :: t[i] == t[from..pos][i - from];
  }

  /** How a stored name is shown, and how a path element is stored. */
  function Shown(name: string): string { Replaced(name, '/', ':') }

  function Stored(elem: string): string { Replaced(elem, ':', '/') }

  lemma ShownStored(name: string)
    ensures Stored(Shown(name)) == name <==> ':' !in name
    ensures '/' !in Shown(name)
  {
    if ':' !in name {
      assert forall i | 0 <= i < |name| :: name[i] in name;
    } else {
      var i :| 0 <= i < |name| && name[i] == ':';
      assert Stored(Shown(name))[i] == '/';
    }
  }

  lemma StoredShown(elem: string)
    requires '/' !in elem
    ensures Shown(Stored(elem)) == elem && ':' !in Stored(elem)
  {
    assert forall i | 0 <= i < |elem| :: elem[i] in elem;
  }

  // ---- Paths ----

  /** What std::getline yields for `s`, line by line. */
  function Split(s: string, delim: char): (elems: seq<string>) {
    if s == "" then []
    else
      var p := Find(s, delim, 0);
      if p == |s| then [s] else [s[..p]] + Split(s[p + 1..], delim)
  }

  method SplitPath(s: string, delim: char, elems: seq<string>) returns (out: seq<string>)
    ensures out == elems + Split(s, delim)
  {
    var rest := s;
    out := elems;
    while rest != ""
      invariant elems + Split(s, delim) == out + Split(rest, delim)
      decreases |rest|
    {
      var p := Find(rest, delim, 0);
      ghost var line, more := rest[..p], if p == |rest| then [] else Split(rest[p + 1..], delim);
      assert out + ([line] + more) == out + [line] + more;
      if p == |rest| {
        assert rest[..p] == rest;
        out, rest := out + [rest], "";
      } else {
        out, rest := out + [rest[..p]], rest[p + 1..];
      }
    }
    assert out + [] == out;
  }

  function TrimFront(path: string): string {
    if |path| > 0 && path[0] == '/' then path[1..] else path
  }

  function TrimBack(path: string): string {
    if |path| > 0 && path[|path| - 1] == '/' then path[..|path| - 1] else path
  }

  /** The path without one leading and one trailing slash. */
  function Trim(path: string): string {
    TrimBack(TrimFront(path))
  }

  function Elements(path: string): (elems: seq<string>)
    ensures |elems| > 0
  {
    [""] + Split(Trim(path), '/')
  }

  /** `elem` inside the directory `path`. */
  function Join(path: string, elem: string): string {
    if |path| > 0 && path[|path| - 1] == '/' then path + elem else path + "/" + elem
  }

  predicate EndsInTwoSlashes(path: string) {
    |path| >= 2 && path[|path| - 2..] == "//"
  }

  lemma {:induction false} FindAtMost(s: string, c: char, pos: nat, i: nat)
    requires pos <= i < |s| && s[i] == c
    ensures Find(s, c, pos) <= i
    decreases i - pos
  {
    if pos < i {
      FindAtMost(s, c, pos + 1, i);
    }
  }

  lemma {:induction false} FindNowhere(s: string, c: char, pos: nat)
    requires pos <= |s| && c !in s
    ensures Find(s, c, pos) == |s|
    decreases |s| - pos
  {
    if pos < |s| {
      assert s[pos] in s;
      FindNowhere(s, c, pos + 1);
    }
  }

  lemma {:induction false} FindIsFirst(s: string, c: char, pos: nat, p: nat)
    requires pos <= p < |s| && s[p] == c && c !in s[pos..p]
    ensures Find(s, c, pos) == p
    decreases p - pos
  {
    if pos < p {
      assert s[pos..p][0] == s[pos] && s[pos + 1..p] == s[pos..p][1..];
      FindIsFirst(s, c, pos + 1, p);
    }
  }

  /** Where a line ends in the joined text, when the first part does not end in the delimiter. */
  lemma {:induction false} SplitJoined(t: string, delim: char, e: string)
    requires t != "" && t[|t| - 1] != delim && e != "" && delim !in e
    ensures Split(t + [delim] + e, delim) == Split(t, delim) + [e]
    decreases |t|
  {
    hide Split;
    var s, p := t + [delim] + e, Find(t, delim, 0);
    if p == |t| {
      assert t[0..p] == t;
      SplitOne(t, delim);
      SplitOne(e, delim);
      assert s[..p] == t && s[p + 1..] == e;
      SplitStep(s, delim, p);
    } else {
      assert t[0..p] == t[..p] == s[..p] && s[p + 1..] == t[p + 1..] + [delim] + e;
      SplitStep(t, delim, p);
      SplitStep(s, delim, p);
      SplitJoined(t[p + 1..], delim, e);
      assert [s[..p]] + (Split(t[p + 1..], delim) + [e]) == [s[..p]] + Split(t[p + 1..], delim) + [e];
    }
  }

  /** When the first part ends in the delimiter, or is empty, an empty line comes between. */
  lemma {:induction false} SplitDoubled(t: string, delim: char, e: string)
    requires (t == "" || t[|t| - 1] == delim) && e != "" && delim !in e
    ensures Split(t + [delim] + e, delim) == Split(t, delim) + ["", e]
    decreases |t|
  {
    hide Split;
    var s, p := t + [delim] + e, Find(t, delim, 0);
    if t == "" {
      SplitOne(e, delim);
      EmptySplit(delim);
      SplitStep(s, delim, 0);
      assert s[..0] == "" && s[1..] == e;
    } else {
      FindAtMost(t, delim, 0, |t| - 1);
      assert t[0..p] == t[..p] == s[..p] && s[p + 1..] == t[p + 1..] + [delim] + e;
      SplitStep(t, delim, p);
      SplitStep(s, delim, p);
      SplitDoubled(t[p + 1..], delim, e);
      assert [s[..p]] + (Split(t[p + 1..], delim) + ["", e]) == [s[..p]] + Split(t[p + 1..], delim) + ["", e];
    }
  }

  lemma SplitOne(e: string, delim: char)
    requires e != "" && delim !in e
    ensures Split(e, delim) == [e]
  {
    FindNowhere(e, delim, 0);
  }

  lemma SplitStep(s: string, delim: char, p: nat)
    requires p < |s| && s[p] == delim && delim !in s[..p]
    ensures Split(s, delim) == [s[..p]] + Split(s[p + 1..], delim)
  {
    assert s[0..p] == s[..p];
    FindIsFirst(s, delim, 0, p);
  }

  /** Adding a name to a path adds it to the elements walked, unless the path ends in two slashes: then the
      walk meets an empty element first. */
  lemma JoinElements(path: string, e: string)
    requires e != "" && '/' !in e
    ensures Elements(Join(path, e)) ==
            if EndsInTwoSlashes(path) then Elements(path) + ["", e] else Elements(path) + [e]
  {
    hide Split, Trim, TrimFront, TrimBack, Join, EndsInTwoSlashes;
    var t := Trim(path);
    TrimJoined(path, e);
    if path == "" || path == "/" {
      SplitOne(e, '/');
      EmptySplit('/');
    } else if t == "" || t[|t| - 1] == '/' {
      SplitDoubled(t, '/', e);
      assert [""] + (Split(t, '/') + ["", e]) == [""] + Split(t, '/') + ["", e];
    } else {
      SplitJoined(t, '/', e);
      assert [""] + (Split(t, '/') + [e]) == [""] + Split(t, '/') + [e];
    }
  }

  lemma TrimJoined(path: string, e: string)
    requires e != "" && '/' !in e
    ensures var t := Trim(path);
            if path == "" || path == "/" then t == "" && Trim(Join(path, e)) == e && !EndsInTwoSlashes(path)
            else Trim(Join(path, e)) == t + ['/'] + e && (EndsInTwoSlashes(path) <==> t == "" || t[|t| - 1] == '/')
  {
    hide EndsInTwoSlashes, TrimFront, TrimBack, Join;
    EndOf(path);
    LastOf(e);
    if path == "" || path == "/" {
      FrontOf(path);
      FrontJoined(path, e);
      BackKept("");
      BackKept(e);
    } else if path[|path| - 1] == '/' {
      TrimBehindSlash(path, e);
    } else {
      TrimBehindName(path, e);
    }
  }

  lemma TrimBehindSlash(path: string, e: string)
    requires path != "" && path != "/" && path[|path| - 1] == '/' && e != "" && '/' !in e
    ensures var t := Trim(path);
            && Trim(Join(path, e)) == t + ['/'] + e && |path| >= 2
            && (path[|path| - 2] == '/' <==> t == "" || t[|t| - 1] == '/')
  {
    hide TrimFront, TrimBack, Join;
    FrontOf(path);
    FrontJoined(path, e);
    LastOf(e);
    BackJoined(TrimFront(path), e);
    BackLast(TrimFront(path), path);
  }

  lemma TrimBehindName(path: string, e: string)
    requires path != "" && path[|path| - 1] != '/' && e != "" && '/' !in e
    ensures Trim(path) != "" && Trim(path)[|Trim(path)| - 1] == path[|path| - 1]
    ensures Trim(Join(path, e)) == Trim(path) + ['/'] + e
  {
    hide TrimFront, TrimBack, Join;
    FrontOf(path);
    FrontJoined(path, e);
    LastOf(e);
    BackKept(TrimFront(path));
    BackKept(TrimFront(path) + ['/'] + e);
  }

  lemma BackJoined(q: string, e: string)
    requires q != "" && q[|q| - 1] == '/' && e != "" && e[|e| - 1] != '/'
    ensures TrimBack(q + e) == TrimBack(q) + ['/'] + e
  {
    BackCut(q);
    assert q + e == TrimBack(q) + ['/'] + e;
  }

  lemma BackLast(q: string, path: string)
    requires q != "" && q[|q| - 1] == '/' && (|q| == |path| || (|q| == |path| - 1 && path[0] == '/'))
    requires forall i | 0 <= i < |q| :: q[i] == path[|path| - |q| + i]
    requires path != "/"
    ensures var t := TrimBack(q);
            |path| >= 2 && (path[|path| - 2] == '/' <==> t == "" || t[|t| - 1] == '/')
  {
    if |q| >= 2 {
      assert q[|q| - 2] == path[|path| - 2];
    }
  }

  lemma LastOf(e: string)
    requires e != "" && '/' !in e
    ensures e[|e| - 1] != '/'
  {
    assert e[|e| - 1] in e;
  }

  lemma FrontOf(path: string)
    ensures var q := TrimFront(path);
            if path == "" || path == "/" then q == ""
            else q != "" && q[|q| - 1] == path[|path| - 1] && (|q| == |path| || (|q| == |path| - 1 && path[0] == '/'))
                 && forall i | 0 <= i < |q| :: q[i] == path[|path| - |q| + i]
  {
  }

  lemma FrontJoined(path: string, e: string)
    requires e != "" && e[0] != '/'
    ensures TrimFront(Join(path, e)) ==
            if path == "" || path == "/" then e
            else if path[|path| - 1] == '/' then TrimFront(path) + e
            else TrimFront(path) + ['/'] + e
  {
    var j, q := Join(path, e), TrimFront(path);
    if path != "" {
      if path[0] == '/' {
        assert path + e == ['/'] + (q + e) && path + "/" + e == ['/'] + (q + ['/'] + e);
      } else {
        assert path + "/" + e == q + ['/'] + e;
      }
    }
  }

  lemma BackKept(s: string)
    requires s == "" || s[|s| - 1] != '/'
    ensures TrimBack(s) == s
  {
  }

  lemma BackCut(s: string)
    requires s != "" && s[|s| - 1] == '/'
    ensures TrimBack(s) + ['/'] == s
  {
  }

  lemma EndOf(path: string)
    ensures EndsInTwoSlashes(path) <==> |path| >= 2 && path[|path| - 1] == '/' && path[|path| - 2] == '/'
  {
    if |path| >= 2 {
      assert path[|path| - 2..] == [path[|path| - 2], path[|path| - 1]];
    }
  }

  lemma EmptySplit(delim: char)
    ensures Split("", delim) == []
  {
  }

  // ---- The records of one directory ----

  predicate SameName(v: Volume, stored: string, elem: string) {
    if v.caseSensitive then stored == elem else v.fold(stored) == v.fold(elem)
  }

  /** The leaf filter: an empty name matches every record of the directory. */
  function Matches(v: Volume, parent: nat, name: string): Record -> bool {
    (r: Record) => r.1.Item? && r.0.parentID == parent && (name == "" || SameName(v, r.0.name, name))
  }

  /** The map the leaf filter fills: a later record of the same name takes the place of an earlier one. */
  ghost function Collect(rs: seq<Record>): map<string, Entry> {
    if rs == [] then map[] else Named(rs[0]) + Collect(rs[1..])
  }

  ghost function Named(r: Record): map<string, Entry> {
    if r.1.Item? then map[r.0.name := r.1.entry] else map[]
  }

  lemma {:induction false} CollectAppend(a: seq<Record>, b: seq<Record>)
    ensures Collect(a + b) == Collect(a) + Collect(b)
  {
    hide Named;
    if a == [] {
      assert a + b == b;
    } else {
      assert (a + b)[1..] == a[1..] + b && (a + b)[0] == a[0];
      CollectAppend(a[1..], b);
      MergeMerge(Named(a[0]), Collect(a[1..]), Collect(b));
    }
  }

  lemma MergeMerge(x: map<string, Entry>, y: map<string, Entry>, z: map<string, Entry>)
    ensures x + (y + z) == x + y + z
  {
  }

  lemma CollectOne(r: Record)
    requires r.1.Item?
    ensures Collect([r]) == map[r.0.name := r.1.entry]
  {
    assert [r][1..] == [];
  }

  ghost function Children(rs: seq<Record>, v: Volume, parent: nat, name: string): map<string, Entry> {
    Collect(Select(rs, Matches(v, parent, name)))
  }

  ghost function TheOnly(m: map<string, Entry>): Entry
    requires |m| == 1
  {
    assert m.Keys != {};
    var k :| k in m;
    m[k]
  }

  ghost function Child(rs: seq<Record>, v: Volume, parent: nat, name: string): Result<Option<Entry>> {
    var m := Children(rs, v, parent, name);
    if |m| == 0 then Ok(None) else if |m| > 1 then Throws(IoError) else Ok(Some(TheOnly(m)))
  }

  ghost function Descend(rs: seq<Record>, v: Volume, parent: nat, elems: seq<string>): Result<Option<Entry>>
    requires |elems| > 0
    decreases |elems|
  {
    match Child(rs, v, parent, Stored(elems[0]))
    case Throws(e) => Throws(e)
    case Ok(None) => Ok(None)
    case Ok(Some(e)) => if |elems| == 1 then Ok(Some(e)) else Descend(rs, v, e.id, elems[1..])
  }

  /** The record a path names, before hard links. */
  ghost function Lookup(rs: seq<Record>, v: Volume, path: string): Result<Option<Entry>> {
    Descend(rs, v, ROOT_PARENT_ID, Elements(path))
  }

  function Digit(d: nat): (c: char)
    requires d < 10
    ensures '0' <= c <= '9' && c as int - '0' as int == d
  {
    ('0' as int + d) as char
  }

  function Decimal(n: nat): string {
    (if n < 10 then "" else Decimal(n / 10)) + [Digit(n % 10)]
  }

  /** The number a string of decimal digits stands for. */
  function DecimalValue(s: string): nat {
    if s == "" then 0 else 10 * DecimalValue(s[..|s| - 1]) + DigitValue(s[|s| - 1])
  }

  function DigitValue(c: char): nat {
    if '0' <= c <= '9' then c as nat - '0' as nat else 0
  }

  lemma {:induction false} DecimalRoundTrip(n: nat)
    ensures DecimalValue(Decimal(n)) == n && |Decimal(n)| > 0
    ensures n > 0 ==> Decimal(n)[0] != '0'
    ensures forall c | c in Decimal(n) :: '0' <= c <= '9'
  {
    hide Digit;
    var d := [Digit(n % 10)];
    if n < 10 {
      assert Decimal(n) == d && d[..0] == "";
    } else {
      DecimalRoundTrip(n / 10);
      var front := Decimal(n / 10);
      assert Decimal(n) == front + d;
      assert (front + d)[..|front + d| - 1] == front;
    }
  }

  predicate IsLink(v: Volume, e: Entry) {
    e.fileType == HARD_LINK_FILE_TYPE && v.hardLinkDirID != 0
  }

  /** Where a hard link leads; a link whose target is gone stands for itself. */
  ghost function Redirect(rs: seq<Record>, v: Volume, e: Entry): Result<Option<Entry>> {
    if IsLink(v, e) then
      match Child(rs, v, v.hardLinkDirID, "iNode" + Decimal(e.iNode))
      case Throws(x) => Throws(x)
      case Ok(None) => Ok(Some(e))
      case Ok(Some(target)) => Ok(Some(target))
    else Ok(Some(e))
  }

  ghost function Resolve(rs: seq<Record>, v: Volume, path: string): Result<Option<Entry>> {
    match Lookup(rs, v, path)
    case Throws(e) => Throws(e)
    case Ok(None) => Ok(None)
    case Ok(Some(e)) => Redirect(rs, v, e)
  }

  predicate Hidden(dir: nat, name: string) {
    dir == ROOT_FOLDER_ID &&
    (name == "" || name[0] == '\0' ||
     name == ".HFS+ Private Directory Data\r" || name == ".journal" || name == ".journal_info_block")
  }

  datatype Listing = NoEntry | NotDirectory | Contents(entries: map<string, Entry>)

  /** The order of std::map's keys. */
  predicate Less(a: string, b: string) {
    b != "" && (a == "" || a[0] < b[0] || (a[0] == b[0] && Less(a[1..], b[1..])))
  }

  /** Of the names shown as `f`, the one that comes last. */
  ghost predicate ShownLast(children: map<string, Entry>, dir: nat, f: string, n: string) {
    && n in children && !Hidden(dir, n) && Shown(n) == f
    && forall m | m in children && !Hidden(dir, m) && Shown(m) == f :: !Less(n, m)
  }

  /** Every name that is not hidden is shown; of names shown alike, the one that comes last gives the entry. */
  ghost predicate IsListing(children: map<string, Entry>, dir: nat, entries: map<string, Entry>) {
    && (forall n | n in children && !Hidden(dir, n) :: Shown(n) in entries)
    && (forall f | f in entries :: exists n :: ShownLast(children, dir, f, n) && entries[f] == children[n])
  }

  lemma {:induction false} LessTotal(a: string, b: string)
    ensures a == b || Less(a, b) || Less(b, a)
    ensures !(Less(a, b) && Less(b, a))
  {
    if a != "" && b != "" && a[0] == b[0] {
      LessTotal(a[1..], b[1..]);
      assert a == [a[0]] + a[1..] && b == [b[0]] + b[1..];
    }
  }

  lemma {:induction false} LessTransitive(a: string, b: string, c: string)
    requires Less(a, b) && Less(b, c)
    ensures Less(a, c)
  {
    if a != "" && a[0] == b[0] && b[0] == c[0] {
      LessTransitive(a[1..], b[1..], c[1..]);
    }
  }

  lemma {:induction false} FirstName(names: set<string>) returns (n: string)
    requires names != {}
    ensures n in names && forall j | j in names :: !Less(j, n)
    decreases |names|
  {
    var x :| x in names;
    LessTotal(x, x);
    if names == {x} {
      n := x;
    } else {
      var m := FirstName(names - {x});
      LessTotal(x, m);
      n := if Less(x, m) then x else m;
      forall j | j in names && Less(j, n)
        ensures false
      {
        if n == x && j != x {
          LessTransitive(j, x, m);
        }
      }
    }
  }

  /** There is one listing of a directory. */
  lemma ListingUnique(children: map<string, Entry>, dir: nat, a: map<string, Entry>, b: map<string, Entry>)
    requires IsListing(children, dir, a) && IsListing(children, dir, b)
    ensures a == b
  {
    hide Hidden, Shown, Less;
    forall f | f in a
      ensures f in b
    {
      var n :| ShownLast(children, dir, f, n) && a[f] == children[n];
    }
    forall f | f in b
      ensures f in a && a[f] == b[f]
    {
      var m :| ShownLast(children, dir, f, m) && b[f] == children[m];
      var n :| ShownLast(children, dir, f, n) && a[f] == children[n];
      LessTotal(m, n);
    }
  }

  // ---- The catalog ----

  class HFSCatalogBTree {
    const tree: Tree
    const caseSensitive: bool
    const fold: string -> string
    var hardLinkDirID: nat

    constructor (tree: Tree, caseSensitive: bool, fold: string -> string)
      ensures this.tree == tree && View() == Volume(caseSensitive, fold, 0)
    {
      this.tree, this.caseSensitive, this.fold, hardLinkDirID := tree, caseSensitive, fold, 0;
    }

    function View(): Volume reads this { Volume(caseSensitive, fold, hardLinkDirID) }

    ghost function All(): seq<Record>
      requires Ranked(tree)
    {
      Records(tree, Leaves(tree))
    }

    /** The constructor proper: finds the directory of hard link targets, if the volume has one. */
    static method Open(tree: Tree, caseSensitive: bool, fold: string -> string) returns (r: Result<HFSCatalogBTree>)
      requires Ranked(tree)
      ensures r.Ok? ==> fresh(r.value) && r.value.tree == tree
      ensures ByDirectory(tree) ==>
                match Resolve(Records(tree, Leaves(tree)), Volume(caseSensitive, fold, 0), PRIVATE_DATA)
                case Throws(e) => r == Throws(e)
                case Ok(None) => r.Ok? && r.value.View() == Volume(caseSensitive, fold, 0)
                case Ok(Some(dir)) => r.Ok? && r.value.View() == Volume(caseSensitive, fold, dir.id)
    {
      hide ByDirectory, LeavesUnder, Resolve, Records;
      var c := new HFSCatalogBTree(tree, caseSensitive, fold);
      var s := c.Stat(PRIVATE_DATA);
      match s {
        case Throws(e) => return Throws(e);
        case Ok(None) =>
        case Ok(Some(dir)) => c.hardLinkDirID := dir.id;
      }
      return Ok(c);
    }

    /** The loop over one leaf. */
    method AppendFromLeaf(recs: seq<Record>, parent: nat, name: string, m: map<string, Entry>)
      returns (out: map<string, Entry>)
      ensures out == m + Collect(Select(recs, Matches(View(), parent, name)))
    {
      hide Select, Collect;
      var wanted := Matches(View(), parent, name);
      out := m;
      NoneCollected();
      assert recs[0..] == recs;
      for i := 0 to |recs|
        invariant m + Collect(Select(recs, wanted)) == out + Collect(Select(recs[i..], wanted))
      {
        SelectFrom(recs, i, wanted);
        ghost var rest := Select(recs[i + 1..], wanted);
        if wanted(recs[i]) {
          CollectOne(recs[i]);
          CollectAppend([recs[i]], rest);
          out := out[recs[i].0.name := recs[i].1.entry];
        } else {
          assert [] + rest == rest;
        }
      }
      SelectNone(recs[|recs|..], wanted);
    }

    /** The loop over the leaves of one directory. */
    method CollectMatching(parent: nat, name: string) returns (r: Result<map<string, Entry>>)
      requires Ranked(tree)
      ensures ByDirectory(tree) ==> r == Ok(Children(All(), View(), parent, name))
    {
      hide Select, Collect, Records, FoundRange, ByDirectory, WellFormed, LeavesUnder, Walk;
      ByDirectoryIff(tree);
      var found := FindLeafNodes(tree, Key(parent, ""), IdOnlyComparator);
      if found.Throws? {
        return Throws(found.error);
      }
      var l := found.value;
      ghost var wanted := Matches(View(), parent, name);
      WalkInTree(tree, l);
      ghost var all := Collect(Select(Records(tree, l), wanted));
      if ByDirectory(tree) {
        FoundAllChildren(tree, View(), parent, name, l);
      }
      var m: map<string, Entry> := map[];
      assert l[0..] == l;
      for i := 0 to |l|
        invariant all == m + Collect(Select(Records(tree, l[i..]), wanted))
      {
        LeafThenRest(tree, l, i, wanted);
        CollectAppend(Select(RecordsOf(tree, l[i]), wanted), Select(Records(tree, l[i + 1..]), wanted));
        m := AppendFromLeaf(RecordsOf(tree, l[i]), parent, name, m);
      }
      NothingLeft(tree, l, wanted);
      NoneCollected();
      assert m + map[] == m;
      return Ok(m);
    }

    method FindChild(parent: nat, elem: string) returns (r: Result<Option<Entry>>)
      requires Ranked(tree)
      ensures ByDirectory(tree) ==> r == Child(All(), View(), parent, elem)
    {
      hide Children, ByDirectory, LeavesUnder, Records;
      var found := CollectMatching(parent, elem);
      match found {
        case Throws(e) => return Throws(e);
        case Ok(m) =>
          if |m| == 0 {
            return Ok(None);
          }
          if |m| > 1 {
            return Throws(IoError);
          }
          assert m.Keys != {};
          var first :| first in m;
          SingleKey(m, first);
          return Ok(Some(m[first]));
      }
    }

    method Stat(path: string) returns (r: Result<Option<Entry>>)
      requires Ranked(tree)
      ensures ByDirectory(tree) ==> r == Resolve(All(), View(), path)
    {
      hide Child, ByDirectory, LeavesUnder, Records, Split, Replaced;
      var p := path;
      if |p| > 0 && p[0] == '/' {
        p := p[1..];
      }
      if |p| > 0 && p[|p| - 1] == '/' {
        p := p[..|p| - 1];
      }
      var elems := SplitPath(p, '/', [""]);
      assert elems == Elements(path);
      ghost var wf := ByDirectory(tree);
      var parent := ROOT_PARENT_ID;
      var last: Option<Entry> := None;
      assert elems[0..] == elems;
      for i := 0 to |elems|
        invariant last.None? <==> i == 0
        invariant parent == if last.Some? then last.value.id else ROOT_PARENT_ID
        invariant wf ==> Lookup(All(), View(), path) ==
                         if i < |elems| then Descend(All(), View(), parent, elems[i..]) else Ok(last)
      {
        assert i + 1 < |elems| ==> elems[i..][1..] == elems[i + 1..];
        var elem := ReplaceChars(elems[i], ':', '/');
        var found := FindChild(parent, elem);
        match found {
          case Throws(e) => return Throws(e);
          case Ok(None) => return Ok(None);
          case Ok(Some(e)) => last, parent := Some(e), e.id;
        }
      }
      var e := last.value;
      if e.fileType == HARD_LINK_FILE_TYPE && hardLinkDirID != 0 {
        var target := FindChild(hardLinkDirID, "iNode" + Decimal(e.iNode));
        match target {
          case Throws(x) => return Throws(x);
          case Ok(None) =>
          case Ok(Some(x)) => e := x;
        }
      }
      return Ok(Some(e));
    }

    method ListDirectory(path: string) returns (r: Result<Listing>)
      requires Ranked(tree)
      ensures ByDirectory(tree) ==>
                match Resolve(All(), View(), path)
                case Throws(e) => r == Throws(e)
                case Ok(None) => r == Ok(NoEntry)
                case Ok(Some(dir)) =>
                  if dir.isFolder then
                    r.Ok? && r.value.Contents?
                    && IsListing(Children(All(), View(), dir.id, ""), dir.id, r.value.entries)
                  else r == Ok(NotDirectory)
    {
      hide Resolve, Children, ByDirectory, LeavesUnder, Records, Hidden, Shown;
      var s := Stat(path);
      var dir: Entry;
      match s {
        case Throws(e) => return Throws(e);
        case Ok(None) => return Ok(NoEntry);
        case Ok(Some(d)) => dir := d;
      }
      if !dir.isFolder {
        return Ok(NotDirectory);
      }
      var found := CollectMatching(dir.id, "");
      if found.Throws? {
        return Throws(found.error);
      }
      var children := found.value;
      var entries: map<string, Entry> := map[];
      var left := children.Keys;
      while left != {}
        invariant left <= children.Keys && InOrder(children.Keys - left, left)
        invariant IsListing(map n | n in children && n !in left :: children[n], dir.id, entries)
        decreases |left|
      {
        ghost var least := FirstName(left);
        var name :| name in left && forall j | j in left :: !Less(j, name);
        ghost var seen, before := (map n | n in children && n !in left :: children[n]), left;
        left := left - {name};
        NextInOrder(children.Keys, before, name);
        assert (map n | n in children && n !in left :: children[n]) == seen[name := children[name]];
        if !Hidden(dir.id, name) {
          var shown := Swap(name);
          ListNext(seen, dir.id, entries, name, children[name]);
          entries := entries[shown := children[name]];
        } else {
          HideNext(seen, dir.id, entries, name, children[name]);
        }
      }
      assert (map n | n in children && n !in left :: children[n]) == children;
      return Ok(Contents(entries));
    }

    method Swap(name: string) returns (shown: string)
      ensures shown == Shown(name)
    {
      shown := ReplaceChars(name, '/', ':');
    }
  }

  lemma FoundAllChildren(t: Tree, v: Volume, parent: nat, name: string, l: seq<nat>)
    requires WellFormed(t, IdOnlyComparator) && FoundRange(t, IdOnlyComparator, Key(parent, ""), l)
    ensures Collect(Select(Records(t, l), Matches(v, parent, name))) == Children(Records(t, Leaves(t)), v, parent, name)
  {
    hide FoundRange, WellFormed, LeavesUnder, Records;
    FoundHasAll(t, IdOnlyComparator, Key(parent, ""), l, Matches(v, parent, name));
  }

  ghost predicate InOrder(seen: set<string>, left: set<string>) {
    forall m, n | m in seen && n in left :: Less(m, n)
  }

  lemma NextInOrder(all: set<string>, left: set<string>, name: string)
    requires left <= all && InOrder(all - left, left) && name in left && forall j | j in left :: !Less(j, name)
    ensures InOrder(all - (left - {name}), left - {name})
  {
    forall m, n | m in all - (left - {name}) && n in left - {name}
      ensures Less(m, n)
    {
      if m == name {
        LessTotal(name, n);
      }
    }
  }

  /** A name that comes after all seen so far takes the place of one shown like it. */
  lemma ListNext(seen: map<string, Entry>, dir: nat, entries: map<string, Entry>, name: string, e: Entry)
    requires IsListing(seen, dir, entries) && name !in seen && !Hidden(dir, name)
    requires forall m | m in seen :: Less(m, name)
    ensures IsListing(seen[name := e], dir, entries[Shown(name) := e])
  {
    hide Hidden, Shown, Less;
    var next, shown := seen[name := e], entries[Shown(name) := e];
    forall f | f in shown
      ensures exists n :: ShownLast(next, dir, f, n) && shown[f] == next[n]
    {
      if f == Shown(name) {
        forall m | m in next && !Hidden(dir, m) && Shown(m) == f
          ensures !Less(name, m)
        {
          LessTotal(name, m);
        }
        assert ShownLast(next, dir, f, name);
      } else {
        var n :| ShownLast(seen, dir, f, n) && entries[f] == seen[n];
        assert ShownLast(next, dir, f, n);
      }
    }
  }

  lemma HideNext(seen: map<string, Entry>, dir: nat, entries: map<string, Entry>, name: string, e: Entry)
    requires IsListing(seen, dir, entries) && name !in seen && Hidden(dir, name)
    ensures IsListing(seen[name := e], dir, entries)
  {
    hide Hidden, Shown, Less;
    var next := seen[name := e];
    forall f | f in entries
      ensures exists n :: ShownLast(next, dir, f, n) && entries[f] == next[n]
    {
      var n :| ShownLast(seen, dir, f, n) && entries[f] == seen[n];
      assert ShownLast(next, dir, f, n);
    }
  }

  lemma NoneCollected()
    ensures Collect([]) == map[]
  {
  }

  lemma SingleKey(m: map<string, Entry>, k: string)
    requires |m| == 1 && k in m
    ensures TheOnly(m) == m[k]
  {
    forall j | j in m
      ensures j == k
    {
      if j != k {
        SubsetSize({j, k}, m.Keys);
      }
    }
  }

  // ---- What a directory's records determine ----

  predicate IsItemOf(r: Record, parent: nat) {
    r.1.Item? && r.0.parentID == parent
  }

  /** Names are not empty, hold no colon, and no two of one directory are the same to the volume. */
  ghost predicate ProperNames(rs: seq<Record>, v: Volume) {
    && (forall r | r in rs && r.1.Item? :: r.0.name != "" && ':' !in r.0.name)
    && (forall i, j, parent | 0 <= i < j < |rs| && IsItemOf(rs[i], parent) && IsItemOf(rs[j], parent) ::
          !SameName(v, rs[i].0.name, rs[j].0.name))
  }

  /** Numbers are not given twice, and no folder lies in itself. */
  ghost predicate ProperIds(rs: seq<Record>) {
    && (forall i, j | 0 <= i < j < |rs| && rs[i].1.Item? && rs[j].1.Item? :: rs[i].1.entry.id != rs[j].1.entry.id)
    && (forall r | r in rs && r.1.Item? :: r.1.entry.id != r.0.parentID)
  }

  lemma {:induction false} CollectFrom(rs: seq<Record>, wanted: Record -> bool, n: string) returns (r: Record)
    requires n in Collect(Select(rs, wanted))
    ensures r in rs && wanted(r) && r.1.Item? && r.0.name == n && r.1.entry == Collect(Select(rs, wanted))[n]
  {
    var rest := Select(rs[1..], wanted);
    if wanted(rs[0]) {
      assert Select(rs, wanted)[0] == rs[0] && Select(rs, wanted)[1..] == rest;
    } else {
      assert Select(rs, wanted) == rest;
    }
    if n in Collect(rest) {
      r := CollectFrom(rs[1..], wanted, n);
    } else {
      r := rs[0];
    }
  }

  lemma {:induction false} CollectHas(rs: seq<Record>, wanted: Record -> bool, r: Record)
    requires r in rs && wanted(r) && r.1.Item?
    ensures r.0.name in Collect(Select(rs, wanted))
  {
    var rest := Select(rs[1..], wanted);
    if wanted(rs[0]) {
      assert Select(rs, wanted)[0] == rs[0] && Select(rs, wanted)[1..] == rest;
    } else {
      assert Select(rs, wanted) == rest;
    }
    if r != rs[0] {
      CollectHas(rs[1..], wanted, r);
    }
  }

  lemma SameRecord(rs: seq<Record>, v: Volume, r: Record, r': Record)
    requires ProperNames(rs, v) && r in rs && r' in rs && r.1.Item? && IsItemOf(r', r.0.parentID)
    requires SameName(v, r.0.name, r'.0.name)
    ensures r == r'
  {
    var i :| 0 <= i < |rs| && rs[i] == r;
    var j :| 0 <= j < |rs| && rs[j] == r';
    assert IsItemOf(rs[i], r.0.parentID) && IsItemOf(rs[j], r.0.parentID);
  }

  lemma SameId(rs: seq<Record>, r: Record, r': Record)
    requires ProperIds(rs) && r in rs && r' in rs && r.1.Item? && r'.1.Item? && r.1.entry.id == r'.1.entry.id
    ensures r == r'
  {
    var i :| 0 <= i < |rs| && rs[i] == r;
    var j :| 0 <= j < |rs| && rs[j] == r';
  }

  /** The children of a directory, as a map, are its records. */
  lemma ChildrenAreRecords(rs: seq<Record>, v: Volume, parent: nat)
    requires ProperNames(rs, v)
    ensures var m := Children(rs, v, parent, "");
            && (forall r | r in rs && IsItemOf(r, parent) :: r.0.name in m && m[r.0.name] == r.1.entry)
            && (forall n | n in m :: exists r :: r in rs && IsItemOf(r, parent) && r.0.name == n && m[n] == r.1.entry)
  {
    hide Collect, Select;
    var wanted := Matches(v, parent, "");
    var m := Children(rs, v, parent, "");
    forall n | n in m
      ensures exists r :: r in rs && IsItemOf(r, parent) && r.0.name == n && m[n] == r.1.entry
    {
      var r := CollectFrom(rs, wanted, n);
      assert IsItemOf(r, parent);
    }
    forall r | r in rs && IsItemOf(r, parent)
      ensures r.0.name in m && m[r.0.name] == r.1.entry
    {
      CollectHas(rs, wanted, r);
      var r' := CollectFrom(rs, wanted, r.0.name);
      SameRecord(rs, v, r, r');
    }
  }

  /** A lookup finds the record whose name the volume takes for the wanted one. */
  lemma ChildFound(rs: seq<Record>, v: Volume, r: Record, elem: string)
    requires ProperNames(rs, v) && r in rs && r.1.Item? && elem != "" && SameName(v, r.0.name, elem)
    ensures Child(rs, v, r.0.parentID, elem) == Ok(Some(r.1.entry))
  {
    hide Collect, Select, ProperNames;
    var parent := r.0.parentID;
    var wanted := Matches(v, parent, elem);
    var m := Children(rs, v, parent, elem);
    CollectHas(rs, wanted, r);
    forall n | n in m
      ensures n == r.0.name && m[n] == r.1.entry
    {
      var r' := CollectFrom(rs, wanted, n);
      assert IsItemOf(r', parent);
      SameRecord(rs, v, r, r');
    }
    assert m.Keys == {r.0.name};
    SingleKey(m, r.0.name);
  }

  /** What a lookup finds is a record of the directory. */
  lemma FoundIsChild(rs: seq<Record>, v: Volume, parent: nat, elem: string) returns (r: Record)
    requires Child(rs, v, parent, elem).Ok? && Child(rs, v, parent, elem).value.Some?
    ensures r in rs && IsItemOf(r, parent) && (elem == "" || SameName(v, r.0.name, elem))
    ensures Child(rs, v, parent, elem) == Ok(Some(r.1.entry))
  {
    hide Collect, Select;
    var m := Children(rs, v, parent, elem);
    assert m.Keys != {};
    var n :| n in m;
    SingleKey(m, n);
    r := CollectFrom(rs, Matches(v, parent, elem), n);
  }

  // ---- Lookups by name, in terms of the records' names ----

  lemma NoneMatches(rs: seq<Record>, v: Volume, parent: nat, elem: string)
    requires forall x | x in rs :: !Matches(v, parent, elem)(x)
    ensures Child(rs, v, parent, elem) == Ok(None)
  {
    hide Select;
    SelectNone(rs, Matches(v, parent, elem));
    NoneCollected();
  }

  lemma OneMatches(rs: seq<Record>, v: Volume, parent: nat, elem: string, r: Record)
    requires r in rs && Matches(v, parent, elem)(r) && forall x | x in rs && Matches(v, parent, elem)(x) :: x == r
    ensures Child(rs, v, parent, elem) == Ok(Some(r.1.entry))
  {
    hide Collect, Select, SameName;
    var wanted, m := Matches(v, parent, elem), Children(rs, v, parent, elem);
    CollectHas(rs, wanted, r);
    forall n | n in m
      ensures n == r.0.name && m[n] == r.1.entry
    {
      var x := CollectFrom(rs, wanted, n);
    }
    assert m.Keys == {r.0.name};
    SingleKey(m, r.0.name);
  }

  lemma TwoMatch(rs: seq<Record>, v: Volume, parent: nat, elem: string, a: Record, b: Record)
    requires a in rs && b in rs && a.0.name != b.0.name
    requires Matches(v, parent, elem)(a) && Matches(v, parent, elem)(b)
    ensures Child(rs, v, parent, elem) == Throws(IoError)
  {
    hide Collect, Select, SameName;
    var wanted, m := Matches(v, parent, elem), Children(rs, v, parent, elem);
    CollectHas(rs, wanted, a);
    CollectHas(rs, wanted, b);
    SubsetSize({a.0.name, b.0.name}, m.Keys);
  }

  /** On a case-sensitive volume a name leads to the record of that very name, whatever case folding does, and to
      nothing when no file or folder of the directory has it. */
  lemma ExactName(rs: seq<Record>, v: Volume, parent: nat, elem: string)
    requires v.caseSensitive && elem != ""
    ensures (forall x | x in rs && x.1.Item? && x.0.parentID == parent :: x.0.name != elem) ==>
              Child(rs, v, parent, elem) == Ok(None)
    ensures forall r | r in rs && r.1.Item? && r.0 == Key(parent, elem) ::
              (forall x | x in rs && x.1.Item? && x.0 == Key(parent, elem) :: x == r) ==>
                Child(rs, v, parent, elem) == Ok(Some(r.1.entry))
    ensures Child(rs, v, parent, elem).Ok?
  {
    hide Child;
    if forall x | x in rs && x.1.Item? && x.0.parentID == parent :: x.0.name != elem {
      NoneMatches(rs, v, parent, elem);
    }
    forall r | r in rs && r.1.Item? && r.0 == Key(parent, elem)
               && forall x | x in rs && x.1.Item? && x.0 == Key(parent, elem) :: x == r
      ensures Child(rs, v, parent, elem) == Ok(Some(r.1.entry))
    {
      OneMatches(rs, v, parent, elem, r);
    }
    ExactNameAlone(rs, v, parent, elem);
  }

  lemma ExactNameAlone(rs: seq<Record>, v: Volume, parent: nat, elem: string)
    requires v.caseSensitive && elem != ""
    ensures Child(rs, v, parent, elem).Ok?
  {
    hide Collect, Select;
    var m := Children(rs, v, parent, elem);
    forall n | n in m
      ensures n == elem
    {
      var x := CollectFrom(rs, Matches(v, parent, elem), n);
    }
    SubsetSize(m.Keys, {elem});
    assert |m.Keys| == |m|;
  }

  /** Record `r` is a file or folder of the directory, and its name folds to `folded`. */
  predicate FoldsTo(v: Volume, r: Record, parent: nat, folded: string) {
    r.1.Item? && r.0.parentID == parent && v.fold(r.0.name) == folded
  }

  /** On a case-insensitive volume a name leads to the record whose folded name is the folded name wanted, when there is
      one such record; to nothing when there is none; and two of different names are an error. */
  lemma FoldedName(rs: seq<Record>, v: Volume, parent: nat, elem: string)
    requires !v.caseSensitive && elem != ""
    ensures (forall x | x in rs :: !FoldsTo(v, x, parent, v.fold(elem))) ==> Child(rs, v, parent, elem) == Ok(None)
    ensures forall r | r in rs && FoldsTo(v, r, parent, v.fold(elem)) ::
              (forall x | x in rs && FoldsTo(v, x, parent, v.fold(elem)) :: x == r) ==>
                Child(rs, v, parent, elem) == Ok(Some(r.1.entry))
    ensures forall a, b |
              a in rs && b in rs && FoldsTo(v, a, parent, v.fold(elem)) && FoldsTo(v, b, parent, v.fold(elem)) ::
              a.0.name != b.0.name ==> Child(rs, v, parent, elem) == Throws(IoError)
  {
    hide Child;
    var wanted, folded := Matches(v, parent, elem), v.fold(elem);
    assert forall x :: wanted(x) == FoldsTo(v, x, parent, folded);
    if forall x | x in rs :: !FoldsTo(v, x, parent, folded) {
      NoneMatches(rs, v, parent, elem);
    }
    forall r | r in rs && FoldsTo(v, r, parent, folded)
               && forall x | x in rs && FoldsTo(v, x, parent, folded) :: x == r
      ensures Child(rs, v, parent, elem) == Ok(Some(r.1.entry))
    {
      OneMatches(rs, v, parent, elem, r);
    }
    forall a, b | a in rs && b in rs && FoldsTo(v, a, parent, folded) && FoldsTo(v, b, parent, folded)
                  && a.0.name != b.0.name
      ensures Child(rs, v, parent, elem) == Throws(IoError)
    {
      TwoMatch(rs, v, parent, elem, a, b);
    }
  }

  /** An empty name leads to the only file or folder of the directory, on either kind of volume. */
  lemma EmptyName(rs: seq<Record>, v: Volume, parent: nat)
    ensures (forall x | x in rs && x.1.Item? :: x.0.parentID != parent) ==> Child(rs, v, parent, "") == Ok(None)
    ensures forall r | r in rs && r.1.Item? && r.0.parentID == parent ::
              (forall x | x in rs && x.1.Item? && x.0.parentID == parent :: x == r) ==>
                Child(rs, v, parent, "") == Ok(Some(r.1.entry))
    ensures forall a, b | a in rs && b in rs && a.1.Item? && b.1.Item? && a.0.parentID == b.0.parentID == parent ::
              a.0.name != b.0.name ==> Child(rs, v, parent, "") == Throws(IoError)
  {
    hide Child;
    if forall x | x in rs && x.1.Item? :: x.0.parentID != parent {
      NoneMatches(rs, v, parent, "");
    }
    forall r | r in rs && r.1.Item? && r.0.parentID == parent
               && forall x | x in rs && x.1.Item? && x.0.parentID == parent :: x == r
      ensures Child(rs, v, parent, "") == Ok(Some(r.1.entry))
    {
      OneMatches(rs, v, parent, "", r);
    }
    forall a, b | a in rs && b in rs && a.1.Item? && b.1.Item? && a.0.parentID == b.0.parentID == parent
                  && a.0.name != b.0.name
      ensures Child(rs, v, parent, "") == Throws(IoError)
    {
      TwoMatch(rs, v, parent, "", a, b);
    }
  }

  lemma {:induction false} DescendAppend(rs: seq<Record>, v: Volume, parent: nat, elems: seq<string>, elem: string)
    requires |elems| > 0
    ensures Descend(rs, v, parent, elems + [elem]) ==
            match Descend(rs, v, parent, elems)
            case Throws(e) => Throws(e)
            case Ok(None) => Ok(None)
            case Ok(Some(e)) => Child(rs, v, e.id, Stored(elem))
    decreases |elems|
  {
    hide Child, Stored;
    assert (elems + [elem])[1..] == elems[1..] + [elem];
    match Child(rs, v, parent, Stored(elems[0])) {
      case Throws(_) =>
      case Ok(None) =>
      case Ok(Some(e)) =>
        if |elems| == 1 {
          assert elems[1..] + [elem] == [elem];
        } else {
          DescendAppend(rs, v, e.id, elems[1..], elem);
        }
    }
  }

  /** A name inside a directory is looked up among the directory's records. */
  lemma LookupInside(rs: seq<Record>, v: Volume, path: string, d: Entry, e: string)
    requires Lookup(rs, v, path) == Ok(Some(d)) && e != "" && '/' !in e && !EndsInTwoSlashes(path)
    ensures Lookup(rs, v, Join(path, e)) == Child(rs, v, d.id, Stored(e))
  {
    hide Child, Stored, Descend, Elements, Join;
    JoinElements(path, e);
    DescendAppend(rs, v, ROOT_PARENT_ID, Elements(path), e);
  }

  lemma LookupPastEmpty(rs: seq<Record>, v: Volume, path: string, d: Entry, e: string)
    requires Lookup(rs, v, path) == Ok(Some(d)) && e != "" && '/' !in e && EndsInTwoSlashes(path)
    ensures Lookup(rs, v, Join(path, e)) ==
            match Child(rs, v, d.id, "")
            case Throws(x) => Throws(x)
            case Ok(None) => Ok(None)
            case Ok(Some(c)) => Child(rs, v, c.id, Stored(e))
  {
    hide Child, Descend, Elements, Join;
    JoinElements(path, e);
    var elems := Elements(path);
    assert elems + ["", e] == elems + [""] + [e];
    DescendAppend(rs, v, ROOT_PARENT_ID, elems, "");
    DescendAppend(rs, v, ROOT_PARENT_ID, elems + [""], e);
    assert Stored("") == "";
  }

  /** `name` is `elem` with a slash for each colon, as the volume stores it. */
  predicate IsStoredAs(elem: string, name: string) {
    |name| == |elem| && forall i | 0 <= i < |elem| :: name[i] == if elem[i] == ':' then '/' else elem[i]
  }

  /** The root folder is the one record whose parent is number 1, under any name. */
  lemma RootIsChild(rs: seq<Record>, v: Volume)
    ensures Lookup(rs, v, "") == Lookup(rs, v, "/") == Child(rs, v, 1, "")
  {
    hide Split, Child, Descend;
    EmptySplit('/');
    assert Trim("") == "" && Trim("/") == "" && Stored("") == "";
    assert Elements("") == [""] && Elements("/") == [""];
    DescendOne(rs, v, ROOT_PARENT_ID, "");
  }

  /** One slash before a path, and one behind it, do not matter. */
  lemma OuterSlashes(rs: seq<Record>, v: Volume, path: string)
    ensures path == "" || path[0] != '/' ==> Lookup(rs, v, "/" + path) == Lookup(rs, v, path)
    ensures path != "" && path[|path| - 1] != '/' ==> Lookup(rs, v, path + "/") == Lookup(rs, v, path)
  {
    hide Split, Descend;
    if path == "" || path[0] != '/' {
      assert TrimFront("/" + path) == path;
    }
    if path != "" && path[|path| - 1] != '/' {
      assert TrimFront(path + "/") == TrimFront(path) + "/";
      BackKept(TrimFront(path));
      assert (TrimFront(path) + "/")[..|TrimFront(path)|] == TrimFront(path);
    }
  }

  /** Behind a slash, a path names what the directory before the slash has under that name. */
  lemma SlashName(rs: seq<Record>, v: Volume, path: string, d: Entry, elem: string, name: string)
    requires path == "" || path[|path| - 1] != '/'
    requires Lookup(rs, v, path) == Ok(Some(d)) && elem != "" && '/' !in elem && IsStoredAs(elem, name)
    ensures Lookup(rs, v, path + "/" + elem) == Child(rs, v, d.id, name)
  {
    hide Lookup, Child, Stored, EndsInTwoSlashes;
    StoredIs(elem, name);
    EndOf(path);
    LookupInside(rs, v, path, d, elem);
  }

  lemma StoredIs(elem: string, name: string)
    requires IsStoredAs(elem, name)
    ensures Stored(elem) == name
  {
  }

  /** The path with these elements. */
  ghost function PathOf(elems: seq<string>): string {
    if elems == [] then "" else PathOf(elems[..|elems| - 1]) + "/" + elems[|elems| - 1]
  }

  /** Directory `d` has `x` under the path element `elem`. */
  ghost predicate LeadsTo(rs: seq<Record>, v: Volume, d: Entry, elem: string, x: Entry) {
    elem != "" && '/' !in elem && exists name :: IsStoredAs(elem, name) && Child(rs, v, d.id, name) == Ok(Some(x))
  }

  /** A path leads through the tree: `walk` starts at the root folder, and each of its entries is what the entry before
      has under the next element of the path. Every file and folder that can be reached so is found by its path. */
  lemma {:induction false} PathLeads(rs: seq<Record>, v: Volume, elems: seq<string>, walk: seq<Entry>)
    requires |walk| == |elems| + 1 && Child(rs, v, 1, "") == Ok(Some(walk[0]))
    requires forall i | 0 <= i < |elems| :: LeadsTo(rs, v, walk[i], elems[i], walk[i + 1])
    ensures Lookup(rs, v, PathOf(elems)) == Ok(Some(walk[|elems|]))
    ensures elems == [] || (PathOf(elems) != "" && PathOf(elems)[|PathOf(elems)| - 1] != '/')
  {
    hide Lookup, Child, LeadsTo;
    if elems == [] {
      RootIsChild(rs, v);
    } else {
      var n := |elems| - 1;
      PathLeads(rs, v, elems[..n], walk[..n + 1]);
      StepLeads(rs, v, PathOf(elems[..n]), walk[n], elems[n], walk[n + 1]);
    }
  }

  lemma StepLeads(rs: seq<Record>, v: Volume, path: string, d: Entry, elem: string, x: Entry)
    requires path == "" || path[|path| - 1] != '/'
    requires Lookup(rs, v, path) == Ok(Some(d)) && LeadsTo(rs, v, d, elem, x)
    ensures Lookup(rs, v, path + "/" + elem) == Ok(Some(x)) && elem != "" && elem[|elem| - 1] != '/'
  {
    hide Lookup, Child, IsStoredAs;
    var name :| IsStoredAs(elem, name) && Child(rs, v, d.id, name) == Ok(Some(x));
    SlashName(rs, v, path, d, elem, name);
    LastOf(elem);
  }

  /** Which entries are followed, and where to: those of file type "hlnk" when the volume has a directory of link
      targets, to what it has under "iNode" and the link's number, if anything; all others are left as they are. */
  lemma LinkFollowed(rs: seq<Record>, v: Volume, path: string, e: Entry)
    requires Lookup(rs, v, path) == Ok(Some(e))
    ensures e.fileType != 0x686C6E6B || v.hardLinkDirID == 0 ==> Resolve(rs, v, path) == Ok(Some(e))
    ensures e.fileType == 0x686C6E6B && v.hardLinkDirID != 0 ==>
              var target := Child(rs, v, v.hardLinkDirID, "iNode" + Decimal(e.iNode));
              Resolve(rs, v, path) == if target == Ok(None) then Ok(Some(e)) else target
  {
    hide Lookup, Child, Decimal;
  }

  // ---- Listing and lookup agree ----

  predicate IsShownAs(r: Record, f: string, e: Entry) {
    Shown(r.0.name) == f && r.1 == Item(e)
  }

  /** A listing shows each record of the directory that is not hidden once, under a name of its own. */
  lemma ListingIsDirectory(rs: seq<Record>, v: Volume, dir: nat, entries: map<string, Entry>)
    requires ProperNames(rs, v) && IsListing(Children(rs, v, dir, ""), dir, entries)
    ensures forall r | r in rs && IsItemOf(r, dir) && !Hidden(dir, r.0.name) ::
              Shown(r.0.name) in entries && entries[Shown(r.0.name)] == r.1.entry
    ensures forall r, r' | r in rs && r' in rs && IsItemOf(r, dir) && IsItemOf(r', dir) && r != r' ::
              Shown(r.0.name) != Shown(r'.0.name)
    ensures forall f | f in entries ::
              exists r :: r in rs && IsItemOf(r, dir) && !Hidden(dir, r.0.name) && IsShownAs(r, f, entries[f])
  {
    hide Children, Hidden, Shown, Stored;
    ChildrenAreRecords(rs, v, dir);
    forall r, r' | r in rs && r' in rs && IsItemOf(r, dir) && IsItemOf(r', dir) && Shown(r.0.name) == Shown(r'.0.name)
      ensures r == r'
    {
      ShownStored(r.0.name);
      ShownStored(r'.0.name);
      SameRecord(rs, v, r, r');
    }
  }

  /** Which names a listing leaves out: none outside the root folder, whose number is 2; there, those that start with a
      null character and three private ones. */
  lemma LeftOutOfListing(rs: seq<Record>, v: Volume, dir: nat, entries: map<string, Entry>, r: Record, shown: string)
    requires ProperNames(rs, v) && IsListing(Children(rs, v, dir, ""), dir, entries)
    requires r in rs && r.1.Item? && r.0.parentID == dir && IsShownFor(r.0.name, shown)
    ensures dir != 2 ==> shown in entries && entries[shown] == r.1.entry
    ensures dir == 2 ==>
              (shown in entries
               <==> r.0.name[0] != '\0' && r.0.name != ".HFS+ Private Directory Data\r" && r.0.name != ".journal"
                    && r.0.name != ".journal_info_block")
  {
    hide Children, IsListing;
    ListingIsDirectory(rs, v, dir, entries);
    ShownIs(r.0.name, shown);
    assert IsItemOf(r, dir);
    if shown in entries {
      var x :| x in rs && IsItemOf(x, dir) && !Hidden(dir, x.0.name) && IsShownAs(x, shown, entries[shown]);
      assert x == r;
    }
  }

  /** `shown` is `name` with a colon for each slash. */
  predicate IsShownFor(name: string, shown: string) {
    |shown| == |name| && forall i | 0 <= i < |name| :: shown[i] == if name[i] == '/' then ':' else name[i]
  }

  lemma ShownIs(name: string, shown: string)
    requires IsShownFor(name, shown)
    ensures Shown(name) == shown
  {
  }

  lemma {:induction false} FirstSmaller(a: string, b: string) returns (i: nat)
    requires Less(a, b) && |a| == |b|
    ensures i < |a| && a[..i] == b[..i] && a[i] < b[i]
  {
    if a[0] < b[0] {
      i := 0;
    } else {
      i := FirstSmaller(a[1..], b[1..]);
      i := i + 1;
      assert a[..i] == [a[0]] + a[1..][..i - 1] && b[..i] == [b[0]] + b[1..][..i - 1];
    }
  }

  /** Of several names that are shown alike, the listing has the entry of the one with a colon where another first
      differs from it: in the order of the map it comes last. */
  lemma ColonWins(children: map<string, Entry>, dir: nat, entries: map<string, Entry>, f: string) returns (n: string)
    requires IsListing(children, dir, entries) && f in entries
    ensures n in children && IsShownFor(n, f) && entries[f] == children[n]
    ensures forall m | m in children && IsShownFor(m, f) && !Hidden(dir, m) && m != n ::
              exists i :: 0 <= i < |n| && n[..i] == m[..i] && n[i] == ':' && m[i] == '/'
  {
    hide Less, Hidden;
    n :| ShownLast(children, dir, f, n) && entries[f] == children[n];
    forall m | m in children && IsShownFor(m, f) && !Hidden(dir, m) && m != n
      ensures exists i :: 0 <= i < |n| && n[..i] == m[..i] && n[i] == ':' && m[i] == '/'
    {
      ShownIs(m, f);
      LessTotal(n, m);
      var i := FirstSmaller(m, n);
      assert f[i] == if n[i] == '/' then ':' else n[i];
    }
  }

  lemma ListedRecord(rs: seq<Record>, v: Volume, dir: nat, entries: map<string, Entry>, f: string) returns (r: Record)
    requires ProperNames(rs, v) && IsListing(Children(rs, v, dir, ""), dir, entries) && f in entries
    ensures r in rs && IsItemOf(r, dir) && r.1.entry == entries[f]
    ensures f != "" && '/' !in f && Stored(f) == r.0.name && Stored(f) != ""
  {
    hide Children, Hidden, IsListing;
    ListingIsDirectory(rs, v, dir, entries);
    r :| r in rs && IsItemOf(r, dir) && !Hidden(dir, r.0.name) && IsShownAs(r, f, entries[f]);
    ShownStored(r.0.name);
  }

  /** Every name a listing shows leads back to its record, exactly when the path does not end in two slashes. */
  lemma ListingResolvesIff(rs: seq<Record>, v: Volume, path: string, d: Entry, entries: map<string, Entry>)
    requires ProperNames(rs, v) && ProperIds(rs) && Lookup(rs, v, path) == Ok(Some(d))
    requires IsListing(Children(rs, v, d.id, ""), d.id, entries) && entries != map[]
    ensures (forall f | f in entries :: Lookup(rs, v, Join(path, f)) == Ok(Some(entries[f])))
            <==> !EndsInTwoSlashes(path)
  {
    hide Lookup, Child, Children, IsListing, ProperNames, ProperIds, Stored, Join, EndsInTwoSlashes;
    if !EndsInTwoSlashes(path) {
      forall f | f in entries
        ensures Lookup(rs, v, Join(path, f)) == Ok(Some(entries[f]))
      {
        var r := ListedRecord(rs, v, d.id, entries, f);
        LookupInside(rs, v, path, d, f);
        ChildFound(rs, v, r, Stored(f));
      }
    } else {
      assert entries.Keys != {};
      var f :| f in entries;
      NotPastEmpty(rs, v, path, d, entries, f);
    }
  }

  lemma NotPastEmpty(rs: seq<Record>, v: Volume, path: string, d: Entry, entries: map<string, Entry>, f: string)
    requires ProperNames(rs, v) && ProperIds(rs) && Lookup(rs, v, path) == Ok(Some(d)) && EndsInTwoSlashes(path)
    requires IsListing(Children(rs, v, d.id, ""), d.id, entries) && f in entries
    ensures Lookup(rs, v, Join(path, f)) != Ok(Some(entries[f]))
  {
    hide Lookup, Child, Children, IsListing, ProperNames, Stored, Join, EndsInTwoSlashes;
    var r := ListedRecord(rs, v, d.id, entries, f);
    LookupPastEmpty(rs, v, path, d, f);
    if Lookup(rs, v, Join(path, f)) == Ok(Some(entries[f])) {
      var c := FoundIsChild(rs, v, d.id, "");
      var r' := FoundIsChild(rs, v, c.1.entry.id, Stored(f));
      SameId(rs, r, r');
    }
  }

  /** A volume with one file, `f`. */
  const VOLUME_RECORD: Record := (Key(ROOT_PARENT_ID, "v"), Item(Entry(true, ROOT_FOLDER_ID, 0, 0)))
  const FILE_RECORD: Record := (Key(ROOT_FOLDER_ID, "f"), Item(Entry(false, 16, 0, 0)))

  function Exactly(fold: string -> string): Volume {
    Volume(true, fold, 0)
  }

  /** The path `//` lists the file, but `//f` is not found. */
  lemma TwoSlashesExample(fold: string -> string)
    ensures var rs, v := [VOLUME_RECORD, FILE_RECORD], Exactly(fold);
            && Lookup(rs, v, "//") == Ok(Some(VOLUME_RECORD.1.entry))
            && IsListing(Children(rs, v, ROOT_FOLDER_ID, ""), ROOT_FOLDER_ID, map["f" := FILE_RECORD.1.entry])
            && Lookup(rs, v, Join("//", "f")) == Ok(None)
  {
    hide Lookup, IsListing, Children, Join;
    RootFound(fold);
    FileListed(fold);
    FileNotFound(fold);
  }

  lemma DescendOne(rs: seq<Record>, v: Volume, parent: nat, elem: string)
    ensures Descend(rs, v, parent, [elem]) == Child(rs, v, parent, Stored(elem))
  {
    hide Child, Stored;
  }

  lemma RootFound(fold: string -> string)
    ensures Lookup([VOLUME_RECORD, FILE_RECORD], Exactly(fold), "//") == Ok(Some(VOLUME_RECORD.1.entry))
  {
    hide Split, Descend, Child, Children;
    EmptySplit('/');
    var path := "//";
    assert Trim(path) == "" && Elements(path) == [""] && Stored("") == "";
    DescendOne([VOLUME_RECORD, FILE_RECORD], Exactly(fold), ROOT_PARENT_ID, "");
    OneChild(VOLUME_RECORD, FILE_RECORD, Exactly(fold), ROOT_PARENT_ID, "");
  }

  lemma FileListed(fold: string -> string)
    ensures var children := Children([VOLUME_RECORD, FILE_RECORD], Exactly(fold), ROOT_FOLDER_ID, "");
            IsListing(children, ROOT_FOLDER_ID, map["f" := FILE_RECORD.1.entry])
  {
    hide Child, Children, Less, IsListing, Named;
    OneChild(VOLUME_RECORD, FILE_RECORD, Exactly(fold), ROOT_FOLDER_ID, "");
    NamedOne(FILE_RECORD);
    SingleListing(ROOT_FOLDER_ID, FILE_RECORD.0.name, FILE_RECORD.1.entry);
    assert Shown("f") == "f";
  }

  lemma NamedOne(r: Record)
    requires r.1.Item?
    ensures Named(r) == map[r.0.name := r.1.entry]
  {
  }

  lemma SingleListing(dir: nat, name: string, e: Entry)
    requires |name| == 1 && name != "\0"
    ensures IsListing(map[name := e], dir, map[Shown(name) := e])
  {
    hide Shown, Less;
    var children: map<string, Entry> := map[name := e];
    assert !Hidden(dir, name);
    LessTotal(name, name);
    assert ShownLast(children, dir, Shown(name), name);
  }

  lemma FileNotFound(fold: string -> string)
    ensures Lookup([VOLUME_RECORD, FILE_RECORD], Exactly(fold), Join("//", "f")) == Ok(None)
  {
    hide Lookup, Child, Children, Join;
    var v, path, name := Exactly(fold), "//", "f";
    RootFound(fold);
    OneChild(VOLUME_RECORD, FILE_RECORD, v, ROOT_FOLDER_ID, "");
    OneChild(VOLUME_RECORD, FILE_RECORD, v, FILE_RECORD.1.entry.id, name);
    assert Stored(name) == name;
    assert path[0..] == path && EndsInTwoSlashes(path);
    LookupPastEmpty([VOLUME_RECORD, FILE_RECORD], v, path, VOLUME_RECORD.1.entry, name);
  }

  /** The children of a directory of a catalog of two records. */
  lemma OneChild(a: Record, b: Record, v: Volume, parent: nat, name: string)
    requires !(Matches(v, parent, name)(a) && Matches(v, parent, name)(b))
    ensures var m := Children([a, b], v, parent, name);
            if Matches(v, parent, name)(a) then m == Named(a) && Child([a, b], v, parent, name) == Ok(Some(a.1.entry))
            else if Matches(v, parent, name)(b) then m == Named(b)
                && Child([a, b], v, parent, name) == Ok(Some(b.1.entry))
            else m == map[] && Child([a, b], v, parent, name) == Ok(None)
  {
    var wanted := Matches(v, parent, name);
    assert [a, b][1..] == [b] && [b][1..] == [];
    var s := if wanted(a) then [a] else if wanted(b) then [b] else [];
    assert Select([b], wanted) == if wanted(b) then [b] else [];
    assert Select([a, b], wanted) == s;
    if s != [] {
      CollectOne(s[0]);
      var m := Children([a, b], v, parent, name);
      assert m.Keys == {s[0].0.name};
      SingleKey(m, s[0].0.name);
    }
  }

  /** A path that is a hard link is listed by its target but walked by itself: the names shown lead back to their
      records exactly when both are the same folder. */
  lemma LinkedListingResolvesIff(rs: seq<Record>, v: Volume, path: string, d: Entry, dir: Entry,
                                 entries: map<string, Entry>)
    requires ProperNames(rs, v) && ProperIds(rs) && !EndsInTwoSlashes(path)
    requires Lookup(rs, v, path) == Ok(Some(d)) && Resolve(rs, v, path) == Ok(Some(dir))
    requires IsListing(Children(rs, v, dir.id, ""), dir.id, entries) && entries != map[]
    ensures (forall f | f in entries :: Lookup(rs, v, Join(path, f)) == Ok(Some(entries[f]))) <==> dir.id == d.id
    ensures !IsLink(v, d) ==> dir == d
  {
    hide Lookup, Child, Children, IsListing, ProperNames, ProperIds, Stored, Join, EndsInTwoSlashes;
    if dir.id == d.id {
      ListingResolvesIff(rs, v, path, d, entries);
    } else {
      assert entries.Keys != {};
      var f :| f in entries;
      var r := ListedRecord(rs, v, dir.id, entries, f);
      LookupInside(rs, v, path, d, f);
      if Lookup(rs, v, Join(path, f)) == Ok(Some(entries[f])) {
        var r' := FoundIsChild(rs, v, d.id, Stored(f));
        SameId(rs, r, r');
      }
    }
  }

  /** A hard link leads to the record of its number in the directory of link targets. */
  lemma LinkLeadsToTarget(rs: seq<Record>, v: Volume, e: Entry, r: Record)
    requires ProperNames(rs, v) && IsLink(v, e) && r in rs && IsItemOf(r, v.hardLinkDirID)
    requires r.0.name == "iNode" + Decimal(e.iNode)
    ensures Redirect(rs, v, e) == Ok(Some(r.1.entry))
  {
    hide Child, ProperNames;
    ChildFound(rs, v, r, "iNode" + Decimal(e.iNode));
  }

  /** The directory of link targets can be looked up in the root folder but is not listed there. */
  lemma PrivateDataIsHidden(rs: seq<Record>, v: Volume, entries: map<string, Entry>, r: Record)
    requires ProperNames(rs, v) && r in rs && IsItemOf(r, ROOT_FOLDER_ID) && r.0.name == PRIVATE_DATA
    requires IsListing(Children(rs, v, ROOT_FOLDER_ID, ""), ROOT_FOLDER_ID, entries)
    ensures Shown(PRIVATE_DATA) !in entries
    ensures Child(rs, v, ROOT_FOLDER_ID, PRIVATE_DATA) == Ok(Some(r.1.entry))
  {
    hide Child, Children, IsListing, ProperNames;
    ListingIsDirectory(rs, v, ROOT_FOLDER_ID, entries);
    ChildFound(rs, v, r, PRIVATE_DATA);
    assert Hidden(ROOT_FOLDER_ID, PRIVATE_DATA);
  }

  /** Record `r` is the one found, and the listing shows it unless it is hidden. */
  predicate ListedAs(entries: map<string, Entry>, dir: nat, r: Record, x: Entry) {
    && r.1 == Item(x)
    && (Hidden(dir, r.0.name) || (Shown(r.0.name) in entries && entries[Shown(r.0.name)] == x))
  }

  /** Whatever a lookup finds inside a directory is a record of it, of a name the volume takes for the one asked
      for, and that record is hidden or shown by the listing. */
  lemma FoundIsListed(rs: seq<Record>, v: Volume, path: string, d: Entry, entries: map<string, Entry>, e: string,
                      x: Entry)
    requires ProperNames(rs, v) && Lookup(rs, v, path) == Ok(Some(d)) && !EndsInTwoSlashes(path)
    requires IsListing(Children(rs, v, d.id, ""), d.id, entries)
    requires e != "" && '/' !in e && Lookup(rs, v, Join(path, e)) == Ok(Some(x))
    ensures exists r ::
              r in rs && IsItemOf(r, d.id) && SameName(v, r.0.name, Stored(e)) && ListedAs(entries, d.id, r, x)
  {
    hide Lookup, Child, Children, IsListing, ProperNames, Join, EndsInTwoSlashes, Hidden;
    LookupInside(rs, v, path, d, e);
    var r := FoundIsChild(rs, v, d.id, Stored(e));
    ListingIsDirectory(rs, v, d.id, entries);
    assert SameName(v, r.0.name, Stored(e));
  }
}
