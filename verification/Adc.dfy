/** Apple Data Compression: the phrase format, its meaning, and the restartable decoder (src/adc.cpp). */
module Adc {
  import opened Bytes

  // ---- Phrase headers as the decoder reads them ----

  datatype ChunkKind = Plain | TwoByte | ThreeByte

  function ChunkType(b: byte): ChunkKind {
    if b >= 0x80 then Plain          // bit 7 set
    else if b >= 0x40 then ThreeByte // bit 6 set
    else TwoByte
  }

  function ChunkSize(b: byte): nat {
    match ChunkType(b)
    case Plain => b - 0x80 + 1    // low 7 bits, plus 1
    case TwoByte => b / 4 + 3     // bits 2 to 5, plus 3
    case ThreeByte => b - 0x40 + 4 // low 6 bits, plus 4
  }

  function ChunkOffset(chunk: seq<byte>): nat
    requires |chunk| >= 1
    requires ChunkType(chunk[0]) == TwoByte ==> |chunk| >= 2
    requires ChunkType(chunk[0]) == ThreeByte ==> |chunk| >= 3
  {
    match ChunkType(chunk[0])
    case Plain => 0
    case TwoByte => (chunk[0] as int) % 4 * 0x100 + chunk[1]
    case ThreeByte => (chunk[1] as int) * 0x100 + chunk[2]
  }

  // ---- The format, as its comment describes it ----

  datatype Phrase =
    | Store(data: seq<byte>)
    | Short(len: nat, offset: nat)
    | Long(len: nat, offset: nat)
  {
    predicate Valid() {
      match this
      case Store(d) => 1 <= |d| <= 0x80
      case Short(n, o) => 3 <= n <= 0x12 && o <= 0x3FF
      case Long(n, o) => 4 <= n <= 0x43 && o <= 0xFFFF
    }

    /** How many bytes the phrase adds to the output. */
    function Size(): nat {
      if Store? then |data| else len
    }

    /** How many bytes the phrase takes in the compressed stream. */
    function Bytes(): (n: nat)
      ensures n > 0
    {
      match this
      case Store(d) => |d| + 1
      case Short(_, _) => 2
      case Long(_, _) => 3
    }

    /** How far back the phrase reaches into the output; 0 when it does not. */
    function Reach(): nat {
      if Store? then 0 else offset + 1
    }
  }

  ghost predicate AllValid(ps: seq<Phrase>) {
    forall p | p in ps :: p.Valid()
  }

  function Print(p: Phrase): (s: seq<byte>)
    requires p.Valid()
    ensures |s| == p.Bytes()
  {
    match p
    case Store(d) => [0x80 + (|d| - 1)] + d
    case Short(n, o) => [(n - 3) * 4 + o / 0x100, o % 0x100]
    case Long(n, o) => [0x40 + (n - 4), o / 0x100, o % 0x100]
  }

  function PrintAll(ps: seq<Phrase>): seq<byte>
    requires AllValid(ps)
  {
    if ps == [] then [] else Print(ps[0]) + PrintAll(ps[1..])
  }

  // ---- Parsing ----

  /** The two header bytes of a short phrase determine it, and it prints as them. */
  lemma ShortHeader(b: byte, c: byte)
    requires b < 0x40
    ensures var p := Short(b / 4 + 3, (b as int) % 4 * 0x100 + c); p.Valid() && Print(p) == [b, c]
  {
    var o := (b as int) % 4 * 0x100 + c;
    ByteSplit((b as int) % 4, c);
  }

  lemma LongHeader(b: byte, c: byte, d: byte)
    requires 0x40 <= b < 0x80
    ensures var p := Long(b - 0x40 + 4, (c as int) * 0x100 + d); p.Valid() && Print(p) == [b, c, d]
  {
    ByteSplit(c, d);
  }

  lemma ByteSplit(hi: int, lo: byte)
    requires 0 <= hi
    ensures (hi * 0x100 + lo) / 0x100 == hi && (hi * 0x100 + lo) % 0x100 == lo
  {
  }

  /** The phrase at the head of `input`, when all of it is there. */
  function Next(input: seq<byte>): (r: Option<Phrase>)
    ensures r.Some? ==> r.value.Valid() && r.value.Bytes() <= |input|
  {
    if |input| == 0 then None
    else
      var b := input[0];
      var n := ChunkSize(b);
      match ChunkType(b)
      case Plain =>
        if |input| < n + 1 then None
        else Some(Store(input[1..n + 1]))
      case TwoByte =>
        if |input| < 2 then None
        else Some(Short(n, ChunkOffset(input)))
      case ThreeByte =>
        if |input| < 3 then None
        else Some(Long(n, ChunkOffset(input)))
  }

  /** A parsed phrase prints as the bytes it was parsed from. */
  lemma PrintOfNext(input: seq<byte>)
    requires Next(input).Some?
    ensures Print(Next(input).value) == input[..Next(input).value.Bytes()]
  {
    var p := Next(input).value;
    match p {
      case Store(d) =>
      case Short(_, _) => ShortHeader(input[0], input[1]);
      case Long(_, _) => LongHeader(input[0], input[1], input[2]);
    }
  }

  /** The whole phrases `input` starts with. */
  function Phrases(input: seq<byte>): (ps: seq<Phrase>)
    ensures AllValid(ps)
  {
    match Next(input)
    case None => []
    case Some(p) => [p] + Phrases(input[p.Bytes()..])
  }

  lemma NextOfPrint(p: Phrase, rest: seq<byte>)
    requires p.Valid()
    ensures Next(Print(p) + rest) == Some(p)
  {
    var s := Print(p) + rest;
    match p {
      case Store(d) =>
        assert s[1..|d| + 1] == d;
      case Short(n, o) =>
        assert s[0] == (n - 3) * 4 + o / 0x100 && s[1] == o % 0x100;
        assert s[0] / 4 == n - 3 && (s[0] as int) % 4 == o / 0x100;
      case Long(n, o) =>
        assert s[0] == 0x40 + (n - 4) && s[1] == o / 0x100 && s[2] == o % 0x100;
    }
  }

  lemma PrintAllCons(p: Phrase, ps: seq<Phrase>)
    requires p.Valid() && AllValid(ps)
    ensures AllValid([p] + ps) && PrintAll([p] + ps) == Print(p) + PrintAll(ps)
  {
    assert ([p] + ps)[1..] == ps;
  }

  lemma PhrasesCons(p: Phrase, rest: seq<byte>)
    requires p.Valid()
    ensures Phrases(Print(p) + rest) == [p] + Phrases(rest)
  {
    hide Next, Print;
    NextOfPrint(p, rest);
    assert (Print(p) + rest)[|Print(p)|..] == rest;
  }

  /** Parsing peels off any printed list of phrases, whatever follows it. */
  lemma {:induction false} PhrasesPrefix(ps: seq<Phrase>, rest: seq<byte>)
    requires AllValid(ps)
    ensures Phrases(PrintAll(ps) + rest) == ps + Phrases(rest)
  {
    hide Next, Print;
    if ps == [] {
      assert PrintAll(ps) + rest == rest;
    } else {
      var p, qs, tail := ps[0], ps[1..], Phrases(rest);
      PrintAllCons(p, qs);
      assert ps == [p] + qs;
      calc {
        Phrases(PrintAll(ps) + rest);
        { assert Print(p) + PrintAll(qs) + rest == Print(p) + (PrintAll(qs) + rest); }
        Phrases(Print(p) + (PrintAll(qs) + rest));
        { PhrasesCons(p, PrintAll(qs) + rest); }
        [p] + Phrases(PrintAll(qs) + rest);
        { PhrasesPrefix(qs, rest); }
        [p] + (qs + tail);
        { assert [p] + (qs + tail) == [p] + qs + tail; }
        ps + tail;
      }
    }
  }

  /** A printed list of phrases parses back to that list, whatever incomplete phrase follows it. */
  lemma ParsePrinted(ps: seq<Phrase>, tail: seq<byte>)
    requires AllValid(ps) && Next(tail).None?
    ensures Phrases(PrintAll(ps) + tail) == ps
  {
    PhrasesPrefix(ps, tail);
  }

  /** No byte string is the print of two different phrase lists. */
  lemma PrintInjective(ps: seq<Phrase>, qs: seq<Phrase>)
    requires AllValid(ps) && AllValid(qs)
    requires PrintAll(ps) == PrintAll(qs)
    ensures ps == qs
  {
    ParsePrinted(ps, []);
    ParsePrinted(qs, []);
  }

  lemma {:induction false} PrintAllAppend(ps: seq<Phrase>, qs: seq<Phrase>)
    requires AllValid(ps) && AllValid(qs)
    ensures AllValid(ps + qs)
    ensures PrintAll(ps + qs) == PrintAll(ps) + PrintAll(qs)
  {
    if ps == [] {
      assert ps + qs == qs;
    } else {
      assert (ps + qs)[1..] == ps[1..] + qs;
      PrintAllAppend(ps[1..], qs);
    }
  }

  /** The parse is the input itself, up to a phrase that is not all there. */
  lemma {:induction false} PhrasesMaximal(input: seq<byte>)
    ensures PrintAll(Phrases(input)) <= input
    ensures Next(input[|PrintAll(Phrases(input))|..]).None?
  {
    hide Next, Print;
    match Next(input) {
      case None =>
        assert input[0..] == input;
      case Some(p) =>
        var rest := input[p.Bytes()..];
        PhrasesMaximal(rest);
        PrintAllCons(p, Phrases(rest));
        PrintOfNext(input);
        assert input == Print(p) + rest;
        assert input[|Print(p) + PrintAll(Phrases(rest))|..] == rest[|PrintAll(Phrases(rest))|..];
    }
  }

  /** More input only adds phrases after those already complete. */
  lemma PhrasesSplit(a: seq<byte>, b: seq<byte>)
    ensures |PrintAll(Phrases(a))| <= |a|
    ensures var ps := Phrases(a); Phrases(a + b) == ps + Phrases(a[|PrintAll(ps)|..] + b)
  {
    hide Next, Print, Phrases;
    var ps := Phrases(a);
    PhrasesMaximal(a);
    var rest := a[|PrintAll(ps)|..];
    assert a + b == PrintAll(ps) + (rest + b);
    PhrasesPrefix(ps, rest + b);
  }

  // ---- Meaning ----

  /** `out` after `n` more bytes, each a copy of the byte `d` places before it. */
  function CopyBack(out: seq<byte>, d: nat, n: nat): (r: seq<byte>)
    requires 1 <= d <= |out|
    ensures |r| == |out| + n && out <= r
  {
    if n == 0 then out
    else var o := CopyBack(out, d, n - 1); o + [o[|o| - d]]
  }

  function Expand(out: seq<byte>, p: Phrase): (r: seq<byte>)
    requires p.Reach() <= |out|
    ensures |r| == |out| + p.Size() && out <= r
  {
    match p
    case Store(d) => out + d
    case Short(n, o) => CopyBack(out, o + 1, n)
    case Long(n, o) => CopyBack(out, o + 1, n)
  }

  /** No phrase reaches back past the start of an output that already has `have` bytes. */
  ghost predicate Legal(ps: seq<Phrase>, have: nat) {
    ps == [] || (ps[0].Reach() <= have && Legal(ps[1..], have + ps[0].Size()))
  }

  ghost function ExpandAll(out: seq<byte>, ps: seq<Phrase>): (r: seq<byte>)
    requires Legal(ps, |out|)
    ensures |r| == |out| + SizeAll(ps) && out <= r
    decreases |ps|
  {
    if ps == [] then out else ExpandAll(Expand(out, ps[0]), ps[1..])
  }

  ghost function SizeAll(ps: seq<Phrase>): nat {
    if ps == [] then 0 else ps[0].Size() + SizeAll(ps[1..])
  }

  /** A compressed stream: whole phrases, none reaching back past the start. */
  ghost predicate IsStream(s: seq<byte>) {
    PrintAll(Phrases(s)) == s && Legal(Phrases(s), 0)
  }

  /** What a compressed stream decodes to. */
  ghost function Whole(s: seq<byte>): seq<byte>
    requires IsStream(s)
  {
    ExpandAll([], Phrases(s))
  }

  /** How many of the leading phrases fit an output buffer of `cap` bytes that already holds `have`. */
  ghost function Fit(ps: seq<Phrase>, have: nat, cap: nat): (k: nat)
    ensures k <= |ps|
    ensures have <= cap ==> have + SizeAll(ps[..k]) <= cap
    ensures k < |ps| ==> have + SizeAll(ps[..k]) + ps[k].Size() > cap
  {
    if ps == [] || have + ps[0].Size() > cap then 0
    else
      var k := Fit(ps[1..], have + ps[0].Size(), cap);
      assert ps[..k + 1][1..] == ps[1..][..k];
      k + 1
  }

  lemma {:induction false} LegalAppend(ps: seq<Phrase>, qs: seq<Phrase>, out: seq<byte>)
    ensures SizeAll(ps + qs) == SizeAll(ps) + SizeAll(qs)
    ensures Legal(ps + qs, |out|) <==> Legal(ps, |out|) && Legal(qs, |out| + SizeAll(ps))
    ensures Legal(ps + qs, |out|) ==> ExpandAll(out, ps + qs) == ExpandAll(ExpandAll(out, ps), qs)
    decreases |ps|
  {
    if ps == [] {
      assert ps + qs == qs;
    } else {
      assert (ps + qs)[1..] == ps[1..] + qs;
      if ps[0].Reach() <= |out| {
        LegalAppend(ps[1..], qs, Expand(out, ps[0]));
      } else {
        LegalAppend(ps[1..], qs, out);
      }
    }
  }

  // Division facts the solver needs spelled out.

  lemma Distrib(d: nat, k: int, q: int)
    ensures d * k - d * q == d * (k - q)
  {
  }

  lemma AtLeast(d: nat, e: int)
    requires e >= 1
    ensures d * e >= d
  {
  }

  lemma Euclid(x: nat, d: nat, k: int, m: int)
    requires d >= 1 && k == x / d && m == x % d
    ensures x == d * k + m && 0 <= m < d
  {
  }

  lemma ModUnique(x: nat, d: nat, q: int, r: nat)
    requires r < d && x == d * q + r
    ensures x % d == r && x / d == q
  {
    var k, m := x / d, x % d;
    Euclid(x, d, k, m);
    Distrib(d, k, q);
    if k - q >= 1 {
      AtLeast(d, k - q);
    } else if q - k >= 1 {
      Distrib(d, q, k);
      AtLeast(d, q - k);
    } else {
      assert k == q;
    }
  }

  lemma ModShift(i: nat, d: nat)
    requires 1 <= d <= i
    ensures i % d == (i - d) % d
  {
    var k, m := i / d, i % d;
    Euclid(i, d, k, m);
    Distrib(d, k, 1);
    ModUnique(i - d, d, k - 1, m);
  }

  lemma LegalSplit(ps: seq<Phrase>, i: nat, out: seq<byte>)
    requires i <= |ps|
    ensures SizeAll(ps) == SizeAll(ps[..i]) + SizeAll(ps[i..])
    ensures Legal(ps, |out|) <==> Legal(ps[..i], |out|) && Legal(ps[i..], |out| + SizeAll(ps[..i]))
    ensures Legal(ps, |out|) ==> ExpandAll(out, ps) == ExpandAll(ExpandAll(out, ps[..i]), ps[i..])
  {
    assert ps[..i] + ps[i..] == ps;
    LegalAppend(ps[..i], ps[i..], out);
  }

  function Phase(i: nat, d: nat): (r: nat)
    requires d > 0
    ensures r < d
  {
    i % d
  }

  lemma PhaseStep(i: nat, d: nat)
    requires d > 0
    ensures Phase(i, d) == if i < d then i else Phase(i - d, d)
  {
    if i < d {
      ModUnique(i, d, 0, i);
    } else {
      ModShift(i, d);
    }
  }

  lemma {:induction false} CopyBackPhase(out: seq<byte>, d: nat, n: nat, i: nat)
    requires 1 <= d <= |out| && i < n
    ensures CopyBack(out, d, n)[|out| + i] == out[|out| - d + Phase(i, d)]
  {
    hide Phase;
    var o := CopyBack(out, d, n - 1);
    PhaseStep(i, d);
    if i < n - 1 {
      CopyBackPhase(out, d, n - 1, i);
    } else if i >= d {
      CopyBackPhase(out, d, n - 1, i - d);
      assert |o| - d == |out| + (i - d);
    }
  }

  /** An overlapping copy repeats the last `d` bytes with period `d`. */
  lemma CopyBackPeriodic(out: seq<byte>, d: nat, n: nat, i: nat)
    requires 1 <= d <= |out| && i < n
    ensures 0 <= i % d < d
    ensures CopyBack(out, d, n)[|out| + i] == out[|out| - d + i % d]
  {
    assert i % d == Phase(i, d);
    CopyBackPhase(out, d, n, i);
  }

  /** What executing phrase `j` of a list writes: its own bytes, or the last `offset + 1` bytes before it over and
      over. */
  lemma ExpandedBytes(out: seq<byte>, ps: seq<Phrase>, j: nat, i: nat)
    requires Legal(ps, |out|) && j < |ps| && i < ps[j].Size()
    ensures Wrote(ExpandAll(out, ps), |out| + SizeAll(ps[..j]), ps[j], i)
  {
    hide Expand, Wrote, SizeAll;
    LegalSplit(ps, j, out);
    var before, rest := ExpandAll(out, ps[..j]), ps[j..];
    assert rest[0] == ps[j];
    ExpandWrote(before, ps[j], i);
    WroteBefore(Expand(before, ps[j]), ExpandAll(before, rest), |before|, ps[j], i);
  }

  /** Byte `i` of what phrase `p` stands for is in place behind `k` bytes of the output. */
  ghost predicate Wrote(r: seq<byte>, k: nat, p: Phrase, i: nat) {
    && i < p.Size() && k + i < |r|
    && match p
       case Store(data) => r[k + i] == data[i]
       case Short(_, offset) => IsCopy(r, k, offset + 1, i)
       case Long(_, offset) => IsCopy(r, k, offset + 1, i)
  }

  /** Byte `i` behind `k` is a copy of one of the `d` bytes before `k`, which are taken in turn. */
  ghost predicate IsCopy(r: seq<byte>, k: nat, d: nat, i: nat) {
    1 <= d <= k && k + i < |r| && i % d < d && r[k + i] == r[k - d + i % d]
  }

  lemma ExpandWrote(out: seq<byte>, p: Phrase, i: nat)
    requires p.Reach() <= |out| && i < p.Size()
    ensures Wrote(Expand(out, p), |out|, p, i)
  {
    hide CopyBack;
    if !p.Store? {
      CopyBackPeriodic(out, p.offset + 1, p.len, i);
    }
  }

  lemma WroteBefore(a: seq<byte>, b: seq<byte>, k: nat, p: Phrase, i: nat)
    requires Wrote(a, k, p, i) && a <= b
    ensures Wrote(b, k, p, i)
  {
  }

  /** Dropping bytes no copy reaches from the front of the output changes nothing behind them. */
  lemma {:induction false} CopyBackSuffix(out: seq<byte>, base: nat, d: nat, n: nat)
    requires base <= |out| && 1 <= d <= |out| - base
    ensures CopyBack(out[base..], d, n) == CopyBack(out, d, n)[base..]
  {
    if n > 0 {
      CopyBackSuffix(out, base, d, n - 1);
    }
  }

  // ---- The decoder ----

  /** The phrases that `Decode` executes reach back only into bytes it already has. */
  ghost predicate Safe(input: seq<byte>, have: nat, cap: nat)
    decreases |input|
  {
    match Next(input)
    case None => true
    case Some(p) =>
      have + p.Size() > cap || (p.Reach() <= have && Safe(input[p.Bytes()..], have + p.Size(), cap))
  }

  /** Bytes consumed and output reached by one run over `input` into a buffer of `cap` bytes. */
  ghost function Decode(input: seq<byte>, out: seq<byte>, cap: nat): (r: (nat, seq<byte>))
    requires Safe(input, |out|, cap)
    ensures r.0 <= |input| && out <= r.1
    ensures |out| <= cap ==> |r.1| <= cap
    decreases |input|
  {
    match Next(input)
    case None => (0, out)
    case Some(p) =>
      if |out| + p.Size() > cap then (0, out)
      else
        var r := Decode(input[p.Bytes()..], Expand(out, p), cap);
        (p.Bytes() + r.0, r.1)
  }

  ghost predicate Fits(input: seq<byte>, have: nat, cap: nat) {
    Next(input).Some? && have + Next(input).value.Size() <= cap
  }

  lemma DecodeStuck(input: seq<byte>, out: seq<byte>, cap: nat)
    requires Safe(input, |out|, cap)
    requires !Fits(input, |out|, cap)
    ensures Decode(input, out, cap) == (0, out)
  {
    hide Next, Expand;
  }

  lemma DecodeStep(input: seq<byte>, out: seq<byte>, cap: nat, p: Phrase)
    requires Safe(input, |out|, cap) && Next(input) == Some(p) && |out| + p.Size() <= cap
    ensures p.Reach() <= |out| && Safe(input[p.Bytes()..], |out| + p.Size(), cap)
    ensures Decode(input, out, cap) == Ahead(p.Bytes(), Decode(input[p.Bytes()..], Expand(out, p), cap))
  {
    hide Next, Expand;
  }

  ghost function Ahead(n: nat, r: (nat, seq<byte>)): (nat, seq<byte>) {
    (n + r.0, r.1)
  }

  /** The longest prefix of the parsed phrases that fits the buffer. */
  ghost function Run(input: seq<byte>, have: nat, cap: nat): (run: seq<Phrase>)
    ensures AllValid(run)
  {
    Phrases(input)[..Fit(Phrases(input), have, cap)]
  }

  /** One run executes exactly the longest prefix of the parsed phrases that fits the buffer. */
  lemma {:induction false} DecodeMeaning(input: seq<byte>, out: seq<byte>, cap: nat)
    requires Safe(input, |out|, cap)
    ensures var run := Run(input, |out|, cap);
            && Legal(run, |out|)
            && Decode(input, out, cap) == (|PrintAll(run)|, ExpandAll(out, run))
    decreases |input|
  {
    hide Next, Print, Decode, Safe, Expand, PrintAll, ExpandAll, Legal, Run;
    if !Fits(input, |out|, cap) {
      DecodeStuck(input, out, cap);
      NothingRun(out);
      RunStuck(input, |out|, cap);
    } else {
      var p := Next(input).value;
      var rest := input[p.Bytes()..];
      DecodeStep(input, out, cap, p);
      DecodeMeaning(rest, Expand(out, p), cap);
      RunStep(input, |out|, cap, p);
      RunCons(p, Run(rest, |out| + p.Size(), cap), out);
    }
  }

  lemma RunStuck(input: seq<byte>, have: nat, cap: nat)
    requires !Fits(input, have, cap)
    ensures Run(input, have, cap) == []
  {
    hide Next;
  }

  lemma RunStep(input: seq<byte>, have: nat, cap: nat, p: Phrase)
    requires Next(input) == Some(p) && have + p.Size() <= cap
    ensures Run(input, have, cap) == [p] + Run(input[p.Bytes()..], have + p.Size(), cap)
  {
    hide Next;
    FitCons(p, Phrases(input[p.Bytes()..]), have, cap);
  }

  lemma NothingRun(out: seq<byte>)
    ensures PrintAll([]) == [] && Legal([], |out|) && ExpandAll(out, []) == out
  {
  }

  lemma FitCons(p: Phrase, qs: seq<Phrase>, have: nat, cap: nat)
    requires have + p.Size() <= cap
    ensures var k := Fit(qs, have + p.Size(), cap);
            Fit([p] + qs, have, cap) == k + 1 && ([p] + qs)[..k + 1] == [p] + qs[..k]
  {
    assert ([p] + qs)[1..] == qs;
  }

  lemma RunCons(p: Phrase, run: seq<Phrase>, out: seq<byte>)
    requires p.Valid() && AllValid(run) && p.Reach() <= |out| && Legal(run, |out| + p.Size())
    ensures PrintAll([p] + run) == Print(p) + PrintAll(run)
    ensures Legal([p] + run, |out|)
    ensures ExpandAll(out, [p] + run) == ExpandAll(Expand(out, p), run)
  {
    hide Print, Expand, CopyBack;
    assert ([p] + run)[1..] == run;
  }

  /** Cutting the input anywhere does not matter: a run on the first part, then a run on what the first
      left over followed by the second part, consumes and writes what one run on both parts does. */
  lemma {:induction false} SplitInvariance(a: seq<byte>, b: seq<byte>, out: seq<byte>, cap: nat)
    requires Safe(a + b, |out|, cap)
    ensures Safe(a, |out|, cap)
    ensures var (used, mid) := Decode(a, out, cap);
            && Safe(a[used..] + b, |mid|, cap)
            && Decode(a + b, out, cap) == Ahead(used, Decode(a[used..] + b, mid, cap))
    decreases |a|
  {
    hide Next, Expand, Decode, Safe;
    if !Fits(a, |out|, cap) {
      SafeStuck(a, |out|, cap);
      DecodeStuck(a, out, cap);
      assert a[0..] == a;
    } else {
      var p := Next(a).value;
      var rest := a[p.Bytes()..];
      NextExtends(a, b, p);
      DecodeStep(a + b, out, cap, p);
      assert (a + b)[p.Bytes()..] == rest + b;
      SplitInvariance(rest, b, Expand(out, p), cap);
      SafeStep(a, |out|, cap, p);
      DecodeStep(a, out, cap, p);
      var used := Decode(rest, Expand(out, p), cap).0;
      assert a[p.Bytes() + used..] == rest[used..];
    }
  }

  lemma SafeStuck(input: seq<byte>, have: nat, cap: nat)
    requires !Fits(input, have, cap)
    ensures Safe(input, have, cap)
  {
    hide Next;
  }

  lemma SafeStep(input: seq<byte>, have: nat, cap: nat, p: Phrase)
    requires Next(input) == Some(p) && p.Reach() <= have && Safe(input[p.Bytes()..], have + p.Size(), cap)
    ensures Safe(input, have, cap)
  {
    hide Next;
  }

  lemma NextExtends(a: seq<byte>, b: seq<byte>, p: Phrase)
    requires Next(a) == Some(p)
    ensures Next(a + b) == Some(p)
  {
    hide Next, Print;
    PrintOfNext(a);
    var rest := a[p.Bytes()..];
    assert a + b == Print(p) + (rest + b);
    NextOfPrint(p, rest + b);
  }

  /** A phrase of a list takes its place in the print behind the phrases before it, and its header says what it is. */
  lemma PhraseInPrint(ps: seq<Phrase>, j: nat)
    requires AllValid(ps) && j < |ps|
    ensures AllValid(ps[..j]) && AllValid(ps[..j + 1])
    ensures var s, q := PrintAll(ps), |PrintAll(ps[..j])|;
            && q + ps[j].Bytes() == |PrintAll(ps[..j + 1])| <= |s|
            && s[q..q + ps[j].Bytes()] == Print(ps[j])
    ensures SizeAll(ps[..j + 1]) == SizeAll(ps[..j]) + ps[j].Size()
  {
    hide Print, PrintAll, SizeAll;
    var a, p, b := ps[..j], ps[j], ps[j + 1..];
    assert p in ps;
    assert ps == a + ([p] + b) && ps[..j + 1] == a + [p];
    PrintAllAppend(a, [p] + b);
    PrintAllAppend(a, [p]);
    PrintAllCons(p, b);
    PrintAllCons(p, []);
    assert [p] + [] == [p];
    LegalAppend(a, [p], []);
    NothingPrinted(p);
  }

  lemma NothingPrinted(p: Phrase)
    ensures PrintAll([]) == [] && SizeAll([p]) == p.Size()
  {
    assert [p][1..] == [];
  }

  /** One executed phrase in terms of bytes: `q` is where it starts in the input, `k` where its output starts in `r`;
      `q'` and `k'` are where the next ones do. */
  ghost predicate Executed(s: seq<byte>, q: nat, q': nat, r: seq<byte>, k: nat, k': nat)
    requires q < |s|
  {
    if s[q] >= 0x80 then
      var n := s[q] - 0x7F;
      && q' == q + 1 + n <= |s| && k' == k + n <= |r|
      && forall x | k <= x < k' :: r[x] == s[q + 1 + (x - k)]
    else if s[q] >= 0x40 then
      && q' == q + 3 <= |s| && k' == k + (s[q] - 0x40) + 4
      && Repeats(r, k, k', (s[q + 1] as int) * 0x100 + s[q + 2] + 1)
    else
      && q' == q + 2 <= |s| && k' == k + s[q] / 4 + 3
      && Repeats(r, k, k', (s[q] as int) % 4 * 0x100 + s[q + 1] + 1)
  }

  /** Bytes `k` to `k'` repeat the `d` bytes before them. */
  ghost predicate Repeats(r: seq<byte>, k: nat, k': nat, d: nat) {
    && 1 <= d <= k <= k' <= |r|
    && forall x | k <= x < k' :: r[x] == r[k - d + (x - k) % d]
  }

  lemma ExecutedPhrase(s: seq<byte>, ps: seq<Phrase>, out: seq<byte>, j: nat)
    requires AllValid(ps) && Legal(ps, |out|) && PrintAll(ps) <= s && j < |ps|
    ensures AllValid(ps[..j]) && AllValid(ps[..j + 1]) && |PrintAll(ps[..j])| < |PrintAll(ps[..j + 1])| <= |s|
    ensures Executed(s, |PrintAll(ps[..j])|, |PrintAll(ps[..j + 1])|, ExpandAll(out, ps), |out| + SizeAll(ps[..j]),
                     |out| + SizeAll(ps[..j + 1]))
  {
    hide PrintAll, ExpandAll, Legal, SizeAll, Print, Executed, Repeats;
    PhraseInPrint(ps, j);
    var p, q, k, r := ps[j], |PrintAll(ps[..j])|, |out| + SizeAll(ps[..j]), ExpandAll(out, ps);
    assert p in ps;
    assert s[q..q + p.Bytes()] == Print(p);
    HeaderBytes(s, q, p);
    forall i | 0 <= i < p.Size()
      ensures Wrote(r, k, p, i)
    {
      ExpandedBytes(out, ps, j, i);
    }
    if p.Store? {
      StoreExecuted(s, q, r, k, p);
    } else {
      CopyExecuted(s, q, r, k, p);
    }
  }

  lemma StoreExecuted(s: seq<byte>, q: nat, r: seq<byte>, k: nat, p: Phrase)
    requires p.Store? && p.Valid() && q + p.Bytes() <= |s| && forall i | 0 <= i < p.Size() :: Wrote(r, k, p, i)
    requires s[q] >= 0x80 && |p.data| == s[q] - 0x7F && s[q + 1..q + 1 + |p.data|] == p.data
    ensures Executed(s, q, q + p.Bytes(), r, k, k + p.Size())
  {
    assert Wrote(r, k, p, p.Size() - 1);
    forall x | k <= x < k + p.Size()
      ensures r[x] == s[q + 1 + (x - k)]
    {
      assert Wrote(r, k, p, x - k);
      assert s[q + 1..q + 1 + |p.data|][x - k] == s[q + 1 + (x - k)];
    }
  }

  lemma CopyExecuted(s: seq<byte>, q: nat, r: seq<byte>, k: nat, p: Phrase)
    requires !p.Store? && p.Valid() && q + p.Bytes() <= |s| && forall i | 0 <= i < p.Size() :: Wrote(r, k, p, i)
    requires s[q] < 0x80
    requires if s[q] >= 0x40 then p.Long? && p == Long((s[q] - 0x40) + 4, (s[q + 1] as int) * 0x100 + s[q + 2])
             else p == Short(s[q] / 4 + 3, (s[q] as int) % 4 * 0x100 + s[q + 1])
    ensures Executed(s, q, q + p.Bytes(), r, k, k + p.Size())
  {
    hide Repeats;
    RepeatsBy(r, k, p);
  }

  lemma RepeatsBy(r: seq<byte>, k: nat, p: Phrase)
    requires !p.Store? && p.Size() > 0 && forall i | 0 <= i < p.Size() :: Wrote(r, k, p, i)
    ensures Repeats(r, k, k + p.Size(), p.offset + 1)
  {
    assert Wrote(r, k, p, p.Size() - 1);
    forall x | k <= x < k + p.Size()
      ensures r[x] == r[k - (p.offset + 1) + (x - k) % (p.offset + 1)]
    {
      assert Wrote(r, k, p, x - k);
    }
  }

  /** A phrase that is printed at `q`, read off its header byte. */
  lemma HeaderBytes(s: seq<byte>, q: nat, p: Phrase)
    requires p.Valid() && q + p.Bytes() <= |s| && s[q..q + p.Bytes()] == Print(p)
    ensures p.Size() > 0
    ensures if s[q] >= 0x80 then p.Store? && |p.data| == s[q] - 0x7F && s[q + 1..q + 1 + |p.data|] == p.data
            else if s[q] >= 0x40 then p == Long((s[q] - 0x40) + 4, (s[q + 1] as int) * 0x100 + s[q + 2])
            else p == Short(s[q] / 4 + 3, (s[q] as int) % 4 * 0x100 + s[q + 1])
  {
    var t := s[q..q + p.Bytes()];
    assert t[0] == s[q] && t[1] == s[q + 1];
    match p {
      case Store(d) =>
        assert s[q + 1..q + 1 + |d|] == t[1..];
      case Short(n, o) =>
        assert s[q] == (n - 3) * 4 + o / 0x100;
      case Long(n, o) =>
        assert t[2] == s[q + 2];
    }
  }

  /** One call of the decoder, phrase by phrase: the phrases it executes follow each other from the start of the input
      and from the end of the output it was given. */
  lemma DecodedBytes(input: seq<byte>, out: seq<byte>, cap: nat, j: nat)
    requires Safe(input, |out|, cap)
    ensures var (run, r) := (Run(input, |out|, cap), Decode(input, out, cap));
            && out <= r.1 && r.0 == |PrintAll(run)| <= |input| && |r.1| == |out| + SizeAll(run)
            && (j < |run| ==>
                  && AllValid(run[..j]) && AllValid(run[..j + 1])
                  && |PrintAll(run[..j])| < |PrintAll(run[..j + 1])| <= r.0
                  && Executed(input, |PrintAll(run[..j])|, |PrintAll(run[..j + 1])|, r.1, |out| + SizeAll(run[..j]),
                              |out| + SizeAll(run[..j + 1])))
  {
    hide PrintAll, ExpandAll, Legal, SizeAll, Executed, Phrases, Decode, Safe, Run;
    DecodeMeaning(input, out, cap);
    RunPrinted(input, |out|, cap);
    var run := Run(input, |out|, cap);
    if j < |run| {
      ExecutedPhrase(input, run, out, j);
      PhraseInPrint(run, j);
    }
  }

  lemma RunPrinted(input: seq<byte>, have: nat, cap: nat)
    ensures PrintAll(Run(input, have, cap)) <= input
  {
    hide PrintAll, Phrases;
    var ps, run := Phrases(input), Run(input, have, cap);
    PhrasesMaximal(input);
    var rest := ps[|run|..];
    assert ps == run + rest;
    PrintAllAppend(run, rest);
  }

  /** Decoding from raw bytes, without phrases: from position `q` of the input and `k` of the output on, headers and
      what they stand for follow each other up to the end of both. */
  ghost predicate ReadsAs(s: seq<byte>, q: nat, r: seq<byte>, k: nat)
    decreases |s| - q
  {
    if q >= |s| then q == |s| && k == |r|
    else exists q': nat, k': nat :: q < q' && Executed(s, q, q', r, k, k') && ReadsAs(s, q', r, k')
  }

  /** The decode of a stream reads that way. */
  lemma {:induction false} WholeReadsAs(s: seq<byte>, j: nat)
    requires IsStream(s) && j <= |Phrases(s)|
    ensures AllValid(Phrases(s)[..j])
    ensures ReadsAs(s, |PrintAll(Phrases(s)[..j])|, Whole(s), SizeAll(Phrases(s)[..j]))
    decreases |Phrases(s)| - j
  {
    hide PrintAll, ExpandAll, Legal, SizeAll, Executed, Phrases;
    var ps := Phrases(s);
    if j == |ps| {
      assert ps[..j] == ps;
    } else {
      ExecutedPhrase(s, ps, [], j);
      WholeReadsAs(s, j + 1);
    }
  }

  /** And it is the only output that does. */
  lemma {:induction false} ReadsAsUnique(s: seq<byte>, q: nat, k: nat, a: seq<byte>, b: seq<byte>)
    requires ReadsAs(s, q, a, k) && ReadsAs(s, q, b, k) && k <= |a| && k <= |b| && a[..k] == b[..k]
    ensures a == b
    decreases |s| - q
  {
    hide Executed;
    if q < |s| {
      var q': nat, k': nat :| q < q' && Executed(s, q, q', a, k, k') && ReadsAs(s, q', a, k');
      var q'': nat, k'': nat :| q < q'' && Executed(s, q, q'', b, k, k'') && ReadsAs(s, q'', b, k'');
      SameStep(s, q, q', q'', a, b, k, k', k'');
      ReadsAsUnique(s, q', k', a, b);
    } else {
      assert a[..k] == a && b[..k] == b;
    }
  }

  lemma SameStep(s: seq<byte>, q: nat, q': nat, q'': nat, a: seq<byte>, b: seq<byte>, k: nat, k': nat, k'': nat)
    requires q < |s| && Executed(s, q, q', a, k, k') && Executed(s, q, q'', b, k, k'')
    requires k <= |a| && k <= |b| && a[..k] == b[..k]
    ensures q' == q'' && k' == k'' && k' <= |a| && k' <= |b| && a[..k'] == b[..k']
  {
    forall x | 0 <= x < k'
      ensures a[x] == b[x]
    {
      if x < k {
        assert a[x] == a[..k][x] == b[..k][x] == b[x];
      } else if s[q] < 0x80 {
        var d := if s[q] >= 0x40 then (s[q + 1] as int) * 0x100 + s[q + 2] + 1
                 else (s[q] as int) % 4 * 0x100 + s[q + 1] + 1;
        SameRepeat(a, b, k, k', d, x);
      }
    }
  }

  lemma SameRepeat(a: seq<byte>, b: seq<byte>, k: nat, k': nat, d: nat, x: nat)
    requires Repeats(a, k, k', d) && Repeats(b, k, k', d) && a[..k] == b[..k] && k <= x < k'
    ensures a[x] == b[x]
  {
    var y := k - d + (x - k) % d;
    assert 0 <= y < k;
    assert a[y] == a[..k][y] == b[..k][y] == b[y];
  }

  /** A stream's decode is the one output that its raw bytes read as. */
  lemma WholeIff(s: seq<byte>, r: seq<byte>)
    requires IsStream(s)
    ensures ReadsAs(s, 0, r, 0) <==> r == Whole(s)
  {
    hide ReadsAs, Legal, Phrases, Executed, ExpandAll;
    WholeReadsAs(s, 0);
    assert Phrases(s)[..0] == [];
    if ReadsAs(s, 0, r, 0) {
      ReadsAsUnique(s, 0, 0, r, Whole(s));
    }
  }

  /** A header with what it needs behind it is a phrase, of the size and reach its bytes say. */
  lemma HeaderIsPhrase(s: seq<byte>, q: nat, q': nat, r: seq<byte>, k: nat, k': nat)
    requires q < |s| && Executed(s, q, q', r, k, k')
    ensures q < q' <= |s| && Next(s[q..]).Some?
    ensures var p := Next(s[q..]).value; p.Bytes() == q' - q && p.Size() == k' - k && p.Reach() <= k
  {
    var t := s[q..];
    assert t[0] == s[q];
    if s[q] < 0x80 {
      assert t[1] == s[q + 1];
    }
    if 0x40 <= s[q] < 0x80 {
      assert t[2] == s[q + 2];
    }
  }

  /** Bytes that read as some output are whole phrases, none of which reaches back past the start. */
  lemma {:induction false} ReadsAsIsStream(s: seq<byte>, q: nat, r: seq<byte>, k: nat)
    requires q <= |s| && ReadsAs(s, q, r, k)
    ensures PrintAll(Phrases(s[q..])) == s[q..] && Legal(Phrases(s[q..]), k)
    decreases |s| - q
  {
    hide Executed, Next, Print, PrintAll;
    var t := s[q..];
    if q < |s| {
      var q': nat, k': nat :| q < q' && Executed(s, q, q', r, k, k') && ReadsAs(s, q', r, k');
      HeaderIsPhrase(s, q, q', r, k, k');
      var p := Next(t).value;
      ReadsAsIsStream(s, q', r, k');
      PrintOfNext(t);
      assert t[p.Bytes()..] == s[q'..];
      var ps := Phrases(s[q'..]);
      PrintAllCons(p, ps);
      assert ([p] + ps)[1..] == ps;
    } else {
      NextOfNothing();
      NothingPrinted(Store([]));
    }
  }

  lemma NextOfNothing()
    ensures Next([]).None?
  {
  }

  /** The compressed streams are the byte strings that read as some output. */
  lemma StreamIff(s: seq<byte>)
    ensures IsStream(s) <==> exists r :: ReadsAs(s, 0, r, 0)
  {
    hide ReadsAs, Whole, Legal, Phrases, PrintAll;
    if IsStream(s) {
      WholeIff(s, Whole(s));
    }
    if exists r :: ReadsAs(s, 0, r, 0) {
      var r :| ReadsAs(s, 0, r, 0);
      ReadsAsIsStream(s, 0, r, 0);
      assert s[0..] == s;
    }
  }

  ghost function Concat(chunks: seq<seq<byte>>): seq<byte> {
    if chunks == [] then [] else chunks[0] + Concat(chunks[1..])
  }

  /** Feeding the decoder chunk by chunk, each run starting with what the previous one left over. */
  ghost function Feed(left: seq<byte>, chunks: seq<seq<byte>>, out: seq<byte>, cap: nat): (r: (nat, seq<byte>))
    requires Safe(left + Concat(chunks), |out|, cap)
    decreases |chunks|
  {
    if chunks == [] then
      assert left + Concat(chunks) == left;
      Decode(left, out, cap)
    else
      var input := left + chunks[0];
      assert left + Concat(chunks) == input + Concat(chunks[1..]);
      SplitInvariance(input, Concat(chunks[1..]), out, cap);
      var (used, mid) := Decode(input, out, cap);
      var r := Feed(input[used..], chunks[1..], mid, cap);
      (used + r.0, r.1)
  }

  /** However the input is cut into buffers, the total consumed and the output are those of one run. */
  lemma {:induction false} FeedIsDecode(left: seq<byte>, chunks: seq<seq<byte>>, out: seq<byte>, cap: nat)
    requires Safe(left + Concat(chunks), |out|, cap)
    ensures Feed(left, chunks, out, cap) == Decode(left + Concat(chunks), out, cap)
    decreases |chunks|
  {
    hide Next, CopyBack;
    if chunks == [] {
      assert left + Concat(chunks) == left;
    } else {
      var input := left + chunks[0];
      assert left + Concat(chunks) == input + Concat(chunks[1..]);
      SplitInvariance(input, Concat(chunks[1..]), out, cap);
      var (used, mid) := Decode(input, out, cap);
      FeedIsDecode(input[used..], chunks[1..], mid, cap);
    }
  }

  /** memcpy of the literal bytes (src/adc.cpp:47). */
  method CopyLiteral(output: array<byte>, outp: nat, data: seq<byte>)
    requires outp + |data| <= output.Length
    modifies output
    ensures output[..outp + |data|] == old(output[..outp]) + data
    ensures forall i | outp + |data| <= i < output.Length :: output[i] == old(output[i])
  {
    forall j | 0 <= j < |data| {
      output[outp + j] := data[j];
    }
  }

  method Memset(output: array<byte>, outp: nat, value: byte, size: nat)
    requires outp + size <= output.Length
    modifies output
    ensures output[..outp + size] == old(output[..outp]) + seq(size, _ => value)
    ensures forall i | outp + size <= i < output.Length :: output[i] == old(output[i])
  {
    forall i | 0 <= i < size {
      output[outp + i] := value;
    }
  }

  method CopyBytes(output: array<byte>, outp: nat, distance: nat, size: nat)
    requires 1 <= distance <= outp && outp + size <= output.Length
    modifies output
    ensures output[..outp + size] == CopyBack(old(output[..outp]), distance, size)
    ensures forall i | outp + size <= i < output.Length :: output[i] == old(output[i])
  {
    ghost var before := output[..outp];
    for i := 0 to size
      invariant output[..outp + i] == CopyBack(before, distance, i)
      invariant forall i | outp + size <= i < output.Length :: output[i] == old(output[i])
    {
      ghost var copied := output[..outp + i];
      output[outp + i] := output[outp + i - distance];
      assert output[..outp + (i + 1)] == copied + [copied[|copied| - distance]];
    }
  }

  /** memset of the previous byte when the offset is 0, a byte-by-byte copy otherwise (src/adc.cpp:64-78, 93-107). */
  method CopyPhrase(output: array<byte>, outp: nat, offset: nat, size: nat)
    requires offset + 1 <= outp && outp + size <= output.Length
    modifies output
    ensures output[..outp + size] == CopyBack(old(output[..outp]), offset + 1, size)
    ensures forall i | outp + size <= i < output.Length :: output[i] == old(output[i])
  {
    ghost var before := output[..outp];
    if offset == 0 {
      Memset(output, outp, output[outp - 1], size);
      CopyBackRun(before, size);
    } else {
      CopyBytes(output, outp, offset + 1, size);
    }
  }

  /** A copy at distance 1 is a run of the last byte: the memset and the byte loop agree. */
  lemma {:induction false} CopyBackRun(out: seq<byte>, n: nat)
    requires 1 <= |out|
    ensures CopyBack(out, 1, n) == out + seq(n, _ => out[|out| - 1])
  {
    if n > 0 {
      CopyBackRun(out, n - 1);
    }
  }

  /** What the three cases of the decoder find at position `inp`. */
  lemma HeaderAt(bytes: seq<byte>, inp: nat)
    requires inp < |bytes|
    ensures var b, n, next := bytes[inp], ChunkSize(bytes[inp]), Next(bytes[inp..]);
            match ChunkType(b)
            case Plain =>
              next == if inp + n + 1 > |bytes| then None else Some(Store(bytes[inp + 1..inp + 1 + n]))
            case TwoByte =>
              next == if inp + 2 > |bytes| then None else Some(Short(n, ChunkOffset(bytes[inp..inp + 2])))
            case ThreeByte =>
              next == if inp + 3 > |bytes| then None else Some(Long(n, ChunkOffset(bytes[inp..inp + 3])))
  {
    hide Print;
    var n := ChunkSize(bytes[inp]);
    if ChunkType(bytes[inp]).Plain? && inp + n + 1 <= |bytes| {
      assert bytes[inp..][1..n + 1] == bytes[inp + 1..inp + 1 + n];
    }
  }

  /** One turn of the decoder's loop: the switch over the three kinds of phrase (src/adc.cpp:33-109). */
  method DecodePhrase(input: seq<byte>, inp: nat, availSize: nat, output: array<byte>, outp: nat)
    returns (inp': nat, outp': nat, stop: bool)
    requires inp < |input| && outp <= availSize <= output.Length
    requires Fits(input[inp..], outp, availSize) ==> Next(input[inp..]).value.Reach() <= outp
    modifies output
    ensures stop == !Fits(input[inp..], outp, availSize)
    ensures stop ==> inp' == inp && outp' == outp && output[..] == old(output[..])
    ensures !stop ==>
              var p := Next(input[inp..]).value;
              && inp' == inp + p.Bytes() && outp' == outp + p.Size()
              && output[..outp'] == Expand(old(output[..outp]), p)
              && forall i | outp' <= i < output.Length :: output[i] == old(output[i])
  {
    hide CopyBack, ChunkSize, ChunkType, ChunkOffset, Next;
    HeaderAt(input, inp);
    inp', outp', stop := inp, outp, true;
    var chunkSize := ChunkSize(input[inp]);
    match ChunkType(input[inp]) {
      case Plain =>
        if inp + chunkSize + 1 <= |input| && outp + chunkSize <= availSize {
          CopyLiteral(output, outp, input[inp + 1..inp + 1 + chunkSize]);
          inp', outp', stop := inp + chunkSize + 1, outp + chunkSize, false;
        }
      case TwoByte =>
        if inp + 2 <= |input| {
          var offset := ChunkOffset(input[inp..inp + 2]);
          if outp + chunkSize <= availSize {
            CopyPhrase(output, outp, offset, chunkSize);
            inp', outp', stop := inp + 2, outp + chunkSize, false;
          }
        }
      case ThreeByte =>
        if inp + 3 <= |input| {
          var offset := ChunkOffset(input[inp..inp + 3]);
          if outp + chunkSize <= availSize {
            CopyPhrase(output, outp, offset, chunkSize);
            inp', outp', stop := inp + 3, outp + chunkSize, false;
          }
        }
    }
  }

  /** Decodes whole phrases from `input` behind the first `restartIndex` bytes of `output`, until the
      next phrase is not all there or does not fit. Empty input leaves `*bytes_written` as it was. */
  method AdcDecompress(input: seq<byte>, availSize: nat, output: array<byte>, restartIndex: nat, bytesWritten: int)
    returns (used: nat, written: int)
    requires restartIndex <= availSize <= output.Length
    requires Safe(input, restartIndex, availSize)
    modifies output
    ensures |input| == 0 ==> used == 0 && written == bytesWritten && output[..] == old(output[..])
    ensures |input| > 0 ==>
              var r := Decode(input, old(output[..restartIndex]), availSize);
              && used == r.0 && written == |r.1| <= availSize
              && output[..written] == r.1
              && forall i | written <= i < output.Length :: output[i] == old(output[i])
  {
    hide Next, Decode, Safe, Expand;
    if |input| == 0 {
      return 0, bytesWritten;
    }
    var inp, outp, stop := 0, restartIndex, false;
    ghost var out := output[..outp];
    ghost var whole := Decode(input, out, availSize);
    assert input[0..] == input;

    while inp < |input| && !stop
      invariant inp <= |input| && restartIndex <= outp <= availSize
      invariant |out| == outp && output[..outp] == out
      invariant Safe(input[inp..], outp, availSize)
      invariant whole == Ahead(inp, Decode(input[inp..], out, availSize))
      invariant forall i | outp <= i < output.Length :: output[i] == old(output[i])
      invariant stop ==> !Fits(input[inp..], outp, availSize)
      decreases |input| - inp, !stop
    {
      Step(input, inp, out, availSize);
      ghost var p := Next(input[inp..]);
      inp, outp, stop := DecodePhrase(input, inp, availSize, output, outp);
      out := if stop then out else Expand(out, p.value);
    }
    Finish(input, inp, out, availSize);
    return inp, outp;
  }

  lemma Finish(bytes: seq<byte>, inp: nat, out: seq<byte>, cap: nat)
    requires inp <= |bytes| && Safe(bytes[inp..], |out|, cap)
    requires inp == |bytes| || !Fits(bytes[inp..], |out|, cap)
    ensures Decode(bytes[inp..], out, cap) == (0, out)
  {
    hide Decode, Safe;
    DecodeStuck(bytes[inp..], out, cap);
  }

  /** Executing the phrase at `inp`, when it fits, takes the run one step on. */
  lemma Step(bytes: seq<byte>, inp: nat, out: seq<byte>, cap: nat)
    requires inp < |bytes| && Safe(bytes[inp..], |out|, cap)
    ensures Fits(bytes[inp..], |out|, cap) ==>
              var p := Next(bytes[inp..]).value;
              && p.Reach() <= |out| && inp + p.Bytes() <= |bytes|
              && Safe(bytes[inp + p.Bytes()..], |out| + p.Size(), cap)
              && Decode(bytes[inp..], out, cap)
                 == Ahead(p.Bytes(), Decode(bytes[inp + p.Bytes()..], Expand(out, p), cap))
  {
    hide Decode, Safe, Next, Expand;
    if Fits(bytes[inp..], |out|, cap) {
      var p := Next(bytes[inp..]).value;
      DecodeStep(bytes[inp..], out, cap, p);
      assert bytes[inp..][p.Bytes()..] == bytes[inp + p.Bytes()..];
    }
  }
}
