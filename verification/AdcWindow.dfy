/** Decoding a long ADC stream through a bounded window: what DMGDecompressor_ADC keeps while it slides its
    buffer (src/DMGDecompressor.cpp:239-285). */
module AdcWindow {
  import opened Bytes
  import opened Adc

  const LOOKBACK := 0x10000          // the largest distance a phrase can reach back
  const CAPACITY := 0x20000 + 0x80   // two lookbacks and the largest phrase
  const INPUT_SIZE := 8 * 1024       // DMGDecompressor::m_buf

  lemma PrefixLegal(s: seq<byte>, k: nat)
    requires IsStream(s) && k <= |Phrases(s)|
    ensures Legal(Phrases(s)[..k], 0)
  {
    hide Phrases, PrintAll;
    LegalSplit(Phrases(s), k, []);
  }

  /** The output after the first `k` phrases. */
  ghost function Out(s: seq<byte>, k: nat): seq<byte>
    requires IsStream(s) && k <= |Phrases(s)|
  {
    PrefixLegal(s, k);
    ExpandAll([], Phrases(s)[..k])
  }

  /** `k` phrases of stream `s` are decoded; they took `pos` bytes, and `window` is their output from byte
      `base` on: all of it, or at least the longest lookback. */
  ghost predicate At(s: seq<byte>, k: nat, pos: nat, base: nat, window: seq<byte>) {
    && IsStream(s) && k <= |Phrases(s)| && pos == |PrintAll(Phrases(s)[..k])|
    && base <= |Out(s, k)| && window == Out(s, k)[base..]
    && (base == 0 || |window| >= LOOKBACK)
  }

  lemma AtStart(s: seq<byte>)
    requires IsStream(s)
    ensures At(s, 0, 0, 0, [])
  {
    assert Phrases(s)[..0] == [];
  }

  lemma Slide(s: seq<byte>, k: nat, pos: nat, base: nat, window: seq<byte>)
    requires At(s, k, pos, base, window) && |window| >= 2 * LOOKBACK
    ensures At(s, k, pos, base + LOOKBACK, window[LOOKBACK..])
  {
    hide Phrases, IsStream, PrintAll, Out;
    assert Out(s, k)[base..][LOOKBACK..] == Out(s, k)[base + LOOKBACK..];
  }

  /** What the window shows of the whole output. */
  lemma WindowShows(s: seq<byte>, k: nat, pos: nat, base: nat, window: seq<byte>, i: nat, n: nat)
    requires At(s, k, pos, base, window) && i + n <= |window|
    ensures base + |window| <= |Whole(s)|
    ensures window[i..i + n] == Whole(s)[base + i..base + i + n]
  {
    hide Phrases, PrintAll, Legal;
    OutPrefix(s, k);
    var out := Out(s, k);
    var x, y := window[i..i + n], Whole(s)[base + i..base + i + n];
    forall j | 0 <= j < n
      ensures x[j] == y[j]
    {
      assert x[j] == out[base + i + j] == Whole(s)[base + i + j];
    }
  }

  lemma OutPrefix(s: seq<byte>, k: nat)
    requires IsStream(s) && k <= |Phrases(s)|
    ensures Out(s, k) <= Whole(s)
  {
    hide Phrases, PrintAll;
    LegalSplit(Phrases(s), k, []);
  }

  /** The stream is used up exactly when all its phrases are decoded. */
  lemma AllDecoded(s: seq<byte>, k: nat, pos: nat, base: nat, window: seq<byte>)
    requires At(s, k, pos, base, window)
    ensures pos <= |s|
    ensures pos == |s| ==> base + |window| == |Whole(s)|
    ensures pos < |s| ==> k < |Phrases(s)| && base + |window| < |Whole(s)|
  {
    hide Out;
    RestOfStream(s, k, pos);
    var ps := Phrases(s);
    if k == |ps| {
      assert ps[..k] == ps && ps[k..] == [];
      OutAll(s);
    } else {
      PrintSome(ps[k..]);
      OutLess(s, k);
    }
  }

  lemma OutLess(s: seq<byte>, k: nat)
    requires IsStream(s) && k < |Phrases(s)|
    ensures |Out(s, k)| < |Whole(s)|
  {
    hide Phrases, PrintAll;
    var ps := Phrases(s);
    LegalSplit(ps, k, []);
    assert ps[k..][0] == ps[k] && ps[k] in ps;
  }

  lemma OutAll(s: seq<byte>)
    requires IsStream(s)
    ensures Out(s, |Phrases(s)|) == Whole(s)
  {
    hide Phrases, PrintAll, Legal;
    assert Phrases(s)[..|Phrases(s)|] == Phrases(s);
  }

  lemma PrintSome(ps: seq<Phrase>)
    requires AllValid(ps) && ps != []
    ensures |PrintAll(ps)| > 0
  {
    hide Print;
    assert ps[0] in ps;
  }

  lemma RestOfStream(s: seq<byte>, k: nat, pos: nat)
    requires IsStream(s) && k <= |Phrases(s)| && pos == |PrintAll(Phrases(s)[..k])|
    ensures pos <= |s| && s[pos..] == PrintAll(Phrases(s)[k..]) && Phrases(s[pos..]) == Phrases(s)[k..]
  {
    hide PrintAll, Next, Phrases, Legal;
    var ps := Phrases(s);
    assert ps == ps[..k] + ps[k..];
    PrintAllAppend(ps[..k], ps[k..]);
    NextOfNothing();
    ParsePrinted(ps[k..], []);
    assert PrintAll(ps[k..]) + [] == PrintAll(ps[k..]);
  }

  /** Legal in the whole output is legal in a window that keeps the longest lookback. */
  lemma {:induction false} LegalInWindow(ps: seq<Phrase>, have: nat, window: nat)
    requires AllValid(ps) && Legal(ps, have) && (window == have || (window <= have && window >= LOOKBACK))
    ensures Legal(ps, window)
  {
    if ps != [] {
      assert ps[0] in ps;
      LegalInWindow(ps[1..], have + ps[0].Size(), window + ps[0].Size());
    }
  }

  lemma {:induction false} LegalIsSafe(input: seq<byte>, have: nat, cap: nat)
    requires Legal(Phrases(input), have)
    ensures Safe(input, have, cap)
    decreases |input|
  {
    hide Next;
    match Next(input) {
      case None =>
      case Some(p) =>
        var rest := input[p.Bytes()..];
        assert Phrases(input)[1..] == Phrases(rest);
        LegalIsSafe(rest, have + p.Size(), cap);
    }
  }

  lemma ExpandSuffix(out: seq<byte>, base: nat, p: Phrase)
    requires base <= |out| && p.Reach() <= |out| - base
    ensures Expand(out[base..], p) == Expand(out, p)[base..]
  {
    hide CopyBack;
    if p.Store? {
      assert out[base..] + p.data == (out + p.data)[base..];
    } else {
      CopyBackSuffix(out, base, p.offset + 1, p.len);
    }
  }

  lemma {:induction false} ExpandAllSuffix(out: seq<byte>, base: nat, ps: seq<Phrase>)
    requires base <= |out| && Legal(ps, |out|) && Legal(ps, |out| - base)
    ensures ExpandAll(out[base..], ps) == ExpandAll(out, ps)[base..]
    decreases |ps|
  {
    hide Expand;
    if ps != [] {
      ExpandSuffix(out, base, ps[0]);
      ExpandAllSuffix(Expand(out, ps[0]), base, ps[1..]);
    }
  }

  /** The phrases of a chunk of input are the next phrases of the stream. */
  lemma ChunkPhrases(s: seq<byte>, k: nat, pos: nat, n: nat)
    requires IsStream(s) && k <= |Phrases(s)| && pos == |PrintAll(Phrases(s)[..k])| && pos + n <= |s|
    ensures Phrases(s[pos..pos + n]) <= Phrases(s)[k..]
  {
    hide PrintAll, Next, Phrases, Legal;
    RestOfStream(s, k, pos);
    var a, b := s[pos..pos + n], s[pos + n..];
    assert s[pos..] == a + b;
    PhrasesSplit(a, b);
  }

  /** A chunk that is long enough, or is all there is, starts with a whole phrase. */
  lemma ChunkNotEmpty(s: seq<byte>, k: nat, pos: nat, n: nat)
    requires IsStream(s) && k < |Phrases(s)| && pos == |PrintAll(Phrases(s)[..k])| && pos + n <= |s|
    requires n == |s| - pos || n >= 0x81
    ensures Next(s[pos..pos + n]) == Some(Phrases(s)[k])
  {
    hide Next, Print, Phrases, Legal;
    RestOfStream(s, k, pos);
    var p, ps, chunk := Phrases(s)[k], Phrases(s)[k..], s[pos..pos + n];
    assert p in ps && ps[0] == p;
    assert s[pos..] == Print(p) + PrintAll(ps[1..]);
    var m := |Print(p)|;
    assert s[pos..][..m] == Print(p);
    assert chunk[..m] == s[pos..][..m];
    assert chunk == Print(p) + chunk[m..];
    NextOfPrint(p, chunk[m..]);
  }

  /** One call of the decoder on the next chunk: it makes progress, and leaves a window of the longer output. */
  lemma Advance(s: seq<byte>, k: nat, pos: nat, base: nat, window: seq<byte>, chunk: seq<byte>) returns (k': nat)
    requires At(s, k, pos, base, window) && pos < |s| && |window| < 2 * LOOKBACK
    requires chunk == s[pos..pos + Min(INPUT_SIZE, |s| - pos)]
    ensures Safe(chunk, |window|, CAPACITY)
    ensures var r := Decode(chunk, window, CAPACITY);
            r.0 > 0 && At(s, k', pos + r.0, base, r.1)
  {
    hide PrintAll, Next, Phrases, Print, Legal, ExpandAll, Decode, Safe, Fit, Run;
    var ps, n := Phrases(s), Min(INPUT_SIZE, |s| - pos);
    AllDecoded(s, k, pos, base, window);
    ChunkPhrases(s, k, pos, n);
    ChunkNotEmpty(s, k, pos, n);
    var cs := Phrases(chunk);
    ChunkLegal(s, k, cs, base);
    LegalIsSafe(chunk, |window|, CAPACITY);
    DecodeMeaning(chunk, window, CAPACITY);
    var run := Run(chunk, |window|, CAPACITY);
    RunIsPrefix(chunk, |window|, CAPACITY);
    RunNotEmpty(chunk, |window|, CAPACITY, ps[k]);
    k' := k + |run|;
    assert ps[k..][..|run|] == run;
    assert ps[..k'] == ps[..k] + run;
    ExtendOut(s, k, run, base);
    PrintAllAppend(ps[..k], run);
    PrintSome(run);
  }

  lemma ChunkLegal(s: seq<byte>, k: nat, cs: seq<Phrase>, base: nat)
    requires IsStream(s) && k <= |Phrases(s)| && cs <= Phrases(s)[k..] && AllValid(cs) && base <= |Out(s, k)|
    requires base == 0 || |Out(s, k)| - base >= LOOKBACK
    ensures Legal(cs, |Out(s, k)| - base)
  {
    hide PrintAll, Phrases, Legal, ExpandAll;
    var ps := Phrases(s);
    PrefixLegal(s, k);
    LegalSplit(ps, k, []);
    LegalSplit(ps[k..], |cs|, Out(s, k));
    assert ps[k..][..|cs|] == cs;
    LegalInWindow(cs, |Out(s, k)|, |Out(s, k)| - base);
  }

  lemma RunIsPrefix(input: seq<byte>, have: nat, cap: nat)
    ensures Run(input, have, cap) <= Phrases(input)
  {
  }

  lemma RunNotEmpty(input: seq<byte>, have: nat, cap: nat, p: Phrase)
    requires Next(input) == Some(p) && have + 0x80 <= cap
    ensures Run(input, have, cap) != []
  {
    hide Next;
    RunStep(input, have, cap, p);
  }

  lemma ExtendOut(s: seq<byte>, k: nat, run: seq<Phrase>, base: nat)
    requires IsStream(s) && k + |run| <= |Phrases(s)| && Phrases(s)[..k + |run|] == Phrases(s)[..k] + run
    requires base <= |Out(s, k)| && Legal(run, |Out(s, k)| - base)
    ensures base <= |Out(s, k + |run|)|
    ensures Out(s, k + |run|)[base..] == ExpandAll(Out(s, k)[base..], run)
    ensures |Out(s, k + |run|)| >= |Out(s, k)|
  {
    hide PrintAll, Phrases, Legal, IsStream, Expand, SizeAll;
    var ps := Phrases(s);
    PrefixLegal(s, k);
    PrefixLegal(s, k + |run|);
    LegalAppend(ps[..k], run, []);
    ExpandAllSuffix(Out(s, k), base, run);
  }

  // ---- Which requests the sliding window answers ----

  ghost predicate Reached(s: seq<byte>, pos: nat, base: nat, window: seq<byte>) {
    exists k: nat :: At(s, k, pos, base, window)
  }

  ghost function Chunk(s: seq<byte>, pos: nat): seq<byte>
    requires pos <= |s|
  {
    s[pos..pos + Min(INPUT_SIZE, |s| - pos)]
  }

  lemma ChunkExtends(s: seq<byte>, pos: nat)
    requires pos <= |s|
    ensures pos + |Chunk(s, pos)| <= |s| && s[..pos] + Chunk(s, pos) == s[..pos + |Chunk(s, pos)|]
  {
  }

  /** One round, as a step from one window to the next. */
  lemma Round(s: seq<byte>, pos: nat, base: nat, window: seq<byte>)
    requires Reached(s, pos, base, window) && pos < |s| && |window| < 2 * LOOKBACK
    ensures Safe(Chunk(s, pos), |window|, CAPACITY)
    ensures var r := Decode(Chunk(s, pos), window, CAPACITY);
            && r.0 > 0 && pos + r.0 <= |s| && |r.1| <= CAPACITY
            && Reached(s, pos + r.0, base, r.1)
            && (|r.1| >= 2 * LOOKBACK ==> Reached(s, pos + r.0, base + LOOKBACK, r.1[LOOKBACK..]))
  {
    hide At, Decode, Safe, IsStream;
    var k: nat :| At(s, k, pos, base, window);
    var k' := Advance(s, k, pos, base, window, Chunk(s, pos));
    var r := Decode(Chunk(s, pos), window, CAPACITY);
    if |r.1| >= 2 * LOOKBACK {
      Slide(s, k', pos + r.0, base, r.1);
    }
  }

  /** What a round leaves: the input position, and the bytes in the buffer. */
  ghost function AfterRound(s: seq<byte>, pos: nat, window: seq<byte>): (nat, seq<byte>)
    requires pos <= |s|
  {
    if Safe(Chunk(s, pos), |window|, CAPACITY) then
      var r := Decode(Chunk(s, pos), window, CAPACITY);
      (pos + r.0, r.1)
    else (pos, window)
  }

  lemma RoundAdvances(s: seq<byte>, pos: nat, base: nat, window: seq<byte>)
    requires Reached(s, pos, base, window) && pos < |s| && |window| < 2 * LOOKBACK
    ensures var (pos', w) := AfterRound(s, pos, window);
            && pos < pos' <= |s| && |w| <= CAPACITY && Reached(s, pos', base, w)
            && (|w| >= 2 * LOOKBACK ==> Reached(s, pos', base + LOOKBACK, w[LOOKBACK..]))
  {
    hide At, Decode, Safe, IsStream, Reached;
    Round(s, pos, base, window);
  }

  /** How wide the window over the output from byte `target` on gets before it slides on, or the stream ends;
      0 when it never slides that far. */
  ghost function Width(s: seq<byte>, pos: nat, base: nat, window: seq<byte>, target: nat): nat
    requires pos <= |s|
    decreases |s| - pos
  {
    if pos == |s| then (if base == target then |window| else 0)
    else
      var (pos', w) := AfterRound(s, pos, window);
      if !(pos < pos' <= |s|) then 0
      else if |w| < 2 * LOOKBACK then Width(s, pos', base, w, target)
      else if base == target then |w|
      else Width(s, pos', base + LOOKBACK, w[LOOKBACK..], target)
  }

  ghost function FullWidth(s: seq<byte>, target: nat): nat {
    Width(s, 0, 0, [], target)
  }

  lemma {:induction false} WidthBounds(s: seq<byte>, pos: nat, base: nat, window: seq<byte>, target: nat)
    requires pos <= |s| && Reached(s, pos, base, window) && |window| < 2 * LOOKBACK
    requires base <= target && (target - base) % LOOKBACK == 0
    ensures IsStream(s)
    ensures var w := Width(s, pos, base, window, target);
            && w <= CAPACITY && (w > 0 ==> target + w <= |Whole(s)|)
            && (target + 2 * LOOKBACK <= |Whole(s)| ==> w >= 2 * LOOKBACK)
    decreases |s| - pos
  {
    hide At, AfterRound, IsStream, Whole;
    var k: nat :| At(s, k, pos, base, window);
    AtStream(s, k, pos, base, window);
    AllDecoded(s, k, pos, base, window);
    if pos < |s| {
      RoundAdvances(s, pos, base, window);
      var (pos', w) := AfterRound(s, pos, window);
      var k': nat :| At(s, k', pos', base, w);
      AllDecoded(s, k', pos', base, w);
      if |w| < 2 * LOOKBACK {
        WidthBounds(s, pos', base, w, target);
      } else if base != target {
        WidthBounds(s, pos', base + LOOKBACK, w[LOOKBACK..], target);
      }
    }
  }

  lemma AtStream(s: seq<byte>, k: nat, pos: nat, base: nat, window: seq<byte>)
    requires At(s, k, pos, base, window)
    ensures IsStream(s)
  {
  }

  /** How many bytes at the end of a request are not written although it succeeds: as many as the request starts
      behind a lookback's start, when neither two lookbacks nor the window over that lookback hold it. */
  ghost function Lost(s: seq<byte>, offset: nat, count: nat): nat {
    var r := offset % LOOKBACK;
    if r + count <= 2 * LOOKBACK || r + count <= FullWidth(s, offset - r) then 0 else r
  }

  lemma LostBound(s: seq<byte>, offset: nat, count: nat)
    ensures Lost(s, offset, count) <= count
  {
    hide FullWidth;
  }

  /** The requests that succeed: those inside the stream, and those that lose enough to be, unless the stream ends
      with the window that loses them. */
  ghost predicate Answered(s: seq<byte>, offset: nat, count: nat)
    requires IsStream(s)
  {
    AnsweredIn(s, |Whole(s)|, offset, count)
  }

  ghost predicate AnsweredIn(s: seq<byte>, length: nat, offset: nat, count: nat) {
    var r, lost := offset % LOOKBACK, Lost(s, offset, count);
    && offset + count - lost <= length
    && (lost > 0 ==> offset - r + FullWidth(s, offset - r) < length)
  }

  /** Requests that start at a lookback's start or end within two lookbacks are answered in full when they lie in
      the stream, and fail when they do not. */
  lemma NothingLost(s: seq<byte>, offset: nat, count: nat)
    requires IsStream(s) && (offset % LOOKBACK == 0 || offset % LOOKBACK + count <= 2 * LOOKBACK)
    ensures Lost(s, offset, count) == 0
    ensures Answered(s, offset, count) <==> offset + count <= |Whole(s)|
  {
    hide FullWidth, IsStream, Whole;
  }

  /** Requests inside the stream succeed, with or without their tail. */
  lemma InsideIsAnswered(s: seq<byte>, offset: nat, count: nat)
    requires IsStream(s) && offset + count <= |Whole(s)|
    ensures Answered(s, offset, count)
  {
    hide FullWidth, IsStream, Whole;
  }

  /** Requests inside the stream that do not fit the buffer lose their tail. */
  lemma TailLost(s: seq<byte>, offset: nat, count: nat)
    requires IsStream(s) && offset % LOOKBACK > 0 && offset % LOOKBACK + count > CAPACITY
    requires offset + count <= |Whole(s)|
    ensures Lost(s, offset, count) == offset % LOOKBACK && Answered(s, offset, count)
  {
    hide Width, IsStream, Whole, At;
    var target := offset - offset % LOOKBACK;
    AtStart(s);
    WidthBounds(s, 0, 0, [], target);
  }
}
