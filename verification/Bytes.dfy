/** Bytes, outcomes, and the two sequence operations every reader's contract is written with. */
module Bytes {

  type byte = x: int | 0 <= x < 256

  /** The exception classes the readers throw (src/exceptions.h and the standard library). */
  datatype Error = IoError | LogicError | RuntimeError | NotImplemented

  datatype Option<+T> = None | Some(value: T)

  datatype Result<+T> = Ok(value: T) | Throws(error: Error)

  function Raise<T>(e: Error): Result<T> {
    Throws(e)
  }

  function Min(a: int, b: int): int {
    if a < b then a else b
  }

  function Max(a: int, b: int): int {
    if a < b then b else a
  }

  /** How many bytes a read of `count` bytes at `offset` yields from a flat file of `length` bytes. */
  function Clip(length: nat, count: nat, offset: nat): nat {
    if offset >= length then 0 else Min(count, length - offset)
  }

  /** The bytes such a read yields. */
  function Window(flat: seq<byte>, count: nat, offset: nat): (w: seq<byte>)
    ensures |w| == Clip(|flat|, count, offset)
  {
    if offset >= |flat| then [] else flat[offset..offset + Clip(|flat|, count, offset)]
  }

  /** `s` with `data` written over it, starting at index `at`. */
  function Overwrite(s: seq<byte>, at: nat, data: seq<byte>): (t: seq<byte>)
    requires at + |data| <= |s|
    ensures |t| == |s|
  {
    s[..at] + data + s[at + |data|..]
  }

  lemma OverwriteNothing(s: seq<byte>, at: nat)
    requires at <= |s|
    ensures Overwrite(s, at, []) == s
  {
  }

  /** A window that lies inside the file. */
  lemma WindowInside(flat: seq<byte>, n: nat, offset: nat)
    requires offset + n <= |flat|
    ensures Clip(|flat|, n, offset) == n && Window(flat, n, offset) == flat[offset..offset + n]
  {
  }

  /** memcpy of `data` into `buf` at index `at`. */
  method Memcpy(buf: array<byte>, at: nat, data: seq<byte>)
    requires at + |data| <= buf.Length
    modifies buf
    ensures buf[..] == Overwrite(old(buf[..]), at, data)
  {
    forall i | 0 <= i < |data| {
      buf[at + i] := data[i];
    }
  }

  lemma {:induction false} SubsetSize<T>(a: set<T>, b: set<T>)
    requires a <= b
    ensures |a| <= |b|
  {
    if a != {} {
      var x :| x in a;
      SubsetSize(a - {x}, b - {x});
    }
  }

  // ---- Filling a buffer piece by piece ----

  /** Bytes `lo..hi` of the request at index `at` of buffer `b` are in place. */
  ghost predicate Has(b: seq<byte>, at: nat, lo: nat, hi: nat, flat: seq<byte>, offset: nat) {
    && lo <= hi && at + hi <= |b| && offset + hi <= |flat|
    && forall i | at + lo <= i < at + hi :: b[i] == flat[offset + (i - at)]
  }

  /** `b` differs from `b0` in the first `n` bytes behind index `at` only. */
  ghost predicate SameOutside(b: seq<byte>, b0: seq<byte>, at: nat, n: nat) {
    && |b| == |b0|
    && forall i | 0 <= i < |b| && !(at <= i < at + n) :: b[i] == b0[i]
  }

  /** Writing a piece of the file puts that piece in place and disturbs nothing else. */
  lemma WritePiece(b: seq<byte>, b': seq<byte>, at: nat, flat: seq<byte>, offset: nat, x: nat, n: nat)
    requires at + x + n <= |b| && offset + x + n <= |flat|
    requires b' == Overwrite(b, at + x, flat[offset + x..offset + x + n])
    ensures Has(b', at, x, x + n, flat, offset)
    ensures forall lo: nat, hi: nat ::
              Has(b, at, lo, hi, flat, offset) && (hi <= x || x + n <= lo) ==> Has(b', at, lo, hi, flat, offset)
    ensures forall b0, m: nat :: SameOutside(b, b0, at, m) && x + n <= m ==> SameOutside(b', b0, at, m)
  {
    assert forall i | at + x <= i < at + x + n :: b'[i] == flat[offset + x..offset + x + n][i - (at + x)];
  }

  lemma JoinPieces(b: seq<byte>, at: nat, lo: nat, mid: nat, hi: nat, flat: seq<byte>, offset: nat)
    requires Has(b, at, lo, mid, flat, offset) && Has(b, at, mid, hi, flat, offset)
    ensures Has(b, at, lo, hi, flat, offset)
  {
  }

  /** A request all of whose bytes are in place is a delivered request. */
  lemma AllInPlace(b: seq<byte>, b0: seq<byte>, at: nat, n: nat, flat: seq<byte>, offset: nat)
    requires Has(b, at, 0, n, flat, offset) && SameOutside(b, b0, at, n)
    ensures b == Overwrite(b0, at, flat[offset..offset + n])
  {
    var w := flat[offset..offset + n];
    forall i | 0 <= i < |b|
      ensures b[i] == Overwrite(b0, at, w)[i]
    {
      if at <= i < at + n {
        assert w[i - at] == flat[offset + (i - at)];
      }
    }
  }

  lemma NothingYet(b: seq<byte>, at: nat, flat: seq<byte>, offset: nat)
    requires at <= |b| && offset <= |flat|
    ensures Has(b, at, 0, 0, flat, offset) && SameOutside(b, b, at, 0)
  {
  }

  lemma WiderOutside(b: seq<byte>, b0: seq<byte>, at: nat, n: nat, m: nat)
    requires SameOutside(b, b0, at, n) && n <= m
    ensures SameOutside(b, b0, at, m)
  {
  }

  lemma NoPiece(b: seq<byte>, at: nat, x: nat, flat: seq<byte>, offset: nat)
    requires at + x <= |b| && offset + x <= |flat|
    ensures Has(b, at, x, x, flat, offset)
  {
  }

  lemma PieceOfSlice(s: seq<byte>, start: nat, length: nat, from: nat, n: nat)
    requires start + length <= |s| && from + n <= length
    ensures s[start..start + length][from..from + n] == s[start + from..start + from + n]
  {
    var t := s[start..start + length];
    var x, y := t[from..from + n], s[start + from..start + from + n];
    forall k | 0 <= k < n
      ensures x[k] == y[k]
    {
      assert x[k] == t[from + k] == s[start + from + k] == y[k];
    }
  }

  lemma TakeTake<T>(s: seq<T>, i: nat)
    requires i < |s|
    ensures s[..i + 1][..i] == s[..i]
  {
    forall k | 0 <= k < i
      ensures s[..i + 1][..i][k] == s[..i][k]
    {
    }
  }

  lemma OverwriteFront(s: seq<byte>, data: seq<byte>)
    requires |data| <= |s|
    ensures Overwrite(s, 0, data)[..|data|] == data
  {
  }

  lemma HasBounds(b: seq<byte>, at: nat, lo: nat, hi: nat, flat: seq<byte>, offset: nat)
    requires Has(b, at, lo, hi, flat, offset)
    ensures lo <= hi && at + hi <= |b| && offset + hi <= |flat|
  {
  }
}
