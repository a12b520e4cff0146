/**
 * Rust's `<[T]>::chunks(n)`, which both chunking routines use to cut packed
 * image data into consecutive byte ranges.
 */
module Slices {
  import opened Wrappers
  import Arith

  /** The concatenation of a sequence of pieces. */
  function Flatten<T>(pieces: seq<seq<T>>): seq<T> {
    if |pieces| == 0 then [] else pieces[0] + Flatten(pieces[1..])
  }

  /**
   * Consecutive pieces of `n` elements each, the last one possibly shorter;
   * no piece is empty and the pieces put back together give `s`.
   */
  function SliceChunks<T>(s: seq<T>, n: nat): (r: seq<seq<T>>)
    requires n > 0
    ensures forall k | 0 <= k < |r| :: 0 < |r[k]| <= n
    ensures forall k | 0 <= k < |r| - 1 :: |r[k]| == n
    ensures |r| == 0 <==> |s| == 0
    decreases |s|
  {
    if |s| == 0 then
      []
    else if |s| <= n then
      [s]
    else
      var rest := SliceChunks(s[n..], n);
      [s[..n]] + rest
  }

  /**
   * A loop bound `pieces.len() - 1` as written: a `usize` subtraction,
   * which panics (`None`) when there are no pieces.
   */
  function LoopBoundAsWritten(count: nat): (bound: Option<nat>)
    ensures bound.None? <==> count == 0
    ensures bound.Some? ==> bound.value + 1 == count
  {
    if count == 0 then None else Some(count - 1)
  }

  /** Putting the pieces back together gives the original sequence. */
  lemma {:induction false} SliceChunksFlatten<T>(s: seq<T>, n: nat)
    requires n > 0
    ensures Flatten(SliceChunks(s, n)) == s
    decreases |s|
  {
    var r := SliceChunks(s, n);
    if |s| == 0 {
    } else if |s| <= n {
      assert r[1..] == [];
    } else {
      SliceChunksFlatten(s[n..], n);
      assert r[1..] == SliceChunks(s[n..], n);
      assert s == s[..n] + s[n..];
    }
  }

  /** There are `ceil(|s| / n)` pieces. */
  lemma {:induction false} SliceChunksCount<T>(s: seq<T>, n: nat)
    requires n > 0
    ensures |SliceChunks(s, n)| == (|s| + n - 1) / n
    decreases |s|
  {
    if |s| == 0 {
      assert SliceChunks(s, n) == [];
      Arith.DivModUnique(n - 1, n, 0, n - 1);
    } else if |s| <= n {
      assert SliceChunks(s, n) == [s];
      Arith.DivModUnique(|s| + n - 1, n, 1, |s| - 1);
    } else {
      var rest := SliceChunks(s[n..], n);
      assert SliceChunks(s, n) == [s[..n]] + rest;
      SliceChunksCount(s[n..], n);
      Arith.DivAddDivisor(|s| - 1, n);
    }
  }

  /** An array that starts with `a` followed by the first `w` elements of `b`. */
  lemma {:induction false} TakeJoin<T>(s: array<T>, a: seq<T>, b: seq<T>, w: nat)
    requires |a| + w <= s.Length && w <= |b|
    requires forall p | 0 <= p < |a| :: s[p] == a[p]
    requires forall p | 0 <= p < w :: s[|a| + p] == b[p]
    ensures s[..|a| + w] == a + b[..w]
  {
    assert forall p | 0 <= p < |a| + w :: s[..|a| + w][p] == (a + b[..w])[p] by {
      forall p | 0 <= p < |a| + w
        ensures s[..|a| + w][p] == (a + b[..w])[p]
      {
        if p >= |a| {
          assert s[|a| + (p - |a|)] == b[p - |a|];
        }
      }
    }
  }

  lemma {:induction false} AppendAssoc<T>(a: seq<T>, b: seq<T>, c: seq<T>)
    ensures (a + b) + c == a + (b + c)
  {
  }

  lemma {:induction false} SliceOfDrop<T>(s: seq<T>, n: nat, a: nat, b: nat)
    requires n <= |s| && a <= b <= |s| - n
    ensures s[n..][a..b] == s[n + a..n + b]
  {
  }

  /** Piece `k` is the slice starting at element `k * n`. */
  lemma {:induction false} SliceChunksAt<T>(s: seq<T>, n: nat, k: nat)
    requires n > 0 && k < |SliceChunks(s, n)|
    ensures Arith.Mul(k, n) < |s|
    ensures SliceChunks(s, n)[k] == s[Arith.Mul(k, n) .. Arith.Min(Arith.Mul(k, n) + n, |s|)]
    decreases |s|
  {
    var r := SliceChunks(s, n);
    if k == 0 {
      assert r[0] == s[..Arith.Min(n, |s|)];
    } else {
      var t := s[n..];
      assert r == [s[..n]] + SliceChunks(t, n);
      SliceChunksAt(t, n, k - 1);
      var lo := Arith.Mul(k - 1, n);
      var e := Arith.Min(lo + n, |t|);
      assert e + n == Arith.Min(lo + n + n, |s|);
      SliceOfDrop(s, n, lo, e);
    }
  }
}
