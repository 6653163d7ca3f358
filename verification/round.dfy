/**
 * One run of fft_main, with the message passing replaced by sequential
 * copies: every rank evaluates its own range of output positions on its own
 * copies of the coefficients and points, the workers' slices are placed into
 * rank 0's output buffer at the offsets the coordinator receives them at,
 * and the assembled buffer is the polynomial's value at every point.
 */
module Round {
  import opened ComplexArith
  import opened Polynomial
  import opened Evaluator
  import opened Partition

  datatype Option<T> = None | Some(value: T)

  /** A fresh array holding the elements of xs. */
  method FromSeq(xs: seq<Complex>) returns (a: array<Complex>)
    ensures fresh(a) && a[..] == xs
  {
    a := new Complex[|xs|];
    var k := 0;
    while k < |xs|
      invariant 0 <= k <= |xs| && a[..k] == xs[..k]
    {
      a[k] := xs[k];
      k := k + 1;
    }
  }

  /** evaluate over the whole coefficient array f, at the points x[r.startPos..r.stopPos]. */
  method EvaluateWhole(f: array<Complex>, x: array<Complex>, y: array<Complex>, r: Range)
    requires 0 < f.Length && 0 <= r.startPos <= r.stopPos < y.Length && r.stopPos < x.Length
    requires f != y && x != y && x != f
    modifies f, y
    ensures y[r.startPos..r.stopPos + 1] == EvalAt(old(f[..]), x[r.startPos..r.stopPos + 1])
    ensures forall i :: 0 <= i < y.Length && !(r.startPos <= i <= r.stopPos) ==> y[i] == old(y[i])
    ensures f[..] == Reordered(old(f[..]), 0, f.Length - 1)
  {
    ghost var coeffs := f[..];
    Evaluate(f, 0, f.Length - 1, x, y, r.startPos, r.stopPos);
    assert coeffs[0..f.Length - 1 + 1] == coeffs;
    SameValues(y[r.startPos..r.stopPos + 1], coeffs[0..f.Length - 1 + 1], coeffs,
               x[r.startPos..r.stopPos + 1], x[r.startPos..r.stopPos + 1]);
  }

  /**
   * One rank's call of evaluate in fft_main: with private copies of the
   * coefficients p and the points w, it evaluates the positions of range r
   * into a private output buffer s of wLength entries.
   */
  method RankEvaluate(p: seq<Complex>, w: seq<Complex>, r: Range) returns (s: array<Complex>)
    requires |p| > 0 && 0 <= r.startPos <= r.stopPos < |w|
    ensures fresh(s) && s.Length == |w|
    ensures s[r.startPos..r.stopPos + 1] == EvalAt(p, w[r.startPos..r.stopPos + 1])
  {
    var x := FromSeq(w);
    s := new Complex[|w|];
    var f := FromSeq(p);
    EvaluateWhole(f, x, s, r);
    assert x[r.startPos..r.stopPos + 1] == w[r.startPos..r.stopPos + 1];
  }

  /**
   * One receive of the gather: the count entries of src from `from` on land
   * in dst from `at` on, and nothing else in dst changes.
   */
  method Receive(dst: array<Complex>, at: int, src: array<Complex>, from: int, count: int)
    requires dst != src && 0 <= count
    requires 0 <= at && at + count <= dst.Length && 0 <= from && from + count <= src.Length
    modifies dst
    ensures dst[..] == old(dst[..])[..at] + src[from..from + count] + old(dst[..])[at + count..]
  {
    var k := 0;
    while k < count
      invariant 0 <= k <= count
      invariant dst[..at] == old(dst[..])[..at] && dst[at + k..] == old(dst[..])[at + k..]
      invariant dst[at..at + k] == src[from..from + k]
    {
      dst[at + k] := src[from + k];
      k := k + 1;
    }
    assert dst[..] == dst[..at] + dst[at..at + count] + dst[at + count..];
  }

  /**
   * One gather step: the buffer already held the values for [0, a), and the
   * values a worker computed for its range [start, stop] were placed at a.
   */
  lemma GatherStep(s0: seq<Complex>, s1: seq<Complex>, part: seq<Complex>, p: seq<Complex>, w: seq<Complex>,
                   start: int, stop: int, a: int, n: int)
    requires 0 <= a == start <= stop < |w| == |s0| == |part| && stop + 1 == start + n
    requires s0[..a] == EvalAt(p, w)[..a]
    requires part[start..stop + 1] == EvalAt(p, w[start..stop + 1])
    requires s1 == s0[..a] + part[start..start + n] + s0[a + n..]
    ensures s1[..a + n] == EvalAt(p, w)[..a + n]
  {
    EvalAtSlice(p, w, a, a + n);
    assert s1[..a + n] == s0[..a] + part[start..start + n];
    assert EvalAt(p, w)[..a + n] == EvalAt(p, w)[..a] + EvalAt(p, w)[a..a + n];
  }

  /**
   * One iteration of the coordinator's receive loop in fft_main, with
   * the sending worker's share folded in: worker i evaluates its range into
   * its own buffer and sends everageLength values from its startPos; they
   * are received into s at moreLength + i * everageLength. If s held the
   * values for the positions before worker i's range, it holds them up to
   * the end of that range after.
   */
  method GatherFrom(s: array<Complex>, p: seq<Complex>, w: seq<Complex>, size: int, i: int)
    requires Admissible(|w|, size) && 1 <= i < size && |p| > 0 && s.Length == |w|
    requires s[..PartitionOf(|w|, size, i - 1).stopPos + 1] == EvalAt(p, w)[..PartitionOf(|w|, size, i - 1).stopPos + 1]
    modifies s
    ensures s[..PartitionOf(|w|, size, i).stopPos + 1] == EvalAt(p, w)[..PartitionOf(|w|, size, i).stopPos + 1]
    ensures s[PartitionOf(|w|, size, i).stopPos + 1..] == old(s[PartitionOf(|w|, size, i).stopPos + 1..])
  {
    var everageLength := |w| / size;
    var moreLength := |w| % size;
    var r := PartitionOf(|w|, size, i);
    PartitionContiguous(|w|, size, i - 1);
    GatherOffset(|w|, size, i);
    var part := RankEvaluate(p, w, r);
    ghost var s0 := s[..];
    Receive(s, moreLength + i * everageLength, part, r.startPos, everageLength);
    GatherStep(s0, s[..], part[..], p, w, r.startPos, r.stopPos, moreLength + i * everageLength, everageLength);
  }

  /**
   * fft_main from its check of the number of ranks to the gather: None
   * when there are more ranks than output positions; otherwise rank 0's
   * buffer after the gather, which is rebroadcast to every rank unchanged.
   * It holds the polynomial p evaluated at every point of w, whatever the
   * number of ranks.
   */
  method RunRound(p: seq<Complex>, w: seq<Complex>, size: int) returns (result: Option<seq<Complex>>)
    requires 0 < size && |w| == 2 * |p|
    ensures result.None? <==> size > |w|
    ensures result.Some? ==> result.value == EvalAt(p, w)
  {
    var wLength := |w|;
    if size > wLength {
      return None;
    }
    var first := PartitionOf(wLength, size, 0);
    var s := RankEvaluate(p, w, first);
    EvalAtSlice(p, w, 0, first.stopPos + 1);
    var i := 1;
    while i < size
      invariant 1 <= i <= size && s.Length == wLength
      invariant s[..PartitionOf(wLength, size, i - 1).stopPos + 1] == EvalAt(p, w)[..PartitionOf(wLength, size, i - 1).stopPos + 1]
    {
      GatherFrom(s, p, w, size, i);
      i := i + 1;
    }
    PartitionEnds(wLength, size);
    assert s[..] == s[..wLength];
    return Some(s[..]);
  }
}
