/**
 * The recursive evaluator `evaluate` of fft_mpi.c: for every output
 * position i in [leftPos, rightPos] it computes the value at x[i] of the
 * polynomial whose coefficients are f[beginPos..endPos], by the radix-2
 * recurrence y[i] = E(x[i]^2) + x[i] * O(x[i]^2). The points in x are
 * arbitrary; nothing here relies on them being roots of unity.
 */
module Evaluator {
  import opened ComplexArith
  import opened Parity
  import opened Polynomial

  /**
   * The order evaluate leaves a coefficient range s in. A range of one or
   * two coefficients is left alone; otherwise shuffle puts the even offsets
   * first and the odd offsets behind them, and the recursive calls reorder
   * each half the same way.
   */
  function EvalOrder(s: seq<Complex>): (r: seq<Complex>)
    ensures |r| == |s|
    decreases |s|
  {
    if |s| <= 2 then s
    else
      EvensLength(s);
      OddsLength(s);
      EvalOrder(Evens(s)) + EvalOrder(Odds(s))
  }

  /**
   * Where the reordering puts things, as an index formula: position k of a
   * reordered range of length n holds the element that was at offset
   * EvalIndex(n, k). For n a power of two this is the bit-reversal
   * permutation.
   */
  function EvalIndex(n: nat, k: nat): (r: nat)
    requires k < n
    ensures r < n
  {
    if n <= 2 then k
    else if k < (n + 1) / 2 then 2 * EvalIndex((n + 1) / 2, k)
    else 2 * EvalIndex(n / 2, k - (n + 1) / 2) + 1
  }

  /** The recursive reordering and the index formula agree. */
  lemma {:induction false} EvalOrderIndex(s: seq<Complex>, k: int)
    requires 0 <= k < |s|
    ensures EvalOrder(s)[k] == s[EvalIndex(|s|, k)]
    decreases |s|
  {
    if |s| > 2 {
      var h := (|s| + 1) / 2;
      EvensLength(s);
      if k < h {
        EvalOrderIndex(Evens(s), k);
        EvensAt(s);
      } else {
        OddsLength(s);
        EvalOrderIndex(Odds(s), k - h);
        OddsAt(s);
      }
    }
  }

  /** A whole array's contents s after evaluate has reordered the range [b, e] of it. */
  function Reordered(s: seq<Complex>, b: int, e: int): (r: seq<Complex>)
    requires 0 <= b <= e < |s|
    ensures |r| == |s|
  {
    s[..b] + EvalOrder(s[b..e + 1]) + s[e + 1..]
  }

  /** evaluate only permutes the coefficient range it is given. */
  lemma {:induction false} EvalOrderPermutation(s: seq<Complex>)
    ensures multiset(EvalOrder(s)) == multiset(s)
    decreases |s|
  {
    if |s| > 2 {
      EvensLength(s);
      OddsLength(s);
      EvalOrderPermutation(Evens(s));
      EvalOrderPermutation(Odds(s));
      EvensOddsPermutation(s);
    }
  }

  /** The squares of the points xs, in order. */
  function Squares(xs: seq<Complex>): (r: seq<Complex>)
    ensures |r| == |xs|
  {
    seq(|xs|, k requires 0 <= k < |xs| => Mul(xs[k], xs[k]))
  }

  /**
   * One step of evaluate's combining loop, at the k-th point t of xs: with
   * evens and odds the values of the even and odd halves of s at the
   * squared points, E(t^2) + t * O(t^2) is the value of s at t.
   */
  lemma CombinePoint(s: seq<Complex>, xs: seq<Complex>, evens: seq<Complex>, odds: seq<Complex>, k: int)
    requires evens == EvalAt(Evens(s), Squares(xs)) && odds == EvalAt(Odds(s), Squares(xs))
    requires 0 <= k < |xs|
    ensures Add(evens[k], Mul(xs[k], odds[k])) == DirectEval(s, xs[k])
  {
    EvenOddSplit(s, xs[k]);
  }

  /** Values computed point by point make up EvalAt. */
  lemma FromPointwise(ys: seq<Complex>, c: seq<Complex>, xs: seq<Complex>)
    requires |ys| == |xs| && forall k :: 0 <= k < |ys| ==> ys[k] == DirectEval(c, xs[k])
    ensures ys == EvalAt(c, xs)
  {
  }

  /** What evaluate does to f outside the range [b, e]: nothing. */
  lemma ReorderedFrame(s: seq<Complex>, b: int, e: int)
    requires 0 <= b <= e < |s|
    ensures Reordered(s, b, e)[..b] == s[..b] && Reordered(s, b, e)[e + 1..] == s[e + 1..]
    ensures Reordered(s, b, e)[b..e + 1] == EvalOrder(s[b..e + 1])
  {
    var r, em := Reordered(s, b, e), EvalOrder(s[b..e + 1]);
    assert r == s[..b] + em + s[e + 1..];
  }

  /** What evaluate does to f: it permutes the range [b, e], and so the whole of f. */
  lemma ReorderedPermutes(s: seq<Complex>, b: int, e: int)
    requires 0 <= b <= e < |s|
    ensures multiset(Reordered(s, b, e)[b..e + 1]) == multiset(s[b..e + 1])
    ensures multiset(Reordered(s, b, e)) == multiset(s)
  {
    var pre, mid, post := s[..b], s[b..e + 1], s[e + 1..];
    ReorderedFrame(s, b, e);
    EvalOrderPermutation(mid);
    assert s == pre + mid + post;
    assert Reordered(s, b, e) == pre + EvalOrder(mid) + post;
  }

  /** After the shuffle, the two halves of the range are the evens and the odds; m is midPos. */
  lemma ShuffledHalves(pre: seq<Complex>, f0: seq<Complex>, b: int, m: int, e: int)
    requires 0 <= b <= m < e < |pre| && |f0| == |pre|
    requires m - b + 1 == |Evens(pre[b..e + 1])|
    requires f0 == pre[..b] + Shuffled(pre[b..e + 1]) + pre[e + 1..]
    ensures f0[b..m + 1] == Evens(pre[b..e + 1]) && f0[m + 1..e + 1] == Odds(pre[b..e + 1])
  {
    OddsLength(pre[b..e + 1]);
  }

  /**
   * Reordering [b, m] and then [m + 1, e] reorders each half on its own: the
   * first step leaves the second half as it found it.
   */
  lemma ReorderedTwice(f0: seq<Complex>, b: int, m: int, e: int)
    requires 0 <= b <= m < e < |f0|
    ensures Reordered(f0, b, m)[m + 1..e + 1] == f0[m + 1..e + 1]
    ensures Reordered(Reordered(f0, b, m), m + 1, e)
         == f0[..b] + EvalOrder(f0[b..m + 1]) + EvalOrder(f0[m + 1..e + 1]) + f0[e + 1..]
  {
    var f1 := Reordered(f0, b, m);
    assert f1[m + 1..] == f0[m + 1..];
    assert f1[..m + 1] == f0[..b] + EvalOrder(f0[b..m + 1]);
  }

  /** Regrouping a concatenation: a solver hint for the calc in EvaluateAssembled. */
  lemma ConcatRegrouped<T>(a: seq<T>, b: seq<T>, c: seq<T>, d: seq<T>)
    ensures a + b + c + d == a + (b + c) + d
  {
  }

  /**
   * Bookkeeping for evaluate's recursive case: pre is f on entry, f0 after
   * the shuffle and f2 after both halves are reordered; m is midPos.
   */
  lemma EvaluateAssembled(pre: seq<Complex>, f0: seq<Complex>, f2: seq<Complex>, b: int, m: int, e: int)
    requires 0 <= b && b + 2 <= e < |pre| && m == (b + e) / 2
    requires |f0| == |pre| && |f2| == |pre|
    requires f0 == pre[..b] + Shuffled(pre[b..e + 1]) + pre[e + 1..]
    requires f2 == Reordered(Reordered(f0, b, m), m + 1, e)
    ensures f0[b..m + 1] == Evens(pre[b..e + 1]) && f0[m + 1..e + 1] == Odds(pre[b..e + 1])
    ensures f2 == Reordered(pre, b, e)
  {
    var s := pre[b..e + 1];
    EvensLength(s);
    ShuffledHalves(pre, f0, b, m, e);
    ReorderedTwice(f0, b, m, e);
    calc {
      f2;
      f0[..b] + EvalOrder(f0[b..m + 1]) + EvalOrder(f0[m + 1..e + 1]) + f0[e + 1..];
      { assert f0[..b] == pre[..b] && f0[e + 1..] == pre[e + 1..]; }
      pre[..b] + EvalOrder(Evens(s)) + EvalOrder(Odds(s)) + pre[e + 1..];
      { ConcatRegrouped(pre[..b], EvalOrder(Evens(s)), EvalOrder(Odds(s)), pre[e + 1..]); }
      pre[..b] + EvalOrder(s) + pre[e + 1..];
    }
  }

  /**
   * evaluate's first base case (one coefficient): sets y[i] to c for every
   * i in [leftPos, rightPos].
   */
  method FillConstant(x: array<Complex>, y: array<Complex>, leftPos: int, rightPos: int, c: Complex)
    requires 0 <= leftPos <= rightPos < y.Length && rightPos < x.Length && x != y
    modifies y
    ensures forall k :: leftPos <= k <= rightPos ==> y[k] == c
    ensures y[leftPos..rightPos + 1] == EvalAt([c], x[leftPos..rightPos + 1])
    ensures forall k :: 0 <= k < y.Length && !(leftPos <= k <= rightPos) ==> y[k] == old(y[k])
  {
    var i := leftPos;
    while i <= rightPos
      invariant leftPos <= i <= rightPos + 1
      invariant forall k :: leftPos <= k < i ==> y[k] == c
      invariant forall k :: 0 <= k < y.Length && !(leftPos <= k < i) ==> y[k] == old(y[k])
    {
      y[i] := c;
      i := i + 1;
    }
    forall k | leftPos <= k <= rightPos
      ensures y[k] == DirectEval([c], x[k])
    {
      DirectEvalConstant(c, x[k]);
    }
  }

  /**
   * evaluate's second base case (two coefficients c0, c1): sets y[i] to
   * c0 + c1 * x[i] for every i in [leftPos, rightPos].
   */
  method FillLinear(x: array<Complex>, y: array<Complex>, leftPos: int, rightPos: int, c0: Complex, c1: Complex)
    requires 0 <= leftPos <= rightPos < y.Length && rightPos < x.Length && x != y
    modifies y
    ensures forall k :: leftPos <= k <= rightPos ==> y[k] == Add(c0, Mul(c1, x[k]))
    ensures y[leftPos..rightPos + 1] == EvalAt([c0, c1], x[leftPos..rightPos + 1])
    ensures forall k :: 0 <= k < y.Length && !(leftPos <= k <= rightPos) ==> y[k] == old(y[k])
  {
    var i := leftPos;
    while i <= rightPos
      invariant leftPos <= i <= rightPos + 1
      invariant forall k :: leftPos <= k < i ==> y[k] == Add(c0, Mul(c1, x[k]))
      invariant forall k :: 0 <= k < y.Length && !(leftPos <= k < i) ==> y[k] == old(y[k])
    {
      var temp := Mul(c1, x[i]);
      y[i] := Add(c0, temp);
      i := i + 1;
    }
    forall k | leftPos <= k <= rightPos
      ensures y[k] == DirectEval([c0, c1], x[k])
    {
      DirectEvalLinear(c0, c1, x[k]);
    }
  }

  /** The first loop of evaluate's recursive case: tempX[i] := x[i]^2 for i in [leftPos, rightPos]. */
  method SquarePoints(x: array<Complex>, tempX: array<Complex>, leftPos: int, rightPos: int)
    requires 0 <= leftPos <= rightPos < x.Length && rightPos < tempX.Length && x != tempX
    modifies tempX
    ensures forall k :: leftPos <= k <= rightPos ==> tempX[k] == Mul(x[k], x[k])
    ensures tempX[leftPos..rightPos + 1] == Squares(x[leftPos..rightPos + 1])
  {
    var i := leftPos;
    while i <= rightPos
      invariant leftPos <= i <= rightPos + 1
      invariant forall k :: leftPos <= k < i ==> tempX[k] == Mul(x[k], x[k])
    {
      tempX[i] := Mul(x[i], x[i]);
      i := i + 1;
    }
    assert tempX[leftPos..rightPos + 1] == Squares(x[leftPos..rightPos + 1]);
  }

  /**
   * evaluate(f, beginPos, endPos, x, y, leftPos, rightPos): writes into
   * y[leftPos..rightPos] the values of the polynomial f[beginPos..endPos]
   * at x[leftPos..rightPos], and leaves f[beginPos..endPos] reordered by
   * EvalOrder. This is evaluate on the ranges it accepts; EvaluateChecked
   * adds its guard against empty ranges. The recursive calls always pass
   * that guard, so they call Evaluate directly.
   */
  method Evaluate(f: array<Complex>, beginPos: int, endPos: int, x: array<Complex>, y: array<Complex>,
                  leftPos: int, rightPos: int)
    requires 0 <= beginPos <= endPos < f.Length
    requires 0 <= leftPos <= rightPos < y.Length && rightPos < x.Length
    requires f != y && x != y && x != f
    modifies f, y
    decreases endPos - beginPos, 2
    ensures y[leftPos..rightPos + 1] == EvalAt(old(f[..])[beginPos..endPos + 1], x[leftPos..rightPos + 1])
    ensures forall i :: 0 <= i < y.Length && !(leftPos <= i <= rightPos) ==> y[i] == old(y[i])
    ensures f[..] == Reordered(old(f[..]), beginPos, endPos)
  {
    if beginPos == endPos {
      ghost var s := f[beginPos..endPos + 1];
      assert s == [f[beginPos]];
      FillConstant(x, y, leftPos, rightPos, f[beginPos]);
    } else if beginPos + 1 == endPos {
      ghost var s := f[beginPos..endPos + 1];
      assert s == [f[beginPos], f[endPos]];
      FillLinear(x, y, leftPos, rightPos, f[beginPos], f[endPos]);
    } else {
      EvaluateSplit(f, beginPos, endPos, x, y, leftPos, rightPos);
    }
  }

  /**
   * evaluate with its guard: an empty coefficient range (beginPos > endPos)
   * or an empty output range (leftPos > rightPos) is an error on which the
   * source stops the process; here it is reported as ok == false, before
   * anything is read or written.
   */
  method EvaluateChecked(f: array<Complex>, beginPos: int, endPos: int, x: array<Complex>, y: array<Complex>,
                         leftPos: int, rightPos: int) returns (ok: bool)
    requires beginPos <= endPos && leftPos <= rightPos ==>
               0 <= beginPos && endPos < f.Length && 0 <= leftPos && rightPos < y.Length && rightPos < x.Length
    requires f != y && x != y && x != f
    modifies f, y
    ensures ok <==> beginPos <= endPos && leftPos <= rightPos
    ensures !ok ==> f[..] == old(f[..]) && y[..] == old(y[..])
    ensures ok ==> y[leftPos..rightPos + 1] == EvalAt(old(f[..])[beginPos..endPos + 1], x[leftPos..rightPos + 1])
    ensures ok ==> forall i :: 0 <= i < y.Length && !(leftPos <= i <= rightPos) ==> y[i] == old(y[i])
    ensures ok ==> f[..] == Reordered(old(f[..]), beginPos, endPos)
  {
    if beginPos > endPos || leftPos > rightPos {
      return false;
    }
    Evaluate(f, beginPos, endPos, x, y, leftPos, rightPos);
    return true;
  }

  /** evaluate's recursive case (shuffle, square, two recursive calls, combine), for ranges of three or more coefficients. */
  method EvaluateSplit(f: array<Complex>, beginPos: int, endPos: int, x: array<Complex>, y: array<Complex>,
                       leftPos: int, rightPos: int)
    requires 0 <= beginPos && beginPos + 2 <= endPos < f.Length
    requires 0 <= leftPos <= rightPos < y.Length && rightPos < x.Length
    requires f != y && x != y && x != f
    modifies f, y
    decreases endPos - beginPos, 1
    ensures y[leftPos..rightPos + 1] == EvalAt(old(f[..])[beginPos..endPos + 1], x[leftPos..rightPos + 1])
    ensures forall i :: 0 <= i < y.Length && !(leftPos <= i <= rightPos) ==> y[i] == old(y[i])
    ensures f[..] == Reordered(old(f[..]), beginPos, endPos)
  {
    ghost var pre := f[..];
    var tempX := new Complex[x.Length];
    var tempY1 := new Complex[y.Length];
    var tempY2 := new Complex[y.Length];
    var midPos := (beginPos + endPos) / 2;

    Shuffle(f, beginPos, endPos);
    SquarePoints(x, tempX, leftPos, rightPos);
    ghost var f0 := f[..];
    EvaluateHalves(f, beginPos, midPos, endPos, tempX, tempY1, tempY2, leftPos, rightPos);
    EvaluateAssembled(pre, f0, f[..], beginPos, midPos, endPos);
    Combine(x, tempX, tempY1, tempY2, y, leftPos, rightPos, pre[beginPos..endPos + 1]);
  }

  /**
   * The two recursive calls of evaluate's recursive case: the first half
   * f[beginPos..midPos] evaluated into tempY1, the second half
   * f[midPos+1..endPos] into tempY2, both at the points tempX.
   */
  method EvaluateHalves(f: array<Complex>, beginPos: int, midPos: int, endPos: int, tempX: array<Complex>,
                        tempY1: array<Complex>, tempY2: array<Complex>, leftPos: int, rightPos: int)
    requires 0 <= beginPos <= midPos < endPos < f.Length
    requires 0 <= leftPos <= rightPos < tempX.Length && rightPos < tempY1.Length && rightPos < tempY2.Length
    requires f != tempX && f != tempY1 && f != tempY2 && tempX != tempY1 && tempX != tempY2 && tempY1 != tempY2
    modifies f, tempY1, tempY2
    decreases endPos - beginPos, 0
    ensures tempY1[leftPos..rightPos + 1] == EvalAt(old(f[..])[beginPos..midPos + 1], tempX[leftPos..rightPos + 1])
    ensures tempY2[leftPos..rightPos + 1] == EvalAt(old(f[..])[midPos + 1..endPos + 1], tempX[leftPos..rightPos + 1])
    ensures f[..] == Reordered(Reordered(old(f[..]), beginPos, midPos), midPos + 1, endPos)
  {
    ghost var f0 := f[..];
    ghost var points := tempX[leftPos..rightPos + 1];
    ReorderedTwice(f0, beginPos, midPos, endPos);
    Evaluate(f, beginPos, midPos, tempX, tempY1, leftPos, rightPos);
    ghost var f1 := f[..];
    ghost var evens := tempY1[leftPos..rightPos + 1];
    Evaluate(f, midPos + 1, endPos, tempX, tempY2, leftPos, rightPos);
    assert tempY1[leftPos..rightPos + 1] == evens;
    assert tempX[leftPos..rightPos + 1] == points;
    SameValues(tempY2[leftPos..rightPos + 1], f1[midPos + 1..endPos + 1], f0[midPos + 1..endPos + 1],
               tempX[leftPos..rightPos + 1], tempX[leftPos..rightPos + 1]);
  }

  /**
   * The last loop of evaluate's recursive case: with tempY1 and tempY2 holding
   * the even and odd halves of s evaluated at tempX[i] = x[i]^2, sets y[i] to
   * tempY1[i] + x[i] * tempY2[i], which is s evaluated at x[i].
   */
  method Combine(x: array<Complex>, tempX: array<Complex>, tempY1: array<Complex>, tempY2: array<Complex>,
                 y: array<Complex>, leftPos: int, rightPos: int, ghost s: seq<Complex>)
    requires 0 <= leftPos <= rightPos < y.Length && rightPos < x.Length && rightPos < tempX.Length
    requires rightPos < tempY1.Length && rightPos < tempY2.Length
    requires y != x && y != tempX && y != tempY1 && y != tempY2
    requires tempX[leftPos..rightPos + 1] == Squares(x[leftPos..rightPos + 1])
    requires tempY1[leftPos..rightPos + 1] == EvalAt(Evens(s), tempX[leftPos..rightPos + 1])
    requires tempY2[leftPos..rightPos + 1] == EvalAt(Odds(s), tempX[leftPos..rightPos + 1])
    modifies y
    ensures y[leftPos..rightPos + 1] == EvalAt(s, x[leftPos..rightPos + 1])
    ensures forall k :: 0 <= k < y.Length && !(leftPos <= k <= rightPos) ==> y[k] == old(y[k])
  {
    ghost var xs, evens, odds := x[leftPos..rightPos + 1], tempY1[leftPos..rightPos + 1], tempY2[leftPos..rightPos + 1];
    var i := leftPos;
    while i <= rightPos
      invariant leftPos <= i <= rightPos + 1
      invariant forall k :: leftPos <= k < i ==> y[k] == DirectEval(s, x[k])
      invariant forall k :: 0 <= k < y.Length && !(leftPos <= k < i) ==> y[k] == old(y[k])
    {
      CombinePoint(s, xs, evens, odds, i - leftPos);
      assert xs[i - leftPos] == x[i] && evens[i - leftPos] == tempY1[i] && odds[i - leftPos] == tempY2[i];
      var temp := Mul(x[i], tempY2[i]);
      y[i] := Add(tempY1[i], temp);
      i := i + 1;
    }
    FromPointwise(y[leftPos..rightPos + 1], s, x[leftPos..rightPos + 1]);
  }
}
