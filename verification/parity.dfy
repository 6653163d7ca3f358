/**
 * The parity permutation of fft_mpi.c: `shuffle(f, beginPos, endPos)`
 * moves the elements at even offsets of f[beginPos..endPos] to the front
 * of the range and those at odd offsets behind them, each group in its
 * original order. Example: beginPos = 2, endPos = 5 leaves f[2], f[4],
 * f[3], f[5] in positions 2..5.
 */
module Parity {
  import opened ComplexArith

  /** Elements at even offsets 0, 2, 4, ... of s, in order. */
  function Evens<T>(s: seq<T>): seq<T>
    decreases |s|
  {
    if |s| <= 1 then s else [s[0]] + Evens(s[2..])
  }

  /** Elements at odd offsets 1, 3, 5, ... of s, in order. */
  function Odds<T>(s: seq<T>): seq<T>
    decreases |s|
  {
    if |s| <= 1 then [] else [s[1]] + Odds(s[2..])
  }

  /** The reordering shuffle applies to one range: evens first, then odds. */
  function Shuffled<T>(s: seq<T>): seq<T>
  {
    Evens(s) + Odds(s)
  }

  lemma {:induction false} EvensLength<T>(s: seq<T>)
    ensures |Evens(s)| == (|s| + 1) / 2
  {
    if |s| > 1 {
      EvensLength(s[2..]);
    }
  }

  lemma {:induction false} OddsLength<T>(s: seq<T>)
    ensures |Odds(s)| == |s| / 2
  {
    if |s| > 1 {
      OddsLength(s[2..]);
    }
  }

  /** The even half has ceil(|s|/2) elements, the k-th being s[2k]. */
  lemma {:induction false} EvensAt<T>(s: seq<T>)
    ensures |Evens(s)| == (|s| + 1) / 2
    ensures forall k :: 0 <= k < |Evens(s)| ==> Evens(s)[k] == s[2 * k]
  {
    EvensLength(s);
    if |s| > 1 {
      var r := s[2..];
      EvensAt(r);
      assert Evens(s) == [s[0]] + Evens(r);
      forall k | 0 < k < |Evens(s)|
        ensures Evens(s)[k] == s[2 * k]
      {
        assert Evens(s)[k] == Evens(r)[k - 1] == r[2 * (k - 1)];
      }
    } else {
      assert Evens(s) == s;
    }
  }

  /** The odd half has floor(|s|/2) elements, the k-th being s[2k+1]. */
  lemma {:induction false} OddsAt<T>(s: seq<T>)
    ensures |Odds(s)| == |s| / 2
    ensures forall k :: 0 <= k < |Odds(s)| ==> Odds(s)[k] == s[2 * k + 1]
  {
    OddsLength(s);
    if |s| > 1 {
      var r := s[2..];
      OddsAt(r);
      assert Odds(s) == [s[1]] + Odds(r);
      forall k | 0 < k < |Odds(s)|
        ensures Odds(s)[k] == s[2 * k + 1]
      {
        assert Odds(s)[k] == Odds(r)[k - 1] == r[2 * (k - 1) + 1];
      }
    } else {
      assert Odds(s) == [];
    }
  }

  /**
   * The index formula of shuffle: with h = ceil(|s|/2), position k < h holds
   * s[2k] and position h + k holds s[2k + 1].
   */
  lemma ShuffledAt<T>(s: seq<T>)
    ensures |Shuffled(s)| == |s|
    ensures forall k :: 0 <= k < (|s| + 1) / 2 ==> Shuffled(s)[k] == s[2 * k]
    ensures forall k :: 0 <= k < |s| / 2 ==> Shuffled(s)[(|s| + 1) / 2 + k] == s[2 * k + 1]
  {
    EvensAt(s);
    OddsAt(s);
  }

  /** The worked example of shuffle's documentation: a range of four becomes the 1st, 3rd, 2nd and 4th. */
  lemma ShuffledExample<T>(a: T, b: T, c: T, d: T)
    ensures Shuffled([a, b, c, d]) == [a, c, b, d]
  {
    var s := [a, b, c, d];
    assert s[2..] == [c, d] && [c, d][2..] == [];
    assert Evens(s) == [a] + Evens([c, d]) == [a, c];
    assert Odds(s) == [b] + Odds([c, d]) == [b, d];
  }

  /** Conversely, the index formula determines the even half. */
  lemma EvensFromIndices<T>(s: seq<T>, r: seq<T>)
    requires |r| == (|s| + 1) / 2
    requires forall k :: 0 <= k < |r| ==> r[k] == s[2 * k]
    ensures r == Evens(s)
  {
    EvensAt(s);
  }

  /** The odd-offset elements of s are the even-offset elements of s without its head. */
  lemma {:induction false} OddsAreEvensOfTail<T>(s: seq<T>)
    requires |s| > 0
    ensures Odds(s) == Evens(s[1..])
  {
    if |s| > 2 {
      OddsAreEvensOfTail(s[2..]);
      assert s[1..][2..] == s[2..][1..];
    }
  }

  /** Conversely, the index formula determines the shuffled sequence. */
  lemma ShuffledFromIndices<T>(s: seq<T>, r: seq<T>)
    requires |r| == |s|
    requires forall k :: 0 <= k < (|s| + 1) / 2 ==> r[k] == s[2 * k]
    requires forall k :: 0 <= k < |s| / 2 ==> r[(|s| + 1) / 2 + k] == s[2 * k + 1]
    ensures r == Shuffled(s)
  {
    ShuffledAt(s);
    var h := (|s| + 1) / 2;
    forall k | 0 <= k < |s|
      ensures r[k] == Shuffled(s)[k]
    {
      if k >= h {
        assert r[h + (k - h)] == s[2 * (k - h) + 1];
      }
    }
  }

  lemma EvensConsMultiset<T>(s: seq<T>)
    requires |s| > 1
    ensures multiset(Evens(s)) == multiset{s[0]} + multiset(Evens(s[2..]))
  {
    assert Evens(s) == [s[0]] + Evens(s[2..]);
  }

  lemma OddsConsMultiset<T>(s: seq<T>)
    requires |s| > 1
    ensures multiset(Odds(s)) == multiset{s[1]} + multiset(Odds(s[2..]))
  {
    assert Odds(s) == [s[1]] + Odds(s[2..]);
  }

  lemma ConsConsMultiset<T>(s: seq<T>)
    requires |s| > 1
    ensures multiset(s) == multiset{s[0]} + multiset{s[1]} + multiset(s[2..])
  {
    assert s == [s[0]] + [s[1]] + s[2..];
  }

  /** The two halves together hold exactly the elements of s. */
  lemma {:induction false} EvensOddsPermutation<T>(s: seq<T>)
    ensures multiset(Evens(s)) + multiset(Odds(s)) == multiset(s)
  {
    if |s| > 1 {
      EvensOddsPermutation(s[2..]);
      EvensConsMultiset(s);
      OddsConsMultiset(s);
      ConsConsMultiset(s);
    }
  }

  /** shuffle is a permutation of the range it reorders. */
  lemma ShuffledPermutation<T>(s: seq<T>)
    ensures multiset(Shuffled(s)) == multiset(s)
  {
    EvensOddsPermutation(s);
  }

  /**
   * Bookkeeping for Shuffle, on snapshots of f: before the placement loops
   * (pre), after the even half is placed from position b on, ending at o
   * (mid), and after the odd half is placed from o on, ending at j (post);
   * t is the scratch copy.
   */
  lemma ShuffleAssembled<T>(pre: seq<T>, t: seq<T>, mid: seq<T>, post: seq<T>, b: int, e: int, o: int, j: int)
    requires 0 <= b <= e < |pre| == |t| && t[b..e + 1] == pre[b..e + 1]
    requires o == b + (e - b + 2) / 2 && j == o + (e - (b + 1) + 2) / 2
    requires |mid| == |pre|
    requires mid == pre[..b] + Evens(t[b..e + 1]) + pre[o..]
    requires post == mid[..o] + Evens(t[b + 1..e + 1]) + mid[j..]
    ensures post == pre[..b] + Shuffled(pre[b..e + 1]) + pre[e + 1..]
  {
    var s := pre[b..e + 1];
    EvensAt(s);
    OddsAreEvensOfTail(s);
    assert j == e + 1;
    assert t[b + 1..e + 1] == s[1..];
    assert mid[..o] == pre[..b] + Evens(s);
    assert mid[e + 1..] == pre[e + 1..];
  }

  /** shuffle's first loop: copies f[beginPos..endPos] into the scratch buffer temp. */
  method CopyRange(f: array<Complex>, temp: array<Complex>, beginPos: int, endPos: int)
    requires f != temp && 0 <= beginPos <= endPos < f.Length == temp.Length
    modifies temp
    ensures temp[beginPos..endPos + 1] == f[beginPos..endPos + 1]
  {
    var i := beginPos;
    while i <= endPos
      invariant beginPos <= i <= endPos + 1
      invariant temp[beginPos..i] == f[beginPos..i]
    {
      temp[i] := f[i];
      i := i + 1;
    }
  }

  /**
   * One of shuffle's two placement loops: walks i = from, from + 2, ... while
   * i <= endPos and writes temp[i] to f[j], j = start, start + 1, ...; that
   * is, it writes the even-offset elements of temp[from..endPos] from f[start]
   * on. Returns the next free position j.
   */
  method Deal(f: array<Complex>, temp: array<Complex>, from: int, endPos: int, start: int) returns (j: int)
    requires f != temp && 0 <= from <= endPos + 1 && endPos < temp.Length
    requires 0 <= start && start + (endPos - from + 2) / 2 <= f.Length
    modifies f
    ensures j == start + (endPos - from + 2) / 2
    ensures f[..] == old(f[..])[..start] + Evens(temp[from..endPos + 1]) + old(f[..])[j..]
  {
    j := start;
    var i := from;
    while i <= endPos
      invariant start <= j && i == from + 2 * (j - start) && i <= endPos + 2
      invariant i <= endPos + 1 ==> j <= start + (endPos - from + 2) / 2
      invariant forall k :: 0 <= k < j - start ==> f[start + k] == temp[from + 2 * k]
      invariant f[..start] == old(f[..start]) && f[j..] == old(f[j..])
    {
      f[j] := temp[i];
      j := j + 1;
      i := i + 2;
    }
    EvensFromIndices(temp[from..endPos + 1], f[start..j]);
    assert f[..] == f[..start] + f[start..j] + f[j..];
  }

  /**
   * shuffle: copies f[beginPos..endPos] into a scratch buffer, then writes
   * the even-offset elements and after them the odd-offset elements back
   * into the range. Nothing outside the range is touched; on an empty range
   * (beginPos > endPos) none of the three loops runs and f is unchanged.
   */
  method Shuffle(f: array<Complex>, beginPos: int, endPos: int)
    requires beginPos <= endPos ==> 0 <= beginPos && endPos < f.Length
    modifies f
    ensures beginPos > endPos ==> f[..] == old(f[..])
    ensures beginPos <= endPos ==>
      f[..] == old(f[..])[..beginPos] + Shuffled(old(f[..])[beginPos..endPos + 1]) + old(f[..])[endPos + 1..]
  {
    if beginPos > endPos {
      return;
    }
    var temp := new Complex[f.Length];
    CopyRange(f, temp, beginPos, endPos);
    ghost var pre := f[..];
    var j := Deal(f, temp, beginPos, endPos, beginPos);
    ghost var oddStart := j;
    ghost var mid := f[..];
    j := Deal(f, temp, beginPos + 1, endPos, j);
    ShuffleAssembled(pre, temp[..], mid, f[..], beginPos, endPos, oddStart, j);
  }
}
