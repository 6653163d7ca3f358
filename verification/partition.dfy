/**
 * How fft_main splits the output positions [0, wLength) among `size`
 * ranks. With everageLength = wLength / size and moreLength = wLength % size,
 * rank r > 0 evaluates everageLength positions from moreLength +
 * r * everageLength on, and rank 0 evaluates the first moreLength +
 * everageLength positions, absorbing the remainder. All operands are
 * non-negative here, so C's truncating / and % agree with Dafny's.
 */
module Partition {

  /** The closed range [startPos, stopPos] of output positions one rank evaluates. */
  datatype Range = Range(startPos: int, stopPos: int)

  /** The admissible configurations: fft_main aborts when size > wLength. */
  predicate Admissible(wLength: int, size: int)
  {
    0 < size <= wLength
  }

  lemma ShareBound(size: int, rank: int, ev: int)
    requires 0 <= rank < size && 0 <= ev
    ensures (rank + 1) * ev <= size * ev
  {
  }

  /** wLength is size whole shares plus the remainder. */
  lemma Shares(wLength: int, size: int)
    requires Admissible(wLength, size)
    ensures wLength == size * (wLength / size) + wLength % size
    ensures 1 <= wLength / size && 0 <= wLength % size < size
  {
  }

  /**
   * The range fft_main assigns to `rank`: first the general formula, then
   * the override for rank 0. Every range is non-empty and inside
   * [0, wLength).
   */
  function PartitionOf(wLength: int, size: int, rank: int): (r: Range)
    requires Admissible(wLength, size) && 0 <= rank < size
    ensures 0 <= r.startPos <= r.stopPos < wLength
  {
    var everageLength := wLength / size;
    var moreLength := wLength % size;
    var startPos := moreLength + rank * everageLength;
    var stopPos := startPos + everageLength - 1;
    Shares(wLength, size);
    ShareBound(size, rank, everageLength);
    assert (rank + 1) * everageLength == rank * everageLength + everageLength;
    if rank == 0 then Range(0, moreLength + everageLength - 1) else Range(startPos, stopPos)
  }

  /**
   * Rank 0's range has moreLength + everageLength positions, every other
   * rank's has everageLength: the count each worker sends and the
   * coordinator receives.
   */
  lemma PartitionLength(wLength: int, size: int, rank: int)
    requires Admissible(wLength, size) && 0 <= rank < size
    ensures var r := PartitionOf(wLength, size, rank);
      r.stopPos - r.startPos + 1 == if rank == 0 then wLength % size + wLength / size else wLength / size
  {
  }

  /** Consecutive ranks get adjacent ranges: no gap and no overlap between them. */
  lemma PartitionContiguous(wLength: int, size: int, rank: int)
    requires Admissible(wLength, size) && 0 <= rank && rank + 1 < size
    ensures PartitionOf(wLength, size, rank + 1).startPos == PartitionOf(wLength, size, rank).stopPos + 1
  {
    var ev := wLength / size;
    assert (rank + 1) * ev == rank * ev + ev;
  }

  /** The first range starts at 0 and the last one ends at wLength - 1. */
  lemma PartitionEnds(wLength: int, size: int)
    requires Admissible(wLength, size)
    ensures PartitionOf(wLength, size, 0).startPos == 0
    ensures PartitionOf(wLength, size, size - 1).stopPos == wLength - 1
  {
    var ev, more := wLength / size, wLength % size;
    Shares(wLength, size);
    if size > 1 {
      assert (size - 1) * ev + ev == size * ev;
    }
  }

  /** The ranges of two different ranks do not overlap; later ranks get later positions. */
  lemma {:induction false} PartitionOrdered(wLength: int, size: int, r1: int, r2: int)
    requires Admissible(wLength, size) && 0 <= r1 < r2 < size
    ensures PartitionOf(wLength, size, r1).stopPos < PartitionOf(wLength, size, r2).startPos
    decreases r2 - r1
  {
    PartitionContiguous(wLength, size, r1);
    if r1 + 1 < r2 {
      PartitionOrdered(wLength, size, r1 + 1, r2);
    }
  }

  /** The rank whose range holds output position pos. */
  function Owner(wLength: int, size: int, pos: int): (rank: int)
    requires Admissible(wLength, size) && 0 <= pos < wLength
    ensures 0 <= rank < size
    ensures PartitionOf(wLength, size, rank).startPos <= pos <= PartitionOf(wLength, size, rank).stopPos
  {
    var ev, more := wLength / size, wLength % size;
    Shares(wLength, size);
    if pos < more + ev then 0
    else
      var rank := (pos - more) / ev;
      assert rank * ev <= pos - more < rank * ev + ev;
      assert 1 <= rank by {
        assert ev <= pos - more;
      }
      assert rank < size by {
        assert rank * ev < size * ev;
      }
      rank
  }

  /**
   * The ranges tile [0, wLength): every position lies in the range of
   * exactly one rank.
   */
  lemma PartitionTiles(wLength: int, size: int, pos: int, rank: int)
    requires Admissible(wLength, size) && 0 <= pos < wLength && 0 <= rank < size
    ensures PartitionOf(wLength, size, rank).startPos <= pos <= PartitionOf(wLength, size, rank).stopPos
            <==> rank == Owner(wLength, size, pos)
  {
    var owner := Owner(wLength, size, pos);
    if rank < owner {
      PartitionOrdered(wLength, size, rank, owner);
    } else if owner < rank {
      PartitionOrdered(wLength, size, owner, rank);
    }
  }

  /**
   * The coordinator stores the slice received from rank i at moreLength +
   * i * everageLength, which is where that rank's range starts, and the
   * slice has the length of that range.
   */
  lemma GatherOffset(wLength: int, size: int, i: int)
    requires Admissible(wLength, size) && 1 <= i < size
    ensures wLength % size + i * (wLength / size) == PartitionOf(wLength, size, i).startPos
    ensures PartitionOf(wLength, size, i).stopPos - PartitionOf(wLength, size, i).startPos + 1 == wLength / size
  {
  }

  /** With as many ranks as output positions, the largest admissible size, rank r evaluates position r alone. */
  lemma PartitionSingletons(wLength: int, rank: int)
    requires 0 < wLength && 0 <= rank < wLength
    ensures PartitionOf(wLength, wLength, rank) == Range(rank, rank)
  {
  }

  /**
   * Eight output positions over four ranks: the ranges are [0, 1], [2, 3],
   * [4, 5] and [6, 7].
   */
  lemma PartitionExample()
    ensures PartitionOf(8, 4, 0) == Range(0, 1) && PartitionOf(8, 4, 1) == Range(2, 3)
    ensures PartitionOf(8, 4, 2) == Range(4, 5) && PartitionOf(8, 4, 3) == Range(6, 7)
  {
  }
}
