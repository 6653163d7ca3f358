# Verified model of the MPI polynomial evaluator (fft_mpi.c)

`fft_mpi.c` is a Greenplum/Postgres user-defined function. It evaluates a
polynomial of `variableNum` complex coefficients at `wLength = 2 * variableNum`
points, and spreads the output positions over the ranks of an MPI job. This
project models its sequential core in Dafny and proves it correct:

- `comp_add` and `comp_multiply` become functions on complex numbers whose
  components are exact reals (module `ComplexArith`, file `complex_arith.dfy`).
- `shuffle` becomes an in-place method on an array (module `Parity`, file
  `parity.dfy`). It puts the elements at even offsets of `f[beginPos..endPos]`
  first and those at odd offsets behind them. The proofs go through the
  functions `Evens`, `Odds` and `Shuffled`.
- `evaluate` becomes a recursive method on arrays (module `Evaluator`, file
  `evaluator.dfy`). It writes into `y[leftPos..rightPos]` the values of the
  polynomial `f[beginPos..endPos]` at `x[leftPos..rightPos]`. It is proved
  against `DirectEval`, the plain sum `c[0] + c[1] t + ... + c[n-1] t^(n-1)`
  (module `Polynomial`, file `polynomial.dfy`). The proof rests on the even/odd
  split `P(t) = E(t^2) + t * O(t^2)`, which is proved by way of Horner's rule
  (`Horner`, `HornerIsDirect`); Horner's rule is a proof device only and is
  not something `fft_mpi.c` computes. The model also states:
  - which order `f` is left in (`EvalOrder`, the bit-reversal order when the
    length is a power of two);
  - that only this range of `f` is permuted;
  - that only the window of `y` is written.
  
  The points are arbitrary: nothing relies on them being roots of unity.
- The partition planner inlined in `fft_main` becomes the function
  `PartitionOf(wLength, size, rank)` (module `Partition`, file
  `partition.dfy`). Lemmas prove that the ranges are non-empty, ordered and
  contiguous, and that they tile `[0, wLength)`. They also prove that the
  coordinator's receive offsets are the workers' start positions.
- One round of `fft_main` becomes a sequential method `RunRound` (module
  `Round`, file `round.dfy`): size check, per-rank evaluation, gather. It
  returns `None` exactly when the source aborts for too many ranks. Otherwise
  it returns the assembled buffer, which is proved to be the polynomial's value
  at every point, whatever the number of ranks.

The array-based methods keep the source's loops: shuffle's copy loop and its
two placement loops, and evaluate's fill, squaring and combining loops. Each
loop is a method of its own, proved against a specification function.

## Model

Source paths are relative to the repository root;
`fft_mpi.c` stands for `Greenplum/functions/c/fourier_transform/fft_parallel/mpi/fft_mpi.c`
in the prose, and is written out in full in the table.

| member | source | states |
|---|---|---|
| ComplexArith.Add | Greenplum/functions/c/fourier_transform/fft_parallel/mpi/fft_mpi.c:46-50 | comp_add: (a.re + b.re, a.im + b.im); its laws are the lemmas below |
| ComplexArith.Mul | Greenplum/functions/c/fourier_transform/fft_parallel/mpi/fft_mpi.c:58-62 | comp_multiply: (a.re b.re - a.im b.im, a.re b.im + b.re a.im); its laws are the lemmas below |
| ComplexArith.AddCommutative | Greenplum/functions/c/fourier_transform/fft_parallel/mpi/fft_mpi.c:46-50 | comp_add is commutative |
| ComplexArith.AddAssociative | Greenplum/functions/c/fourier_transform/fft_parallel/mpi/fft_mpi.c:46-50 | comp_add is associative |
| ComplexArith.AddIdentity | Greenplum/functions/c/fourier_transform/fft_parallel/mpi/fft_mpi.c:46-50 | (0, 0) is the identity of comp_add |
| ComplexArith.MulCommutative | Greenplum/functions/c/fourier_transform/fft_parallel/mpi/fft_mpi.c:58-62 | comp_multiply is commutative |
| ComplexArith.MulAssociative | Greenplum/functions/c/fourier_transform/fft_parallel/mpi/fft_mpi.c:58-62 | comp_multiply is associative |
| ComplexArith.MulIdentity | Greenplum/functions/c/fourier_transform/fft_parallel/mpi/fft_mpi.c:58-62 | (1, 0) is the identity of comp_multiply, and (0, 0) absorbs |
| ComplexArith.MulDistributesOverAdd | Greenplum/functions/c/fourier_transform/fft_parallel/mpi/fft_mpi.c:46-62 | comp_multiply distributes over comp_add on both sides |
| ComplexArith.ImaginaryUnitSquared | Greenplum/functions/c/fourier_transform/fft_parallel/mpi/fft_mpi.c:58-62 | i * i = -1: comp_multiply is the complex product, not the component-wise one |
| Parity.EvensAt | Greenplum/functions/c/fourier_transform/fft_parallel/mpi/fft_mpi.c:84-89 | the even half has ceil(L/2) elements, the k-th being the element at offset 2k |
| Parity.OddsAt | Greenplum/functions/c/fourier_transform/fft_parallel/mpi/fft_mpi.c:90-94 | the odd half has floor(L/2) elements, the k-th being the element at offset 2k+1 |
| Parity.ShuffledAt | Greenplum/functions/c/fourier_transform/fft_parallel/mpi/fft_mpi.c:64-68 | after the shuffle, with h = ceil(L/2), position k < h holds offset 2k and position h + k holds offset 2k + 1 |
| Parity.ShuffledFromIndices | Greenplum/functions/c/fourier_transform/fft_parallel/mpi/fft_mpi.c:64-68 | conversely, any sequence meeting that index formula is the shuffled range |
| Parity.ShuffledExample | Greenplum/functions/c/fourier_transform/fft_parallel/mpi/fft_mpi.c:65-68 | the documented example: a range of four becomes its 1st, 3rd, 2nd and 4th elements |
| Parity.OddsAreEvensOfTail | Greenplum/functions/c/fourier_transform/fft_parallel/mpi/fft_mpi.c:90 | the odd-offset elements are the even-offset elements of the range started one later, as the second placement loop walks them |
| Parity.EvensOddsPermutation | Greenplum/functions/c/fourier_transform/fft_parallel/mpi/fft_mpi.c:84-94 | the two halves together hold exactly the elements of the range (as multisets) |
| Parity.ShuffledPermutation | Greenplum/functions/c/fourier_transform/fft_parallel/mpi/fft_mpi.c:74-95 | shuffle permutes the range: the multiset of its elements is unchanged |
| Parity.CopyRange | Greenplum/functions/c/fourier_transform/fft_parallel/mpi/fft_mpi.c:79-82 | the scratch buffer holds a copy of f[beginPos..endPos] |
| Parity.Deal | Greenplum/functions/c/fourier_transform/fft_parallel/mpi/fft_mpi.c:84-94 | one placement loop writes the even-offset elements of temp[from..endPos] to f from start on, returns the next free j, and leaves the rest of f unchanged |
| Parity.Shuffle | Greenplum/functions/c/fourier_transform/fft_parallel/mpi/fft_mpi.c:74-95 | f becomes its prefix, the shuffled range and its suffix; an empty range leaves f unchanged |
| Polynomial.DirectEvalConstant | Greenplum/functions/c/fourier_transform/fft_parallel/mpi/fft_mpi.c:119-125 | a one-coefficient polynomial is the constant f[beginPos] |
| Polynomial.DirectEvalLinear | Greenplum/functions/c/fourier_transform/fft_parallel/mpi/fft_mpi.c:126-134 | a two-coefficient polynomial is f[beginPos] + f[endPos] * t |
| Polynomial.EvenOddSplit | Greenplum/functions/c/fourier_transform/fft_parallel/mpi/fft_mpi.c:135-158 | P(t) = E(t^2) + t * O(t^2), E and O having the even- and odd-indexed coefficients |
| Evaluator.EvalOrderIndex | Greenplum/functions/c/fourier_transform/fft_parallel/mpi/fft_mpi.c:138-150 | the order evaluate leaves f in, as an index formula: position k holds offset EvalIndex(L, k) |
| Evaluator.EvalOrderPermutation | Greenplum/functions/c/fourier_transform/fft_parallel/mpi/fft_mpi.c:140-150 | that reordering is a permutation |
| Evaluator.ReorderedFrame | Greenplum/functions/c/fourier_transform/fft_parallel/mpi/fft_mpi.c:110-159 | after evaluate, f outside [beginPos, endPos] is as it was, and the range holds EvalOrder of its old contents |
| Evaluator.ReorderedPermutes | Greenplum/functions/c/fourier_transform/fft_parallel/mpi/fft_mpi.c:110-159 | after evaluate, the range and the whole of f are permutations of their old contents |
| Evaluator.ReorderedTwice | Greenplum/functions/c/fourier_transform/fft_parallel/mpi/fft_mpi.c:147-150 | the first recursive call leaves the second half untouched, so the two calls reorder each half on its own |
| Evaluator.EvaluateAssembled | Greenplum/functions/c/fourier_transform/fft_parallel/mpi/fft_mpi.c:138-150 | after the shuffle, [beginPos, midPos] holds the even-offset and [midPos+1, endPos] the odd-offset coefficients, and shuffle plus both calls leave f in EvalOrder |
| Evaluator.CombinePoint | Greenplum/functions/c/fourier_transform/fft_parallel/mpi/fft_mpi.c:152-157 | the combining step tempY1[i] + x[i] * tempY2[i] is the polynomial's value at x[i] |
| Evaluator.FillConstant | Greenplum/functions/c/fourier_transform/fft_parallel/mpi/fft_mpi.c:119-125 | y[i] = f[beginPos] on the window, which is the polynomial's value; y unchanged elsewhere |
| Evaluator.FillLinear | Greenplum/functions/c/fourier_transform/fft_parallel/mpi/fft_mpi.c:126-134 | y[i] = f[beginPos] + f[endPos] * x[i] on the window, which is the polynomial's value; y unchanged elsewhere |
| Evaluator.SquarePoints | Greenplum/functions/c/fourier_transform/fft_parallel/mpi/fft_mpi.c:142-145 | tempX[i] = x[i] * x[i] on the window |
| Evaluator.Evaluate | Greenplum/functions/c/fourier_transform/fft_parallel/mpi/fft_mpi.c:110-159 | y[leftPos..rightPos] = the polynomial old(f)[beginPos..endPos] at x[leftPos..rightPos]; y unchanged elsewhere; f = old f with the range in EvalOrder |
| Evaluator.EvaluateChecked | Greenplum/functions/c/fourier_transform/fft_parallel/mpi/fft_mpi.c:114-118 | fails exactly when beginPos > endPos or leftPos > rightPos, then changing nothing; otherwise as Evaluate |
| Evaluator.EvaluateSplit | Greenplum/functions/c/fourier_transform/fft_parallel/mpi/fft_mpi.c:135-158 | the recursive case meets Evaluate's contract |
| Evaluator.EvaluateHalves | Greenplum/functions/c/fourier_transform/fft_parallel/mpi/fft_mpi.c:147-150 | tempY1 and tempY2 hold the two halves of the shuffled range evaluated at tempX, and f has each half reordered |
| Evaluator.Combine | Greenplum/functions/c/fourier_transform/fft_parallel/mpi/fft_mpi.c:152-157 | given the halves' values at the squared points, y on the window is the whole range's value at x; y unchanged elsewhere |
| Partition.PartitionOf | Greenplum/functions/c/fourier_transform/fft_parallel/mpi/fft_mpi.c:380-390 | every rank's range is non-empty and inside [0, wLength) |
| Partition.PartitionLength | Greenplum/functions/c/fourier_transform/fft_parallel/mpi/fft_mpi.c:380-390 | rank 0 gets moreLength + everageLength positions, every other rank everageLength |
| Partition.PartitionContiguous | Greenplum/functions/c/fourier_transform/fft_parallel/mpi/fft_mpi.c:380-390 | rank r+1's range starts right after rank r's |
| Partition.PartitionEnds | Greenplum/functions/c/fourier_transform/fft_parallel/mpi/fft_mpi.c:380-390 | the first range starts at 0 and the last ends at wLength - 1 |
| Partition.PartitionOrdered | Greenplum/functions/c/fourier_transform/fft_parallel/mpi/fft_mpi.c:380-390 | lower ranks get strictly earlier positions, so no two ranges overlap |
| Partition.Owner | Greenplum/functions/c/fourier_transform/fft_parallel/mpi/fft_mpi.c:380-390 | every position of [0, wLength) lies in the range of some rank |
| Partition.PartitionTiles | Greenplum/functions/c/fourier_transform/fft_parallel/mpi/fft_mpi.c:380-390 | a position lies in a rank's range if and only if that rank is its owner: the ranges tile [0, wLength) |
| Partition.PartitionSingletons | Greenplum/functions/c/fourier_transform/fft_parallel/mpi/fft_mpi.c:353-357 | at the largest admissible size (size = wLength) each rank evaluates exactly its own position |
| Partition.PartitionExample | Greenplum/functions/c/fourier_transform/fft_parallel/mpi/fft_mpi.c:380-390 | 8 positions over 4 ranks give [0,1], [2,3], [4,5], [6,7] |
| Partition.GatherOffset | Greenplum/functions/c/fourier_transform/fft_parallel/mpi/fft_mpi.c:401-411 | the coordinator's receive offset moreLength + i * everageLength is rank i's startPos, and rank i's range has the everageLength entries it sends |
| Round.EvaluateWhole | Greenplum/functions/c/fourier_transform/fft_parallel/mpi/fft_mpi.c:393 | evaluate over the whole coefficient array leaves in the window of y the polynomial's values at the points there, leaves the rest of y unchanged, and leaves f permuted in place into Reordered(old f, 0, f.Length - 1) |
| Round.RankEvaluate | Greenplum/functions/c/fourier_transform/fft_parallel/mpi/fft_mpi.c:393 | a rank's buffer holds the polynomial's values on its range |
| Round.Receive | Greenplum/functions/c/fourier_transform/fft_parallel/mpi/fft_mpi.c:411 | one receive copies count entries to the offset and changes nothing else |
| Round.GatherStep | Greenplum/functions/c/fourier_transform/fft_parallel/mpi/fft_mpi.c:399-412 | a correct prefix followed by a worker's correct slice is a longer correct prefix |
| Round.GatherFrom | Greenplum/functions/c/fourier_transform/fft_parallel/mpi/fft_mpi.c:407-412 | after receiving from rank i, the buffer is correct up to the end of rank i's range, and the entries past that range are unchanged |
| Round.RunRound | Greenplum/functions/c/fourier_transform/fft_parallel/mpi/fft_mpi.c:353-418 | aborts exactly when size > wLength; otherwise the assembled result is the polynomial's value at every point, for every admissible size |

## Left out

- The MPI layer: initialisation, ranks, `sendOrigData`/`recvOrigData`, and the
  sends and receives of the gather and the rebroadcast. These are replaced by
  sequential copies. Each rank gets fresh copies of the coefficients and points
  (`Round.FromSeq`), and `Round.RunRound` returns the assembled buffer, which
  the source sends unchanged to every rank. Concurrency, blocking and message
  ordering are not modelled.
- `MPI_Abort` on a configuration error is modelled as the `None` result of
  `Round.RunRound`.
- `exit(-1)` in `evaluate` is modelled as the `false` result of
  `Evaluator.EvaluateChecked`.
- Evaluator.Evaluate: requires non-empty ranges, because the recursive calls
  always pass evaluate's guard. `Evaluator.EvaluateChecked` models the guard.
- Timing (`MPI_Wtime`, `addTransTime`), all `ereport`/printing output and the
  Postgres function glue: these are I/O and wall-clock.
- The commented-out SPI table read and the hard-coded test coefficients.
  `Round.RunRound` takes any coefficient sequence instead.
- Building the point table with `cos`/`sin`. The points are a parameter, and
  nothing proved depends on them being roots of unity.
- `double` arithmetic: components are exact reals, so rounding error is not
  modelled.
- The fixed `MAX_N` buffers: the scratch arrays of `shuffle` and `evaluate` are
  allocated with the length of the array they shadow. Array bounds become
  preconditions (`endPos < f.Length`, `rightPos < y.Length`).
- evaluate's unused `totalLength` parameter is dropped.
- The arithmetic in the inline comment next to the partition code in `fft_main`
  is not modelled; it does not match the code. The code gives the ranges in
  `Partition.PartitionExample`.
- Each loop of `shuffle` and `evaluate` is its own method (`CopyRange`, `Deal`,
  `FillConstant`, `FillLinear`, `SquarePoints`, `Combine`). The recursive case
  of `evaluate` is split into `EvaluateSplit` and `EvaluateHalves`. Statement
  order and the array effects are those of the source.
