/** The division of an index range into blocks, and the loop that detaches one task a block. */
module Blocks {

  /** The fields of `blocks` after construction. */
  datatype Partition = Partition(first: int, last: int, numBlocks: nat, blockSize: nat, remainder: nat) {

    function Start(block: nat): int {
      first + block * blockSize + (if block < remainder then block else remainder)
    }

    function End(block: nat): int {
      if block == numBlocks - 1 then last else Start(block + 1)
    }
  }

  /** The constructor. A non-empty range needs at least one block, as the source divides by their number. */
  function Divide(first: int, last: int, numBlocks: nat): Partition
    requires last > first ==> numBlocks >= 1
  {
    if last > first then
      var total := last - first;
      var n := if numBlocks < total then numBlocks else total;
      var size := total / n;
      if size == 0 then Partition(first, last, if total > 1 then total else 1, 1, total % n)
      else Partition(first, last, n, size, total % n)
    else Partition(first, last, 0, 0, 0)
  }

  /** Division with remainder, in the form the bounds below need. */
  lemma DividedExactly(first: int, last: int, numBlocks: nat)
    requires first < last && numBlocks >= 1
    ensures var b := Divide(first, last, numBlocks);
            && 1 <= b.numBlocks && b.blockSize >= 1 && b.remainder < b.numBlocks
            && b.numBlocks == (if numBlocks < last - first then numBlocks else last - first)
            && last - first == b.numBlocks * b.blockSize + b.remainder
  {
    var total := last - first;
    var n := if numBlocks < total then numBlocks else total;
    assert total == n * (total / n) + total % n;
    assert total / n >= 1;
  }

  lemma Monotone(a: nat, b: nat, c: nat)
    requires a <= b
    ensures a * c <= b * c
  {
  }

  /** Block `k` starts and ends inside a range of `n` blocks of `size` indices and a remainder. */
  lemma BlockInside(k: nat, n: nat, size: nat)
    requires k < n
    ensures (k + 1) * size == k * size + size
    ensures 0 <= k * size && (k + 1) * size <= n * size
    ensures k + 1 == n ==> (k + 1) * size == n * size
  {
    Monotone(k + 1, n, size);
  }

  /** One block: where it lies and how many indices it holds. */
  lemma OneBlock(b: Partition, k: nat)
    requires k < b.numBlocks && b.blockSize >= 1 && b.remainder < b.numBlocks
    requires b.last - b.first == b.numBlocks * b.blockSize + b.remainder
    ensures b.End(k) - b.Start(k) == b.blockSize + (if k < b.remainder then 1 else 0)
    ensures 0 <= k * b.blockSize <= b.last - b.first && b.first <= b.Start(k) < b.End(k) <= b.last
  {
    BlockInside(k, b.numBlocks, b.blockSize);
  }

  /** The blocks are as many as asked for, or as there are indices; they are adjacent, start at the
      first index and end behind the last; none is empty; the first `remainder` of them hold one index
      more than the others; and no intermediate value of `start` leaves the range (so it is
      representable in the index type whenever `last - first` and both ends are). */
  lemma BlocksPartition(first: int, last: int, numBlocks: nat)
    requires first < last && numBlocks >= 1
    ensures var b := Divide(first, last, numBlocks);
            && b.numBlocks == (if numBlocks < last - first then numBlocks else last - first)
            && b.Start(0) == first && b.End(b.numBlocks - 1) == last
            && (forall k: nat :: k + 1 < b.numBlocks ==> b.End(k) == b.Start(k + 1))
            && (forall k: nat :: k < b.numBlocks ==>
                  b.End(k) - b.Start(k) == b.blockSize + (if k < b.remainder then 1 else 0) && b.blockSize >= 1)
            && (forall k: nat :: k < b.numBlocks ==>
                  0 <= k * b.blockSize <= last - first && first <= b.Start(k) < b.End(k) <= last)
  {
    DividedExactly(first, last, numBlocks);
    DivideKeepsTheEnds(first, last, numBlocks);
    var b := Divide(first, last, numBlocks);
    hide Divide;
    BlockBounds(b);
  }

  lemma DivideKeepsTheEnds(first: int, last: int, numBlocks: nat)
    requires last > first ==> numBlocks >= 1
    ensures var b := Divide(first, last, numBlocks); b.first == first && b.last == last
  {
  }

  /** All the blocks of a division. */
  lemma BlockBounds(b: Partition)
    requires b.blockSize >= 1 && b.remainder < b.numBlocks
    requires b.last - b.first == b.numBlocks * b.blockSize + b.remainder
    ensures b.Start(0) == b.first && b.End(b.numBlocks - 1) == b.last
    ensures forall k: nat :: k + 1 < b.numBlocks ==> b.End(k) == b.Start(k + 1)
    ensures forall k: nat :: k < b.numBlocks ==>
              b.End(k) - b.Start(k) == b.blockSize + (if k < b.remainder then 1 else 0)
    ensures forall k: nat :: k < b.numBlocks ==>
              0 <= k * b.blockSize <= b.last - b.first && b.first <= b.Start(k) < b.End(k) <= b.last
  {
    assert b.Start(0) == b.first;
    assert forall k: nat :: k + 1 < b.numBlocks ==> b.End(k) == b.Start(k + 1);
    hide Partition.Start, Partition.End;
    forall k: nat | k < b.numBlocks
      ensures b.End(k) - b.Start(k) == b.blockSize + (if k < b.remainder then 1 else 0)
      ensures 0 <= k * b.blockSize <= b.last - b.first && b.first <= b.Start(k) < b.End(k) <= b.last
    {
      OneBlock(b, k);
    }
  }

  /** The indices from `a` up to but not including `b`. */
  function Span(a: int, b: int): seq<int>
    requires a <= b
  {
    seq(b - a, i => a + i)
  }

  predicate Proper(ranges: seq<(int, int)>) {
    forall i :: 0 <= i < |ranges| ==> ranges[i].0 <= ranges[i].1
  }

  /** All the indices that the detached tasks run the loop body on, task after task. */
  function IndicesOf(ranges: seq<(int, int)>): seq<int>
    requires Proper(ranges)
  {
    if ranges == [] then []
    else IndicesOf(ranges[..|ranges| - 1]) + Span(ranges[|ranges| - 1].0, ranges[|ranges| - 1].1)
  }

  /** The size and the remainder that the blocks were given. */
  lemma DividedEqually(first: int, last: int, numBlocks: nat)
    requires first < last && numBlocks >= 1
    ensures var b := Divide(first, last, numBlocks);
            && b.numBlocks > 0
            && b.blockSize == (last - first) / b.numBlocks && b.remainder == (last - first) % b.numBlocks
  {
    DividedExactly(first, last, numBlocks);
  }

  /** The blocks of a division, as ranges. */
  predicate BlocksOf(b: Partition, ranges: seq<(int, int)>) {
    |ranges| <= b.numBlocks && forall k: nat :: k < |ranges| ==> ranges[k] == (b.Start(k), b.End(k))
  }

  lemma BlocksAreEqual(first: int, last: int, numBlocks: nat, ranges: seq<(int, int)>)
    requires first < last && numBlocks >= 1
    requires var b := Divide(first, last, numBlocks); BlocksOf(b, ranges) && |ranges| == b.numBlocks
    ensures AsEqual(ranges, last - first, if numBlocks < last - first then numBlocks else last - first)
  {
    DividedEqually(first, last, numBlocks);
    BlocksPartition(first, last, numBlocks);
    hide Divide, Partition.Start, Partition.End;
  }

  /** Where the first `k` blocks end. */
  function Reached(b: Partition, k: nat): int {
    if k == b.numBlocks then b.last else b.Start(k)
  }

  /** One block, where the ones before end. */
  lemma BlockInLine(first: int, last: int, numBlocks: nat, k: nat)
    requires first < last && numBlocks >= 1 && k < Divide(first, last, numBlocks).numBlocks
    ensures var b := Divide(first, last, numBlocks);
            first <= b.Start(k) == Reached(b, k) <= b.End(k) == Reached(b, k + 1) <= last
  {
    BlocksPartition(first, last, numBlocks);
    DivideKeepsTheEnds(first, last, numBlocks);
    hide Divide, Partition.Start, Partition.End;
  }

  lemma NoBlocks(first: int, last: int, numBlocks: nat)
    requires first < last && numBlocks >= 1
    ensures var b := Divide(first, last, numBlocks);
            && BlocksOf(b, []) && Reached(b, 0) == first && Reached(b, b.numBlocks) == last
            && IndicesOf([]) == Span(first, first) && Proper([])
  {
    BlocksPartition(first, last, numBlocks);
    DivideKeepsTheEnds(first, last, numBlocks);
  }

  lemma OneMoreBlock(b: Partition, ranges: seq<(int, int)>)
    requires BlocksOf(b, ranges) && |ranges| < b.numBlocks
    ensures BlocksOf(b, ranges + [(b.Start(|ranges|), b.End(|ranges|))])
  {
    hide b.Start, b.End;
  }

  /** One more task goes on where the others ended. */
  lemma OneMoreTask(ranges: seq<(int, int)>, first: int, a: int, b: int)
    requires Proper(ranges) && first <= a <= b && IndicesOf(ranges) == Span(first, a)
    ensures Proper(ranges + [(a, b)]) && IndicesOf(ranges + [(a, b)]) == Span(first, b)
  {
    assert (ranges + [(a, b)])[..|ranges|] == ranges;
    assert Span(first, a) + Span(a, b) == Span(first, b);
  }

  /** `n` blocks of `total` indices, as equal as can be, the larger ones first. */
  predicate AsEqual(ranges: seq<(int, int)>, total: nat, n: nat) {
    && n > 0 && |ranges| == n
    && forall k :: 0 <= k < n ==> ranges[k].1 - ranges[k].0 == total / n + if k < total % n then 1 else 0
  }

  /** `detach_loop`: the tasks it detaches, as index ranges. Every index of [first, last) is in exactly
      one of them, and no other index is. They are as many as asked for (by the caller, or else one for each thread),
      or as there are indices, and their sizes differ by at most one. */
  method DetachLoop(first: int, last: int, numBlocks: nat, threadCount: nat) returns (ranges: seq<(int, int)>)
    requires threadCount >= 1
    ensures Proper(ranges)
    ensures IndicesOf(ranges) == if first < last then Span(first, last) else []
    ensures first < last ==>
              var asked, total := if numBlocks != 0 then numBlocks else threadCount, last - first;
              AsEqual(ranges, total, if asked < total then asked else total)
    ensures first >= last ==> ranges == []
  {
    ranges := [];
    if last > first {
      var asked := if numBlocks != 0 then numBlocks else threadCount;
      var blks := Divide(first, last, asked);
      NoBlocks(first, last, asked);
      hide Divide, Partition.Start, Partition.End, AsEqual, IndicesOf, BlocksOf, Reached, Span, Proper;
      for blk := 0 to blks.numBlocks
        invariant |ranges| == blk && Proper(ranges)
        invariant BlocksOf(blks, ranges)
        invariant first <= Reached(blks, blk) <= last && IndicesOf(ranges) == Span(first, Reached(blks, blk))
      {
        BlockInLine(first, last, asked, blk);
        OneMoreTask(ranges, first, blks.Start(blk), blks.End(blk));
        OneMoreBlock(blks, ranges);
        ranges := ranges + [(blks.Start(blk), blks.End(blk))];
      }
      BlocksAreEqual(first, last, asked, ranges);
    }
  }
}
