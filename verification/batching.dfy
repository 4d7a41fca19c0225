/** Splitting an id list into the consecutive slices of at most 50 ids that
    `EBI.get_go_names` and `EBI.get_ancestors` send, one request each. */
module Batching {
  import opened Seqs

  /** `EBI.n`: the most ids one request carries. */
  const BatchSize := 50

  /** `[xs[i : i + 50] for i in range(0, len(xs), 50)]`: the batches, in
      order, that together give back the list; there are ceil(n/50) of them
      and none is empty or longer than 50. */
  function Batches<T>(xs: seq<T>): (bs: seq<seq<T>>)
    ensures Flatten(bs) == xs
    ensures |bs| == (|xs| + BatchSize - 1) / BatchSize
    ensures forall i :: 0 <= i < |bs| ==> 0 < |bs[i]| <= BatchSize
    decreases |xs|
  {
    if |xs| == 0 then []
    else if |xs| <= BatchSize then
      assert Flatten([xs]) == xs + Flatten([xs][1..]);
      [xs]
    else
      var rest := Batches(xs[BatchSize..]);
      var bs := [xs[..BatchSize]] + rest;
      assert bs[1..] == rest;
      assert xs == xs[..BatchSize] + xs[BatchSize..];
      bs
  }

  function Min(a: int, b: int): int
  {
    if a <= b then a else b
  }

  /** Batch `i` is the first batch of what follows the first `i` full
      batches. */
  lemma {:induction false} BatchesDrop<T>(xs: seq<T>, i: nat)
    requires i < |Batches(xs)|
    ensures i * BatchSize < |xs|
    ensures Batches(xs)[i] == Batches(xs[i * BatchSize..])[0]
    ensures i + 1 < |Batches(xs)| ==> |xs| - i * BatchSize > BatchSize
    decreases |xs|
  {
    if i > 0 {
      var tail := xs[BatchSize..];
      assert Batches(xs) == [xs[..BatchSize]] + Batches(tail);
      BatchesDrop(tail, i - 1);
      assert tail[(i - 1) * BatchSize..] == xs[i * BatchSize..];
    }
  }

  /** Batch `i` is the slice that starts at `50 * i`; every batch but the last
      is full. */
  lemma BatchesAreSlices<T>(xs: seq<T>, i: nat)
    requires i < |Batches(xs)|
    ensures i * BatchSize < |xs|
    ensures Batches(xs)[i] == xs[i * BatchSize .. Min((i + 1) * BatchSize, |xs|)]
    ensures i + 1 < |Batches(xs)| ==> |Batches(xs)[i]| == BatchSize
  {
    BatchesDrop(xs, i);
    var lo := i * BatchSize;
    assert (i + 1) * BatchSize == lo + BatchSize;
    FirstBatch(xs, lo);
  }

  /** The first batch of what follows position `lo` is the slice from `lo`
      of at most 50 ids. */
  lemma FirstBatch<T>(xs: seq<T>, lo: nat)
    requires lo < |xs|
    ensures Batches(xs[lo..])[0] == xs[lo .. Min(lo + BatchSize, |xs|)]
    ensures |xs| - lo > BatchSize ==> |Batches(xs[lo..])[0]| == BatchSize
  {
    var ys := xs[lo..];
    if |ys| <= BatchSize {
      assert Batches(ys) == [ys];
    } else {
      assert Batches(ys)[0] == ys[..BatchSize];
    }
  }

  /** A lookup of 120 ids makes three requests, of 50, 50 and 20 ids. */
  lemma HundredTwentyIds<T>(xs: seq<T>)
    requires |xs| == 120
    ensures |Batches(xs)| == 3
    ensures |Batches(xs)[0]| == 50 && |Batches(xs)[1]| == 50 && |Batches(xs)[2]| == 20
  {
    BatchesAreSlices(xs, 0);
    BatchesAreSlices(xs, 1);
    BatchesAreSlices(xs, 2);
  }
}
