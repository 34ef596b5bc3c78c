/** `splitIntoChunks`: the array cut into consecutive slices of `chunkSize` elements,
    starting at positions 0, `chunkSize`, `2 * chunkSize`, ..., the last one possibly shorter. */
module Chunks {
  import opened Common

  /** The chunks of `xs`. A positive size is required: with a size of zero or less the
      loop never ends on a non-empty array. */
  function SplitIntoChunks<T>(xs: seq<T>, size: nat): (chunks: seq<seq<T>>)
    requires size > 0
    ensures forall i | 0 <= i < |chunks| :: 0 < |chunks[i]| <= size
    ensures forall i | 0 <= i < |chunks| - 1 :: |chunks[i]| == size
    ensures |chunks| == 0 <==> |xs| == 0
    decreases |xs|
  {
    if |xs| == 0 then []
    else
      var n := if |xs| < size then |xs| else size;
      [xs[..n]] + SplitIntoChunks(xs[n..], size)
  }

  /** Concatenating the chunks gives the array back. */
  lemma {:induction false} ChunksFlatten<T>(xs: seq<T>, size: nat)
    requires size > 0
    ensures Flatten(SplitIntoChunks(xs, size)) == xs
    decreases |xs|
  {
    if |xs| > 0 {
      var n := if |xs| < size then |xs| else size;
      ChunksFlatten(xs[n..], size);
      assert xs[..n] + xs[n..] == xs;
    }
  }

  lemma MulPred(i: nat, size: nat)
    requires i > 0
    ensures i * size == (i - 1) * size + size
  {
  }

  /** The chunks cover the array exactly: all but the last are full, so the last holds
      what is left after them. */
  lemma {:induction false} ChunkCount<T>(xs: seq<T>, size: nat)
    requires size > 0
    ensures |xs| <= |SplitIntoChunks(xs, size)| * size
    ensures var chunks := SplitIntoChunks(xs, size);
            |chunks| > 0 ==> |chunks[|chunks| - 1]| == |xs| - (|chunks| - 1) * size
    decreases |xs|
  {
    if |xs| > 0 {
      var n := if |xs| < size then |xs| else size;
      var rest := SplitIntoChunks(xs[n..], size);
      ChunkCount(xs[n..], size);
      MulPred(|rest| + 1, size);
      if |rest| > 0 {
        MulPred(|rest|, size);
      }
    }
  }

  /** Where chunk `i` starts, counted by whole chunks. */
  function ChunkStart(i: nat, size: nat): nat
  {
    if i == 0 then 0 else ChunkStart(i - 1, size) + size
  }

  lemma {:induction false} ChunkStartIsProduct(i: nat, size: nat)
    ensures ChunkStart(i, size) == i * size
  {
    if i > 0 {
      ChunkStartIsProduct(i - 1, size);
      MulPred(i, size);
    }
  }

  lemma {:induction false} ChunkElementAt<T>(xs: seq<T>, size: nat, i: nat, j: nat)
    requires size > 0
    requires i < |SplitIntoChunks(xs, size)| && j < |SplitIntoChunks(xs, size)[i]|
    ensures ChunkStart(i, size) + j < |xs|
    ensures SplitIntoChunks(xs, size)[i][j] == xs[ChunkStart(i, size) + j]
    decreases |xs|
  {
    var chunks := SplitIntoChunks(xs, size);
    var n := if |xs| < size then |xs| else size;
    var rest := SplitIntoChunks(xs[n..], size);
    assert chunks == [xs[..n]] + rest;
    if i == 0 {
      assert chunks[0] == xs[..n];
    } else {
      assert chunks[i] == rest[i - 1];
      ChunkElementAt(xs[n..], size, i - 1, j);
      assert n == size;
      var start := ChunkStart(i - 1, size);
      assert xs[n..][start + j] == xs[start + size + j];
    }
  }

  /** Element `j` of chunk `i` is element `i * size + j` of the array. */
  lemma ChunkElement<T>(xs: seq<T>, size: nat, i: nat, j: nat)
    requires size > 0
    requires i < |SplitIntoChunks(xs, size)| && j < |SplitIntoChunks(xs, size)[i]|
    ensures i * size + j < |xs|
    ensures SplitIntoChunks(xs, size)[i][j] == xs[i * size + j]
  {
    ChunkElementAt(xs, size, i, j);
    ChunkStartIsProduct(i, size);
  }
}
