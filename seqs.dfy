/** Flattening a sequence of rows and cutting a flat sequence back into rows:
    the two halves of numpy's row-major (C order) `reshape`. */
module Seqs {

  /** Every row of `xs` has length `w`. */
  predicate Uniform<T>(xs: seq<seq<T>>, w: nat)
  {
    forall i :: 0 <= i < |xs| ==> |xs[i]| == w
  }

  /** The rows of `xs` laid end to end. */
  function Concat<T>(xs: seq<seq<T>>): seq<T>
  {
    if xs == [] then [] else xs[0] + Concat(xs[1..])
  }

  /** `s` cut into `k` consecutive rows of `w` elements each. */
  function Chunk<T>(s: seq<T>, k: nat, w: nat): (r: seq<seq<T>>)
    requires |s| == k * w
    ensures |r| == k && Uniform(r, w)
    decreases k
  {
    if k == 0 then [] else [s[..w]] + Chunk(s[w..], k - 1, w)
  }

  /** Row-major offsets: element `j` of row `i` sits before the end of a `k` by `w` block. */
  lemma RowMajorBound(i: nat, j: nat, k: nat, w: nat)
    requires i < k && j < w
    ensures i * w + j < k * w
  {
    assert (i + 1) * w <= k * w by {
      var d := k - (i + 1);
      assert k * w == (i + 1) * w + d * w;
    }
  }

  lemma {:induction false} ConcatLength<T>(xs: seq<seq<T>>, w: nat)
    requires Uniform(xs, w)
    ensures |Concat(xs)| == |xs| * w
  {
    if xs != [] {
      ConcatLength(xs[1..], w);
    }
  }

  /** Element `j` of row `i` is at offset `i * w + j` of the flattened rows. */
  lemma {:induction false} ConcatAt<T>(xs: seq<seq<T>>, w: nat, i: nat, j: nat)
    requires Uniform(xs, w) && i < |xs| && j < w
    ensures |Concat(xs)| == |xs| * w && i * w + j < |xs| * w
    ensures Concat(xs)[i * w + j] == xs[i][j]
  {
    ConcatLength(xs, w);
    RowMajorBound(i, j, |xs|, w);
    if i > 0 {
      ConcatAt(xs[1..], w, i - 1, j);
      assert i * w + j == w + ((i - 1) * w + j);
    }
  }

  /** Row `i` of the chunked sequence holds elements `i * w .. i * w + w` of `s`. */
  lemma {:induction false} ChunkAt<T>(s: seq<T>, k: nat, w: nat, i: nat, j: nat)
    requires |s| == k * w && i < k && j < w
    ensures i * w + j < |s| && Chunk(s, k, w)[i][j] == s[i * w + j]
    decreases k
  {
    RowMajorBound(i, j, k, w);
    if i > 0 {
      ChunkAt(s[w..], k - 1, w, i - 1, j);
      assert i * w + j == w + ((i - 1) * w + j);
    }
  }

  /** Cutting flattened rows back at width `w` gives the rows again. */
  lemma {:induction false} ChunkConcat<T>(xs: seq<seq<T>>, w: nat)
    requires Uniform(xs, w)
    ensures |Concat(xs)| == |xs| * w && Chunk(Concat(xs), |xs|, w) == xs
  {
    ConcatLength(xs, w);
    if xs != [] {
      ChunkConcat(xs[1..], w);
      assert Concat(xs)[..w] == xs[0];
      assert Concat(xs)[w..] == Concat(xs[1..]);
    }
  }

  /** Flattening the rows of a chunked sequence gives the sequence again. */
  lemma {:induction false} ConcatChunk<T>(s: seq<T>, k: nat, w: nat)
    requires |s| == k * w
    ensures Concat(Chunk(s, k, w)) == s
    decreases k
  {
    if k > 0 {
      var c := Chunk(s, k, w);
      var rest := Chunk(s[w..], k - 1, w);
      assert c == [s[..w]] + rest;
      assert c[1..] == rest;
      ConcatChunk(s[w..], k - 1, w);
      assert Concat(c) == s[..w] + Concat(rest);
      assert s[..w] + s[w..] == s;
    }
  }

  /** Concatenation regroups freely; called where a proof needs the regrouping of a
      concatenation whose parts are recursive calls. */
  lemma ConcatAssoc<X>(a: seq<X>, b: seq<X>, c: seq<X>)
    ensures a + (b + c) == (a + b) + c
  {
  }
}
