/** Arithmetic of a block layout: a sequence made of consecutive blocks of
    `w` entries each, where position `k` holds entry `k % w` of block
    `k / w`. The nested loops of the generator produce such layouts. */
module Layout {

  lemma MulMono(a: nat, b: nat, w: nat)
    requires a <= b
    ensures a * w <= b * w
  {
  }

  /** Block and offset recombine to the position. */
  lemma DivMod(k: nat, w: nat)
    requires w > 0
    ensures (k / w) * w + k % w == k
  {
  }

  /** A position inside the first `n` blocks belongs to one of them, which
      also means the blocks are not empty. */
  lemma DivBound(k: nat, n: nat, w: nat)
    requires k < n * w
    ensures w > 0 && k / w < n
  {
    if k / w >= n {
      MulMono(n, k / w, w);
    }
  }

  /** The positions `[n * w, n * w + w)` are exactly block `n`. */
  lemma DivBlock(k: nat, n: nat, w: nat)
    requires n * w <= k < n * w + w
    ensures k / w == n && k % w == k - n * w
  {
    var q := k / w;
    if q < n {
      MulMono(q + 1, n, w);
    } else if q > n {
      MulMono(n + 1, q, w);
    }
  }

  /** Entry `j` of block `i` sits at position `i * w + j`, inside the first
      `n` blocks when `i < n`. */
  lemma BlockPosition(i: nat, j: nat, n: nat, w: nat)
    requires i < n && j < w
    ensures i * w + j < n * w
    ensures (i * w + j) / w == i && (i * w + j) % w == j
  {
    MulMono(i + 1, n, w);
    DivBlock(i * w + j, i, w);
  }

  /** Every position inside the first `n` blocks is entry `j` of some
      block `i < n`. */
  lemma Decompose(k: nat, n: nat, w: nat) returns (i: nat, j: nat)
    requires k < n * w
    ensures i < n && j < w && k == i * w + j
    ensures k / w == i && k % w == j
  {
    DivBound(k, n, w);
    DivMod(k, w);
    i, j := k / w, k % w;
  }
}
