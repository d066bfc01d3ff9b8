/** Integer facts about row-major grids shared by the frame models. */
module Arithmetic {

  lemma MulAtLeast(a: int, d: int)
    requires a >= 1 && d > 0
    ensures a * d >= d
  {
    assert a * d == (a - 1) * d + d;
    assert (a - 1) * d >= 0;
  }

  /** Quotient and remainder are unique. */
  lemma DivModUnique(x: int, q: int, r: int, d: int)
    requires d > 0 && 0 <= r < d && x == q * d + r
    ensures x / d == q && x % d == r
  {
    var q', r' := x / d, x % d;
    assert x == q' * d + r';
    assert (q - q') * d == r' - r;
    if q > q' {
      MulAtLeast(q - q', d);
    } else if q < q' {
      MulAtLeast(q' - q, d);
    }
  }

  /** Row-major positions of a `W`-by-`H` grid lie in `[0, W * H)`. */
  lemma RowMajorBound(a: int, b: int, W: int, H: int)
    requires 0 <= a < H && 0 <= b < W
    ensures 0 <= a * W + b < H * W
  {
    assert a * W >= 0;
    MulAtLeast(H - a, W);
    assert (H - a) * W == H * W - a * W;
  }

  /** A position of a `W`-by-`H` grid splits into its row and column. */
  lemma DivModSplit(k: int, W: int, H: int)
    requires W > 0 && 0 <= k < H * W
    ensures 0 <= k / W < H && 0 <= k % W < W && k == (k / W) * W + k % W
  {
  }
}
