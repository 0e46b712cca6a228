/**
 * Grid geometry: a flat list of cells laid out row by row, cell (i, j) at
 * index i * width + j, for 0 <= i < height and 0 <= j < width.
 */
module Grid {
  import opened Rules
  import opened Tiles

  /** Every cell of the grid keeps the cell invariant. */
  predicate GridOk(g: seq<Tile>)
  {
    forall k :: 0 <= k < |g| ==> ValidTile(g[k])
  }

  lemma CellIndexBound(h: int, w: int, x: int, y: int)
    requires 0 <= x < h && 0 <= y < w
    ensures 0 <= x * w + y < h * w
  {
    assert x * w <= (h - 1) * w;
  }

  /**
   * The bounds check of the solver: (x, y) names a cell of an h by w grid.
   * When it holds, the row-major index x * w + y addresses that cell.
   */
  function InRange(h: int, w: int, x: int, y: int): (r: bool)
    ensures r ==> 0 <= x * w + y < h * w
  {
    if x >= 0 && x < h && y >= 0 && y < w then
      CellIndexBound(h, w, x, y);
      true
    else
      false
  }

  lemma MulAtLeast(a: int, w: int)
    requires a >= 1 && w >= 0
    ensures a * w >= w
  {
  }

  lemma MulDistributes(a: int, b: int, w: int)
    ensures (a - b) * w == a * w - b * w
  {
  }

  /** The row-major index of (i, j) decodes back to row i and column j. */
  lemma RowMajor(i: int, j: int, w: int)
    requires 0 <= i && 0 <= j < w
    ensures (i * w + j) / w == i && (i * w + j) % w == j
  {
    var k := i * w + j;
    var q, r := k / w, k % w;
    assert k == q * w + r && 0 <= r < w;
    MulDistributes(q, i, w);
    MulDistributes(i, q, w);
    if q > i {
      MulAtLeast(q - i, w);
    } else if q < i {
      MulAtLeast(i - q, w);
    }
  }

  /** Row-major positions before the end of row i are inside the grid. */
  lemma RowMajorBound(i: int, j: int, h: int, w: int)
    requires 0 <= i < h && 0 <= j <= w
    ensures 0 <= i * w + j <= (i + 1) * w <= h * w
  {
    assert (i + 1) * w <= h * w;
  }

  /** A grid of n fresh cells. */
  function FreshGrid(n: nat): (g: seq<Tile>)
    ensures |g| == n && GridOk(g)
    ensures forall k :: 0 <= k < n ==> g[k] == NewTile()
  {
    seq(n, _ => NewTile())
  }

  /**
   * Cell k is a minimum-entropy choice: uncollapsed, and no uncollapsed
   * cell has fewer possibilities.
   */
  predicate MinEntropy(g: seq<Tile>, k: int)
  {
    0 <= k < |g| && !g[k].Collapsed &&
    forall m :: 0 <= m < |g| && !g[m].Collapsed ==> |g[k].Possible| <= |g[m].Possible|
  }

  /** Pointwise narrowing: each cell's possibilities are among those of the same cell of b. */
  predicate PointwiseSub(a: seq<Tile>, b: seq<Tile>)
  {
    |a| == |b| && forall k :: 0 <= k < |a| ==> SubsetOf(a[k].Possible, b[k].Possible)
  }
}
