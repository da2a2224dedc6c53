/**
  Dense two-dimensional grids, the shape every image, mask and label map of
  the segmentation pipeline has. A grid is a sequence of rows; NumPy arrays
  are always rectangular, and every operation here preserves the shape of
  its input, so the predicates below only ask for two grids to agree row by
  row.
 */
module Grids {

  type Grid<T> = seq<seq<T>>

  /** True iff `a` and `b` have the same number of rows and each row the same length. */
  predicate SameShape<A, B>(a: Grid<A>, b: Grid<B>)
  {
    && |a| == |b|
    && forall i :: 0 <= i < |a| ==> |a[i]| == |b[i]|
  }

  /** True iff (i, j) addresses a pixel of `g`. */
  predicate InBounds<T>(g: Grid<T>, i: int, j: int)
  {
    0 <= i < |g| && 0 <= j < |g[i]|
  }

  /** Number of entries of `row` equal to `v`. */
  function CountInRow<T(==)>(row: seq<T>, v: T): (n: nat)
    ensures n <= |row|
    ensures n == 0 <==> forall j :: 0 <= j < |row| ==> row[j] != v
  {
    if |row| == 0 then 0
    else CountInRow(row[..|row| - 1], v) + (if row[|row| - 1] == v then 1 else 0)
  }

  /** Number of pixels of `g` equal to `v`: for a label map, the area of region `v`. */
  function PixelCount<T(==)>(g: Grid<T>, v: T): (n: nat)
    ensures n == 0 <==> forall i, j :: InBounds(g, i, j) ==> g[i][j] != v
  {
    if |g| == 0 then 0
    else
      var n := PixelCount(g[..|g| - 1], v) + CountInRow(g[|g| - 1], v);
      assert forall i, j :: InBounds(g[..|g| - 1], i, j) ==> g[..|g| - 1][i][j] == g[i][j];
      n
  }
}
