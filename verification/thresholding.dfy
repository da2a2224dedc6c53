/**
  The foreground mask of `segment_nuclei`: a pixel is a candidate nucleus
  pixel exactly when its grey value is strictly below the global threshold.
  Nuclei are stained dark, so foreground is the darker side. The threshold
  itself (Otsu's value) is computed by a library and enters here as a
  parameter.
 */
module Thresholding {
  import opened Grids

  /** `gray_image < thresh_val`, pixel by pixel. */
  function ThresholdMask(img: Grid<real>, t: real): (m: Grid<bool>)
    ensures SameShape(img, m)
    ensures forall i, j :: InBounds(img, i, j) ==> (m[i][j] <==> img[i][j] < t)
  {
    seq(|img|, i requires 0 <= i < |img| =>
      seq(|img[i]|, j requires 0 <= j < |img[i]| => img[i][j] < t))
  }

  /** True iff `m` has no foreground pixel. */
  ghost predicate EmptyMask(m: Grid<bool>)
  {
    forall i, j :: InBounds(m, i, j) ==> !m[i][j]
  }

  /** True iff every foreground pixel of `a` is foreground in `b`. */
  ghost predicate SubMask(a: Grid<bool>, b: Grid<bool>)
  {
    SameShape(a, b) && forall i, j :: InBounds(a, i, j) && a[i][j] ==> b[i][j]
  }

  /** A pixel exactly at the threshold is background: the comparison is strict. */
  lemma AtThresholdIsBackground(img: Grid<real>, t: real, i: int, j: int)
    requires InBounds(img, i, j) && img[i][j] == t
    ensures InBounds(ThresholdMask(img, t), i, j)
    ensures !ThresholdMask(img, t)[i][j]
  {
  }

  /** Raising the threshold only adds foreground pixels. */
  lemma ThresholdMonotone(img: Grid<real>, t1: real, t2: real)
    requires t1 <= t2
    ensures SubMask(ThresholdMask(img, t1), ThresholdMask(img, t2))
  {
  }

  /**
    A threshold that no pixel lies below, such as the single grey value of a
    uniform image, gives an empty mask.
   */
  lemma ThresholdAtMinimumIsEmpty(img: Grid<real>, t: real)
    requires forall i, j :: InBounds(img, i, j) ==> t <= img[i][j]
    ensures EmptyMask(ThresholdMask(img, t))
  {
  }

  /** Raising the threshold never lowers the number of foreground pixels. */
  lemma ForegroundCountMonotone(img: Grid<real>, t1: real, t2: real)
    requires t1 <= t2
    ensures PixelCount(ThresholdMask(img, t1), true) <= PixelCount(ThresholdMask(img, t2), true)
  {
    ThresholdMonotone(img, t1, t2);
    SubMaskCount(ThresholdMask(img, t1), ThresholdMask(img, t2));
  }

  /** A submask has no more foreground pixels than the mask containing it. */
  lemma {:induction false} SubMaskCount(a: Grid<bool>, b: Grid<bool>)
    requires SubMask(a, b)
    ensures PixelCount(a, true) <= PixelCount(b, true)
  {
    if |a| > 0 {
      var n := |a| - 1;
      assert SubMask(a[..n], b[..n]) by {
        assert forall i, j :: InBounds(a[..n], i, j) ==> a[..n][i][j] == a[i][j] && b[..n][i][j] == b[i][j];
      }
      SubMaskCount(a[..n], b[..n]);
      SubRowCount(a[n], b[n]);
    }
  }

  /** Row version of `SubMaskCount`. */
  lemma {:induction false} SubRowCount(ra: seq<bool>, rb: seq<bool>)
    requires |ra| == |rb|
    requires forall j :: 0 <= j < |ra| && ra[j] ==> rb[j]
    ensures CountInRow(ra, true) <= CountInRow(rb, true)
  {
    if |ra| > 0 {
      var n := |ra| - 1;
      SubRowCount(ra[..n], rb[..n]);
    }
  }
}
