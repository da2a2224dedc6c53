/**
  Post-watershed cleanup of `segment_nuclei`: regions smaller than 150
  pixels or with eccentricity 0.95 or more are dropped, the surviving pixels
  form a boolean mask, and the mask is labelled afresh. Region records
  (label, area, eccentricity) come from a library and enter as input; the
  final relabelling is a library call too and is described by what it
  guarantees, not by how it numbers components.
 */
module RegionFilter {
  import opened Grids
  import opened Thresholding

  /** Smallest area, in pixels, a region may have and survive. */
  const MinArea: nat := 150

  /** Eccentricity at or above which a region is too elongated to be a nucleus. */
  const MaxEccentricity: real := 0.95

  /** One row of the region table: label, pixel area and eccentricity. */
  datatype RegionProps = RegionProps(labelId: int, area: nat, eccentricity: real)

  /** The filter condition of the `valid_labels` comprehension. */
  predicate Plausible(p: RegionProps)
  {
    p.area >= MinArea && p.eccentricity < MaxEccentricity
  }

  /** `valid_labels`: the labels of the records that pass the filter. */
  function ValidLabels(props: seq<RegionProps>): (valid: set<int>)
    ensures forall k :: 0 <= k < |props| && Plausible(props[k]) ==> props[k].labelId in valid
    ensures forall l :: l in valid ==>
              exists k :: 0 <= k < |props| && props[k].labelId == l && Plausible(props[k])
  {
    if |props| == 0 then {}
    else
      var init := props[..|props| - 1];
      var last := props[|props| - 1];
      assert forall k :: 0 <= k < |init| ==> init[k] == props[k];
      ValidLabels(init) + (if Plausible(last) then {last.labelId} else {})
  }

  /** `np.isin(labels, valid)`: the pixels whose label is in `valid`. */
  function KeptMask(labels: Grid<int>, valid: set<int>): (m: Grid<bool>)
    ensures SameShape(labels, m)
    ensures forall i, j :: InBounds(labels, i, j) ==> (m[i][j] <==> labels[i][j] in valid)
  {
    seq(|labels|, i requires 0 <= i < |labels| =>
      seq(|labels[i]|, j requires 0 <= j < |labels[i]| => labels[i][j] in valid))
  }

  /** The mask of pixels whose region survives the size and shape filter. */
  function SelectRegions(labels: Grid<int>, props: seq<RegionProps>): (m: Grid<bool>)
    ensures SameShape(labels, m)
    ensures forall i, j :: InBounds(labels, i, j) ==>
              (m[i][j] <==> exists k :: 0 <= k < |props| && props[k].labelId == labels[i][j] && Plausible(props[k]))
  {
    KeptMask(labels, ValidLabels(props))
  }

  /**
    What labelling a mask into connected components guarantees: the same
    shape, no negative label, and a nonzero label exactly on the mask.
   */
  ghost predicate IsLabelling(mask: Grid<bool>, out: Grid<int>)
  {
    && SameShape(mask, out)
    && forall i, j :: InBounds(mask, i, j) ==>
         out[i][j] >= 0 && (out[i][j] != 0 <==> mask[i][j])
  }

  /**
    `props` is the region table of `labels`: every record has a positive
    label and an area equal to that label's pixel count, and every positive
    label of the map has a record.
   */
  ghost predicate IsRegionTable(labels: Grid<int>, props: seq<RegionProps>)
  {
    && (forall k :: 0 <= k < |props| ==>
          props[k].labelId > 0 && props[k].area == PixelCount(labels, props[k].labelId))
    && (forall i, j :: InBounds(labels, i, j) && labels[i][j] > 0 ==>
          exists k :: 0 <= k < |props| && props[k].labelId == labels[i][j])
  }

  /** True iff `labels` is nonzero only on foreground pixels of `mask`. */
  ghost predicate ConfinedTo(labels: Grid<int>, mask: Grid<bool>)
  {
    && SameShape(labels, mask)
    && forall i, j :: InBounds(labels, i, j) && labels[i][j] != 0 ==> mask[i][j]
  }

  /** Background (label 0, or any non-positive value) is never kept, as the table lists positive labels only. */
  lemma BackgroundNeverKept(labels: Grid<int>, props: seq<RegionProps>, i: int, j: int)
    requires IsRegionTable(labels, props)
    requires InBounds(labels, i, j) && labels[i][j] <= 0
    ensures 0 !in ValidLabels(props)
    ensures !SelectRegions(labels, props)[i][j]
  {
  }

  /**
    After relabelling, a pixel is nonzero exactly when its watershed region
    has at least 150 pixels and eccentricity below 0.95.
   */
  lemma RelabelledIffPlausible(labels: Grid<int>, props: seq<RegionProps>, out: Grid<int>, i: int, j: int)
    requires IsRegionTable(labels, props)
    requires IsLabelling(SelectRegions(labels, props), out)
    requires InBounds(labels, i, j)
    ensures InBounds(out, i, j)
    ensures out[i][j] != 0 <==>
              && labels[i][j] > 0
              && PixelCount(labels, labels[i][j]) >= MinArea
              && exists k :: 0 <= k < |props| && props[k].labelId == labels[i][j] && props[k].eccentricity < MaxEccentricity
  {
    var m := SelectRegions(labels, props);
    assert out[i][j] != 0 <==> m[i][j];
    if exists k :: 0 <= k < |props| && props[k].labelId == labels[i][j] && props[k].eccentricity < MaxEccentricity {
      if labels[i][j] > 0 && PixelCount(labels, labels[i][j]) >= MinArea {
        var k :| 0 <= k < |props| && props[k].labelId == labels[i][j] && props[k].eccentricity < MaxEccentricity;
        assert Plausible(props[k]);
      }
    }
  }

  /**
    Every pixel the segmentation reports as a nucleus is darker than the
    threshold, given that small-object removal only deletes foreground and
    the watershed labels nothing outside its mask.
   */
  lemma SegmentedPixelsAreDark(
    gray: Grid<real>, t: real, cleaned: Grid<bool>,
    labels: Grid<int>, props: seq<RegionProps>, out: Grid<int>, i: int, j: int)
    requires SubMask(cleaned, ThresholdMask(gray, t))
    requires ConfinedTo(labels, cleaned)
    requires IsRegionTable(labels, props)
    requires IsLabelling(SelectRegions(labels, props), out)
    requires InBounds(out, i, j) && out[i][j] != 0
    ensures InBounds(gray, i, j)
    ensures gray[i][j] < t
  {
    RelabelledIffPlausible(labels, props, out, i, j);
  }
}
