# Nuclei segmenter core, modelled in Dafny

The nuclei segmenter finds cell nuclei in a stained microscopy image and
sorts them into four intensity groups. This project models the part of
`nuclei_segmenter/segmentation.py` that the program's own code decides,
rather than an imaging library:

- **Foreground mask** (`Thresholding`): a pixel is foreground exactly when
  its grey value is strictly below the global (Otsu) threshold. The
  threshold is a parameter.
- **Region selection** (`RegionFilter`): a watershed region survives when
  its area is at least 150 pixels and its eccentricity is below 0.95. The
  mask of surviving pixels is built with `np.isin`, and relabelling that
  mask is described by its postcondition.
- **Quartile classifier** (`Classification`, `Quantiles`): the cut points
  are NumPy's default "linear" quantiles at 0.25, 0.5 and 0.75 (definition
  7 of Hyndman and Fan). Each `(label, mean intensity)` pair then goes into
  group 0 to 3 through an if-chain with inclusive upper bounds. When a label
  repeats, its last entry wins.

Grids are sequences of rows (`Grids`). Intensities, thresholds and
eccentricities are exact `real`s. The library's outputs enter as inputs:
the Otsu value, the cleaned mask, the watershed label map and the region
table.

An image in which no nucleus survives filtering should report zero
nuclei. Instead the code calls `np.quantile` on the empty array, and that
raises. The model follows the code: `ClassifyIntensities` returns
`Err(EmptyStatistics)`. The discrepancy is logged under Findings.

## Model

| member | source | states |
|---|---|---|
| Thresholding.ThresholdMask | nuclei_segmenter/segmentation.py:32-33 | the mask has the image's shape, and a pixel is foreground iff its value is strictly below the threshold |
| Thresholding.AtThresholdIsBackground | nuclei_segmenter/segmentation.py:33 | a pixel exactly equal to the threshold is background |
| Thresholding.ThresholdMonotone | nuclei_segmenter/segmentation.py:33 | a higher threshold only adds foreground pixels |
| Thresholding.ThresholdAtMinimumIsEmpty | nuclei_segmenter/segmentation.py:32-33 | when no pixel lies below the threshold (for example, a uniform image whose only value is the threshold), the mask is empty |
| Thresholding.ForegroundCountMonotone | nuclei_segmenter/segmentation.py:33 | the number of foreground pixels never decreases as the threshold rises |
| Thresholding.SubMaskCount | nuclei_segmenter/segmentation.py:33 | a mask whose foreground lies inside another's has no more foreground pixels |
| Grids.PixelCount | nuclei_segmenter/segmentation.py:45 | a region's area is its pixel count, and it is zero iff no pixel carries the label |
| RegionFilter.ValidLabels | nuclei_segmenter/segmentation.py:45-49 | a label is valid iff some record with that label has area >= 150 and eccentricity < 0.95 |
| RegionFilter.KeptMask | nuclei_segmenter/segmentation.py:50 | the mask has the label map's shape, and a pixel is kept iff its label is in the valid set |
| RegionFilter.SelectRegions | nuclei_segmenter/segmentation.py:45-50 | a pixel is kept iff its region has a record passing both the size and the shape test |
| RegionFilter.BackgroundNeverKept | nuclei_segmenter/segmentation.py:45-50 | the region table lists only positive labels, so label 0 is never valid and background pixels never enter the mask |
| RegionFilter.RelabelledIffPlausible | nuclei_segmenter/segmentation.py:45-51 | after relabelling, a pixel is nonzero iff its watershed region is positive, covers at least 150 pixels and has a record with eccentricity below 0.95 |
| RegionFilter.SegmentedPixelsAreDark | nuclei_segmenter/segmentation.py:32-51 | every pixel reported as nucleus is below the threshold, given that small-object removal and the watershed stay inside the threshold mask |
| Quantiles.Sort | nuclei_segmenter/segmentation.py:71 | the order statistics the quantile reads are a sorted permutation of the values |
| Quantiles.SortedUnique | nuclei_segmenter/segmentation.py:71 | two sorted sequences with the same elements are equal, so the order statistics do not depend on how they were sorted |
| Quantiles.LowerIndex | nuclei_segmenter/segmentation.py:71 | the lower order-statistic index is floor((n-1)p), a valid index for every p in [0, 1] |
| Quantiles.UpperIndex | nuclei_segmenter/segmentation.py:71 | the upper index is the next one, clipped to the last index |
| Quantiles.SortedQuantile | nuclei_segmenter/segmentation.py:71 | the linear quantile lies between the order statistics at floor((n-1)p) and the next one, clipped to the last |
| Quantiles.Quantile | nuclei_segmenter/segmentation.py:71 | for non-empty values the quantile lies between their minimum and their maximum |
| Quantiles.QuantileMonotone | nuclei_segmenter/segmentation.py:71 | the quantile is non-decreasing in the probability |
| Quantiles.QuantileOrderIndependent | nuclei_segmenter/segmentation.py:71 | the quantile depends only on the multiset of values |
| Quantiles.SortedInputQuantile | nuclei_segmenter/segmentation.py:71 | for values already in order, the quantile is read directly off them |
| Classification.SortedQuartiles | nuclei_segmenter/segmentation.py:71 | for values already in order, each cut point is the linear quantile of the values themselves, with no reordering |
| Quantiles.InterpolateAt | nuclei_segmenter/segmentation.py:71 | for sorted values x, when (n-1)p = lo + gamma with 0 <= gamma < 1 and lo + 1 < n, the quantile is x[lo] + gamma (x[lo+1] - x[lo]) |
| Classification.ComputeQuartiles | nuclei_segmenter/segmentation.py:69-71 | the cut points satisfy min <= Q1 <= Q2 <= Q3 <= max |
| Classification.GroupOf | nuclei_segmenter/segmentation.py:75-82 | group 0 iff v <= Q1; group 1 iff Q1 < v <= Q2; group 2 iff Q2 < v <= Q3; group 3 iff v > Q3 |
| Classification.AssignGroups | nuclei_segmenter/segmentation.py:73-84 | every listed label is a key, and it maps to the group of its last entry |
| Classification.AssignGroupsDomain | nuclei_segmenter/segmentation.py:73-84 | the dictionary's keys are exactly the listed labels |
| Classification.ClassifyIntensities | nuclei_segmenter/segmentation.py:68-84 | an empty list is an error; otherwise the keys are exactly the input labels, each mapped to a group id in 0..3 |
| Classification.EmptyListRaises | nuclei_segmenter/segmentation.py:69-71 | on an empty list the classifier fails, while the corrected classifier returns an empty dictionary |
| Classification.ClassifyOrEmpty | nuclei_segmenter/segmentation.py:68-84 | keys are exactly the input labels for every list, the empty one included, and the result agrees with the classifier on non-empty lists |
| Classification.ClassifyBoundaries | nuclei_segmenter/segmentation.py:71-83 | each label's group is the quartile interval its last intensity falls into, with inclusive upper bounds |
| Classification.ClassifyMonotone | nuclei_segmenter/segmentation.py:74-83 | a brighter or equally bright nucleus never gets a lower group, and equal intensities get equal groups |
| Classification.DimmestInGroupZero | nuclei_segmenter/segmentation.py:69-76 | the nucleus with the minimum intensity is in group 0 |
| Classification.UniformIntensitiesAllGroupZero | nuclei_segmenter/segmentation.py:71-76 | when all intensities are equal, every label is in group 0 |
| Classification.QuartilesOrderIndependent | nuclei_segmenter/segmentation.py:69-71 | reordering the list leaves the cut points unchanged |
| Classification.QuartilesOfFour | nuclei_segmenter/segmentation.py:71 | for sorted a, b, c, d the quartiles are a + 3(b-a)/4, b + (c-b)/2 and c + (d-c)/4 |
| Classification.FourNucleiQuartiles | nuclei_segmenter/segmentation.py:71 | intensities 10, 20, 30, 40 give quartiles 17.5, 25 and 32.5 |
| Classification.FourNucleiGroups | nuclei_segmenter/segmentation.py:73-84 | with quartiles 17.5, 25 and 32.5 the grouping loop puts intensities 10, 20, 30, 40 into groups 0, 1, 2, 3 |
| Classification.FourNucleiExample | nuclei_segmenter/segmentation.py:68-84 | intensities 10, 20, 30, 40 give groups 0, 1, 2, 3 |

## Left out

- Image loading, colour conversion and downsampling (`load_image`, `downsample_image`, `downsample_rgb`): file decoding and floating-point library resampling.
- Preprocessing (`preprocess_image`): histogram equalisation and unsharp masking are floating-point library filters.
- The Otsu threshold computation, `remove_small_objects`, `distance_transform_edt`, `h_maxima`, `watershed` and the eccentricity of `regionprops`: library algorithms whose code is not part of this model. Their results enter as the threshold, the cleaned mask, the label map and the region table. The assumptions made about them are these. Small-object removal only removes foreground (`SubMask`). The watershed labels nothing outside its mask (`ConfinedTo`). The region table (`IsRegionTable`) gives every record a positive label and an area equal to that label's pixel count, and it has a record for every positive label in the map.
- Connected-component labelling (`measure.label`, `label_nuclei`): a library call, captured only by `IsLabelling`, which says the result has the mask's shape, is non-negative, and is nonzero exactly on the mask. Component numbering, connectivity and density of labels are not modelled.
- `compute_nucleus_intensities`: a thin wrapper around the library's per-region mean. Its output is the classifier's input list.
- The `block_size` and `offset` parameters of `segment_nuclei`: they are never used.
- Floating point: intensities, quantiles, eccentricities and the 0.95 bound are exact reals. Rounding in NumPy's interpolation, and the binary value of the literal 0.95, are not modelled.
- `main.py` (argument parsing, printing, cropping to 2048 pixels, the unused `--n-cores` option, per-group counts) and `visualization.py` (contour drawing and file output): I/O and reporting.

## Findings

| source | as written | input that shows it | evidently intended | confidence | as-written member | corrected member |
|---|---|---|---|---|---|---|
| nuclei_segmenter/segmentation.py:71 | `np.quantile` runs on the intensity list even when it is empty, and NumPy raises for an empty array. `main.py` passes the list straight in, so an image in which no region survives filtering ends the run with an exception. | an empty intensity list `[]` | an empty classification: zero nuclei found, no error | medium; not executed | Classification.ClassifyIntensities | Classification.ClassifyOrEmpty |
