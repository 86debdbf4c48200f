# peakfinder: stem matching and crown bookkeeping in Dafny

peakfinder derives tree heights from drone surface models. It subtracts a terrain model
from a surface model to get a canopy height raster (nDSM). It finds treetops in that
raster and segments tree crowns with a watershed. It then places the surveyed stems of
each field plot in map coordinates and matches stems to treetops in two ways:

- by distance, with an assignment solver (the "pixel" heights);
- by crown segment (the "segment" heights).

This project models the bookkeeping that runs around the image-processing library calls
and proves what it does. The modules follow the program's structure:

- `Grids`: rectangular bands and the north-up affine transform.
  - `rowcol` is the floor of the inverse transform.
  - `xy(offset="center")` adds half a pixel.
  - `transform * (col, row)` gives the pixel corner.
  - `window_transform` gives the transform of a cropped window.
- `HeightRaster`: the two nDSM routines.
  - `compute_ndsm` masks cells by nodata and NaN.
  - `calculate_ndsm` checks shape and CRS and masks declared nodata values.
  - The resampling lookup and the pre-filled band of `align_to_dsm_grid`.
  - The path naming and the branch of `run_pipeline`.
- `TreeTops`: the treetop mask.
  - A cell is selected when it equals the maximum of its window and is strictly above the height threshold.
  - Every selected pixel is reported, in row-major order.
  - `local_to_utm` maps pixels to map coordinates.
- `Crowns`: the segmentation steps around the library calls.
  - The centre subset window, clamped in the pipeline and unclamped in the older code.
  - The ground threshold and the marker grid.
  - Removal of small regions, in place on an `array2`.
  - `relabel_sequential`.
- `GroundLines`: grouping of corners by plot, and the two ground-line rules.
  - `find_ground_lines_improved` takes the two lowest corners and orders them by x.
  - `find_ground_lines` takes the first lowest corner and the first rightmost one.
  - The two `transform_trees_all`; only the pipeline version guards against zero-length lines.
- `SegmentMatch`: the segment matchers, bucketing treetops and stems by label.
  - `segment_match_stems` returns one record per stem.
  - `match_and_visualize_updated2` drops stems that fall off the grid.
  - The older matchers return only the matched pairs.
- `PointMatch`: distance matching with an assignment oracle, the rescue pass and `merge_dictionaries`.
  - `match_stems_to_treetops` builds the cost matrix under a distance cutoff and drops ineligible rows and columns.
  - It maps the solver's pairs back to original indices and appends the unmatchable stems.
- `Orchestrator`: steps 4 to 6 of `run_everything`.
  - The pixel lookup keeps only rows that hold a treetop.
  - The segmentation-off rows.
  - The `seg_stats` and pixel counts.
  - The merge of pixel heights, and the stable sort by (Parzelle, Nr).
- `Buckets`, `Seqs` and `Outcomes` are shared helpers.
  - `Buckets` models a dict of lists filled by `setdefault(k, []).append(v)`, keys in insertion order.
  - `Seqs` holds generic sequence lemmas.
  - `Outcomes` holds `Option` and `Result`.

Floats are reals. Distances are compared squared: `sqrt(d2) <= limit` is the same as
`limit >= 0 && d2 <= limit * limit` (`PointMatch.WithinIff`). `np.linalg.norm` is a function
parameter with the contract of a norm. `linear_sum_assignment` is a function parameter
that returns an assignment, or `None` where scipy raises. The watershed output is an
arbitrary integer grid.

The watershed is masked with `gaussian(cleaned) > 0`, not with `cleaned > 0`
(peakfinder/pipeline.py:276 and 296, modules/segmentation.py:64 and 90,
peakfinder/modules/.ipynb_checkpoints/segmentation-checkpoint.py:107 and 137). Smoothing
spreads heights into cells that cleaning set to 0, so those cells can carry a positive
label. The model claims nothing about the labels of cleaned-zero cells.

## Model

| member | source | states |
|---|---|---|
| `Grids.WindowTransform` | peakfinder/pipeline.py:266 | the window transform maps the window's pixel (0, 0) to the corner of the full raster's pixel at the window offset, and stays invertible |
| `Grids.RowColOfCenter` | peakfinder/pipeline.py:382 | `rowcol` of the centre `xy` returns of a pixel gives back that pixel |
| `Grids.RowColOfCorner` | peakfinder/modules/tree_tops.py:25 | `rowcol` of a pixel's corner coordinate gives back that pixel |
| `Grids.WindowTransformConsistent` | peakfinder/pipeline.py:264-266 | a window cell and the matching full-raster cell share a centre; `rowcol` through the window transform is the full `rowcol` minus the offset |
| `HeightRaster.ComputeNdsm` | peakfinder/modules/.ipynb_checkpoints/ndsm_tools-checkpoint.py:183-190 | the output band has the inputs' shape and the profile's nodata tag is the `nodata` parameter |
| `HeightRaster.ComputeNdsmCells` | peakfinder/modules/.ipynb_checkpoints/ndsm_tools-checkpoint.py:185-187 | every output cell is a number; it is `nodata` exactly where either input equals its own nodata tag or is NaN, and otherwise dtm + out == dsm |
| `HeightRaster.CalculateNdsm` | modules/tree_tops.py:24-62 | shape mismatch gives the shape error, then CRS mismatch gives the CRS error; a band of the inputs' shape results exactly when shape and CRS agree and at least one input declares nodata |
| `HeightRaster.NdsmVersionsAgree` | modules/tree_tops.py:37-48 | both nDSM routines mask the same cells; `calculate_ndsm` writes NaN there and `compute_ndsm` writes its nodata value; elsewhere both write the same difference |
| `HeightRaster.ResamplingFor` | peakfinder/modules/.ipynb_checkpoints/ndsm_tools-checkpoint.py:149-154 | "nearest" and "cubic" select their method; every other name falls back to bilinear |
| `HeightRaster.AlignedBand` | peakfinder/modules/.ipynb_checkpoints/ndsm_tools-checkpoint.py:160-170 | the destination has the DSM's shape and holds `nodata` wherever reprojection wrote nothing, and the reprojected value elsewhere |
| `HeightRaster.SplitExtParts` | peakfinder/modules/.ipynb_checkpoints/ndsm_tools-checkpoint.py:215 | `splitext` root and extension concatenate to the path; a non-empty extension is one dot followed by no dot and no separator |
| `HeightRaster.AlignedPathShape` | peakfinder/modules/.ipynb_checkpoints/ndsm_tools-checkpoint.py:215 | the aligned path is the DTM path's root followed by `_aligned_to_DSM.tif`, and the root plus the extension is the DTM path |
| `HeightRaster.PipelinePaths` | peakfinder/modules/.ipynb_checkpoints/ndsm_tools-checkpoint.py:218-225 | an nDSM path is returned exactly when `ndsm_save_path` is neither None nor empty, and it is that path |
| `TreeTops.RowMax` | peakfinder/modules/tree_tops.py:56 | the value is attained in the row range and bounds every cell of it |
| `TreeTops.BoxMax` | modules/tree_tops.py:112 | the value is attained in the rectangle and bounds every cell of it (the `maximum_filter` value) |
| `TreeTops.Mask` | peakfinder/modules/tree_tops.py:56-59 | the mask has the raster's shape |
| `TreeTops.MaskIff` | modules/tree_tops.py:112-115 | a pixel is selected exactly when it is strictly above the threshold and no cell of its clamped window is higher |
| `TreeTops.RowHits` | peakfinder/modules/tree_tops.py:65 | exactly the selected columns of one row, left to right |
| `TreeTops.Hits` | modules/tree_tops.py:121 | exactly the selected pixels from a row down, each once, strictly row-major |
| `TreeTops.Selected` | peakfinder/modules/tree_tops.py:59-65 | the extracted coordinates are exactly the mask pixels, strictly row-major |
| `TreeTops.PlateauYieldsEveryPixel` | peakfinder/modules/tree_tops.py:61-65 | a two-pixel plateau above the threshold yields both pixels, not one per labelled blob |
| `TreeTops.LocalToUtm` | modules/tree_tops.py:77-84 | one coordinate per input pixel, in order, each the pixel's corner `transform * (col, row)` |
| `TreeTops.UtmRoundTrip` | peakfinder/modules/tree_tops.py:23-28 | reading a converted coordinate back with `rowcol` gives the pixel it came from |
| `TreeTops.DetectTreeTops` | peakfinder/modules/tree_tops.py:53-74 | one (x, y, height) per selected pixel in row-major order: x and y at the pixel's corner, the height the smoothed value there, above the threshold |
| `Crowns.ClampedSpan` | peakfinder/pipeline.py:251-264 | the subset window is non-empty, inside the raster and contains the centre; its width is max(1, requested) capped at the raster size |
| `Crowns.Trunc` | peakfinder/modules/.ipynb_checkpoints/segmentation-checkpoint.py:83-84 | `int()` of a float truncates toward zero |
| `Crowns.UnclampedSpan` | peakfinder/modules/.ipynb_checkpoints/segmentation-checkpoint.py:87-94 | the unclamped span always has exactly the requested size, whether or not it fits the raster |
| `Crowns.PySlice` | peakfinder/modules/.ipynb_checkpoints/segmentation-checkpoint.py:96 | whatever its bounds, a Python slice of an axis selects a range inside that axis |
| `Crowns.UnclampedAgreesWhenFits` | modules/segmentation.py:41-53 | when the requested subset fits in the raster, the unclamped slice selects the same cells as the clamped window |
| `Crowns.UnclampedSubsetCounterexample` | modules/segmentation.py:48-53 | a 12-column subset of a 10-column raster starts at −1 and reads only column 9, where the clamped window keeps all ten |
| `Crowns.Crop` | peakfinder/pipeline.py:265 | the read window has the window's shape and each cell is the full raster's cell at the offset |
| `Crowns.Subset` | peakfinder/pipeline.py:251-269 | the subset is the cropped band together with a valid window transform |
| `Crowns.SubsetGeoreferenced` | peakfinder/pipeline.py:264-266 | with the window transform, each subset pixel's centre is that of the same full-raster cell, and `rowcol` lands on the same cell |
| `Crowns.ReturnedTransformMisplacesSubset` | modules/segmentation.py:31-53 | for a subset that starts below the top row, that transform reports subset pixel (0, 0) away from its true cell; the window transform reports it correctly |
| `Crowns.PeakThreshold` | peakfinder/pipeline.py:271-272 | `threshold_abs` is the given value, or `ground_threshold` when None |
| `Crowns.Clean` | peakfinder/modules/.ipynb_checkpoints/segmentation-checkpoint.py:101 | same shape; cells above the ground threshold are kept and the others become 0 |
| `Crowns.CleanIdempotent` | peakfinder/pipeline.py:274 | after cleaning every cell is 0 or above the threshold, and cleaning again changes nothing |
| `Crowns.MarkerAt` | peakfinder/pipeline.py:286-288 | a cell's marker is i + 1 for the last peak i on it, and 0 exactly when no peak lies on it |
| `Crowns.PlaceMarkers` | modules/segmentation.py:78-81 | the marker array has the raster's shape and every cell holds `MarkerAt` for the peaks in bounds |
| `Crowns.MarkersOfDistinctPeaks` | peakfinder/modules/.ipynb_checkpoints/segmentation-checkpoint.py:125-128 | with distinct peaks, peak i carries id i + 1 and every other cell stays 0 |
| `Crowns.SmallRegions` | peakfinder/pipeline.py:300-301 | the small labels are exactly the regions whose area is below the minimum |
| `Crowns.WithoutSmall` | peakfinder/pipeline.py:302-303 | resetting the small regions keeps the grid's shape |
| `Crowns.RemovalKeepsLargeRegions` | peakfinder/modules/.ipynb_checkpoints/segmentation-checkpoint.py:141-144 | the surviving regions are the original ones minus the small ones, and each keeps its full area, at least the minimum |
| `Crowns.ZeroLabel` | peakfinder/pipeline.py:303 | in place, exactly the cells holding the label become 0 and nothing else changes |
| `Crowns.RemoveSmallRegions` | modules/segmentation.py:94-97 | in place, the array ends as the grid with every small region reset to 0 |
| `Crowns.Rank` | modules/segmentation.py:100 | a region's new number is at least 1, so no region becomes background |
| `Crowns.Relabel` | peakfinder/modules/.ipynb_checkpoints/segmentation-checkpoint.py:147 | same shape; background stays 0 and every region cell gets the region's rank |
| `Crowns.RankMonotone` | peakfinder/pipeline.py:304-305 | relabelling preserves the order of labels |
| `Crowns.RankImage` | peakfinder/modules/.ipynb_checkpoints/segmentation-checkpoint.py:146-147 | the ranks of N regions are exactly 1..N |
| `Crowns.RelabelCellsIff` | modules/segmentation.py:99-100 | a cell gets a region's new number exactly when it held that region, and 0 exactly when it held 0 |
| `Crowns.RelabelKeepsArea` | peakfinder/modules/.ipynb_checkpoints/segmentation-checkpoint.py:147 | each region keeps its area under its new number |
| `Crowns.RelabelSequential` | peakfinder/pipeline.py:305 | after relabelling, the positive labels are exactly 1..N for N regions |
| `Crowns.CleanupResult` | peakfinder/pipeline.py:299-305 | after removal and relabelling the regions are 1..N and none is smaller than the minimum area |
| `GroundLines.OfPlotMembers` | peakfinder/pipeline.py:141-143 | a plot's group holds exactly the corners with its number |
| `GroundLines.PlotsMembers` | peakfinder/modules/field_data.py:68-75 | the plots are listed once each, exactly those some corner names |
| `GroundLines.GroupAppendStep` | peakfinder/pipeline.py:143 | appending a corner keeps the dictionary equal to the grouping of the corners read so far |
| `GroundLines.GroupAllGroups` | peakfinder/modules/field_data.py:71-72 | the grouped corners list the plots in order of first corner, with each plot's corners in input order |
| `GroundLines.GroupCorners` | peakfinder/pipeline.py:141-143 | the grouping loop yields exactly that dictionary |
| `GroundLines.FirstByYx` | peakfinder/pipeline.py:149 | the index the stable (y, x) sort puts first among the candidates: no key is smaller, and equal keys before it do not exist |
| `GroundLines.LowestPairSpec` | peakfinder/pipeline.py:149-152 | the line joins two different corners, one with the least (y, x) key and one least among the rest, with lower_left.x ≤ lower_right.x |
| `GroundLines.ImprovedLinesSound` | peakfinder/pipeline.py:146-153 | every ground line belongs to a listed plot with at least two corners and joins its two lowest corners |
| `GroundLines.ImprovedLinesComplete` | peakfinder/pipeline.py:147-148 | every plot with at least two corners gets a line, and no plot gets two |
| `GroundLines.FindGroundLinesImproved` | peakfinder/pipeline.py:134-154 | `find_ground_lines_improved` yields those lines in order of first corner |
| `GroundLines.FirstLowest` | peakfinder/modules/field_data.py:77 | the chosen index is one of the plot's corners (which one: `FirstLowestSpec`) |
| `GroundLines.FirstLowestSpec` | peakfinder/modules/field_data.py:77-78 | lower_left is a corner of minimal UTM_y, and every earlier corner is higher (stable sort) |
| `GroundLines.FirstRightmost` | peakfinder/modules/field_data.py:81 | the chosen index is one of the plot's corners (which one: `FirstRightmostSpec`) |
| `GroundLines.FirstRightmostSpec` | peakfinder/modules/field_data.py:81-83 | lower_right is a corner of maximal UTM_x, and every earlier corner lies further left (`max` keeps the first) |
| `GroundLines.LowestAndRightmostSpec` | peakfinder/modules/field_data.py:75-83 | the line runs from the first lowest corner to the first rightmost one |
| `GroundLines.SingleCornerLine` | peakfinder/modules/field_data.py:77-83 | a single-corner plot gets a line whose ends coincide |
| `GroundLines.PlotsHaveCorners` | peakfinder/modules/field_data.py:75 | every listed plot has at least one corner: there is no minimum count |
| `GroundLines.FindGroundLines` | peakfinder/modules/field_data.py:67-85 | one line per plot with any corners, in order of first corner, from its first lowest corner to its first rightmost one |
| `GroundLines.PlaceEnds` | peakfinder/pipeline.py:174-175 | local (0, 0) maps to lower_left and local (length, 0) to lower_right |
| `GroundLines.FrameIsometry` | peakfinder/modules/field_data.py:104-112 | the frame built from a unit vector and its perpendicular keeps squared distances |
| `GroundLines.LengthZeroIff` | peakfinder/pipeline.py:165-168 | under a true norm a ground line has length 0 exactly when its ends coincide |
| `GroundLines.PlaceIsometry` | peakfinder/pipeline.py:169-175 | for a line of non-zero length, the placement of local stems is a rigid motion |
| `GroundLines.TreesOf` | peakfinder/pipeline.py:172 | the trees selected for a plot are exactly the input trees with its number |
| `GroundLines.PlaceTree` | peakfinder/modules/field_data.py:104-113 | ids are preserved; a non-zero length gives the frame position, and a zero length gives NaN coordinates |
| `GroundLines.PlaceAll` | peakfinder/modules/field_data.py:108-113 | one placed stem per tree of the plot, in order |
| `GroundLines.PlacePlot` | peakfinder/pipeline.py:173-176 | the inner loop emits exactly those placed stems |
| `GroundLines.TransformPlot` | peakfinder/pipeline.py:164-176 | one outer pass emits the plot's stems, or nothing for a zero-length line when guarded |
| `GroundLines.TransformTreesAll` | peakfinder/modules/field_data.py:98-115 | the loop emits the plots' stems in ground-line order, guarded (pipeline) or not (field_data) |
| `GroundLines.TransformedStems` | peakfinder/pipeline.py:163-177 | a stem is emitted exactly when its plot has a line, and that line has non-zero length when guarded; ids are preserved; other plots' trees are dropped |
| `Buckets.Append` | peakfinder/pipeline.py:353 | `setdefault(k, []).append(v)` extends k's list by v and adds k to the keys only when it is new |
| `SegmentMatch.Code` | modules/segmentation.py:567 | the match code lies in 0..2; it is 1 exactly for a match and 2 exactly for a stem with no segment |
| `SegmentMatch.LocateAll` | modules/segmentation.py:165-168 | one located stem per surveyed stem, in order, at its `rowcol` pixel |
| `SegmentMatch.StemsInMembers` | peakfinder/pipeline.py:360-365 | a segment's stems are exactly the input stems on that label |
| `SegmentMatch.UnsegmentedMembers` | peakfinder/pipeline.py:366-369 | `no_segment` holds exactly the stems off the grid or on a label that is not positive |
| `SegmentMatch.UngroupedMembers` | modules/segmentation.py:599-602 | the "no_segment" bucket holds exactly the in-grid stems on a label that is not positive |
| `SegmentMatch.OnGridStemsMembers` | modules/segmentation.py:593 | exactly the stems whose pixel is inside the grid |
| `SegmentMatch.PeaksInMembers` | peakfinder/pipeline.py:350-353 | a segment's treetops are exactly the treetops on that label |
| `SegmentMatch.UnsegmentedPeaksMembers` | peakfinder/pipeline.py:354-355 | `unmatched_tops` holds exactly the treetops on a label that is not positive |
| `SegmentMatch.RowArgMax` | peakfinder/pipeline.py:378-380 | the first column of a row holding the segment's highest value there, or none when the row misses the segment |
| `SegmentMatch.RegionArgMax` | peakfinder/pipeline.py:378-381 | `argmax` over the masked raster: a segment cell whose value no cell of the segment exceeds, and before which in row-major order none equals it; none exactly when the segment is empty |
| `SegmentMatch.Classify` | peakfinder/pipeline.py:373-417 | a record keeps the stem's ids and position; it holds a treetop and a height exactly when it is a match |
| `SegmentMatch.NoSegmentIff` | peakfinder/pipeline.py:362-369 | a stem gets class 2 exactly when its pixel is off the grid or on a label that is not positive |
| `SegmentMatch.MatchedIff` | peakfinder/pipeline.py:373-375 | a stem gets class 1 exactly when it is on a positive segment that no other stem shares and that holds exactly one treetop |
| `SegmentMatch.MatchedHeight` | peakfinder/pipeline.py:378-382 | a match's height is the highest nDSM value of its segment, and its treetop is the centre of a segment cell holding that value |
| `SegmentMatch.TopBucketsGet` | peakfinder/pipeline.py:350-353 | each positive label's treetop list holds exactly its treetops in input order; label 0 gets none |
| `SegmentMatch.BucketTops` | peakfinder/pipeline.py:347-355 | the treetop loop builds those buckets and `unmatched_tops` |
| `SegmentMatch.SegmentBucketsGet` | peakfinder/pipeline.py:363-365 | each positive label's stem list holds exactly its stems in input order |
| `SegmentMatch.SegmentBucketsKeys` | peakfinder/pipeline.py:364 | only positive labels become keys |
| `SegmentMatch.SegmentEntry` | peakfinder/pipeline.py:373-374 | each key met during the iteration is a positive label whose buckets hold its stems and its treetops |
| `SegmentMatch.SegmentBucketsValues` | peakfinder/pipeline.py:357-369 | the buckets and `no_segment` together hold every stem exactly once |
| `SegmentMatch.BucketStems` | peakfinder/pipeline.py:360-369 | the stem loop builds those buckets and `no_segment` |
| `SegmentMatch.AmbiguousStem` | peakfinder/pipeline.py:394-405 | a stem on a segment without exactly one stem and one treetop gets class 0 with no treetop and no height |
| `SegmentMatch.EmitSegment` | peakfinder/pipeline.py:374-405 | one segment's records are the classified records of its stems, in bucket order, none of class 2 |
| `SegmentMatch.EmitAmbiguous` | modules/segmentation.py:647-659 | the records of an ambiguous bucket are its stems' classified records, all of class 0 |
| `SegmentMatch.EmitUnsegmented` | peakfinder/pipeline.py:407-417 | the `no_segment` loop emits those stems' classified records, all of class 2 |
| `SegmentMatch.EmitSegments` | peakfinder/pipeline.py:371-373 | the segment loop emits the classified records of the bucketed stems in dictionary order, none of class 2 |
| `SegmentMatch.NoSegmentAfter` | peakfinder/pipeline.py:407 | segment records followed by `no_segment` records put every class-2 record last |
| `SegmentMatch.SegmentMatchStems` | peakfinder/pipeline.py:336-434 | exactly one record per stem, its classified record, with the class-2 records last; `unmatched_tops` holds the background treetops |
| `SegmentMatch.KeyedBucketsGet` | modules/segmentation.py:592-598 | each positive label's bucket holds exactly its stems in input order |
| `SegmentMatch.KeyedBucketsUngrouped` | modules/segmentation.py:599-602 | the "no_segment" bucket holds exactly the in-grid background stems in input order |
| `SegmentMatch.KeyedBucketsKeys` | modules/segmentation.py:594-598 | only positive labels become segment keys |
| `SegmentMatch.KeyedBucketsValues` | modules/segmentation.py:591-602 | the buckets hold exactly the in-grid stems |
| `SegmentMatch.BucketStemsByKey` | modules/segmentation.py:592 | the stem loop builds those keyed buckets |
| `SegmentMatch.MatchAndVisualizeUpdated2` | modules/segmentation.py:570-659 | one record per in-grid stem, the record the pipeline's matcher gives it; off-grid stems get none |
| `SegmentMatch.OffGridDropped` | modules/segmentation.py:593 | a stem off the grid makes the result shorter than the survey |
| `SegmentMatch.PairsAreMatches` | modules/segmentation.py:459-485 | the older matchers pair exactly the stems the pipeline gives class 1, and the refined one reports the same treetop and height |
| `SegmentMatch.PeakPairHeight` | modules/segmentation.py:195-201 | unrefined, the height is read at the segment's single treetop, whose centre is the reported position, and is never above the refined height |
| `SegmentMatch.EmitPair` | modules/segmentation.py:195-215 | one bucket yields its stem's pair when it is matched, and nothing otherwise |
| `SegmentMatch.EmitPairs` | modules/segmentation.py:189-216 | the loop yields the pairs of the bucketed stems, in dictionary order |
| `SegmentMatch.MatchPairs` | modules/segmentation.py:164-243 | `match_and_visualize`, `match_and_visualize_all` and `match_and_visualize_updated` return exactly the pairs of the matched stems |
| `PointMatch.WithinIff` | peakfinder/modules/merge.py:28-29 | for the non-negative root of a squared distance, `dist <= limit` is the same as the squared comparison |
| `PointMatch.CostOf` | peakfinder/modules/merge.py:27-30 | an entry is finite exactly when the pair is within `max_distance`, and then holds the squared distance |
| `PointMatch.BuildCostMatrix` | peakfinder/modules/merge.py:22-30 | the nested loops fill a fresh matrix of all stems by all treetops with those entries |
| `PointMatch.AnyFinite` | peakfinder/modules/merge.py:33 | a row is valid exactly when some entry in it is finite |
| `PointMatch.AnyFiniteIn` | peakfinder/modules/merge.py:39 | some row holds a finite entry |
| `PointMatch.RowMask` | peakfinder/modules/merge.py:33 | `valid_stem_indices` marks exactly the rows with a finite entry |
| `PointMatch.ColMask` | peakfinder/modules/merge.py:34 | `valid_treetop_indices` marks exactly the columns with a finite entry |
| `PointMatch.Negate` | peakfinder/modules/merge.py:61 | `~mask` flips every entry |
| `PointMatch.Where` | peakfinder/modules/merge.py:51-52 | `np.where(mask)[0]` lists exactly the marked positions, strictly increasing |
| `PointMatch.Reduce` | peakfinder/modules/merge.py:36 | `np.ix_` selects exactly the chosen rows and columns |
| `PointMatch.ReducedHasFinite` | peakfinder/modules/merge.py:36-39 | when some stem is matchable, the reduced matrix is non-empty and holds a finite entry |
| `PointMatch.MatchableIff` | peakfinder/modules/merge.py:33-34 | a stem is matchable exactly when some treetop is eligible for it, and unmatchable exactly when it is not matchable |
| `PointMatch.NothingMatchable` | peakfinder/modules/merge.py:38-39 | no stem is matchable exactly when no pair is eligible |
| `PointMatch.AllUnmatchable` | peakfinder/modules/merge.py:40-41 | with no eligible pair every stem is unmatchable, in input order |
| `PointMatch.ReducedFacts` | peakfinder/modules/merge.py:32-36 | the index maps increase strictly and stay in range, and a finite reduced entry is an eligible original pair |
| `PointMatch.CollectAssigned` | peakfinder/modules/merge.py:47-58 | one row per solver pair of finite cost, each an eligible stem and treetop at their original indices, no stem and no treetop twice |
| `PointMatch.CollectStep` | peakfinder/modules/merge.py:49-58 | keeping a finite-cost solver pair keeps that invariant |
| `PointMatch.NewPairDistinct` | peakfinder/modules/merge.py:51-52 | a later solver pair maps to a stem and a treetop that no earlier kept pair holds |
| `PointMatch.AllUnmatchedAssembled` | peakfinder/modules/merge.py:39-41 | with no eligible pair, all stems unmatched in input order is the assembled result |
| `PointMatch.AppendUnmatchable` | peakfinder/modules/merge.py:60-64 | the matched rows followed by one unmatched row per unmatchable stem, in order |
| `PointMatch.ReduceCostMatrix` | peakfinder/modules/merge.py:32-36 | the masks and the reduced matrix are the matchable rows, the reachable columns and their submatrix |
| `PointMatch.MatchStemsToTreetops` | peakfinder/modules/merge.py:7-66 | with no eligible pair, every stem unmatched in order; the solver's failure is the only error; otherwise the assigned eligible pairs, no stem or treetop twice, then the unmatchable stems |
| `PointMatch.AssignmentDropsStems` | peakfinder/modules/merge.py:44-64 | when every stem has an eligible treetop but treetops are fewer, the result is shorter than the stem list |
| `PointMatch.TwoStemsOneTop` | peakfinder/modules/merge.py:49-58 | two stems with one treetop between them: whatever the solver assigns, one stem is missing |
| `PointMatch.MatchedKeys` | peakfinder/modules/merge.py:81-83 | `matched_treetops` holds the position of every row's treetop |
| `PointMatch.UnmatchedRows` | peakfinder/modules/merge.py:86 | `unmatched_stems` holds exactly the rows without a treetop |
| `PointMatch.Nearby` | peakfinder/modules/merge.py:93-98 | `nearby_treetops` is exactly the treetops within the radius whose position is not yet taken |
| `PointMatch.ReplaceEqual` | peakfinder/modules/merge.py:106-109 | same length; every row equal to the unmatched row is replaced and the others are kept |
| `PointMatch.RescueStep` | peakfinder/modules/merge.py:101-109 | rescuing with a free nearby treetop and marking it taken keeps the rescue invariant |
| `PointMatch.Rescued` | peakfinder/modules/merge.py:89-109 | the rescue loop over the unmatched rows in order keeps the row count, never frees a position held on entry, and leaves every row as it was or holding a treetop |
| `PointMatch.ChangedStays` | peakfinder/modules/merge.py:105-109 | a rescued row holds a treetop, so later turns, which replace only rows equal to an unmatched row, leave it as it is |
| `PointMatch.TurnChanges` | peakfinder/modules/merge.py:100-109 | a turn of a row equal to row `i` that finds exactly one free treetop leaves row `i` rescued at the end |
| `PointMatch.ChangedAtFirstTurn` | peakfinder/modules/merge.py:98-109 | a rescued row holds the treetop found at the first turn of a row equal to it that finds exactly one free treetop |
| `PointMatch.RescueTurns` | peakfinder/modules/merge.py:98-109 | a row is rescued exactly when, at the turn of some row equal to it, exactly one treetop within the radius is not yet taken; it then holds the treetop found at the first such turn |
| `PointMatch.RescueOfSingleRow` | peakfinder/modules/merge.py:98-109 | an unmatched row that no other row equals is rescued exactly when exactly one free treetop lies within the radius at its turn, and it then holds that treetop |
| `PointMatch.FirstUnmatchedRescue` | peakfinder/modules/merge.py:83-109 | the first unmatched row, when no other row equals it, is rescued exactly when exactly one treetop within the radius is held by no row on entry |
| `PointMatch.TakenGrows` | peakfinder/modules/merge.py:102-103 | positions marked taken stay taken for the rest of the loop |
| `PointMatch.NoneNearbyStaysNone` | peakfinder/modules/merge.py:93-98 | taking more positions never makes a treetop near a stem free |
| `PointMatch.NearbyAfterTaking` | peakfinder/modules/merge.py:93-103 | once the only free treetop near a stem is taken, no free treetop is left near it |
| `PointMatch.RescueOnce` | peakfinder/modules/merge.py:89-109 | a later turn of a row equal to one already rescued finds no free treetop, so a repeated unmatched row never marks a second position taken |
| `PointMatch.RescueUnmatched` | peakfinder/modules/merge.py:68-111 | the result is the rescue loop's reference `RescueAll`; same length and order; every row is kept or rescued with a treetop within the radius that no row held on entry; two rows that differed on entry and were both rescued never hold treetops at the same position |
| `PointMatch.Lookup` | peakfinder/modules/merge.py:229-237 | a key's value comes from the last row with that key, and is None when there is none |
| `PointMatch.LookupTable` | peakfinder/modules/merge.py:229-232 | the dictionary's `get(key, None)` is that value for every key |
| `PointMatch.MergeDictionaries` | peakfinder/modules/merge.py:235-239 | in place, every result gets exactly that pixel height and nothing else changes |
| `Orchestrator.MatchedOnly` | peakfinder/pipeline.py:501-502 | only rows that hold a treetop feed the lookup |
| `Orchestrator.PixelHeightPresent` | peakfinder/pipeline.py:500-503 | a key has a pixel height exactly when some row with that key holds a treetop |
| `Orchestrator.UnmatchedRowKeepsHeight` | peakfinder/pipeline.py:502-503 | a later row without a treetop leaves the pipeline's height in place, whereas `merge_dictionaries` overwrites it with None |
| `Orchestrator.LookupStep` | peakfinder/pipeline.py:501-503 | one turn of the loop keeps the lookup equal to the pixel heights of the rows read so far |
| `Orchestrator.BuildPixelLookup` | peakfinder/pipeline.py:500-503 | `pixel_lookup.get(key)` is the pixel height of every key |
| `Orchestrator.SegmentationOffIsEmptySegmentation` | peakfinder/pipeline.py:540-550 | the segmentation-off rows are what the segment matcher gives on a grid without segments: every stem class 2, in order |
| `Orchestrator.CountKind` | peakfinder/pipeline.py:537-539 | a `seg_stats` count is at most the number of rows |
| `Orchestrator.SegStatsPartition` | peakfinder/pipeline.py:512-539 | the three `seg_stats` counts add up to the number of result rows |
| `Orchestrator.CountMatched` | peakfinder/pipeline.py:497 | the matched pixel count is at most the number of rows |
| `Orchestrator.CountUnmatched` | peakfinder/pipeline.py:498 | the unmatched pixel count is at most the number of rows |
| `Orchestrator.PixelCountsPartition` | peakfinder/pipeline.py:497-498 | the matched and unmatched pixel counts add up to the number of rows |
| `Orchestrator.MergePixelHeights` | peakfinder/pipeline.py:554-556 | in place, every result row gets `pixel_lookup.get(key, None)` and nothing else changes |
| `Orchestrator.Insert` | peakfinder/pipeline.py:558 | inserting into a sorted sequence keeps it sorted and adds exactly that row |
| `Orchestrator.SortByKey` | peakfinder/pipeline.py:558 | the result is sorted by (Parzelle, Nr) and a permutation of the input |
| `Orchestrator.SortStable` | peakfinder/pipeline.py:558 | rows sharing a key keep their relative order |
| `Orchestrator.MergeAndSort` | peakfinder/pipeline.py:552-558 | the merged rows are sorted, a permutation of the input rows with their pixel heights, and stable per key |
| `Orchestrator.RunMatching` | peakfinder/pipeline.py:492-558 | steps 4 to 6 fail exactly when the solver does; otherwise one sorted row per stem, the segment matcher's or segmentation-off rows with their pixel heights |

## Left out

- Reading and writing rasters, CSV output and directory creation are left out. So are the ODBC queries, the WCS download and its retry, credential lookup, and all plotting and progress callbacks. These are I/O; the data they read are parameters.
- Gaussian smoothing, the Sobel gradient, `peak_local_max`, the watershed and `scipy.ndimage.label` are library image processing, and their outputs are inputs here. The mask extraction treats the `label` output as the mask itself, because `labeled > 0` is the mask. `num_features` is used only in a plot title.
- `maximum_filter` reflects the raster at its edges. The model takes the maximum over the window clamped to the raster instead. Every reflected cell repeats a cell already inside that window, so the value is the same; this argument is not proved.
- `linear_sum_assignment` is the parameter `solve`. Its contract is that the pairs form an assignment, and `None` stands for the ValueError scipy raises when no complete assignment of finite cost exists. Optimality of the assignment is not modelled.
- `sqrt` and `np.linalg.norm` are replaced by squared distances and a norm parameter. Floating-point rounding, float32 storage and NaN propagation beyond the nDSM mask and the zero-norm division are not modelled: reals are exact.
- `SegmentMatch.RegionArgMax` and `SegmentMatch.MatchedHeight` range over numbers only. When a segment covers a NaN nDSM cell, `argmax` (peakfinder/pipeline.py:378-381, modules/segmentation.py:627-630) returns the first NaN cell, so the match gets a NaN height and that cell's treetop; the model cannot express this.
- `HeightRaster.SplitExt` and `HeightRaster.SplitExtParts` split on `/` only, as POSIX `os.path` does. Windows `ntpath` also splits on `\`, which is not modelled.
- `int(round(subset_size_meters / px))` is not modelled: the clamped window takes the requested pixel count as given. The float-to-integer step of the older code is modelled by `Crowns.Trunc`.
- The DataFrame column ordering, the `stats` dictionary and `compute_ndsm_only` are not modelled: they are formatting and I/O around the modelled steps.
- `used_treetops` in `match_stems_to_treetops` is built but never read, so it has no counterpart.
- `SegmentMatch.SegmentMatchStems`, `SegmentMatch.MatchAndVisualizeUpdated2` and `SegmentMatch.MatchPairs` state their results as a multiset (plus class-2 last for the first). The exact order is stated one level down: `EmitSegments` gives segments in order of first stem, `EmitUnsegmented` gives the no-segment stems after them.
- `Orchestrator.RunMatching` does not restate the properties of `pixelRows`. Those are the contracts of `PointMatch.MatchStemsToTreetops` and `PointMatch.RescueUnmatched`, which it calls.
- Python dictionaries keyed by `(top_x, top_y)` compare floats exactly. The model compares reals exactly too, so two treetops at the same position count as one, as in the source.
- The first-matched-stem-per-segment map and the path auto-fill in app.py are left out. They are tangled with UI state.

## Findings

| source | as written | input that shows it | evidently intended | confidence | as-written member | corrected member |
|---|---|---|---|---|---|---|
| modules/segmentation.py:48-53 | the subset starts at centre − size // 2 with no clamping, and a negative start is read from the end of the axis by Python slicing | a 10-column raster with a 12-column subset: the start is −1, and `[-1:11]` keeps only column 9 | the clamped window of peakfinder/pipeline.py:259-262, which keeps all ten columns | not executed | `Crowns.UnclampedSubsetCounterexample` | `Crowns.ClampedSpan` |
| modules/segmentation.py:124 | the full raster's transform is returned next to the cropped subset and its labels | any subset whose first row is not row 0: subset pixel (0, 0) is reported at the full raster's pixel (0, 0) | the window transform, as peakfinder/pipeline.py:266 computes | not executed | `Crowns.ReturnedTransformMisplacesSubset` | `Crowns.SubsetGeoreferenced` |
