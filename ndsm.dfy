/** Height-raster preparation: the nDSM cell arithmetic of `compute_ndsm` and
    `calculate_ndsm`, the resampling choice and destination pre-fill of
    `align_to_dsm_grid`, and the path and branch logic of `run_pipeline`. */
module HeightRaster {
  import opened Outcomes
  import opened Grids

  /** A float32 cell: a number or NaN. */
  datatype Float = Num(v: real) | NaN

  /** numpy's `x == tag` for a raster's nodata tag: a missing tag (`None`) and a NaN on
      either side never compare equal. */
  predicate EqualsTag(x: Float, tag: Option<Float>) {
    tag.Some? && x.Num? && tag.value.Num? && x.v == tag.value.v
  }

  /** IEEE subtraction: NaN in, NaN out. */
  function Sub(a: Float, b: Float): Float {
    if a.Num? && b.Num? then Num(a.v - b.v) else NaN
  }

  /** The mask of `compute_ndsm`: either input is its own nodata or NaN. */
  predicate Masked(d: Float, dTag: Option<Float>, t: Float, tTag: Option<Float>) {
    EqualsTag(d, dTag) || EqualsTag(t, tTag) || d.NaN? || t.NaN?
  }

  /** The written band and the `nodata` tag of the output profile. */
  datatype NdsmRaster = NdsmRaster(cells: Grid<Float>, nodata: real)

  /** `compute_ndsm`: `np.where(mask, nodata, dsm - dtm)` with the profile's nodata set to
      `nodata`. The aligned DTM has the DSM's grid, so the two bands have one shape. */
  function ComputeNdsm(dsm: Grid<Float>, dsmTag: Option<Float>, dtm: Grid<Float>, dtmTag: Option<Float>,
                       h: nat, w: nat, nodata: real): (out: NdsmRaster)
    requires Shaped(dsm, h, w) && Shaped(dtm, h, w)
    ensures Shaped(out.cells, h, w)
    ensures out.nodata == nodata
  {
    NdsmRaster(
      seq(h, r requires 0 <= r < h => seq(w, c requires 0 <= c < w =>
        if Masked(dsm[r][c], dsmTag, dtm[r][c], dtmTag) then Num(nodata) else Sub(dsm[r][c], dtm[r][c]))),
      nodata)
  }

  /** Every output cell of `compute_ndsm` is a number: the nodata value where either input
      is missing, otherwise a difference from which the surface is recovered by adding the
      terrain back. */
  lemma ComputeNdsmCells(dsm: Grid<Float>, dsmTag: Option<Float>, dtm: Grid<Float>, dtmTag: Option<Float>,
                         h: nat, w: nat, nodata: real, r: nat, c: nat)
    requires Shaped(dsm, h, w) && Shaped(dtm, h, w) && r < h && c < w
    ensures var out := ComputeNdsm(dsm, dsmTag, dtm, dtmTag, h, w, nodata).cells[r][c];
      && out.Num?
      && (Masked(dsm[r][c], dsmTag, dtm[r][c], dtmTag) ==> out.v == nodata)
      && (!Masked(dsm[r][c], dsmTag, dtm[r][c], dtmTag) ==> dsm[r][c].Num? && dtm[r][c].v + out.v == dsm[r][c].v)
  {
  }

  /** One input file of `calculate_ndsm`: its first band, its CRS and its nodata tag. */
  datatype Dataset = Dataset(band: Grid<Float>, height: nat, width: nat, crs: int, nodata: Option<Float>)

  ghost predicate WellFormed(d: Dataset) {
    Shaped(d.band, d.height, d.width)
  }

  datatype NdsmError =
    | ShapeMismatch      // ValueError "DSM and DTM must have the same shape."
    | CrsMismatch        // ValueError "DSM and DTM must have the same CRS."
    | NotMaskedArray     // AttributeError: a plain ndarray has no `.filled`

  /** `calculate_ndsm` in modules/tree_tops.py: the band it writes, or the error it raises. */
  function CalculateNdsm(dsm: Dataset, dtm: Dataset): (r: Result<Grid<Float>, NdsmError>)
    requires WellFormed(dsm) && WellFormed(dtm)
    ensures (dsm.height, dsm.width) != (dtm.height, dtm.width) ==> r == Err(ShapeMismatch)
    ensures (dsm.height, dsm.width) == (dtm.height, dtm.width) && dsm.crs != dtm.crs ==> r == Err(CrsMismatch)
    ensures r.Ok? <==> (dsm.height, dsm.width) == (dtm.height, dtm.width) && dsm.crs == dtm.crs
                       && (dsm.nodata.Some? || dtm.nodata.Some?)
    ensures r.Ok? ==> Shaped(r.value, dsm.height, dsm.width)
  {
    if (dsm.height, dsm.width) != (dtm.height, dtm.width) then Err(ShapeMismatch)
    else if dsm.crs != dtm.crs then Err(CrsMismatch)
    else if dsm.nodata.None? && dtm.nodata.None? then Err(NotMaskedArray)
    else Ok(seq(dsm.height, r requires 0 <= r < dsm.height => seq(dsm.width, c requires 0 <= c < dsm.width =>
      if EqualsTag(dsm.band[r][c], dsm.nodata) || EqualsTag(dtm.band[r][c], dtm.nodata) then NaN
      else Sub(dsm.band[r][c], dtm.band[r][c]))))
  }

  /** The two nDSM routines agree cell by cell except for the fill value: where
      `compute_ndsm` writes its nodata value, `calculate_ndsm` writes NaN, and elsewhere
      both write the same difference. */
  lemma {:induction false} NdsmVersionsAgree(dsm: Dataset, dtm: Dataset, nodata: real, r: nat, c: nat)
    requires WellFormed(dsm) && WellFormed(dtm)
    requires (dsm.height, dsm.width) == (dtm.height, dtm.width) && dsm.crs == dtm.crs
    requires dsm.nodata.Some? || dtm.nodata.Some?
    requires r < dsm.height && c < dsm.width
    ensures var fromCalc := CalculateNdsm(dsm, dtm).value[r][c];
      var fromCompute := ComputeNdsm(dsm.band, dsm.nodata, dtm.band, dtm.nodata, dsm.height, dsm.width, nodata).cells[r][c];
      && (Masked(dsm.band[r][c], dsm.nodata, dtm.band[r][c], dtm.nodata) ==> fromCalc == NaN && fromCompute == Num(nodata))
      && (!Masked(dsm.band[r][c], dsm.nodata, dtm.band[r][c], dtm.nodata) ==> fromCalc == fromCompute && fromCalc.Num?)
  {
    var fromCalc := CalculateNdsm(dsm, dtm).value;
    assert fromCalc[r][c] == if EqualsTag(dsm.band[r][c], dsm.nodata) || EqualsTag(dtm.band[r][c], dtm.nodata) then NaN
      else Sub(dsm.band[r][c], dtm.band[r][c]);
  }

  datatype Resampling = Nearest | Bilinear | Cubic

  /** `resampling_map.get(resampling, Resampling.bilinear)` in `align_to_dsm_grid`. */
  function ResamplingFor(name: string): (k: Resampling)
    ensures name == "nearest" <==> k == Nearest
    ensures name == "cubic" <==> k == Cubic
    ensures k == Bilinear <==> name != "nearest" && name != "cubic"
  {
    if name == "nearest" then Nearest
    else if name == "bilinear" then Bilinear
    else if name == "cubic" then Cubic
    else Bilinear
  }

  /** The band `align_to_dsm_grid` writes: the destination of the DSM's height and width
      pre-filled with `nodata`, then overwritten by `reproject` where it produced a value
      (`written[r][c] == Some(v)`). The resampling itself is a library call. */
  function AlignedBand(h: nat, w: nat, nodata: real, written: Grid<Option<real>>): (band: Grid<Float>)
    requires Shaped(written, h, w)
    ensures Shaped(band, h, w)
    ensures forall r, c :: 0 <= r < h && 0 <= c < w && written[r][c].None? ==> band[r][c] == Num(nodata)
    ensures forall r, c :: 0 <= r < h && 0 <= c < w && written[r][c].Some? ==> band[r][c] == Num(written[r][c].value)
  {
    seq(h, r requires 0 <= r < h => seq(w, c requires 0 <= c < w =>
      if written[r][c].Some? then Num(written[r][c].value) else Num(nodata)))
  }

  /** `p.rfind(ch)`: the last index of `ch` in `p`, or -1. */
  function RFind(p: string, ch: char): (i: int)
    ensures -1 <= i < |p|
    ensures i >= 0 ==> p[i] == ch
    ensures forall j :: i < j < |p| ==> p[j] != ch
  {
    if p == [] then -1
    else if p[|p| - 1] == ch then |p| - 1
    else RFind(p[..|p| - 1], ch)
  }

  predicate AllDots(s: string) {
    forall i :: 0 <= i < |s| ==> s[i] == '.'
  }

  /** `os.path.splitext` on a POSIX path: the extension starts at the last dot of the last
      path component, unless everything before that dot in the component is dots. */
  function SplitExt(p: string): (parts: (string, string))
  {
    var sep := RFind(p, '/');
    var dot := RFind(p, '.');
    if dot > sep && !AllDots(p[sep + 1..dot]) then (p[..dot], p[dot..]) else (p, "")
  }

  /** Root and extension put back together give the path; a non-empty extension is one dot
      followed by characters that are neither dots nor separators. */
  lemma SplitExtParts(p: string)
    ensures SplitExt(p).0 + SplitExt(p).1 == p
    ensures var ext := SplitExt(p).1;
      ext != [] ==> ext[0] == '.' && forall i :: 0 < i < |ext| ==> ext[i] != '.' && ext[i] != '/'
  {
    var sep := RFind(p, '/');
    var dot := RFind(p, '.');
    if dot > sep && !AllDots(p[sep + 1..dot]) {
      assert SplitExt(p) == (p[..dot], p[dot..]);
      ExtensionTail(p, sep, dot);
    } else {
      assert SplitExt(p) == (p, "");
    }
  }

  lemma ExtensionTail(p: string, sep: int, dot: int)
    requires -1 <= sep < dot < |p| && p[dot] == '.'
    requires forall j :: sep < j < |p| ==> p[j] != '/'
    requires forall j :: dot < j < |p| ==> p[j] != '.'
    ensures p[..dot] + p[dot..] == p
    ensures var ext := p[dot..]; ext[0] == '.' && forall i :: 0 < i < |ext| ==> ext[i] != '.' && ext[i] != '/'
  {
    assert p[..dot] + p[dot..] == p;
    var ext := p[dot..];
    forall i | 0 < i < |ext|
      ensures ext[i] != '.' && ext[i] != '/'
    {
      assert ext[i] == p[dot + i];
    }
  }

  /** `os.path.splitext(dtm_save_path)[0] + "_aligned_to_DSM.tif"` in `run_pipeline`. */
  function AlignedPath(dtmSavePath: string): (p: string)
    ensures p == SplitExt(dtmSavePath).0 + "_aligned_to_DSM.tif"
  {
    SplitExt(dtmSavePath).0 + "_aligned_to_DSM.tif"
  }

  /** What `run_pipeline` returns: the aligned DTM path, and the nDSM path only when
      `ndsm_save_path` is truthy (neither `None` nor the empty string). */
  function PipelinePaths(dtmSavePath: string, ndsmSavePath: Option<string>): (out: (string, Option<string>))
    ensures out.1.Some? <==> ndsmSavePath.Some? && ndsmSavePath.value != ""
    ensures out.1.Some? ==> out.1.value == ndsmSavePath.value
  {
    var written := if ndsmSavePath.Some? && ndsmSavePath.value != "" then Some(ndsmSavePath.value) else None;
    (AlignedPath(dtmSavePath), written)
  }

  /** The aligned DTM path keeps the directory and stem of the downloaded DTM and ends in
      `_aligned_to_DSM.tif`; a path without an extension is kept whole. */
  lemma {:induction false} AlignedPathShape(dtmSavePath: string)
    ensures var p := AlignedPath(dtmSavePath);
      var root := SplitExt(dtmSavePath).0;
      && |p| == |root| + 19 && p[..|root|] == root && p[|root|..] == "_aligned_to_DSM.tif"
      && dtmSavePath == root + SplitExt(dtmSavePath).1
  {
    SplitExtParts(dtmSavePath);
    var root := SplitExt(dtmSavePath).0;
    var p := AlignedPath(dtmSavePath);
    assert p[..|root|] == root;
    assert p[|root|..] == "_aligned_to_DSM.tif";
  }
}
