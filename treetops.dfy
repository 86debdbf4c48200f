/** Tree-top extraction from an already smoothed nDSM (`detect_tree_tops` and
    `local_to_utm`): the local-maximum mask, the row-major list of selected pixels and
    their conversion to projected coordinates. */
module TreeTops {
  import opened Grids

  /** First index of the `size`-wide window that `maximum_filter` centres on `i`, clamped
      to the axis. */
  function WindowLo(i: nat, size: nat): nat {
    if i < size / 2 then 0 else i - size / 2
  }

  /** One past the last index of that window, clamped to an axis of length `len`. */
  function WindowHi(i: nat, size: nat, len: nat): nat {
    if i + size - size / 2 <= len then i + size - size / 2 else len
  }

  lemma WindowHolds(i: nat, size: nat, len: nat)
    requires size >= 1 && i < len
    ensures WindowLo(i, size) <= i < WindowHi(i, size, len) <= len
  {
  }

  /** Maximum of `row[lo..hi]`. */
  function RowMax(row: seq<real>, lo: nat, hi: nat): (m: real)
    requires lo < hi <= |row|
    decreases hi - lo
    ensures forall j :: lo <= j < hi ==> row[j] <= m
    ensures exists j :: lo <= j < hi && row[j] == m
  {
    if hi == lo + 1 then row[lo]
    else
      var rest := RowMax(row, lo, hi - 1);
      if row[hi - 1] > rest then row[hi - 1] else rest
  }

  /** Maximum of the rectangle rows `[rlo, rhi)` by columns `[clo, chi)`. */
  function BoxMax(g: Grid<real>, rlo: nat, rhi: nat, clo: nat, chi: nat): (m: real)
    requires rlo < rhi <= |g| && clo < chi
    requires forall r :: rlo <= r < rhi ==> chi <= |g[r]|
    decreases rhi - rlo
    ensures forall r, c :: rlo <= r < rhi && clo <= c < chi ==> g[r][c] <= m
    ensures exists r, c :: rlo <= r < rhi && clo <= c < chi && g[r][c] == m
  {
    var last := RowMax(g[rhi - 1], clo, chi);
    if rhi == rlo + 1 then last
    else
      var rest := BoxMax(g, rlo, rhi - 1, clo, chi);
      if last > rest then last else rest
  }

  /** `maximum_filter(smoothed, size)[r][c]`. The library reflects the raster at its edges;
      every reflected cell repeats a cell already inside the clamped window, so the maximum
      over the clamped window is the same. */
  function FilterMax(g: Grid<real>, h: nat, w: nat, size: nat, r: nat, c: nat): real
    requires Shaped(g, h, w) && size >= 1 && r < h && c < w
  {
    WindowHolds(r, size, h);
    WindowHolds(c, size, w);
    BoxMax(g, WindowLo(r, size), WindowHi(r, size, h), WindowLo(c, size), WindowHi(c, size, w))
  }

  /** `(maximum_filter(smoothed, size) == smoothed) & (smoothed > min_height_threshold)`. */
  function Mask(g: Grid<real>, h: nat, w: nat, size: nat, threshold: real): (mask: Grid<bool>)
    requires Shaped(g, h, w) && size >= 1
    ensures Shaped(mask, h, w)
  {
    seq(h, r requires 0 <= r < h => seq(w, c requires 0 <= c < w =>
      g[r][c] == FilterMax(g, h, w, size, r, c) && g[r][c] > threshold))
  }

  /** A pixel is selected exactly when no cell of its window is higher and it is strictly
      above the height threshold. */
  lemma {:induction false} MaskIff(g: Grid<real>, h: nat, w: nat, size: nat, threshold: real, r: nat, c: nat)
    requires Shaped(g, h, w) && size >= 1 && r < h && c < w
    ensures Mask(g, h, w, size, threshold)[r][c] <==>
      g[r][c] > threshold &&
      forall r', c' :: WindowLo(r, size) <= r' < WindowHi(r, size, h) && WindowLo(c, size) <= c' < WindowHi(c, size, w)
        ==> g[r'][c'] <= g[r][c]
  {
    WindowHolds(r, size, h);
    WindowHolds(c, size, w);
    var m := FilterMax(g, h, w, size, r, c);
    assert g[r][c] <= m;
  }

  /** Row-major order of pixel coordinates. */
  predicate Before(p: (nat, nat), q: (nat, nat)) {
    p.0 < q.0 || (p.0 == q.0 && p.1 < q.1)
  }

  predicate StrictlyRowMajor(s: seq<(nat, nat)>) {
    forall i, j :: 0 <= i < j < |s| ==> Before(s[i], s[j])
  }

  /** Selected columns of row `r` from column `c` on, left to right. */
  function RowHits(row: seq<bool>, r: nat, c: nat): (s: seq<(nat, nat)>)
    requires c <= |row|
    decreases |row| - c
    ensures forall p :: p in s <==> p.0 == r && c <= p.1 < |row| && row[p.1]
    ensures forall i :: 0 <= i < |s| ==> s[i].0 == r && c <= s[i].1
    ensures StrictlyRowMajor(s)
  {
    if c == |row| then []
    else if row[c] then [(r, c)] + RowHits(row, r, c + 1)
    else RowHits(row, r, c + 1)
  }

  /** `np.column_stack(np.where(mask))` from row `r` down: every selected pixel once, in
      row-major order. */
  function Hits(mask: Grid<bool>, r: nat): (s: seq<(nat, nat)>)
    requires r <= |mask|
    decreases |mask| - r
    ensures forall p :: p in s <==> r <= p.0 < |mask| && p.1 < |mask[p.0]| && mask[p.0][p.1]
    ensures forall i :: 0 <= i < |s| ==> r <= s[i].0
    ensures StrictlyRowMajor(s)
  {
    if r == |mask| then []
    else
      var here := RowHits(mask[r], r, 0);
      var rest := Hits(mask, r + 1);
      assert forall i, j :: 0 <= i < |here| && 0 <= j < |rest| ==> Before(here[i], rest[j]);
      here + rest
  }

  /** The pixel coordinates `detect_tree_tops` keeps. */
  function Selected(g: Grid<real>, h: nat, w: nat, size: nat, threshold: real): (s: seq<(nat, nat)>)
    requires Shaped(g, h, w) && size >= 1
    ensures StrictlyRowMajor(s)
    ensures forall p :: p in s <==> p.0 < h && p.1 < w && Mask(g, h, w, size, threshold)[p.0][p.1]
  {
    Hits(Mask(g, h, w, size, threshold), 0)
  }

  /** Every selected pixel is reported, not one per connected blob: a two-pixel plateau above
      the threshold yields both pixels. */
  lemma PlateauYieldsEveryPixel()
    ensures Selected([[5.0, 5.0]], 1, 2, 3, 1.0) == [(0, 0), (0, 1)]
  {
    var g := [[5.0, 5.0]];
    MaskIff(g, 1, 2, 3, 1.0, 0, 0);
    MaskIff(g, 1, 2, 3, 1.0, 0, 1);
    var mask := Mask(g, 1, 2, 3, 1.0);
    assert mask[0][0] && mask[0][1];
    assert |mask| == 1 && |mask[0]| == 2;
    assert mask[0] == [true, true];
    assert mask == [[true, true]];
    assert RowHits(mask[0], 0, 2) == [];
    assert RowHits(mask[0], 0, 1) == [(0, 1)];
    assert Hits(mask, 1) == [];
  }

  /** `local_to_utm`: `transform * (col, row)` for each pixel, in input order. This is the
      pixel's upper-left corner, not its centre. */
  method LocalToUtm(coords: seq<(nat, nat)>, t: Affine) returns (utm: seq<(real, real)>)
    ensures |utm| == |coords|
    ensures forall i :: 0 <= i < |coords| ==>
      utm[i].0 == XyCorner(t, coords[i].0, coords[i].1).0 && utm[i].1 == XyCorner(t, coords[i].0, coords[i].1).1
  {
    utm := [];
    var k := 0;
    while k < |coords|
      invariant 0 <= k <= |coords| && |utm| == k
      invariant forall i :: 0 <= i < k ==>
        utm[i].0 == XyCorner(t, coords[i].0, coords[i].1).0 && utm[i].1 == XyCorner(t, coords[i].0, coords[i].1).1
    {
      var row := coords[k].0;
      var col := coords[k].1;
      utm := utm + [(t.c + t.a * col as real, t.f + t.e * row as real)];
      k := k + 1;
    }
  }

  /** Reading a converted coordinate back through the same transform gives the pixel it came
      from. */
  lemma {:induction false} UtmRoundTrip(coords: seq<(nat, nat)>, t: Affine, utm: seq<(real, real)>, i: nat)
    requires ValidAffine(t) && |utm| == |coords| && i < |coords|
    requires utm[i].0 == XyCorner(t, coords[i].0, coords[i].1).0 && utm[i].1 == XyCorner(t, coords[i].0, coords[i].1).1
    ensures RowCol(t, utm[i].0, utm[i].1) == (coords[i].0 as int, coords[i].1 as int)
  {
    RowColOfCorner(t, coords[i].0, coords[i].1);
  }

  /** `detect_tree_tops` without reading and plotting: one `(x, y, height)` per selected
      pixel, in row-major order, the height being the smoothed value there. */
  method DetectTreeTops(g: Grid<real>, h: nat, w: nat, size: nat, threshold: real, t: Affine)
    returns (tops: seq<(real, real, real)>)
    requires Shaped(g, h, w) && size >= 1
    ensures var px := Selected(g, h, w, size, threshold);
      && |tops| == |px|
      && forall i :: 0 <= i < |px| ==>
        && tops[i].0 == XyCorner(t, px[i].0, px[i].1).0
        && tops[i].1 == XyCorner(t, px[i].0, px[i].1).1
        && tops[i].2 == g[px[i].0][px[i].1]
        && tops[i].2 > threshold
  {
    var px := Selected(g, h, w, size, threshold);
    assert forall i :: 0 <= i < |px| ==> px[i] in px;
    var utm := LocalToUtm(px, t);
    tops := seq(|px|, i requires 0 <= i < |px| => (utm[i].0, utm[i].1, g[px[i].0][px[i].1]));
  }
}
