/** Tree-crown segmentation around the library calls (`segment_trees_arrays` and the two
    `segment_trees`): the centre-subset window, the ground threshold, the marker grid, the
    removal of small regions and the sequential relabelling. Smoothing, gradient,
    `peak_local_max` and the watershed are library calls; their outputs are inputs here. */
module Crowns {
  import opened Outcomes
  import opened Grids

  // ---------------------------------------------------------------- subset window

  /** A half-open index range `[start, end)` along one raster axis. */
  datatype Span = Span(start: int, end: int)

  /** The clamped window of `segment_trees_arrays` along one axis of length `len`:
      `size = max(1, requested)` cells centred on `len // 2`, clamped to the raster. */
  function ClampedSpan(len: nat, requested: int): (s: Span)
    requires len >= 1
    ensures 0 <= s.start <= len / 2 < s.end <= len
    ensures s.end - s.start == if requested < 1 then 1 else if requested < len then requested else len
  {
    var size := if requested < 1 then 1 else requested;
    var centre := len / 2;
    var start := if centre - size / 2 < 0 then 0 else centre - size / 2;
    var end := if start + size < len then start + size else len;
    Span(start, end)
  }

  /** `int(x)` for a float: truncation toward zero. */
  function Trunc(x: real): (n: int)
    ensures 0.0 <= x ==> n == x.Floor
    ensures x < 0.0 ==> n == -((-x).Floor)
  {
    if x >= 0.0 then x.Floor else -((-x).Floor)
  }

  /** The unclamped indices of the older `segment_trees`: `start = centre - size // 2` and
      `end = start + size` with `size = int(subset_size_meters / pixel_size)`. */
  function UnclampedSpan(len: nat, size: int): (s: Span)
    ensures s.end - s.start == size
  {
    var start := len / 2 - Floor2(size);
    Span(start, start + size)
  }

  /** Python's `//` by 2 (floor division; equal to Dafny's `/` since the divisor is positive). */
  function Floor2(n: int): (q: int)
    ensures 2 * q <= n < 2 * q + 2
  {
    n / 2
  }

  /** One Python slice bound: a negative index counts from the end, and the result is
      clamped to `[0, len]`. */
  function SliceBound(len: nat, i: int): (b: nat)
    ensures b <= len
    ensures 0 <= i <= len ==> b == i
    ensures -(len as int) <= i < 0 ==> b == i + len
  {
    if i < 0 then (if i + len < 0 then 0 else i + len)
    else if i > len then len
    else i
  }

  /** The cells `a[start:end]` selects along an axis of length `len`. */
  function PySlice(len: nat, s: Span): (r: Span)
    ensures 0 <= r.start <= r.end <= len
  {
    var b := SliceBound(len, s.start);
    var e := SliceBound(len, s.end);
    Span(b, if e < b then b else e)
  }

  /** While the requested subset fits in the raster, the unclamped slice is the clamped
      window: the two versions select the same cells. */
  lemma {:induction false} UnclampedAgreesWhenFits(len: nat, size: int)
    requires 1 <= size <= len
    ensures PySlice(len, UnclampedSpan(len, size)) == ClampedSpan(len, size)
  {
    var s := UnclampedSpan(len, size);
    assert 0 <= s.start;
    assert s.end <= len;
  }

  /** A subset wider than the raster starts at a negative index; Python reads it from the
      end, so a 10-column raster with a 12-column subset yields only column 9, where the
      clamped window keeps all ten columns. */
  lemma UnclampedSubsetCounterexample()
    ensures UnclampedSpan(10, 12) == Span(-1, 11)
    ensures PySlice(10, UnclampedSpan(10, 12)) == Span(9, 10)
    ensures ClampedSpan(10, 12) == Span(0, 10)
  {
  }

  /** `src.read(1, window=...)`: rows `[rows.start, rows.end)` by columns
      `[cols.start, cols.end)` of the band. */
  function Crop<T>(g: Grid<T>, h: nat, w: nat, rows: Span, cols: Span): (sub: Grid<T>)
    requires Shaped(g, h, w) && 0 <= rows.start <= rows.end <= h && 0 <= cols.start <= cols.end <= w
    ensures Shaped(sub, rows.end - rows.start, cols.end - cols.start)
    ensures forall r, c :: 0 <= r < rows.end - rows.start && 0 <= c < cols.end - cols.start ==>
      sub[r][c] == g[rows.start + r][cols.start + c]
  {
    var nr := rows.end - rows.start;
    var nc := cols.end - cols.start;
    var sub := seq(nr, r requires 0 <= r < nr => CropRow(g[rows.start + r], cols.start, nc));
    assert forall r :: 0 <= r < nr ==> sub[r] == CropRow(g[rows.start + r], cols.start, nc);
    sub
  }

  function CropRow<T>(row: seq<T>, start: nat, n: nat): (sub: seq<T>)
    requires start + n <= |row|
    ensures |sub| == n && forall c :: 0 <= c < n ==> sub[c] == row[start + c]
  {
    row[start..start + n]
  }

  /** The subset of `segment_trees_arrays`: the clamped window on both axes, read from the
      full raster, with the window's own transform. */
  function Subset<T>(g: Grid<T>, h: nat, w: nat, t: Affine, rows: Span, cols: Span): (sub: (Grid<T>, Affine))
    requires Shaped(g, h, w) && 0 <= rows.start <= rows.end <= h && 0 <= cols.start <= cols.end <= w
    ensures sub.0 == Crop(g, h, w, rows, cols)
    ensures ValidAffine(t) ==> ValidAffine(sub.1)
  {
    (Crop(g, h, w, rows, cols), WindowTransform(t, rows.start, cols.start))
  }

  /** With the window transform, every pixel of the subset sits where the same cell of the
      full raster sits, and reading a point back lands on the same cell. */
  lemma {:induction false} SubsetGeoreferenced<T>(g: Grid<T>, h: nat, w: nat, t: Affine, rows: Span, cols: Span,
                                                  r: int, c: int, x: real, y: real)
    requires Shaped(g, h, w) && 0 <= rows.start <= rows.end <= h && 0 <= cols.start <= cols.end <= w
    requires ValidAffine(t)
    ensures var st := Subset(g, h, w, t, rows, cols).1;
      && XyCenter(st, r, c).0 == XyCenter(t, rows.start + r, cols.start + c).0
      && XyCenter(st, r, c).1 == XyCenter(t, rows.start + r, cols.start + c).1
      && RowCol(st, x, y) == (RowCol(t, x, y).0 - rows.start, RowCol(t, x, y).1 - cols.start)
  {
    WindowTransformConsistent(t, rows.start, cols.start, r, c, x, y);
  }

  /** The transform the older `segment_trees` returns next to its subset: the full raster's. */
  function ReturnedTransformAsWritten(t: Affine, rows: Span, cols: Span): (rt: Affine)
    ensures rt == t
  {
    t
  }

  /** Paired with a subset that does not start at the raster's corner, that transform puts
      the subset's pixel (0, 0) at the full raster's pixel (0, 0): the centre it reports
      differs from the cell's true position, which the window transform reports. */
  lemma {:induction false} ReturnedTransformMisplacesSubset(t: Affine, rows: Span, cols: Span)
    requires ValidAffine(t) && rows.start > 0
    ensures XyCenter(ReturnedTransformAsWritten(t, rows, cols), 0, 0).1 != XyCenter(t, rows.start, cols.start).1
    ensures XyCenter(WindowTransform(t, rows.start, cols.start), 0, 0).1 == XyCenter(t, rows.start, cols.start).1
  {
    WindowTransformConsistent(t, rows.start, cols.start, 0, 0, 0.0, 0.0);
    assert t.e * (rows.start as real + 0.5) != t.e * 0.5 by {
      assert t.e * (rows.start as real + 0.5) - t.e * 0.5 == t.e * rows.start as real;
    }
  }

  // ---------------------------------------------------------------- ground threshold

  /** `threshold_abs` defaults to `ground_threshold`. */
  function PeakThreshold(thresholdAbs: Option<real>, groundThreshold: real): (thr: real)
    ensures thresholdAbs.Some? ==> thr == thresholdAbs.value
    ensures thresholdAbs.None? ==> thr == groundThreshold
  {
    thresholdAbs.GetOr(groundThreshold)
  }

  /** `np.where(ndsm > ground_threshold, ndsm, 0)`. */
  function Clean(g: Grid<real>, groundThreshold: real): (cleaned: Grid<real>)
    ensures |cleaned| == |g|
    ensures forall r :: 0 <= r < |g| ==> |cleaned[r]| == |g[r]|
    ensures forall r, c :: 0 <= r < |g| && 0 <= c < |g[r]| ==>
      (g[r][c] > groundThreshold ==> cleaned[r][c] == g[r][c]) && (g[r][c] <= groundThreshold ==> cleaned[r][c] == 0.0)
  {
    seq(|g|, r requires 0 <= r < |g| => seq(|g[r]|, c requires 0 <= c < |g[r]| =>
      if g[r][c] > groundThreshold then g[r][c] else 0.0))
  }

  /** Cleaning leaves only zero and heights above the threshold, and cleaning twice changes
      nothing. */
  lemma {:induction false} CleanIdempotent(g: Grid<real>, groundThreshold: real)
    ensures var cleaned := Clean(g, groundThreshold);
      && (forall r, c :: 0 <= r < |g| && 0 <= c < |g[r]| ==> cleaned[r][c] == 0.0 || cleaned[r][c] > groundThreshold)
      && Clean(cleaned, groundThreshold) == cleaned
  {
    var cleaned := Clean(g, groundThreshold);
    var twice := Clean(cleaned, groundThreshold);
    forall r | 0 <= r < |g| ensures twice[r] == cleaned[r] {
      assert |twice[r]| == |cleaned[r]|;
      forall c | 0 <= c < |g[r]| ensures twice[r][c] == cleaned[r][c] {
      }
    }
  }

  // ---------------------------------------------------------------- markers

  /** The id the marker loop leaves in cell `(r, c)` after writing `peaks`: `i + 1` for the
      last peak `i` on that cell, 0 if none. */
  function MarkerAt(peaks: seq<(int, int)>, r: int, c: int): (id: nat)
    ensures id <= |peaks|
    ensures id > 0 ==> peaks[id - 1] == (r, c) && forall j :: id <= j < |peaks| ==> peaks[j] != (r, c)
    ensures id == 0 <==> (r, c) !in peaks
  {
    if |peaks| == 0 then 0
    else if peaks[|peaks| - 1] == (r, c) then |peaks|
    else MarkerAt(peaks[..|peaks| - 1], r, c)
  }

  /** `markers = zeros; for i, (r, c) in enumerate(peaks): if in bounds: markers[r, c] = i + 1`.
      The guard is the one of `segment_trees`; the loop of `segment_trees_arrays` has none,
      and `peak_local_max` only returns in-bounds peaks, so both loops write the same cells. */
  method PlaceMarkers(h: nat, w: nat, peaks: seq<(int, int)>) returns (markers: array2<int>)
    ensures fresh(markers) && markers.Length0 == h && markers.Length1 == w
    ensures forall r, c :: 0 <= r < h && 0 <= c < w ==> markers[r, c] == MarkerAt(peaks, r, c)
  {
    markers := new int[h, w]((r, c) => 0);
    var i := 0;
    while i < |peaks|
      invariant 0 <= i <= |peaks|
      invariant forall r, c :: 0 <= r < h && 0 <= c < w ==> markers[r, c] == MarkerAt(peaks[..i], r, c)
    {
      assert peaks[..i + 1][..i] == peaks[..i];
      var (r, c) := peaks[i];
      if 0 <= r < h && 0 <= c < w {
        markers[r, c] := i + 1;
      }
      i := i + 1;
    }
    assert peaks[..i] == peaks;
  }

  /** With distinct peaks, peak `i` carries id `i + 1`, and every cell that is not a peak
      stays 0. */
  lemma {:induction false} MarkersOfDistinctPeaks(peaks: seq<(int, int)>, i: nat, r: int, c: int)
    requires forall j, k :: 0 <= j < k < |peaks| ==> peaks[j] != peaks[k]
    requires i < |peaks|
    ensures MarkerAt(peaks, peaks[i].0, peaks[i].1) == i + 1
    ensures (r, c) !in peaks ==> MarkerAt(peaks, r, c) == 0
  {
    assert peaks[i] in peaks;
  }

  // ---------------------------------------------------------------- region areas

  /** Number of cells of `row` holding `l`. */
  function RowArea(row: seq<nat>, l: nat): nat {
    if |row| == 0 then 0 else RowArea(row[..|row| - 1], l) + (if row[|row| - 1] == l then 1 else 0)
  }

  /** `regionprops(labels)[...].area` for label `l`: its number of cells. */
  function Area(g: Grid<nat>, l: nat): nat {
    if |g| == 0 then 0 else Area(g[..|g| - 1], l) + RowArea(g[|g| - 1], l)
  }

  lemma {:induction false} RowAreaTransfer(a: seq<nat>, b: seq<nat>, l: nat, m: nat)
    requires |a| == |b|
    requires forall c :: 0 <= c < |a| ==> (b[c] == m <==> a[c] == l)
    ensures RowArea(b, m) == RowArea(a, l)
  {
    if |a| > 0 {
      RowAreaTransfer(a[..|a| - 1], b[..|b| - 1], l, m);
    }
  }

  /** Two grids of one shape in which `m` occupies exactly the cells `l` occupies give `m`
      and `l` the same area. */
  lemma {:induction false} AreaTransfer(g: Grid<nat>, g': Grid<nat>, l: nat, m: nat)
    requires |g| == |g'| && forall r :: 0 <= r < |g| ==> |g[r]| == |g'[r]|
    requires forall r, c :: 0 <= r < |g| && 0 <= c < |g[r]| ==> (g'[r][c] == m <==> g[r][c] == l)
    ensures Area(g', m) == Area(g, l)
  {
    if |g| > 0 {
      var n := |g| - 1;
      RowAreaTransfer(g[n], g'[n], l, m);
      AreaTransfer(g[..n], g'[..n], l, m);
    }
  }

  /** The labels present in a grid. */
  function LabelSet(g: Grid<nat>): set<nat> {
    set r, c | 0 <= r < |g| && 0 <= c < |g[r]| :: g[r][c]
  }

  /** The region labels: the positive labels present. */
  function Regions(g: Grid<nat>): set<nat> {
    set l | l in LabelSet(g) && l > 0
  }

  /** `[p.label for p in regionprops(labels) if p.area < min_area_threshold]`, as a set. */
  function SmallRegions(g: Grid<nat>, minArea: nat): (small: set<nat>)
    ensures small <= Regions(g)
    ensures forall l :: l in Regions(g) ==> (l in small <==> Area(g, l) < minArea)
  {
    set l | l in Regions(g) && Area(g, l) < minArea
  }

  /** The grid after `labels[labels == s] = 0` for every small region `s`. */
  function WithoutSmall(g: Grid<nat>, minArea: nat): (out: Grid<nat>)
    ensures |out| == |g| && forall r :: 0 <= r < |g| ==> |out[r]| == |g[r]|
  {
    var small := SmallRegions(g, minArea);
    seq(|g|, r requires 0 <= r < |g| => seq(|g[r]|, c requires 0 <= c < |g[r]| =>
      if g[r][c] in small then 0 else g[r][c]))
  }

  /** No surviving region is smaller than the minimum area: each keeps all its cells, and
      each small region is gone. */
  lemma {:induction false} RemovalKeepsLargeRegions(g: Grid<nat>, minArea: nat)
    ensures Regions(WithoutSmall(g, minArea)) == Regions(g) - SmallRegions(g, minArea)
    ensures forall l :: l in Regions(WithoutSmall(g, minArea)) ==>
      Area(WithoutSmall(g, minArea), l) == Area(g, l) >= minArea
  {
    var out := WithoutSmall(g, minArea);
    var small := SmallRegions(g, minArea);
    forall l | l in Regions(g) - small
      ensures l in Regions(out) && Area(out, l) == Area(g, l)
    {
      var r, c :| 0 <= r < |g| && 0 <= c < |g[r]| && g[r][c] == l;
      assert out[r][c] == l;
      AreaTransfer(g, out, l, l);
    }
    forall l | l in Regions(out)
      ensures l in Regions(g) - small
    {
      var r, c :| 0 <= r < |out| && 0 <= c < |out[r]| && out[r][c] == l;
      assert g[r][c] == l;
    }
  }

  /** The cells of a label array. */
  function Contents(a: array2<nat>): (g: Grid<nat>)
    reads a
    ensures Shaped(g, a.Length0, a.Length1)
    ensures forall r, c :: 0 <= r < a.Length0 && 0 <= c < a.Length1 ==> g[r][c] == a[r, c]
  {
    seq(a.Length0, r requires 0 <= r < a.Length0 reads a => seq(a.Length1, c requires 0 <= c < a.Length1 reads a => a[r, c]))
  }

  /** `labels[labels == s] = 0`. */
  method ZeroLabel(a: array2<nat>, s: nat)
    modifies a
    ensures forall r, c :: 0 <= r < a.Length0 && 0 <= c < a.Length1 ==>
      a[r, c] == if old(a[r, c]) == s then 0 else old(a[r, c])
  {
    var r := 0;
    while r < a.Length0
      invariant 0 <= r <= a.Length0
      invariant forall i, j :: 0 <= i < a.Length0 && 0 <= j < a.Length1 ==>
        a[i, j] == if i < r && old(a[i, j]) == s then 0 else old(a[i, j])
    {
      var c := 0;
      while c < a.Length1
        invariant 0 <= c <= a.Length1
        invariant forall i, j :: 0 <= i < a.Length0 && 0 <= j < a.Length1 ==>
          a[i, j] == if (i < r || (i == r && j < c)) && old(a[i, j]) == s then 0 else old(a[i, j])
      {
        if a[r, c] == s {
          a[r, c] := 0;
        }
        c := c + 1;
      }
      r := r + 1;
    }
  }

  /** The small-region loop: every region with fewer than `minArea` cells is reset to 0 in
      place, in any order. */
  method RemoveSmallRegions(a: array2<nat>, minArea: nat)
    modifies a
    ensures Contents(a) == WithoutSmall(old(Contents(a)), minArea)
  {
    ghost var g0 := Contents(a);
    var small := SmallRegions(Contents(a), minArea);
    var todo := small;
    while todo != {}
      decreases |todo|
      invariant todo <= small
      invariant forall r, c :: 0 <= r < a.Length0 && 0 <= c < a.Length1 ==>
        a[r, c] == if g0[r][c] in small - todo then 0 else g0[r][c]
    {
      var s :| s in todo;
      ZeroLabel(a, s);
      todo := todo - {s};
    }
    ghost var out := WithoutSmall(g0, minArea);
    forall r | 0 <= r < a.Length0 ensures Contents(a)[r] == out[r] {
    }
  }

  // ---------------------------------------------------------------- sequential relabelling

  /** The regions numbered below `l`. */
  function Below(regions: set<nat>, l: nat): (b: set<nat>)
    ensures forall x :: x in b <==> x in regions && x < l
  {
    set x | x in regions && x < l
  }

  /** `relabel_sequential`'s new id for region `l`: its position among the regions in
      ascending order, counting from 1. */
  function Rank(regions: set<nat>, l: nat): (k: nat)
    ensures k >= 1
  {
    |Below(regions, l)| + 1
  }

  /** `relabel_sequential(labels)[0]`: background stays 0, each region gets its rank. */
  function Relabel(g: Grid<nat>): (out: Grid<nat>)
    ensures |out| == |g| && forall r :: 0 <= r < |g| ==> |out[r]| == |g[r]|
    ensures forall r, c :: 0 <= r < |g| && 0 <= c < |g[r]| ==>
      out[r][c] == if g[r][c] == 0 then 0 else Rank(Regions(g), g[r][c])
  {
    var regions := Regions(g);
    seq(|g|, r requires 0 <= r < |g| => seq(|g[r]|, c requires 0 <= c < |g[r]| =>
      if g[r][c] == 0 then 0 else Rank(regions, g[r][c])))
  }

  lemma {:induction false} SubsetCard(a: set<nat>, b: set<nat>)
    requires a <= b
    decreases |a|
    ensures |a| <= |b|
  {
    if a != {} {
      var x :| x in a;
      SubsetCard(a - {x}, b - {x});
    }
  }

  ghost function MaxOf(s: set<nat>): (m: nat)
    requires s != {}
    decreases |s|
    ensures m in s && forall y :: y in s ==> y <= m
  {
    var x :| x in s;
    if s - {x} == {} then
      assert forall y :: y in s ==> y == x by {
        forall y | y in s ensures y == x {
          assert y !in s - {x};
        }
      }
      x
    else
      var rest := MaxOf(s - {x});
      assert forall y :: y in s ==> y == x || y in s - {x};
      if x > rest then x else rest
  }

  /** `k` is the new number of some region. */
  ghost predicate Ranked(regions: set<nat>, k: nat) {
    exists l :: l in regions && Rank(regions, l) == k
  }

  /** Ranks preserve the order of labels. */
  lemma {:induction false} RankMonotone(regions: set<nat>, l: nat, m: nat)
    requires l in regions && l < m
    ensures Rank(regions, l) < Rank(regions, m)
  {
    var below := Below(regions, l);
    assert below + {l} <= Below(regions, m);
    SubsetCard(below + {l}, Below(regions, m));
  }

  /** Removing the largest region does not renumber the others. */
  lemma RankWithoutMax(regions: set<nat>, m: nat, l: nat)
    requires m in regions && forall y :: y in regions ==> y <= m
    requires l in regions - {m}
    ensures Rank(regions, l) == Rank(regions - {m}, l)
  {
    assert Below(regions, l) == Below(regions - {m}, l);
  }

  /** The largest region gets the last number. */
  lemma RankOfMax(regions: set<nat>, m: nat)
    requires m in regions && forall y :: y in regions ==> y <= m
    ensures Rank(regions, m) == |regions|
  {
    assert Below(regions, m) == regions - {m};
  }

  lemma {:induction false} RankedStep(regions: set<nat>, m: nat, k: nat)
    requires m in regions && forall y :: y in regions ==> y <= m
    requires forall j: nat :: Ranked(regions - {m}, j) <==> 1 <= j <= |regions - {m}|
    ensures Ranked(regions, k) <==> 1 <= k <= |regions|
  {
    var rest := regions - {m};
    RankOfMax(regions, m);
    if Ranked(regions, k) {
      var l :| l in regions && Rank(regions, l) == k;
      if l != m {
        RankWithoutMax(regions, m, l);
        assert Ranked(rest, k);
      }
    }
    if 1 <= k <= |regions| {
      if k == |regions| {
        assert Ranked(regions, k);
      } else {
        assert Ranked(rest, k);
        var l :| l in rest && Rank(rest, l) == k;
        RankWithoutMax(regions, m, l);
        assert Ranked(regions, k);
      }
    }
  }

  /** The ranks of the regions are exactly 1, 2, ..., N for N regions. */
  lemma {:induction false} RankImage(regions: set<nat>)
    decreases |regions|
    ensures forall k: nat :: Ranked(regions, k) <==> 1 <= k <= |regions|
  {
    if regions == {} {
      forall k: nat ensures !Ranked(regions, k) { }
    } else {
      var m := MaxOf(regions);
      RankImage(regions - {m});
      forall k: nat ensures Ranked(regions, k) <==> 1 <= k <= |regions| {
        RankedStep(regions, m, k);
      }
    }
  }

  /** Distinct regions get distinct numbers, and background stays background. */
  lemma {:induction false} RelabelCellsIff(g: Grid<nat>, l: nat, r: nat, c: nat)
    requires l in Regions(g) && r < |g| && c < |g[r]|
    ensures Relabel(g)[r][c] == Rank(Regions(g), l) <==> g[r][c] == l
    ensures Relabel(g)[r][c] == 0 <==> g[r][c] == 0
  {
    var regions := Regions(g);
    var v := g[r][c];
    if v != 0 && v != l {
      assert v in LabelSet(g);
      assert v in regions;
      if v < l { RankMonotone(regions, v, l); } else { RankMonotone(regions, l, v); }
    }
  }

  /** Each region keeps its cells under its new number. */
  lemma {:induction false} RelabelKeepsArea(g: Grid<nat>, l: nat)
    requires l in Regions(g)
    ensures Rank(Regions(g), l) in Regions(Relabel(g))
    ensures Area(Relabel(g), Rank(Regions(g), l)) == Area(g, l)
  {
    var out := Relabel(g);
    var r, c :| 0 <= r < |g| && 0 <= c < |g[r]| && g[r][c] == l;
    assert out[r][c] in LabelSet(out);
    forall r', c' | 0 <= r' < |g| && 0 <= c' < |g[r']|
      ensures out[r'][c'] == Rank(Regions(g), l) <==> g[r'][c'] == l
    {
      RelabelCellsIff(g, l, r', c');
    }
    AreaTransfer(g, out, l, Rank(Regions(g), l));
  }

  /** After relabelling the regions are numbered exactly 1..N, N being the number of
      regions before. */
  lemma {:induction false} RelabelSequential(g: Grid<nat>)
    ensures forall k :: k in Regions(Relabel(g)) <==> 1 <= k <= |Regions(g)|
  {
    var out := Relabel(g);
    var regions := Regions(g);
    RankImage(regions);
    forall k | k in Regions(out) ensures 1 <= k <= |regions| {
      var r, c :| 0 <= r < |out| && 0 <= c < |out[r]| && out[r][c] == k;
      assert g[r][c] in LabelSet(g);
      assert g[r][c] in regions && Rank(regions, g[r][c]) == k;
      assert Ranked(regions, k);
    }
    forall k | 1 <= k <= |regions| ensures k in Regions(out) {
      assert Ranked(regions, k);
      var l :| l in regions && Rank(regions, l) == k;
      RelabelKeepsArea(g, l);
    }
  }

  /** The whole cleanup of a watershed label grid: after small-region removal and
      relabelling, the regions are numbered 1..N and none has fewer than `minArea` cells. */
  lemma {:induction false} CleanupResult(g: Grid<nat>, minArea: nat)
    ensures var out := Relabel(WithoutSmall(g, minArea));
      && (forall k :: k in Regions(out) <==> 1 <= k <= |Regions(WithoutSmall(g, minArea))|)
      && (forall k :: k in Regions(out) ==> Area(out, k) >= minArea)
  {
    var mid := WithoutSmall(g, minArea);
    var out := Relabel(mid);
    RemovalKeepsLargeRegions(g, minArea);
    RelabelSequential(mid);
    RankImage(Regions(mid));
    forall k | k in Regions(out) ensures Area(out, k) >= minArea {
      var l :| l in Regions(mid) && Rank(Regions(mid), l) == k;
      RelabelKeepsArea(mid, l);
    }
  }
}
