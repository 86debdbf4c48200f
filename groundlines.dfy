/** Plot ground lines and the local-to-projected stem transform. Two versions exist:
    `find_ground_lines_improved` / `transform_trees_all` of peakfinder/pipeline.py, and
    `find_ground_lines` / `transform_trees_all` of peakfinder/modules/field_data.py; they
    pick different corners and treat a zero-length ground line differently. */
module GroundLines {
  import opened Buckets
  import opened HeightRaster

  /** A surveyed plot corner `(Parzelle, Nr, UTM_x, UTM_y)`. */
  datatype Corner = Corner(plot: int, nr: int, x: real, y: real)

  /** A stem in plot-local metres `(Parzelle, Nr, x, y, z)`. */
  datatype LocalTree = LocalTree(plot: int, nr: int, x: real, y: real, z: real)

  datatype Point = Point(x: real, y: real)

  /** `(lower_left, lower_right)` of one plot. */
  datatype GroundLine = GroundLine(ll: Point, lr: Point)

  /** A transformed stem `(Parzelle, Nr, utm_x, utm_y)`. */
  datatype Placed = Placed(plot: int, nr: int, x: Float, y: Float)

  // ---------------------------------------------------------------- grouping corners

  /** The corners of one plot, in input order. */
  function OfPlot(corners: seq<Corner>, plot: int): (pts: seq<Corner>)
    ensures |pts| <= |corners|
  {
    if corners == [] then []
    else
      var last := corners[|corners| - 1];
      OfPlot(corners[..|corners| - 1], plot) + (if last.plot == plot then [last] else [])
  }

  /** The plots in order of their first corner, as the keys of the `defaultdict`. */
  function Plots(corners: seq<Corner>): seq<int> {
    if corners == [] then []
    else
      var init := corners[..|corners| - 1];
      var last := corners[|corners| - 1];
      if last.plot in Plots(init) then Plots(init) else Plots(init) + [last.plot]
  }

  /** A plot is listed exactly when some corner carries its number, and is listed once. */
  lemma {:induction false} PlotsMembers(corners: seq<Corner>)
    ensures Seqs.Distinct(Plots(corners))
    ensures forall k :: k in Plots(corners) <==> exists p :: p in corners && p.plot == k
  {
    if corners != [] {
      var init := corners[..|corners| - 1];
      var last := corners[|corners| - 1];
      PlotsMembers(init);
      assert forall p :: p in corners <==> p in init || p == last;
    }
  }

  /** The corners of a plot are exactly the input corners with that plot number. */
  lemma {:induction false} OfPlotMembers(corners: seq<Corner>, plot: int)
    ensures forall p :: p in OfPlot(corners, plot) <==> p in corners && p.plot == plot
  {
    if corners != [] {
      var init := corners[..|corners| - 1];
      OfPlotMembers(init, plot);
      assert corners == init + [corners[|corners| - 1]];
    }
  }

  lemma PlotsSnoc(cs: seq<Corner>, c: Corner)
    ensures Plots(cs + [c]) == if c.plot in Plots(cs) then Plots(cs) else Plots(cs) + [c.plot]
  {
    assert (cs + [c])[..|cs|] == cs;
  }

  lemma OfPlotSnoc(cs: seq<Corner>, c: Corner, k: int)
    ensures OfPlot(cs + [c], k) == OfPlot(cs, k) + (if c.plot == k then [c] else [])
  {
    assert (cs + [c])[..|cs|] == cs;
  }

  /** Every plot with a corner has a non-empty group. */
  lemma OfPlotNonEmpty(corners: seq<Corner>, k: int)
    requires k in Plots(corners)
    ensures |OfPlot(corners, k)| >= 1
  {
    PlotsMembers(corners);
    var p :| p in corners && p.plot == k;
    OfPlotMembers(corners, k);
    assert p in OfPlot(corners, k);
  }

  /** `groups` holds the corners `cs` grouped by plot, plots in order of first corner. */
  ghost predicate GroupedFrom(groups: Buckets<int, Corner>, cs: seq<Corner>) {
    && Valid(groups)
    && groups.keys == Plots(cs)
    && forall k :: Get(groups, k) == OfPlot(cs, k)
  }

  /** The `defaultdict` after appending every corner in turn. */
  function GroupAll(cs: seq<Corner>): (groups: Buckets<int, Corner>)
    ensures Valid(groups)
  {
    if cs == [] then Empty()
    else Append(GroupAll(cs[..|cs| - 1]), cs[|cs| - 1].plot, cs[|cs| - 1])
  }

  lemma GroupAppendStep(groups: Buckets<int, Corner>, cs: seq<Corner>, c: Corner)
    requires GroupedFrom(groups, cs)
    ensures GroupedFrom(Append(groups, c.plot, c), cs + [c])
  {
    GroupKeysStep(groups, cs, c);
    forall k ensures Get(Append(groups, c.plot, c), k) == OfPlot(cs + [c], k) {
      GroupGetStep(groups, cs, c, k);
    }
  }

  lemma GroupKeysStep(groups: Buckets<int, Corner>, cs: seq<Corner>, c: Corner)
    requires Valid(groups) && groups.keys == Plots(cs)
    ensures Append(groups, c.plot, c).keys == Plots(cs + [c])
  {
    PlotsSnoc(cs, c);
    assert c.plot in groups.lists <==> c.plot in Plots(cs);
  }

  lemma GroupGetStep(groups: Buckets<int, Corner>, cs: seq<Corner>, c: Corner, k: int)
    requires Valid(groups) && Get(groups, k) == OfPlot(cs, k)
    ensures Get(Append(groups, c.plot, c), k) == OfPlot(cs + [c], k)
  {
    OfPlotSnoc(cs, c, k);
    if k != c.plot {
      GetAppendOther(groups, c.plot, c, k);
    }
  }

  /** Grouping lists the plots in order of first corner and keeps each plot's corners in order. */
  lemma {:induction false} GroupAllGroups(cs: seq<Corner>)
    ensures GroupedFrom(GroupAll(cs), cs)
  {
    if cs != [] {
      var init := cs[..|cs| - 1];
      GroupAllGroups(init);
      GroupAppendStep(GroupAll(init), init, cs[|cs| - 1]);
      Seqs.InitLast(cs);
    }
  }

  /** `for p in corner_points: parz[p[0]].append(p)`. */
  method GroupCorners(corners: seq<Corner>) returns (groups: Buckets<int, Corner>)
    ensures groups == GroupAll(corners)
    ensures Valid(groups)
    ensures groups.keys == Plots(corners)
    ensures forall k :: Get(groups, k) == OfPlot(corners, k)
  {
    groups := Empty();
    var i := 0;
    while i < |corners|
      invariant 0 <= i <= |corners| && groups == GroupAll(corners[..i])
    {
      assert corners[..i + 1][..i] == corners[..i];
      groups := Append(groups, corners[i].plot, corners[i]);
      i := i + 1;
    }
    assert corners[..i] == corners;
    GroupAllGroups(corners);
  }

  // ---------------------------------------------------------------- pipeline selection

  /** The key `(UTM_y, UTM_x)` of `sorted(pts, key=lambda r: (r[3], r[2]))`, as `<=`. */
  predicate YxLe(p: Corner, q: Corner) {
    p.y < q.y || (p.y == q.y && p.x <= q.x)
  }

  /** Indices below `hi` other than `skip` exist. */
  predicate HasCandidate(hi: nat, skip: int) {
    hi >= 2 || (hi == 1 && skip != 0)
  }

  /** The index a stable ascending sort by `(y, x)` puts first, among the indices below `hi`
      except `skip`: the smallest key, the earliest index among equal keys. */
  function FirstByYx(pts: seq<Corner>, skip: int, hi: nat): (i: nat)
    requires hi <= |pts| && HasCandidate(hi, skip)
    ensures i < hi && i != skip
    ensures forall j :: 0 <= j < hi && j != skip ==> YxLe(pts[i], pts[j])
    ensures forall j :: 0 <= j < i && j != skip ==> !YxLe(pts[j], pts[i])
  {
    var last := hi - 1;
    if !HasCandidate(last, skip) then
      last
    else
      var i := FirstByYx(pts, skip, last);
      if last != skip && !YxLe(pts[i], pts[last]) then last else i
  }

  /** `low2 = sorted(sorted(pts, key=(y, x))[:2], key=x)`: the two lowest corners,
      reordered by `x` (stably). */
  function LowestPair(pts: seq<Corner>): (line: GroundLine)
    requires |pts| >= 2
  {
    var i := FirstByYx(pts, -1, |pts|);
    var j := FirstByYx(pts, i, |pts|);
    var a := Point(pts[i].x, pts[i].y);
    var b := Point(pts[j].x, pts[j].y);
    if b.x < a.x then GroundLine(b, a) else GroundLine(a, b)
  }

  /** The line's ends are two different corners: the first under the `(y, x)` order and the
      first of the others; they are ordered left to right. */
  lemma LowestPairSpec(pts: seq<Corner>)
    requires |pts| >= 2
    ensures var line := LowestPair(pts);
      && line.ll.x <= line.lr.x
      && exists i, j :: (0 <= i < |pts| && 0 <= j < |pts| && i != j
        && {line.ll, line.lr} == {Point(pts[i].x, pts[i].y), Point(pts[j].x, pts[j].y)}
        && (forall k :: 0 <= k < |pts| ==> YxLe(pts[i], pts[k]))
        && (forall k :: 0 <= k < |pts| && k != i ==> YxLe(pts[j], pts[k])))
  {
    var i := FirstByYx(pts, -1, |pts|);
    var j := FirstByYx(pts, i, |pts|);
    var line := LowestPair(pts);
    assert {line.ll, line.lr} == {Point(pts[i].x, pts[i].y), Point(pts[j].x, pts[j].y)};
  }

  /** The ground lines `find_ground_lines_improved` builds for the plots `plots` (in that
      order): plots with fewer than two corners are skipped. */
  function ImprovedLines(corners: seq<Corner>, plots: seq<int>): seq<(int, GroundLine)> {
    if plots == [] then []
    else
      var init := ImprovedLines(corners, plots[..|plots| - 1]);
      var k := plots[|plots| - 1];
      var pts := OfPlot(corners, k);
      if |pts| < 2 then init else init + [(k, LowestPair(pts))]
  }

  /** Each ground line belongs to a listed plot with at least two corners and joins its two
      lowest corners. */
  lemma {:induction false} ImprovedLinesSound(corners: seq<Corner>, plots: seq<int>, i: nat)
    requires i < |ImprovedLines(corners, plots)|
    ensures var e := ImprovedLines(corners, plots)[i];
      e.0 in plots && |OfPlot(corners, e.0)| >= 2 && e.1 == LowestPair(OfPlot(corners, e.0))
  {
    var init := plots[..|plots| - 1];
    var k := plots[|plots| - 1];
    var prev := ImprovedLines(corners, init);
    if i < |prev| {
      ImprovedLinesSound(corners, init, i);
      assert prev[i].0 in init;
    }
  }

  lemma ImprovedStep(corners: seq<Corner>, plots: seq<int>, i: nat)
    requires i < |plots|
    ensures ImprovedLines(corners, plots[..i + 1]) == ImprovedLines(corners, plots[..i])
      + (if |OfPlot(corners, plots[i])| < 2 then [] else [(plots[i], LowestPair(OfPlot(corners, plots[i])))])
  {
    assert plots[..i + 1][..i] == plots[..i];
  }

  /** `find_ground_lines_improved`. */
  method FindGroundLinesImproved(corners: seq<Corner>) returns (lines: seq<(int, GroundLine)>)
    ensures lines == ImprovedLines(corners, Plots(corners))
  {
    var groups := GroupCorners(corners);
    ghost var plots := Plots(corners);
    lines := [];
    var i := 0;
    while i < |groups.keys|
      invariant 0 <= i <= |plots| == |groups.keys|
      invariant lines == ImprovedLines(corners, plots[..i])
    {
      ImprovedStep(corners, plots, i);
      var k := groups.keys[i];
      var pts := Get(groups, k);
      assert pts == OfPlot(corners, plots[i]);
      if |pts| >= 2 {
        lines := lines + [(k, LowestPair(pts))];
      }
      i := i + 1;
    }
    Seqs.TakeAll(plots);
  }

  /** Every plot with at least two corners gets a ground line, and no plot gets two. */
  lemma {:induction false} ImprovedLinesComplete(corners: seq<Corner>, plots: seq<int>, k: int)
    requires Seqs.Distinct(plots)
    ensures k in plots && |OfPlot(corners, k)| >= 2 ==>
      exists i :: 0 <= i < |ImprovedLines(corners, plots)| && ImprovedLines(corners, plots)[i].0 == k
    ensures forall i, j :: 0 <= i < j < |ImprovedLines(corners, plots)| ==>
      ImprovedLines(corners, plots)[i].0 != ImprovedLines(corners, plots)[j].0
  {
    if plots != [] {
      var n := |plots| - 1;
      var init := plots[..n];
      var lines := ImprovedLines(corners, plots);
      var prev := ImprovedLines(corners, init);
      ImprovedLinesComplete(corners, init, k);
      assert forall x :: x in plots <==> x in init || x == plots[n];
      assert plots[n] !in init;
      forall i | 0 <= i < |prev| ensures prev[i].0 in init {
        ImprovedLinesSound(corners, init, i);
      }
      assert forall i :: 0 <= i < |prev| ==> lines[i] == prev[i];
      if k == plots[n] && |OfPlot(corners, k)| >= 2 {
        assert lines[|prev|].0 == k;
      }
    }
  }

  // ---------------------------------------------------------------- field_data selection

  /** `sorted(points, key=lambda p: p[3])[0]`: the first corner of minimal `UTM_y`. */
  function FirstLowest(pts: seq<Corner>): (i: nat)
    requires |pts| >= 1
    ensures i < |pts|
  {
    if |pts| == 1 then 0
    else
      var i := FirstLowest(pts[..|pts| - 1]);
      if pts[|pts| - 1].y < pts[i].y then |pts| - 1 else i
  }

  /** No corner lies lower than the chosen one, and every corner before it lies higher: the
      stable sort puts the first of the lowest corners first. */
  lemma {:induction false} FirstLowestSpec(pts: seq<Corner>)
    requires |pts| >= 1
    ensures forall j :: 0 <= j < |pts| ==> pts[FirstLowest(pts)].y <= pts[j].y
    ensures forall j :: 0 <= j < FirstLowest(pts) ==> pts[j].y > pts[FirstLowest(pts)].y
  {
    if |pts| > 1 {
      var init := pts[..|pts| - 1];
      FirstLowestSpec(init);
      assert forall j :: 0 <= j < |init| ==> init[j] == pts[j];
    }
  }

  /** `max(points, key=lambda p: p[2])`: the first corner of maximal `UTM_x`. */
  function FirstRightmost(pts: seq<Corner>): (i: nat)
    requires |pts| >= 1
    ensures i < |pts|
  {
    if |pts| == 1 then 0
    else
      var i := FirstRightmost(pts[..|pts| - 1]);
      if pts[|pts| - 1].x > pts[i].x then |pts| - 1 else i
  }

  /** No corner lies further right than the chosen one, and every corner before it lies
      further left: `max` keeps the first of the maximal corners. */
  lemma {:induction false} FirstRightmostSpec(pts: seq<Corner>)
    requires |pts| >= 1
    ensures forall j :: 0 <= j < |pts| ==> pts[j].x <= pts[FirstRightmost(pts)].x
    ensures forall j :: 0 <= j < FirstRightmost(pts) ==> pts[j].x < pts[FirstRightmost(pts)].x
  {
    if |pts| > 1 {
      var init := pts[..|pts| - 1];
      FirstRightmostSpec(init);
      assert forall j :: 0 <= j < |init| ==> init[j] == pts[j];
    }
  }

  function LowestAndRightmost(pts: seq<Corner>): (line: GroundLine)
    requires |pts| >= 1
  {
    var l := pts[FirstLowest(pts)];
    var r := pts[FirstRightmost(pts)];
    GroundLine(Point(l.x, l.y), Point(r.x, r.y))
  }

  /** The line of `find_ground_lines` runs from the first lowest corner to the first
      rightmost one. */
  lemma LowestAndRightmostSpec(pts: seq<Corner>)
    requires |pts| >= 1
    ensures var line := LowestAndRightmost(pts);
      && (exists i :: 0 <= i < |pts| && line.ll == Point(pts[i].x, pts[i].y)
            && (forall j :: 0 <= j < |pts| ==> pts[i].y <= pts[j].y)
            && (forall j :: 0 <= j < i ==> pts[j].y > pts[i].y))
      && (exists i :: 0 <= i < |pts| && line.lr == Point(pts[i].x, pts[i].y)
            && (forall j :: 0 <= j < |pts| ==> pts[j].x <= pts[i].x)
            && (forall j :: 0 <= j < i ==> pts[j].x < pts[i].x))
  {
    FirstLowestSpec(pts);
    FirstRightmostSpec(pts);
    var line, l, r := LowestAndRightmost(pts), FirstLowest(pts), FirstRightmost(pts);
    assert line.ll == Point(pts[l].x, pts[l].y) && line.lr == Point(pts[r].x, pts[r].y);
  }

  /** A plot with a single corner gets a line whose two ends coincide. */
  lemma SingleCornerLine(c: Corner)
    ensures LowestAndRightmost([c]).ll == LowestAndRightmost([c]).lr == Point(c.x, c.y)
  {
  }

  /** Every plot with a corner gets its line. */
  lemma PlotsHaveCorners(corners: seq<Corner>)
    ensures forall i :: 0 <= i < |Plots(corners)| ==> |OfPlot(corners, Plots(corners)[i])| >= 1
  {
    var plots := Plots(corners);
    forall i | 0 <= i < |plots| ensures |OfPlot(corners, plots[i])| >= 1 {
      OfPlotNonEmpty(corners, plots[i]);
    }
  }

  /** `lines` holds the lines of the first `i` plots of `plots`: each plot with its lowest
      and rightmost corners. */
  ghost predicate LinesUpTo(corners: seq<Corner>, plots: seq<int>, lines: seq<(int, GroundLine)>, i: nat) {
    && |lines| == i <= |plots|
    && forall l :: 0 <= l < i ==>
         && |OfPlot(corners, plots[l])| >= 1
         && lines[l] == (plots[l], LowestAndRightmost(OfPlot(corners, plots[l])))
  }

  lemma LinesStep(corners: seq<Corner>, plots: seq<int>, lines: seq<(int, GroundLine)>, i: nat)
    requires LinesUpTo(corners, plots, lines, i) && i < |plots| && |OfPlot(corners, plots[i])| >= 1
    ensures LinesUpTo(corners, plots, lines + [(plots[i], LowestAndRightmost(OfPlot(corners, plots[i])))], i + 1)
  {
  }

  /** `find_ground_lines` of field_data.py: one line per plot, whatever its corner count, in
      order of first corner, from the plot's lowest corner to its rightmost one. */
  method FindGroundLines(corners: seq<Corner>) returns (lines: seq<(int, GroundLine)>)
    ensures |lines| == |Plots(corners)|
    ensures forall i :: 0 <= i < |lines| ==>
              && lines[i].0 == Plots(corners)[i]
              && |OfPlot(corners, lines[i].0)| >= 1
              && lines[i].1 == LowestAndRightmost(OfPlot(corners, lines[i].0))
  {
    PlotsHaveCorners(corners);
    var groups := GroupCorners(corners);
    ghost var plots := Plots(corners);
    lines := [];
    var i := 0;
    while i < |groups.keys|
      invariant 0 <= i <= |plots| == |groups.keys|
      invariant LinesUpTo(corners, plots, lines, i)
    {
      var k := groups.keys[i];
      var pts := Get(groups, k);
      assert pts == OfPlot(corners, plots[i]);
      LinesStep(corners, plots, lines, i);
      lines := lines + [(k, LowestAndRightmost(pts))];
      i := i + 1;
    }
  }

  // ---------------------------------------------------------------- transform

  /** `np.linalg.norm` as a given function: non-negative, zero only for the zero vector,
      and dividing a non-zero vector by it gives a unit vector. */
  ghost predicate IsNorm(norm: (real, real) -> real) {
    forall a, b :: Unit(a, b, norm(a, b))
  }

  ghost predicate Unit(a: real, b: real, len: real) {
    && len >= 0.0
    && (len == 0.0 <==> a == 0.0 && b == 0.0)
    && (len != 0.0 ==> (a / len) * (a / len) + (b / len) * (b / len) == 1.0)
  }

  /** A plot's frame: `ll + x * ug + y * perp` with `ug = gv / |gv|` and `perp = (-ug.y, ug.x)`. */
  function Place(line: GroundLine, len: real, x: real, y: real): (p: Point)
    requires len != 0.0
  {
    var ux := (line.lr.x - line.ll.x) / len;
    var uy := (line.lr.y - line.ll.y) / len;
    Point(line.ll.x + x * ux + y * -uy, line.ll.y + x * uy + y * ux)
  }

  /** Local (0, 0) is the lower-left corner, and local (|gv|, 0) the lower-right one. */
  lemma {:induction false} PlaceEnds(line: GroundLine, len: real)
    requires len != 0.0
    ensures Place(line, len, 0.0, 0.0) == line.ll
    ensures Place(line, len, len, 0.0) == line.lr
  {
    var ux := (line.lr.x - line.ll.x) / len;
    var uy := (line.lr.y - line.ll.y) / len;
    assert len * ux == line.lr.x - line.ll.x;
    assert len * uy == line.lr.y - line.ll.y;
  }

  /** Rotating by a unit vector keeps squared lengths. */
  lemma {:induction false} RotationKeepsLength(dx: real, dy: real, ux: real, uy: real)
    requires ux * ux + uy * uy == 1.0
    ensures (dx * ux - dy * uy) * (dx * ux - dy * uy) + (dx * uy + dy * ux) * (dx * uy + dy * ux) == dx * dx + dy * dy
  {
    assert (dx * ux - dy * uy) * (dx * ux - dy * uy) + (dx * uy + dy * ux) * (dx * uy + dy * ux)
        == (dx * dx + dy * dy) * (ux * ux + uy * uy);
  }

  /** The frame with origin (`ox`, `oy`) and unit direction (`ux`, `uy`) keeps squared
      distances. */
  lemma FrameIsometry(ox: real, oy: real, ux: real, uy: real, x1: real, y1: real, x2: real, y2: real)
    requires ux * ux + uy * uy == 1.0
    ensures var dx := (ox + x1 * ux + y1 * -uy) - (ox + x2 * ux + y2 * -uy);
            var dy := (oy + x1 * uy + y1 * ux) - (oy + x2 * uy + y2 * ux);
            dx * dx + dy * dy == (x1 - x2) * (x1 - x2) + (y1 - y2) * (y1 - y2)
  {
    PlaceDifference(ox, oy, ux, uy, x1, y1, x2, y2);
    RotationKeepsLength(x1 - x2, y1 - y2, ux, uy);
  }

  lemma PlaceDifference(ox: real, oy: real, ux: real, uy: real, x1: real, y1: real, x2: real, y2: real)
    ensures (ox + x1 * ux + y1 * -uy) - (ox + x2 * ux + y2 * -uy) == (x1 - x2) * ux - (y1 - y2) * uy
    ensures (oy + x1 * uy + y1 * ux) - (oy + x2 * uy + y2 * ux) == (x1 - x2) * uy + (y1 - y2) * ux
  {
  }

  /** Under a true norm, a line has zero length exactly when its two ends coincide. */
  lemma LengthZeroIff(line: GroundLine, norm: (real, real) -> real)
    requires IsNorm(norm)
    ensures Length(line, norm) == 0.0 <==> line.ll == line.lr
  {
    assert Unit(line.lr.x - line.ll.x, line.lr.y - line.ll.y, Length(line, norm));
  }

  /** Under a true norm the frame of a line of non-zero length is a rigid motion: squared
      distances between local points are kept. */
  lemma PlaceIsometry(line: GroundLine, norm: (real, real) -> real, x1: real, y1: real, x2: real, y2: real)
    requires IsNorm(norm) && Length(line, norm) != 0.0
    ensures var p := Place(line, Length(line, norm), x1, y1);
            var q := Place(line, Length(line, norm), x2, y2);
            (p.x - q.x) * (p.x - q.x) + (p.y - q.y) * (p.y - q.y) == (x1 - x2) * (x1 - x2) + (y1 - y2) * (y1 - y2)
  {
    var a := line.lr.x - line.ll.x;
    var b := line.lr.y - line.ll.y;
    var len := Length(line, norm);
    assert Unit(a, b, len);
    FrameIsometry(line.ll.x, line.ll.y, a / len, b / len, x1, y1, x2, y2);
  }

  /** The trees of one plot, in input order. */
  function TreesOf(trees: seq<LocalTree>, plot: int): (pts: seq<LocalTree>)
    ensures forall t :: t in pts <==> t in trees && t.plot == plot
  {
    if trees == [] then []
    else
      var last := trees[|trees| - 1];
      TreesOf(trees[..|trees| - 1], plot) + (if last.plot == plot then [last] else [])
  }

  function Length(line: GroundLine, norm: (real, real) -> real): real {
    norm(line.lr.x - line.ll.x, line.lr.y - line.ll.y)
  }

  /** One stem in its plot's frame; with a zero-length line the division yields NaN
      coordinates (field_data.py has no guard). */
  function PlaceTree(t: LocalTree, line: GroundLine, len: real): (p: Placed)
    ensures p.plot == t.plot && p.nr == t.nr
    ensures len == 0.0 ==> p.x == NaN && p.y == NaN
    ensures len != 0.0 ==> p.x == Num(Place(line, len, t.x, t.y).x) && p.y == Num(Place(line, len, t.x, t.y).y)
  {
    if len == 0.0 then Placed(t.plot, t.nr, NaN, NaN)
    else
      var q := Place(line, len, t.x, t.y);
      Placed(t.plot, t.nr, Num(q.x), Num(q.y))
  }

  /** The stems of one plot in its frame, in order. */
  function PlaceAll(pts: seq<LocalTree>, line: GroundLine, len: real): (out: seq<Placed>)
    ensures |out| == |pts|
    ensures forall i :: 0 <= i < |pts| ==> out[i] == PlaceTree(pts[i], line, len)
  {
    if pts == [] then [] else PlaceAll(pts[..|pts| - 1], line, len) + [PlaceTree(pts[|pts| - 1], line, len)]
  }

  /** What `transform_trees_all` emits for the lines `lines`, in order; `guarded` is the
      zero-length check of pipeline.py, absent from field_data.py. */
  function Transformed(trees: seq<LocalTree>, lines: seq<(int, GroundLine)>, norm: (real, real) -> real,
                       guarded: bool): seq<Placed> {
    if lines == [] then []
    else Transformed(trees, lines[..|lines| - 1], norm, guarded) + PlotStems(trees, lines[|lines| - 1], norm, guarded)
  }

  /** What `transform_trees_all` emits for the one plot line `e`. */
  function PlotStems(trees: seq<LocalTree>, e: (int, GroundLine), norm: (real, real) -> real, guarded: bool): seq<Placed> {
    var len := Length(e.1, norm);
    if guarded && len == 0.0 then [] else PlaceAll(TreesOf(trees, e.0), e.1, len)
  }

  /** The inner loop of `transform_trees_all`: the stems of one plot in its frame. */
  method PlacePlot(pts: seq<LocalTree>, line: GroundLine, len: real) returns (placed: seq<Placed>)
    ensures placed == PlaceAll(pts, line, len)
  {
    placed := [];
    var j := 0;
    while j < |pts|
      invariant 0 <= j <= |pts|
      invariant placed == PlaceAll(pts[..j], line, len)
    {
      assert pts[..j + 1][..j] == pts[..j];
      placed := placed + [PlaceTree(pts[j], line, len)];
      j := j + 1;
    }
    assert pts[..j] == pts;
  }

  /** One pass of the outer loop of `transform_trees_all`: the stems of plot `e.0`, skipped
      for a zero-length line when `guarded`. */
  method TransformPlot(trees: seq<LocalTree>, e: (int, GroundLine), norm: (real, real) -> real,
                       guarded: bool) returns (here: seq<Placed>)
    ensures here == PlotStems(trees, e, norm, guarded)
  {
    var (k, line) := e;
    var len := Length(line, norm);
    here := [];
    if !(guarded && len == 0.0) {
      here := PlacePlot(TreesOf(trees, k), line, len);
    }
  }

  /** `transform_trees_all`, both versions. */
  method TransformTreesAll(trees: seq<LocalTree>, lines: seq<(int, GroundLine)>, norm: (real, real) -> real,
                           guarded: bool) returns (out: seq<Placed>)
    ensures out == Transformed(trees, lines, norm, guarded)
  {
    out := [];
    var i := 0;
    while i < |lines|
      invariant 0 <= i <= |lines|
      invariant out == Transformed(trees, lines[..i], norm, guarded)
    {
      assert lines[..i + 1][..i] == lines[..i];
      var here := TransformPlot(trees, lines[i], norm, guarded);
      assert Transformed(trees, lines[..i + 1], norm, guarded) == Transformed(trees, lines[..i], norm, guarded) + here;
      out := out + here;
      i := i + 1;
    }
    assert lines[..i] == lines;
  }

  lemma PlaceAllMembers(pts: seq<LocalTree>, line: GroundLine, len: real, p: Placed)
    ensures p in PlaceAll(pts, line, len) <==> exists t :: t in pts && p == PlaceTree(t, line, len)
  {
    var out := PlaceAll(pts, line, len);
    if p in out {
      var m :| 0 <= m < |out| && out[m] == p;
      assert pts[m] in pts;
    }
    if exists t :: t in pts && p == PlaceTree(t, line, len) {
      var t :| t in pts && p == PlaceTree(t, line, len);
      var m :| 0 <= m < |pts| && pts[m] == t;
      assert out[m] == p;
    }
  }

  /** `p` is what the line entry `e` makes of one stem of its plot. */
  ghost predicate EmittedBy(trees: seq<LocalTree>, e: (int, GroundLine), norm: (real, real) -> real, guarded: bool, p: Placed) {
    var len := Length(e.1, norm);
    !(guarded && len == 0.0) && exists t :: t in trees && t.plot == e.0 && p == PlaceTree(t, e.1, len)
  }

  /** The stems `transform_trees_all` emits: with the guard, exactly the stems of plots with a
      line of non-zero length, each with its ids; without it, the stems of every plot with a
      line, at NaN where the line has zero length. */
  lemma {:induction false} TransformedStems(trees: seq<LocalTree>, lines: seq<(int, GroundLine)>,
                                            norm: (real, real) -> real, guarded: bool, p: Placed)
    ensures p in Transformed(trees, lines, norm, guarded) <==>
      exists i :: 0 <= i < |lines| && EmittedBy(trees, lines[i], norm, guarded, p)
  {
    if lines != [] {
      var n := |lines| - 1;
      var init := lines[..n];
      var e := lines[n];
      var len := Length(e.1, norm);
      TransformedStems(trees, init, norm, guarded, p);
      assert Transformed(trees, lines, norm, guarded) == Transformed(trees, init, norm, guarded) + PlotStems(trees, e, norm, guarded);
      PlaceAllMembers(TreesOf(trees, e.0), e.1, len, p);
      EmittedAtEnd(trees, lines, init, norm, guarded, p);
    }
  }

  lemma EmittedAtEnd(trees: seq<LocalTree>, lines: seq<(int, GroundLine)>, init: seq<(int, GroundLine)>,
                     norm: (real, real) -> real, guarded: bool, p: Placed)
    requires lines != [] && init == lines[..|lines| - 1]
    ensures (exists i :: 0 <= i < |lines| && EmittedBy(trees, lines[i], norm, guarded, p)) <==>
      (exists i :: 0 <= i < |init| && EmittedBy(trees, init[i], norm, guarded, p))
      || EmittedBy(trees, lines[|lines| - 1], norm, guarded, p)
  {
    if exists i :: 0 <= i < |lines| && EmittedBy(trees, lines[i], norm, guarded, p) {
      var i :| 0 <= i < |lines| && EmittedBy(trees, lines[i], norm, guarded, p);
      if i < |init| {
        assert init[i] == lines[i];
      }
    }
    if exists i :: 0 <= i < |init| && EmittedBy(trees, init[i], norm, guarded, p) {
      var i :| 0 <= i < |init| && EmittedBy(trees, init[i], norm, guarded, p);
      assert init[i] == lines[i];
    }
  }
}
