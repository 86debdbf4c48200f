/** Matching surveyed stems to crown segments: `segment_match_stems` of the pipeline and
    `match_and_visualize_updated2` with its older variants `match_and_visualize`,
    `match_and_visualize_all` and `match_and_visualize_updated`.

    Every stem is located on the label grid and bucketed by the segment under it, every
    treetop likewise; a segment holding exactly one stem and one treetop is a match whose
    height is the highest nDSM cell of the whole segment. */
module SegmentMatch {
  import opened Outcomes
  import opened Grids
  import Seqs
  import Buckets

  /** A surveyed stem: plot ("Parzelle"), tree number ("Nr") and map position. */
  datatype Stem = Stem(plot: int, nr: int, x: real, y: real)

  /** A stem with the pixel `rasterio.transform.rowcol` gives for its position. */
  datatype Located = Located(stem: Stem, row: int, col: int)

  /** The `match` column: 0 = ambiguous, 1 = matched, 2 = no segment. */
  datatype MatchClass = Ambiguous | Matched | NoSegment

  function Code(m: MatchClass): (code: int)
    ensures 0 <= code <= 2
    ensures code == 1 <==> m == Matched
    ensures code == 2 <==> m == NoSegment
  {
    match m
    case Ambiguous => 0
    case Matched => 1
    case NoSegment => 2
  }

  /** One row of the matcher's result: the stem, its treetop and segment height (both
      `None` unless matched) and the match class. */
  datatype Record = Record(plot: int, nr: int, stemX: real, stemY: real,
                           top: Option<(real, real)>, height: Option<real>, kind: MatchClass)

  /** A row of the older matchers, which return matched stems only. */
  datatype Pair = Pair(plot: int, nr: int, stemX: real, stemY: real, top: (real, real), height: real)

  /** The label grid, the nDSM it was segmented from, and their shared transform. */
  datatype Scene = Scene(labels: Grid<int>, ndsm: Grid<real>, t: Affine)

  ghost predicate WellFormed(sc: Scene) {
    && Rectangular(sc.labels)
    && Shaped(sc.ndsm, |sc.labels|, Width(sc.labels))
    && ValidAffine(sc.t)
  }

  /** `rasterio.transform.rowcol(transform, x, y)` of every stem (`stem_coords_pixel`). */
  function LocateAll(t: Affine, stems: seq<Stem>): (r: seq<Located>)
    requires ValidAffine(t)
    ensures |r| == |stems|
    ensures forall i :: 0 <= i < |stems| ==> r[i].stem == stems[i]
    ensures forall i :: 0 <= i < |stems| ==> (r[i].row, r[i].col) == RowCol(t, stems[i].x, stems[i].y)
  {
    if stems == [] then []
    else [Located(stems[0], RowCol(t, stems[0].x, stems[0].y).0, RowCol(t, stems[0].x, stems[0].y).1)]
         + LocateAll(t, stems[1..])
  }

  predicate OnGrid(sc: Scene, s: Located) {
    InGrid(sc.labels, s.row, s.col)
  }

  /** The label under the stem; 0 when its pixel is off the grid. */
  function SegmentOf(sc: Scene, s: Located): int {
    At(sc.labels, s.row, s.col, 0)
  }

  /** The label under a treetop; 0 when it is off the grid. */
  function PeakSegment(sc: Scene, p: (int, int)): int {
    At(sc.labels, p.0, p.1, 0)
  }

  /** The stems of `xs` bucketed under segment `sid`, in input order. */
  function StemsIn(sc: Scene, xs: seq<Located>, sid: int): (r: seq<Located>)
    ensures |r| <= |xs|
  {
    if xs == [] then []
    else
      StemsIn(sc, xs[..|xs| - 1], sid) + (if SegmentOf(sc, xs[|xs| - 1]) == sid then [xs[|xs| - 1]] else [])
  }

  /** The stems of `xs` off the grid or on a label that is not positive, in input order. */
  function Unsegmented(sc: Scene, xs: seq<Located>): (r: seq<Located>)
  {
    if xs == [] then []
    else
      Unsegmented(sc, xs[..|xs| - 1]) + (if SegmentOf(sc, xs[|xs| - 1]) <= 0 then [xs[|xs| - 1]] else [])
  }

  /** The stems of `xs` inside the grid on a label that is not positive, in input order. */
  function Ungrouped(sc: Scene, xs: seq<Located>): (r: seq<Located>)
  {
    if xs == [] then []
    else
      var x := xs[|xs| - 1];
      Ungrouped(sc, xs[..|xs| - 1]) + (if OnGrid(sc, x) && SegmentOf(sc, x) <= 0 then [x] else [])
  }

  /** The stems of `xs` whose pixel is inside the grid, in input order. */
  function OnGridStems(sc: Scene, xs: seq<Located>): (r: seq<Located>)
    ensures |r| <= |xs|
  {
    if xs == [] then []
    else
      OnGridStems(sc, xs[..|xs| - 1]) + (if OnGrid(sc, xs[|xs| - 1]) then [xs[|xs| - 1]] else [])
  }

  /** The treetops of `ps` bucketed under segment `sid`, in input order. */
  function PeaksIn(sc: Scene, ps: seq<(int, int)>, sid: int): (r: seq<(int, int)>)
    ensures |r| <= |ps|
  {
    if ps == [] then []
    else
      PeaksIn(sc, ps[..|ps| - 1], sid) + (if PeakSegment(sc, ps[|ps| - 1]) == sid then [ps[|ps| - 1]] else [])
  }

  /** The treetops of `ps` on a label that is not positive (`unmatched_tops`). */
  function UnsegmentedPeaks(sc: Scene, ps: seq<(int, int)>): (r: seq<(int, int)>)
  {
    if ps == [] then []
    else
      UnsegmentedPeaks(sc, ps[..|ps| - 1]) + (if PeakSegment(sc, ps[|ps| - 1]) <= 0 then [ps[|ps| - 1]] else [])
  }

  /** Each filter keeps exactly the elements of its input that satisfy its test. */
  lemma {:induction false} StemsInMembers(sc: Scene, xs: seq<Located>, sid: int)
    ensures forall x :: x in StemsIn(sc, xs, sid) <==> x in xs && SegmentOf(sc, x) == sid
  {
    if xs != [] {
      var init := xs[..|xs| - 1];
      StemsInMembers(sc, init, sid);
      assert xs == init + [xs[|xs| - 1]];
    }
  }

  lemma {:induction false} UnsegmentedMembers(sc: Scene, xs: seq<Located>)
    ensures forall x :: x in Unsegmented(sc, xs) <==> x in xs && SegmentOf(sc, x) <= 0
  {
    if xs != [] {
      var init := xs[..|xs| - 1];
      UnsegmentedMembers(sc, init);
      assert xs == init + [xs[|xs| - 1]];
    }
  }

  lemma {:induction false} UngroupedMembers(sc: Scene, xs: seq<Located>)
    ensures forall x :: x in Ungrouped(sc, xs) <==> x in xs && OnGrid(sc, x) && SegmentOf(sc, x) <= 0
  {
    if xs != [] {
      var init := xs[..|xs| - 1];
      UngroupedMembers(sc, init);
      assert xs == init + [xs[|xs| - 1]];
    }
  }

  lemma {:induction false} OnGridStemsMembers(sc: Scene, xs: seq<Located>)
    ensures forall x :: x in OnGridStems(sc, xs) <==> x in xs && OnGrid(sc, x)
  {
    if xs != [] {
      var init := xs[..|xs| - 1];
      OnGridStemsMembers(sc, init);
      assert xs == init + [xs[|xs| - 1]];
    }
  }

  lemma {:induction false} PeaksInMembers(sc: Scene, ps: seq<(int, int)>, sid: int)
    ensures forall p :: p in PeaksIn(sc, ps, sid) <==> p in ps && PeakSegment(sc, p) == sid
  {
    if ps != [] {
      var init := ps[..|ps| - 1];
      PeaksInMembers(sc, init, sid);
      assert ps == init + [ps[|ps| - 1]];
    }
  }

  lemma {:induction false} UnsegmentedPeaksMembers(sc: Scene, ps: seq<(int, int)>)
    ensures forall p :: p in UnsegmentedPeaks(sc, ps) <==> p in ps && PeakSegment(sc, p) <= 0
  {
    if ps != [] {
      var init := ps[..|ps| - 1];
      UnsegmentedPeaksMembers(sc, init);
      assert ps == init + [ps[|ps| - 1]];
    }
  }

  lemma StemsInSnoc(sc: Scene, xs: seq<Located>, x: Located, sid: int)
    ensures StemsIn(sc, xs + [x], sid) == StemsIn(sc, xs, sid) + (if SegmentOf(sc, x) == sid then [x] else [])
  {
    assert (xs + [x])[..|xs|] == xs;
  }

  lemma UnsegmentedSnoc(sc: Scene, xs: seq<Located>, x: Located)
    ensures Unsegmented(sc, xs + [x]) == Unsegmented(sc, xs) + (if SegmentOf(sc, x) <= 0 then [x] else [])
  {
    assert (xs + [x])[..|xs|] == xs;
  }

  lemma OnGridSnoc(sc: Scene, xs: seq<Located>, x: Located)
    ensures Ungrouped(sc, xs + [x]) == Ungrouped(sc, xs) + (if OnGrid(sc, x) && SegmentOf(sc, x) <= 0 then [x] else [])
    ensures OnGridStems(sc, xs + [x]) == OnGridStems(sc, xs) + (if OnGrid(sc, x) then [x] else [])
  {
    assert (xs + [x])[..|xs|] == xs;
  }

  lemma PeaksInSnoc(sc: Scene, ps: seq<(int, int)>, p: (int, int), sid: int)
    ensures PeaksIn(sc, ps + [p], sid) == PeaksIn(sc, ps, sid) + (if PeakSegment(sc, p) == sid then [p] else [])
  {
    assert (ps + [p])[..|ps|] == ps;
  }

  lemma UnsegmentedPeaksSnoc(sc: Scene, ps: seq<(int, int)>, p: (int, int))
    ensures UnsegmentedPeaks(sc, ps + [p]) == UnsegmentedPeaks(sc, ps) + (if PeakSegment(sc, p) <= 0 then [p] else [])
  {
    assert (ps + [p])[..|ps|] == ps;
  }

  /** Two stems at different positions of `xs` in segment `sid` make its bucket hold at least two. */
  lemma {:induction false} TwoInBucket(sc: Scene, xs: seq<Located>, sid: int, i: nat, j: nat)
    requires i < j < |xs| && SegmentOf(sc, xs[i]) == sid && SegmentOf(sc, xs[j]) == sid
    ensures |StemsIn(sc, xs, sid)| >= 2
  {
    var init := xs[..|xs| - 1];
    assert xs == init + [xs[|xs| - 1]];
    StemsInSnoc(sc, init, xs[|xs| - 1], sid);
    if j == |xs| - 1 {
      assert xs[i] == init[i];
      StemsInMembers(sc, init, sid);
      assert xs[i] in StemsIn(sc, init, sid);
    } else {
      assert xs[i] == init[i] && xs[j] == init[j];
      TwoInBucket(sc, init, sid, i, j);
    }
  }

  /** Cell `(r, c)` belongs to segment `sid`. */
  ghost predicate InRegion(sc: Scene, sid: int, r: int, c: int) {
    InGrid(sc.labels, r, c) && sc.labels[r][c] == sid
  }

  /** `(r, c)` comes strictly before `(r', c')` in row-major order. */
  predicate Earlier(r: int, c: int, r': int, c': int) {
    r < r' || (r == r' && c < c')
  }

  /** The first column among `0 .. m-1` of row `r` holding the highest nDSM value of
      segment `sid` in that range. */
  function RowArgMax(sc: Scene, sid: int, r: nat, m: nat): (b: Option<nat>)
    requires WellFormed(sc) && r < |sc.labels| && m <= Width(sc.labels)
    ensures b.None? <==> forall c :: 0 <= c < m ==> sc.labels[r][c] != sid
    ensures b.Some? ==> b.value < m && sc.labels[r][b.value] == sid
    ensures b.Some? ==> forall c :: 0 <= c < m && sc.labels[r][c] == sid ==> sc.ndsm[r][c] <= sc.ndsm[r][b.value]
    ensures b.Some? ==> forall c :: 0 <= c < b.value && sc.labels[r][c] == sid ==> sc.ndsm[r][c] < sc.ndsm[r][b.value]
  {
    if m == 0 then None
    else
      var b := RowArgMax(sc, sid, r, m - 1);
      if sc.labels[r][m - 1] != sid then b
      else if b.None? || sc.ndsm[r][m - 1] > sc.ndsm[r][b.value] then Some(m - 1)
      else b
  }

  /** `np.unravel_index(np.argmax(np.where(labels == sid, ndsm, -inf)))` restricted to the
      first `n` rows: the first cell of the segment, in row-major order, holding its
      highest nDSM value. */
  function RegionArgMax(sc: Scene, sid: int, n: nat): (b: Option<(int, int)>)
    requires WellFormed(sc) && n <= |sc.labels|
    ensures b.None? <==> forall r, c :: 0 <= r < n ==> !InRegion(sc, sid, r, c)
    ensures b.Some? ==> 0 <= b.value.0 < n && InRegion(sc, sid, b.value.0, b.value.1)
    ensures b.Some? ==> forall r, c :: 0 <= r < n && InRegion(sc, sid, r, c) ==>
                          sc.ndsm[r][c] <= sc.ndsm[b.value.0][b.value.1]
    ensures b.Some? ==> forall r, c :: 0 <= r < n && InRegion(sc, sid, r, c) && Earlier(r, c, b.value.0, b.value.1) ==>
                          sc.ndsm[r][c] < sc.ndsm[b.value.0][b.value.1]
  {
    if n == 0 then None
    else
      var b := RegionArgMax(sc, sid, n - 1);
      var rb := RowArgMax(sc, sid, n - 1, Width(sc.labels));
      assert |sc.labels[n - 1]| == Width(sc.labels);
      if rb.None? then b
      else
        assert InRegion(sc, sid, n - 1, rb.value);
        if b.None? || sc.ndsm[n - 1][rb.value] > sc.ndsm[b.value.0][b.value.1] then Some((n - 1, rb.value))
        else b
  }

  /** A stem with no treetop and no height, of class `m`. */
  function Unmatched(s: Located, m: MatchClass): Record {
    Record(s.stem.plot, s.stem.nr, s.stem.x, s.stem.y, None, None, m)
  }

  /** The matched record of stem `s` in segment `sid`: the treetop is the centre of the
      segment's highest cell and the height that cell's nDSM value. */
  function RegionRecord(sc: Scene, s: Located, sid: int): Record
    requires WellFormed(sc) && SegmentOf(sc, s) == sid && sid > 0
  {
    assert InRegion(sc, sid, s.row, s.col);
    var p := RegionArgMax(sc, sid, |sc.labels|).value;
    Record(s.stem.plot, s.stem.nr, s.stem.x, s.stem.y, Some(XyCenter(sc.t, p.0, p.1)), Some(sc.ndsm[p.0][p.1]), Matched)
  }

  /** The record the matcher emits for stem `s` when the treetops are `peaks` and the
      surveyed stems `stems`. */
  function Classify(sc: Scene, peaks: seq<(int, int)>, stems: seq<Located>, s: Located): (r: Record)
    requires WellFormed(sc)
    ensures r.plot == s.stem.plot && r.nr == s.stem.nr && r.stemX == s.stem.x && r.stemY == s.stem.y
    ensures r.kind == Matched <==> r.top.Some?
    ensures r.kind == Matched <==> r.height.Some?
  {
    var sid := SegmentOf(sc, s);
    if sid <= 0 then Unmatched(s, NoSegment)
    else if |StemsIn(sc, stems, sid)| == 1 && |PeaksIn(sc, peaks, sid)| == 1 then RegionRecord(sc, s, sid)
    else Unmatched(s, Ambiguous)
  }

  /** `Classify` as the function applied to every stem. */
  function Expected(sc: Scene, peaks: seq<(int, int)>, stems: seq<Located>): Located -> Record
    requires WellFormed(sc)
  {
    s => Classify(sc, peaks, stems, s)
  }

  /** A stem gets class 2 exactly when its pixel is off the grid or on background. */
  lemma NoSegmentIff(sc: Scene, peaks: seq<(int, int)>, stems: seq<Located>, s: Located)
    requires WellFormed(sc)
    ensures Classify(sc, peaks, stems, s).kind == NoSegment <==>
              !OnGrid(sc, s) || sc.labels[s.row][s.col] <= 0
  {
  }

  /** A stem gets class 1 exactly when it lies on a segment that no other stem of the
      survey lies on and that holds exactly one treetop. */
  lemma {:induction false} MatchedIff(sc: Scene, peaks: seq<(int, int)>, stems: seq<Located>, i: nat)
    requires WellFormed(sc) && i < |stems|
    ensures Classify(sc, peaks, stems, stems[i]).kind == Matched <==>
              && SegmentOf(sc, stems[i]) > 0
              && (forall j :: 0 <= j < |stems| && j != i ==> SegmentOf(sc, stems[j]) != SegmentOf(sc, stems[i]))
              && |PeaksIn(sc, peaks, SegmentOf(sc, stems[i]))| == 1
  {
    var sid := SegmentOf(sc, stems[i]);
    if sid > 0 {
      if forall j :: 0 <= j < |stems| && j != i ==> SegmentOf(sc, stems[j]) != sid {
        AloneInBucket(sc, stems, sid, i);
      } else {
        var j :| 0 <= j < |stems| && j != i && SegmentOf(sc, stems[j]) == sid;
        if i < j { TwoInBucket(sc, stems, sid, i, j); } else { TwoInBucket(sc, stems, sid, j, i); }
      }
    }
  }

  /** A stem that no other stem shares its segment with is alone in its bucket. */
  lemma {:induction false} AloneInBucket(sc: Scene, xs: seq<Located>, sid: int, i: nat)
    requires i < |xs| && SegmentOf(sc, xs[i]) == sid
    requires forall j :: 0 <= j < |xs| && j != i ==> SegmentOf(sc, xs[j]) != sid
    ensures StemsIn(sc, xs, sid) == [xs[i]]
  {
    var init := xs[..|xs| - 1];
    assert xs == init + [xs[|xs| - 1]];
    StemsInSnoc(sc, init, xs[|xs| - 1], sid);
    if i == |xs| - 1 {
      forall j | 0 <= j < |init| ensures SegmentOf(sc, init[j]) != sid {
        assert init[j] == xs[j];
      }
      EmptyBucket(sc, init, sid);
    } else {
      assert init[i] == xs[i];
      forall j | 0 <= j < |init| && j != i ensures SegmentOf(sc, init[j]) != sid {
        assert init[j] == xs[j];
      }
      AloneInBucket(sc, init, sid, i);
    }
  }

  /** A segment no stem of `xs` lies on has an empty bucket. */
  lemma EmptyBucket(sc: Scene, xs: seq<Located>, sid: int)
    requires forall j :: 0 <= j < |xs| ==> SegmentOf(sc, xs[j]) != sid
    ensures StemsIn(sc, xs, sid) == []
  {
  }

  /** A matched stem's height is the highest nDSM value of its segment, and its treetop is
      the centre of a cell of that segment holding that value. */
  lemma MatchedHeight(sc: Scene, peaks: seq<(int, int)>, stems: seq<Located>, s: Located)
    requires WellFormed(sc) && Classify(sc, peaks, stems, s).kind == Matched
    ensures var rec := Classify(sc, peaks, stems, s);
            var cell := RowCol(sc.t, rec.top.value.0, rec.top.value.1);
            && InRegion(sc, SegmentOf(sc, s), cell.0, cell.1)
            && rec.height.value == sc.ndsm[cell.0][cell.1]
            && forall r, c :: InRegion(sc, SegmentOf(sc, s), r, c) ==> sc.ndsm[r][c] <= rec.height.value
  {
    var sid := SegmentOf(sc, s);
    var rec := Classify(sc, peaks, stems, s);
    assert sid > 0 && |StemsIn(sc, stems, sid)| == 1 && |PeaksIn(sc, peaks, sid)| == 1;
    assert rec == RegionRecord(sc, s, sid);
    assert InRegion(sc, sid, s.row, s.col);
    var p := RegionArgMax(sc, sid, |sc.labels|).value;
    assert rec.top.value == XyCenter(sc.t, p.0, p.1);
    RowColOfCenter(sc.t, p.0, p.1);
  }

  /** The treetop buckets after the treetops `ps`: each treetop appended under the positive
      label under it, in input order. */
  function TopBuckets(sc: Scene, ps: seq<(int, int)>): (b: Buckets.Buckets<int, (int, int)>)
    ensures Buckets.Valid(b)
  {
    if ps == [] then Buckets.Empty()
    else
      var b := TopBuckets(sc, ps[..|ps| - 1]);
      var p := ps[|ps| - 1];
      if PeakSegment(sc, p) > 0 then Buckets.Append(b, PeakSegment(sc, p), p) else b
  }

  /** A segment's bucket holds exactly the treetops over it, in input order; background
      labels get no bucket. */
  lemma {:induction false} TopBucketsGet(sc: Scene, ps: seq<(int, int)>, sid: int)
    ensures Buckets.Get(TopBuckets(sc, ps), sid) == if sid > 0 then PeaksIn(sc, ps, sid) else []
  {
    if ps != [] {
      var init := ps[..|ps| - 1];
      var p := ps[|ps| - 1];
      assert init + [p] == ps;
      TopBucketsGet(sc, init, sid);
      PeaksInSnoc(sc, init, p, sid);
      var seg := PeakSegment(sc, p);
      if seg > 0 && seg != sid {
        Buckets.GetAppendOther(TopBuckets(sc, init), seg, p, sid);
      }
    }
  }

  /** Step 1 of every matcher: treetops bucketed by the segment under them, in input
      order; those on a label that is not positive are kept apart (`unmatched_tops`). */
  method BucketTops(sc: Scene, peaks: seq<(int, int)>)
    returns (tops: Buckets.Buckets<int, (int, int)>, unmatched: seq<(int, int)>)
    ensures tops == TopBuckets(sc, peaks)
    ensures unmatched == UnsegmentedPeaks(sc, peaks)
  {
    tops := Buckets.Empty();
    unmatched := [];
    for i := 0 to |peaks|
      invariant tops == TopBuckets(sc, peaks[..i])
      invariant unmatched == UnsegmentedPeaks(sc, peaks[..i])
    {
      assert peaks[..i + 1][..i] == peaks[..i];
      assert peaks[..i] + [peaks[i]] == peaks[..i + 1];
      UnsegmentedPeaksSnoc(sc, peaks[..i], peaks[i]);
      var sid := PeakSegment(sc, peaks[i]);
      if sid > 0 {
        tops := Buckets.Append(tops, sid, peaks[i]);
      } else {
        unmatched := unmatched + [peaks[i]];
      }
    }
    assert peaks[..|peaks|] == peaks;
  }

  /** The stem buckets after the stems `xs`: each stem appended under the positive label
      under it, in input order. */
  function SegmentBuckets(sc: Scene, xs: seq<Located>): (b: Buckets.Buckets<int, Located>)
    ensures Buckets.Valid(b)
  {
    if xs == [] then Buckets.Empty()
    else
      var b := SegmentBuckets(sc, xs[..|xs| - 1]);
      var x := xs[|xs| - 1];
      if SegmentOf(sc, x) > 0 then Buckets.Append(b, SegmentOf(sc, x), x) else b
  }

  /** A segment's bucket holds exactly the stems on it, in input order. */
  lemma {:induction false} SegmentBucketsGet(sc: Scene, xs: seq<Located>, sid: int)
    requires sid > 0
    ensures Buckets.Get(SegmentBuckets(sc, xs), sid) == StemsIn(sc, xs, sid)
  {
    if xs != [] {
      var init := xs[..|xs| - 1];
      var x := xs[|xs| - 1];
      assert init + [x] == xs;
      SegmentBucketsGet(sc, init, sid);
      StemsInSnoc(sc, init, x, sid);
      var seg := SegmentOf(sc, x);
      if seg > 0 && seg != sid {
        Buckets.GetAppendOther(SegmentBuckets(sc, init), seg, x, sid);
      }
    }
  }

  /** Only positive labels become keys. */
  lemma {:induction false} SegmentBucketsKeys(sc: Scene, xs: seq<Located>)
    ensures forall i :: 0 <= i < |SegmentBuckets(sc, xs).keys| ==> SegmentBuckets(sc, xs).keys[i] > 0
  {
    if xs != [] {
      SegmentBucketsKeys(sc, xs[..|xs| - 1]);
    }
  }

  /** The `j`-th segment key is a positive label whose buckets hold the stems and the
      treetops on it. */
  lemma SegmentEntry(sc: Scene, peaks: seq<(int, int)>, stems: seq<Located>,
                     tops: Buckets.Buckets<int, (int, int)>, segs: Buckets.Buckets<int, Located>, j: nat)
    requires tops == TopBuckets(sc, peaks) && segs == SegmentBuckets(sc, stems) && j < |segs.keys|
    ensures segs.keys[j] > 0 && segs.keys[j] in segs.lists
    ensures segs.lists[segs.keys[j]] == StemsIn(sc, stems, segs.keys[j])
    ensures Buckets.Get(tops, segs.keys[j]) == PeaksIn(sc, peaks, segs.keys[j])
  {
    var sid := segs.keys[j];
    SegmentBucketsKeys(sc, stems);
    SegmentBucketsGet(sc, stems, sid);
    TopBucketsGet(sc, peaks, sid);
  }

  /** Bucketing loses no stem: the buckets and `no_segment` together hold the survey. */
  lemma {:induction false} SegmentBucketsValues(sc: Scene, xs: seq<Located>)
    ensures multiset(Buckets.Values(SegmentBuckets(sc, xs))) + multiset(Unsegmented(sc, xs)) == multiset(xs)
  {
    if xs != [] {
      var init := xs[..|xs| - 1];
      var x := xs[|xs| - 1];
      assert init + [x] == xs;
      SegmentBucketsValues(sc, init);
      UnsegmentedSnoc(sc, init, x);
      var b := SegmentBuckets(sc, init);
      Buckets.SplitStep(b, Unsegmented(sc, init), init, SegmentOf(sc, x), x);
      if SegmentOf(sc, x) > 0 {
        assert SegmentBuckets(sc, xs) == Buckets.Append(b, SegmentOf(sc, x), x);
        assert Unsegmented(sc, xs) == Unsegmented(sc, init);
      } else {
        assert SegmentBuckets(sc, xs) == b;
        assert Unsegmented(sc, xs) == Unsegmented(sc, init) + [x];
      }
    }
  }

  /** Step 2 of `segment_match_stems`: stems bucketed by the positive label under them, in
      input order; stems off the grid or on background go to `no_segment`. */
  method BucketStems(sc: Scene, stems: seq<Located>)
    returns (segs: Buckets.Buckets<int, Located>, noSegment: seq<Located>)
    ensures segs == SegmentBuckets(sc, stems)
    ensures noSegment == Unsegmented(sc, stems)
    ensures multiset(Buckets.Values(segs)) + multiset(noSegment) == multiset(stems)
  {
    segs := Buckets.Empty();
    noSegment := [];
    for i := 0 to |stems|
      invariant segs == SegmentBuckets(sc, stems[..i])
      invariant noSegment == Unsegmented(sc, stems[..i])
    {
      assert stems[..i + 1][..i] == stems[..i];
      assert stems[..i] + [stems[i]] == stems[..i + 1];
      UnsegmentedSnoc(sc, stems[..i], stems[i]);
      var sid := SegmentOf(sc, stems[i]);
      if sid > 0 {
        segs := Buckets.Append(segs, sid, stems[i]);
      } else {
        noSegment := noSegment + [stems[i]];
      }
    }
    assert stems[..|stems|] == stems;
    SegmentBucketsValues(sc, stems);
  }

  /** A stem on a segment that does not hold exactly one stem and one treetop gets class 0. */
  lemma AmbiguousStem(sc: Scene, peaks: seq<(int, int)>, stems: seq<Located>, sid: int, s: Located)
    requires WellFormed(sc) && sid > 0 && SegmentOf(sc, s) == sid
    requires !(|StemsIn(sc, stems, sid)| == 1 && |PeaksIn(sc, peaks, sid)| == 1)
    ensures Expected(sc, peaks, stems)(s) == Unmatched(s, Ambiguous)
  {
  }

  /** The records of one segment's bucket: a match when the bucket holds one stem and the
      segment one treetop, otherwise every stem of it with class 0. */
  method EmitSegment(sc: Scene, peaks: seq<(int, int)>, stems: seq<Located>, sid: int,
                     bucket: seq<Located>, tops: seq<(int, int)>)
    returns (recs: seq<Record>)
    requires WellFormed(sc) && sid > 0
    requires bucket == StemsIn(sc, stems, sid) && tops == PeaksIn(sc, peaks, sid)
    ensures recs == Seqs.Map(Expected(sc, peaks, stems), bucket)
    ensures forall i :: 0 <= i < |recs| ==> recs[i].kind != NoSegment
  {
    StemsInMembers(sc, stems, sid);
    if |bucket| == 1 && |tops| == 1 {
      assert bucket[0] in bucket;
      recs := [RegionRecord(sc, bucket[0], sid)];
    } else {
      recs := EmitAmbiguous(sc, peaks, stems, sid, bucket);
    }
  }

  /** The class-0 records of the stems of a segment that does not hold exactly one stem
      and one treetop. */
  method EmitAmbiguous(sc: Scene, peaks: seq<(int, int)>, stems: seq<Located>, sid: int, bucket: seq<Located>)
    returns (recs: seq<Record>)
    requires WellFormed(sc) && sid > 0
    requires !(|StemsIn(sc, stems, sid)| == 1 && |PeaksIn(sc, peaks, sid)| == 1)
    requires forall x :: x in bucket ==> SegmentOf(sc, x) == sid
    ensures recs == Seqs.Map(Expected(sc, peaks, stems), bucket)
    ensures forall i :: 0 <= i < |recs| ==> recs[i].kind == Ambiguous
  {
    var expected := Expected(sc, peaks, stems);
    recs := [];
    for k := 0 to |bucket|
      invariant recs == Seqs.Map(expected, bucket[..k])
      invariant forall i :: 0 <= i < |recs| ==> recs[i].kind == Ambiguous
    {
      assert bucket[k] in bucket;
      AmbiguousStem(sc, peaks, stems, sid, bucket[k]);
      assert bucket[..k + 1] == bucket[..k] + [bucket[k]];
      Seqs.MapAppend(expected, bucket[..k], [bucket[k]]);
      recs := recs + [Unmatched(bucket[k], Ambiguous)];
    }
    assert bucket[..|bucket|] == bucket;
  }

  /** The class-2 records of stems that lie on no segment. */
  method EmitUnsegmented(sc: Scene, peaks: seq<(int, int)>, stems: seq<Located>, bucket: seq<Located>)
    returns (recs: seq<Record>)
    requires WellFormed(sc)
    requires forall x :: x in bucket ==> SegmentOf(sc, x) <= 0
    ensures recs == Seqs.Map(Expected(sc, peaks, stems), bucket)
    ensures forall i :: 0 <= i < |recs| ==> recs[i].kind == NoSegment
  {
    var expected := Expected(sc, peaks, stems);
    recs := [];
    for k := 0 to |bucket|
      invariant recs == Seqs.Map(expected, bucket[..k])
    {
      assert bucket[k] in bucket;
      assert bucket[..k + 1] == bucket[..k] + [bucket[k]];
      Seqs.MapAppend(expected, bucket[..k], [bucket[k]]);
      recs := recs + [Unmatched(bucket[k], NoSegment)];
    }
    assert bucket[..|bucket|] == bucket;
  }

  /** Step 3 of `segment_match_stems`: the records of every segment bucket, in the order
      the segments were first met. */
  method EmitSegments(sc: Scene, peaks: seq<(int, int)>, stems: seq<Located>,
                      tops: Buckets.Buckets<int, (int, int)>, segs: Buckets.Buckets<int, Located>)
    returns (results: seq<Record>)
    requires WellFormed(sc) && tops == TopBuckets(sc, peaks) && segs == SegmentBuckets(sc, stems)
    ensures results == Seqs.Map(Expected(sc, peaks, stems), Buckets.Values(segs))
    ensures forall i :: 0 <= i < |results| ==> results[i].kind != NoSegment
  {
    var expected := Expected(sc, peaks, stems);
    results := [];
    for j := 0 to |segs.keys|
      invariant results == Seqs.Map(expected, Buckets.Flatten(segs.keys[..j], segs.lists))
      invariant forall i :: 0 <= i < |results| ==> results[i].kind != NoSegment
    {
      SegmentEntry(sc, peaks, stems, tops, segs, j);
      var sid := segs.keys[j];
      var recs := EmitSegment(sc, peaks, stems, sid, segs.lists[sid], Buckets.Get(tops, sid));
      Buckets.MapFlattenPrefix(expected, segs.keys, segs.lists, j);
      SegmentedConcat(results, recs);
      results := results + recs;
    }
    assert segs.keys[..|segs.keys|] == segs.keys;
  }

  /** The first `m` records have class 0 or 1 and the rest class 2. */
  ghost predicate NoSegmentLast(results: seq<Record>, m: int) {
    && 0 <= m <= |results|
    && (forall i :: 0 <= i < m ==> results[i].kind != NoSegment)
    && (forall i :: m <= i < |results| ==> results[i].kind == NoSegment)
  }

  lemma NoSegmentAfter(head: seq<Record>, tail: seq<Record>)
    requires forall i :: 0 <= i < |head| ==> head[i].kind != NoSegment
    requires forall i :: 0 <= i < |tail| ==> tail[i].kind == NoSegment
    ensures NoSegmentLast(head + tail, |head|)
  {
  }

  lemma SegmentedConcat(head: seq<Record>, tail: seq<Record>)
    requires forall i :: 0 <= i < |head| ==> head[i].kind != NoSegment
    requires forall i :: 0 <= i < |tail| ==> tail[i].kind != NoSegment
    ensures forall i :: 0 <= i < |head + tail| ==> (head + tail)[i].kind != NoSegment
  {
  }

  /** `segment_match_stems`: exactly one record per stem, namely its `Classify` record, the
      class-2 records last; the treetops on background are returned apart. */
  method SegmentMatchStems(sc: Scene, peaks: seq<(int, int)>, survey: seq<Stem>)
    returns (results: seq<Record>, unmatchedTops: seq<(int, int)>)
    requires WellFormed(sc)
    ensures var stems := LocateAll(sc.t, survey);
            multiset(results) == multiset(Seqs.Map(Expected(sc, peaks, stems), stems))
    ensures exists m :: NoSegmentLast(results, m)
    ensures unmatchedTops == UnsegmentedPeaks(sc, peaks)
  {
    var stems := LocateAll(sc.t, survey);
    var tops;
    tops, unmatchedTops := BucketTops(sc, peaks);
    var segs, noSegment := BucketStems(sc, stems);
    var expected := Expected(sc, peaks, stems);
    var head := EmitSegments(sc, peaks, stems, tops, segs);
    UnsegmentedMembers(sc, stems);
    var tail := EmitUnsegmented(sc, peaks, stems, noSegment);
    results := head + tail;
    Seqs.MapSplit(expected, Buckets.Values(segs), noSegment, stems);
    NoSegmentAfter(head, tail);
  }

  /** The bucket keys of `match_and_visualize_updated2`: a positive label, or the string key
      "no_segment" shared by every in-grid stem on background. */
  datatype Key = Segment(id: int) | NoSegmentKey

  /** The key an in-grid stem is bucketed under. */
  function KeyOf(sc: Scene, x: Located): Key {
    if SegmentOf(sc, x) > 0 then Segment(SegmentOf(sc, x)) else NoSegmentKey
  }

  /** The keyed buckets after the stems `xs`: each in-grid stem appended under its key, in
      input order; stems off the grid are skipped. */
  function KeyedBuckets(sc: Scene, xs: seq<Located>): (b: Buckets.Buckets<Key, Located>)
    ensures Buckets.Valid(b)
  {
    if xs == [] then Buckets.Empty()
    else
      var b := KeyedBuckets(sc, xs[..|xs| - 1]);
      var x := xs[|xs| - 1];
      if OnGrid(sc, x) then Buckets.Append(b, KeyOf(sc, x), x) else b
  }

  /** A segment's bucket holds exactly the stems on it, in input order. */
  lemma {:induction false} KeyedBucketsGet(sc: Scene, xs: seq<Located>, sid: int)
    requires sid > 0
    ensures Buckets.Get(KeyedBuckets(sc, xs), Segment(sid)) == StemsIn(sc, xs, sid)
  {
    if xs != [] {
      var init := xs[..|xs| - 1];
      var x := xs[|xs| - 1];
      assert init + [x] == xs;
      KeyedBucketsGet(sc, init, sid);
      StemsInSnoc(sc, init, x, sid);
      if OnGrid(sc, x) && KeyOf(sc, x) != Segment(sid) {
        Buckets.GetAppendOther(KeyedBuckets(sc, init), KeyOf(sc, x), x, Segment(sid));
      }
    }
  }

  /** The "no_segment" bucket holds exactly the in-grid stems on background, in input order. */
  lemma {:induction false} KeyedBucketsUngrouped(sc: Scene, xs: seq<Located>)
    ensures Buckets.Get(KeyedBuckets(sc, xs), NoSegmentKey) == Ungrouped(sc, xs)
  {
    if xs != [] {
      var init := xs[..|xs| - 1];
      var x := xs[|xs| - 1];
      assert init + [x] == xs;
      KeyedBucketsUngrouped(sc, init);
      OnGridSnoc(sc, init, x);
      if OnGrid(sc, x) && KeyOf(sc, x) != NoSegmentKey {
        Buckets.GetAppendOther(KeyedBuckets(sc, init), KeyOf(sc, x), x, NoSegmentKey);
      }
    }
  }

  /** Only positive labels become segment keys. */
  lemma {:induction false} KeyedBucketsKeys(sc: Scene, xs: seq<Located>)
    ensures forall i :: 0 <= i < |KeyedBuckets(sc, xs).keys| && KeyedBuckets(sc, xs).keys[i].Segment? ==>
              KeyedBuckets(sc, xs).keys[i].id > 0
  {
    if xs != [] {
      KeyedBucketsKeys(sc, xs[..|xs| - 1]);
    }
  }

  /** The buckets hold exactly the in-grid stems. */
  lemma {:induction false} KeyedBucketsValues(sc: Scene, xs: seq<Located>)
    ensures multiset(Buckets.Values(KeyedBuckets(sc, xs))) == multiset(OnGridStems(sc, xs))
  {
    if xs != [] {
      var init := xs[..|xs| - 1];
      var x := xs[|xs| - 1];
      assert init + [x] == xs;
      KeyedBucketsValues(sc, init);
      OnGridSnoc(sc, init, x);
      var b := KeyedBuckets(sc, init);
      if OnGrid(sc, x) {
        Buckets.SplitStep(b, [], OnGridStems(sc, init), KeyOf(sc, x), x);
        assert KeyedBuckets(sc, xs) == Buckets.Append(b, KeyOf(sc, x), x);
        assert OnGridStems(sc, xs) == OnGridStems(sc, init) + [x];
      } else {
        assert KeyedBuckets(sc, xs) == b;
        assert OnGridStems(sc, xs) == OnGridStems(sc, init);
      }
    }
  }

  /** Step 2 of `match_and_visualize_updated2`: in-grid stems bucketed under their positive
      label or under "no_segment"; stems off the grid are dropped. */
  method BucketStemsByKey(sc: Scene, stems: seq<Located>) returns (segs: Buckets.Buckets<Key, Located>)
    ensures segs == KeyedBuckets(sc, stems)
    ensures multiset(Buckets.Values(segs)) == multiset(OnGridStems(sc, stems))
  {
    segs := Buckets.Empty();
    for i := 0 to |stems|
      invariant segs == KeyedBuckets(sc, stems[..i])
    {
      assert stems[..i + 1][..i] == stems[..i];
      if OnGrid(sc, stems[i]) {
        var lab := sc.labels[stems[i].row][stems[i].col];
        var key := if lab > 0 then Segment(lab) else NoSegmentKey;
        assert key == KeyOf(sc, stems[i]);
        segs := Buckets.Append(segs, key, stems[i]);
      }
    }
    assert stems[..|stems|] == stems;
    KeyedBucketsValues(sc, stems);
  }

  /** `match_and_visualize_updated2`: one record per in-grid stem, the `Classify` record the
      pipeline gives it; stems off the grid get no record. */
  method MatchAndVisualizeUpdated2(sc: Scene, peaks: seq<(int, int)>, survey: seq<Stem>)
    returns (results: seq<Record>)
    requires WellFormed(sc)
    ensures var stems := LocateAll(sc.t, survey);
            multiset(results) == multiset(Seqs.Map(Expected(sc, peaks, stems), OnGridStems(sc, stems)))
  {
    var stems := LocateAll(sc.t, survey);
    var tops, _ := BucketTops(sc, peaks);
    var segs := BucketStemsByKey(sc, stems);
    var expected := Expected(sc, peaks, stems);
    UngroupedMembers(sc, stems);
    KeyedBucketsUngrouped(sc, stems);
    KeyedBucketsKeys(sc, stems);
    results := [];
    for j := 0 to |segs.keys|
      invariant results == Seqs.Map(expected, Buckets.Flatten(segs.keys[..j], segs.lists))
    {
      var key := segs.keys[j];
      var recs;
      if key == NoSegmentKey {
        recs := EmitUnsegmented(sc, peaks, stems, segs.lists[key]);
      } else {
        KeyedBucketsGet(sc, stems, key.id);
        TopBucketsGet(sc, peaks, key.id);
        recs := EmitSegment(sc, peaks, stems, key.id, segs.lists[key], Buckets.Get(tops, key.id));
      }
      Buckets.MapFlattenPrefix(expected, segs.keys, segs.lists, j);
      results := results + recs;
    }
    assert segs.keys[..|segs.keys|] == segs.keys;
    Seqs.MapPermutation(expected, Buckets.Values(segs), OnGridStems(sc, stems));
  }

  /** A stem whose pixel is off the grid shortens `match_and_visualize_updated2`'s result. */
  lemma {:induction false} OffGridDropped(sc: Scene, xs: seq<Located>, i: nat)
    requires i < |xs| && !OnGrid(sc, xs[i])
    ensures |OnGridStems(sc, xs)| < |xs|
  {
    var init := xs[..|xs| - 1];
    assert xs == init + [xs[|xs| - 1]];
    OnGridSnoc(sc, init, xs[|xs| - 1]);
    if i < |xs| - 1 {
      assert init[i] == xs[i];
      OffGridDropped(sc, init, i);
    }
  }

  /** The pair the older matchers return for stem `s`, present exactly for a matched stem:
      with `refine` the segment's highest cell (`match_and_visualize_updated`), otherwise
      the treetop pixel itself (`match_and_visualize`, `match_and_visualize_all`). */
  function PairOf(sc: Scene, peaks: seq<(int, int)>, stems: seq<Located>, refine: bool, s: Located): Option<Pair>
    requires WellFormed(sc)
  {
    var sid := SegmentOf(sc, s);
    if sid > 0 && |StemsIn(sc, stems, sid)| == 1 && |PeaksIn(sc, peaks, sid)| == 1 then
      if refine then
        var rec := RegionRecord(sc, s, sid);
        Some(Pair(s.stem.plot, s.stem.nr, s.stem.x, s.stem.y, rec.top.value, rec.height.value))
      else
        var p := PeaksIn(sc, peaks, sid)[0];
        PeaksInMembers(sc, peaks, sid);
        assert p in PeaksIn(sc, peaks, sid);
        Some(Pair(s.stem.plot, s.stem.nr, s.stem.x, s.stem.y, XyCenter(sc.t, p.0, p.1), sc.ndsm[p.0][p.1]))
    else None
  }

  function Paired(sc: Scene, peaks: seq<(int, int)>, stems: seq<Located>, refine: bool): Located -> Option<Pair>
    requires WellFormed(sc)
  {
    s => PairOf(sc, peaks, stems, refine, s)
  }

  /** The older matchers pair exactly the stems the pipeline gives class 1; the refined one
      reports the same treetop and height. */
  lemma PairsAreMatches(sc: Scene, peaks: seq<(int, int)>, stems: seq<Located>, refine: bool, s: Located)
    requires WellFormed(sc)
    ensures PairOf(sc, peaks, stems, refine, s).Some? <==> Classify(sc, peaks, stems, s).kind == Matched
    ensures refine && PairOf(sc, peaks, stems, refine, s).Some? ==>
              && Some(PairOf(sc, peaks, stems, refine, s).value.top) == Classify(sc, peaks, stems, s).top
              && Some(PairOf(sc, peaks, stems, refine, s).value.height) == Classify(sc, peaks, stems, s).height
  {
  }

  /** Without refinement the height is read at the segment's single treetop, whose centre is
      the reported treetop position; it never exceeds the refined height. */
  lemma PeakPairHeight(sc: Scene, peaks: seq<(int, int)>, stems: seq<Located>, s: Located)
    requires WellFormed(sc) && PairOf(sc, peaks, stems, false, s).Some?
    ensures var pair := PairOf(sc, peaks, stems, false, s).value;
            var cell := RowCol(sc.t, pair.top.0, pair.top.1);
            && cell in peaks
            && InRegion(sc, SegmentOf(sc, s), cell.0, cell.1)
            && pair.height == sc.ndsm[cell.0][cell.1]
            && pair.height <= PairOf(sc, peaks, stems, true, s).value.height
  {
    var sid := SegmentOf(sc, s);
    var p := PeaksIn(sc, peaks, sid)[0];
    PeaksInMembers(sc, peaks, sid);
    assert p in PeaksIn(sc, peaks, sid);
    RowColOfCenter(sc.t, p.0, p.1);
    assert InRegion(sc, sid, p.0, p.1);
    assert InRegion(sc, sid, s.row, s.col);
  }

  /** The pairs one segment's bucket yields in the older matchers. */
  method EmitPair(sc: Scene, peaks: seq<(int, int)>, stems: seq<Located>, refine: bool, sid: int,
                  bucket: seq<Located>, tops: seq<(int, int)>)
    returns (out: seq<Pair>)
    requires WellFormed(sc) && sid > 0
    requires bucket == StemsIn(sc, stems, sid) && tops == PeaksIn(sc, peaks, sid)
    ensures out == Seqs.Somes(Seqs.Map(Paired(sc, peaks, stems, refine), bucket))
  {
    var paired := Paired(sc, peaks, stems, refine);
    StemsInMembers(sc, stems, sid);
    PeaksInMembers(sc, peaks, sid);
    if |bucket| == 1 && |tops| == 1 {
      var s := bucket[0];
      assert s in bucket;
      var (r, c) := tops[0];
      assert tops[0] in tops;
      if refine {
        var rec := RegionRecord(sc, s, sid);
        out := [Pair(s.stem.plot, s.stem.nr, s.stem.x, s.stem.y, rec.top.value, rec.height.value)];
      } else {
        out := [Pair(s.stem.plot, s.stem.nr, s.stem.x, s.stem.y, XyCenter(sc.t, r, c), sc.ndsm[r][c])];
      }
      assert Seqs.Map(paired, bucket) == [Some(out[0])];
      assert Seqs.Map(paired, bucket)[1..] == [];
    } else {
      forall i | 0 <= i < |bucket| ensures Seqs.Map(paired, bucket)[i].None? {
        assert bucket[i] in bucket;
      }
      Seqs.SomesOfNones(Seqs.Map(paired, bucket));
      out := [];
    }
  }

  /** The pairs of every segment bucket, in the order the segments were first met. */
  method EmitPairs(sc: Scene, peaks: seq<(int, int)>, stems: seq<Located>, refine: bool,
                   tops: Buckets.Buckets<int, (int, int)>, segs: Buckets.Buckets<int, Located>)
    returns (pairs: seq<Pair>)
    requires WellFormed(sc) && tops == TopBuckets(sc, peaks) && segs == SegmentBuckets(sc, stems)
    ensures pairs == Seqs.Somes(Seqs.Map(Paired(sc, peaks, stems, refine), Buckets.Values(segs)))
  {
    var paired := Paired(sc, peaks, stems, refine);
    pairs := [];
    for j := 0 to |segs.keys|
      invariant pairs == Seqs.Somes(Seqs.Map(paired, Buckets.Flatten(segs.keys[..j], segs.lists)))
    {
      SegmentEntry(sc, peaks, stems, tops, segs, j);
      var sid := segs.keys[j];
      var out := EmitPair(sc, peaks, stems, refine, sid, segs.lists[sid], Buckets.Get(tops, sid));
      Buckets.SomesFlattenPrefix(paired, segs.keys, segs.lists, j);
      pairs := pairs + out;
    }
    assert segs.keys[..|segs.keys|] == segs.keys;
  }

  /** `match_and_visualize` / `match_and_visualize_all` (`refine == false`) and
      `match_and_visualize_updated` (`refine == true`): exactly the pairs of the matched
      stems. */
  method MatchPairs(sc: Scene, peaks: seq<(int, int)>, survey: seq<Stem>, refine: bool)
    returns (pairs: seq<Pair>)
    requires WellFormed(sc)
    ensures var stems := LocateAll(sc.t, survey);
            multiset(pairs) == multiset(Seqs.Somes(Seqs.Map(Paired(sc, peaks, stems, refine), stems)))
  {
    var stems := LocateAll(sc.t, survey);
    var tops, _ := BucketTops(sc, peaks);
    var segs, noSegment := BucketStems(sc, stems);
    var paired := Paired(sc, peaks, stems, refine);
    pairs := EmitPairs(sc, peaks, stems, refine, tops, segs);
    UnsegmentedMembers(sc, stems);
    forall i | 0 <= i < |noSegment| ensures paired(noSegment[i]).None? {
      assert noSegment[i] in noSegment;
    }
    Seqs.SomesSplit(paired, Buckets.Values(segs), noSegment, stems);
  }
}
