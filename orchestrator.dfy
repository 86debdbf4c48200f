/** Steps 4 to 6 of `run_everything`: the pixel-height lookup built from the point matcher's
    rows, the segmentation-off result rows, the merge of pixel heights into the result rows,
    the match-class counts and the final sort by (plot, number). */
module Orchestrator {
  import opened Outcomes
  import opened Grids
  import Seqs
  import SegmentMatch
  import PointMatch

  type Record = SegmentMatch.Record
  type Merged = PointMatch.Merged
  type PixelMatch = PointMatch.PixelMatch

  /** The rows of `pixel_matches` that hold a treetop, in order. */
  function MatchedOnly(ms: seq<PixelMatch>): (r: seq<PixelMatch>)
    ensures forall k :: 0 <= k < |r| ==> r[k].top.Some? && r[k] in ms
  {
    if ms == [] then []
    else MatchedOnly(ms[..|ms| - 1]) + (if ms[|ms| - 1].top.Some? then [ms[|ms| - 1]] else [])
  }

  /** The pixel height `pixel_lookup` holds for (`plot`, `nr`): that of the last row with this
      key that holds a treetop. */
  function PixelHeight(ms: seq<PixelMatch>, plot: int, nr: int): Option<real> {
    PointMatch.Lookup(MatchedOnly(ms), plot, nr)
  }

  /** `pixel_lookup.get(key, None)`. */
  function PixelGet(lookup: map<(int, int), real>, plot: int, nr: int): Option<real> {
    if (plot, nr) in lookup then Some(lookup[(plot, nr)]) else None
  }

  lemma MatchedOnlySnoc(ms: seq<PixelMatch>, m: PixelMatch)
    ensures MatchedOnly(ms + [m]) == MatchedOnly(ms) + (if m.top.Some? then [m] else [])
  {
    assert (ms + [m])[..|ms|] == ms;
  }

  lemma LookupSnoc(xs: seq<PixelMatch>, m: PixelMatch, plot: int, nr: int)
    ensures PointMatch.Lookup(xs + [m], plot, nr) ==
              if m.plot == plot && m.nr == nr then PointMatch.HeightOf(m) else PointMatch.Lookup(xs, plot, nr)
  {
    assert (xs + [m])[..|xs|] == xs;
  }

  /** Some row with key (`plot`, `nr`) holds a treetop. */
  predicate HasMatchedRow(ms: seq<PixelMatch>, plot: int, nr: int) {
    exists k :: 0 <= k < |ms| && ms[k].plot == plot && ms[k].nr == nr && ms[k].top.Some?
  }

  lemma HasMatchedRowSnoc(ms: seq<PixelMatch>, m: PixelMatch, plot: int, nr: int)
    ensures HasMatchedRow(ms + [m], plot, nr) <==>
              HasMatchedRow(ms, plot, nr) || (m.plot == plot && m.nr == nr && m.top.Some?)
  {
    if HasMatchedRow(ms + [m], plot, nr) {
      var k :| 0 <= k < |ms + [m]| && (ms + [m])[k].plot == plot && (ms + [m])[k].nr == nr && (ms + [m])[k].top.Some?;
      if k < |ms| {
        assert ms[k] == (ms + [m])[k];
      }
    }
    if HasMatchedRow(ms, plot, nr) {
      var k :| 0 <= k < |ms| && ms[k].plot == plot && ms[k].nr == nr && ms[k].top.Some?;
      assert (ms + [m])[k] == ms[k];
    }
    if m.plot == plot && m.nr == nr && m.top.Some? {
      assert (ms + [m])[|ms|] == m;
    }
  }

  /** A key has a pixel height exactly when some row with that key holds a treetop. */
  lemma {:induction false} PixelHeightPresent(ms: seq<PixelMatch>, plot: int, nr: int)
    ensures PixelHeight(ms, plot, nr).Some? <==> HasMatchedRow(ms, plot, nr)
  {
    if ms != [] {
      var init, last := ms[..|ms| - 1], ms[|ms| - 1];
      assert ms == init + [last];
      PixelHeightPresent(init, plot, nr);
      MatchedOnlySnoc(init, last);
      HasMatchedRowSnoc(init, last, plot, nr);
      if last.top.Some? {
        LookupSnoc(MatchedOnly(init), last, plot, nr);
      } else {
        assert MatchedOnly(ms) == MatchedOnly(init);
      }
    }
  }

  /** A later row without treetop leaves the pipeline's height in place, whereas
      `merge_dictionaries` lets it overwrite the height with `None`. */
  lemma UnmatchedRowKeepsHeight(ms: seq<PixelMatch>, m: PixelMatch)
    requires m.top.None?
    ensures PixelHeight(ms + [m], m.plot, m.nr) == PixelHeight(ms, m.plot, m.nr)
    ensures PointMatch.Lookup(ms + [m], m.plot, m.nr).None?
  {
    MatchedOnlySnoc(ms, m);
    assert MatchedOnly(ms + [m]) == MatchedOnly(ms);
    LookupSnoc(ms, m, m.plot, m.nr);
  }

  /** `lookup` holds exactly the pixel heights of the rows `ms`. */
  ghost predicate LookupOf(lookup: map<(int, int), real>, ms: seq<PixelMatch>) {
    forall plot, nr :: PixelGet(lookup, plot, nr) == PixelHeight(ms, plot, nr)
  }

  /** One turn of the loop filling `pixel_lookup`: a row with a treetop sets its key. */
  lemma LookupStep(lookup: map<(int, int), real>, xs: seq<PixelMatch>, m: PixelMatch)
    requires LookupOf(lookup, xs)
    ensures LookupOf(if m.top.Some? then lookup[(m.plot, m.nr) := m.top.value.height] else lookup, xs + [m])
  {
    MatchedOnlySnoc(xs, m);
    if m.top.Some? {
      var after := lookup[(m.plot, m.nr) := m.top.value.height];
      forall plot, nr ensures PixelGet(after, plot, nr) == PixelHeight(xs + [m], plot, nr) {
        LookupSnoc(MatchedOnly(xs), m, plot, nr);
        if m.plot != plot || m.nr != nr {
          assert PixelGet(after, plot, nr) == PixelGet(lookup, plot, nr);
        }
      }
    } else {
      assert MatchedOnly(xs + [m]) == MatchedOnly(xs);
    }
  }

  /** The loop filling `pixel_lookup` from the rows holding a treetop. */
  method BuildPixelLookup(ms: seq<PixelMatch>) returns (lookup: map<(int, int), real>)
    ensures forall plot, nr :: PixelGet(lookup, plot, nr) == PixelHeight(ms, plot, nr)
  {
    lookup := map[];
    for k := 0 to |ms|
      invariant LookupOf(lookup, ms[..k])
    {
      var m := ms[k];
      LookupStep(lookup, ms[..k], m);
      Seqs.TakeSnoc(ms, k);
      if m.top.Some? {
        lookup := lookup[(m.plot, m.nr) := m.top.value.height];
      }
    }
    Seqs.TakeAll(ms);
  }

  /** The result row of a stem when segmentation is switched off. */
  function Unsegmented(s: SegmentMatch.Stem): Record {
    SegmentMatch.Record(s.plot, s.nr, s.x, s.y, None, None, SegmentMatch.NoSegment)
  }

  /** The rows `results` holds when segmentation is switched off: one per stem, in order. */
  function SegmentationOff(survey: seq<SegmentMatch.Stem>): seq<Record> {
    Seqs.Map(Unsegmented, survey)
  }

  /** Switching segmentation off gives exactly the rows the segment matcher gives on a label
      grid without segments, in the same order. */
  lemma SegmentationOffIsEmptySegmentation(sc: SegmentMatch.Scene, peaks: seq<(int, int)>,
                                           survey: seq<SegmentMatch.Stem>)
    requires SegmentMatch.WellFormed(sc)
    requires forall r, c :: 0 <= r < |sc.labels| && 0 <= c < |sc.labels[r]| ==> sc.labels[r][c] <= 0
    ensures var stems := SegmentMatch.LocateAll(sc.t, survey);
            SegmentationOff(survey) == Seqs.Map(SegmentMatch.Expected(sc, peaks, stems), stems)
  {
    var stems := SegmentMatch.LocateAll(sc.t, survey);
    var expected := Seqs.Map(SegmentMatch.Expected(sc, peaks, stems), stems);
    forall i | 0 <= i < |survey| ensures SegmentationOff(survey)[i] == expected[i] {
      SegmentMatch.NoSegmentIff(sc, peaks, stems, stems[i]);
      assert SegmentMatch.SegmentOf(sc, stems[i]) <= 0;
    }
  }

  /** The number of result rows of class `m` (the `seg_stats` entries). */
  function CountKind(results: seq<Record>, m: SegmentMatch.MatchClass): (n: nat)
    ensures n <= |results|
  {
    if results == [] then 0
    else (if results[0].kind == m then 1 else 0) + CountKind(results[1..], m)
  }

  /** The three `seg_stats` counts add up to the number of result rows. */
  lemma {:induction false} SegStatsPartition(results: seq<Record>)
    ensures CountKind(results, SegmentMatch.Matched) + CountKind(results, SegmentMatch.Ambiguous)
            + CountKind(results, SegmentMatch.NoSegment) == |results|
  {
    if results != [] {
      SegStatsPartition(results[1..]);
    }
  }

  /** `matched_pixel_count`: rows holding a treetop. */
  function CountMatched(ms: seq<PixelMatch>): (n: nat)
    ensures n <= |ms|
  {
    if ms == [] then 0 else (if ms[0].top.Some? then 1 else 0) + CountMatched(ms[1..])
  }

  /** `unmatched_pixel_count`: rows without treetop. */
  function CountUnmatched(ms: seq<PixelMatch>): (n: nat)
    ensures n <= |ms|
  {
    if ms == [] then 0 else (if ms[0].top.None? then 1 else 0) + CountUnmatched(ms[1..])
  }

  /** The matched and unmatched pixel counts add up to the number of rows. */
  lemma {:induction false} PixelCountsPartition(ms: seq<PixelMatch>)
    ensures CountMatched(ms) + CountUnmatched(ms) == |ms|
  {
    if ms != [] {
      PixelCountsPartition(ms[1..]);
    }
  }

  /** The merge loop: every result row gets `pixel_lookup.get(key, None)`. */
  method MergePixelHeights(results: array<Merged>, lookup: map<(int, int), real>)
    modifies results
    ensures forall i :: 0 <= i < results.Length ==>
              results[i] == old(results[i]).(pixel := PixelGet(lookup, old(results[i]).rec.plot, old(results[i]).rec.nr))
  {
    for i := 0 to results.Length
      invariant forall l :: 0 <= l < i ==>
                  results[l] == old(results[l]).(pixel := PixelGet(lookup, old(results[l]).rec.plot, old(results[l]).rec.nr))
      invariant forall l :: i <= l < results.Length ==> results[l] == old(results[l])
    {
      var m := results[i];
      results[i] := m.(pixel := PixelGet(lookup, m.rec.plot, m.rec.nr));
    }
  }

  /** The sort key (`Parzelle`, `Nr`). */
  function KeyOf(m: Merged): (int, int) {
    (m.rec.plot, m.rec.nr)
  }

  /** Lexicographic order on keys, strict. */
  predicate KeyLess(a: (int, int), b: (int, int)) {
    a.0 < b.0 || (a.0 == b.0 && a.1 < b.1)
  }

  ghost predicate SortedByKey(s: seq<Merged>) {
    forall i, j :: 0 <= i < j < |s| ==> !KeyLess(KeyOf(s[j]), KeyOf(s[i]))
  }

  /** The rows of `s` with key `k`, in order. */
  function WithKey(k: (int, int), s: seq<Merged>): (r: seq<Merged>)
    ensures |r| <= |s|
  {
    if s == [] then [] else (if KeyOf(s[0]) == k then [s[0]] else []) + WithKey(k, s[1..])
  }

  lemma {:induction false} WithKeyAppend(k: (int, int), a: seq<Merged>, b: seq<Merged>)
    ensures WithKey(k, a + b) == WithKey(k, a) + WithKey(k, b)
  {
    if a == [] {
      assert a + b == b;
    } else {
      var head := if KeyOf(a[0]) == k then [a[0]] else [];
      assert (a + b)[0] == a[0];
      assert (a + b)[1..] == a[1..] + b;
      assert WithKey(k, a + b) == head + WithKey(k, a[1..] + b);
      WithKeyAppend(k, a[1..], b);
    }
  }

  /** Places `x` after every row whose key is not greater than its own. */
  function Insert(x: Merged, s: seq<Merged>): (r: seq<Merged>)
    requires SortedByKey(s)
    ensures SortedByKey(r)
    ensures multiset(r) == multiset(s) + multiset{x}
    ensures |r| == |s| + 1 && (r[0] == x || (s != [] && r[0] == s[0]))
  {
    if s == [] || KeyLess(KeyOf(x), KeyOf(s[0])) then
      SortedCons(x, s);
      [x] + s
    else
      Seqs.HeadTail(s);
      var rest := Insert(x, s[1..]);
      SortedCons(s[0], rest);
      [s[0]] + rest
  }

  /** A row no greater than the first of a sorted sequence can go in front of it. */
  lemma SortedCons(y: Merged, r: seq<Merged>)
    requires SortedByKey(r) && (r != [] ==> !KeyLess(KeyOf(r[0]), KeyOf(y)))
    ensures SortedByKey([y] + r)
  {
    var s := [y] + r;
    forall i, j | 0 <= i < j < |s| ensures !KeyLess(KeyOf(s[j]), KeyOf(s[i])) {
      assert s[j] == r[j - 1];
      if i == 0 {
        assert !KeyLess(KeyOf(r[j - 1]), KeyOf(r[0])) || j == 1;
      } else {
        assert s[i] == r[i - 1];
      }
    }
  }

  /** `sorted(results, key=lambda x: (x["Parzelle"], x["Nr"]))`. */
  function SortByKey(s: seq<Merged>): (r: seq<Merged>)
    ensures SortedByKey(r)
    ensures multiset(r) == multiset(s)
  {
    if s == [] then []
    else
      assert s == s[..|s| - 1] + [s[|s| - 1]];
      Insert(s[|s| - 1], SortByKey(s[..|s| - 1]))
  }

  /** Inserting `x` appends it to the rows sharing its key and leaves the others alone. */
  lemma {:induction false} InsertWithKey(k: (int, int), x: Merged, s: seq<Merged>)
    requires SortedByKey(s)
    ensures WithKey(k, Insert(x, s)) == WithKey(k, s) + (if KeyOf(x) == k then [x] else [])
  {
    var tail := if KeyOf(x) == k then [x] else [];
    if s == [] || KeyLess(KeyOf(x), KeyOf(s[0])) {
      assert Insert(x, s) == [x] + s;
      WithKeyCons(k, x, s);
      if KeyOf(x) == k && s != [] {
        NoneWithKey(k, s);
      }
      assert KeyOf(x) == k ==> WithKey(k, s) == [];
    } else {
      var head := if KeyOf(s[0]) == k then [s[0]] else [];
      var rest := Insert(x, s[1..]);
      Seqs.HeadTail(s);
      calc {
        WithKey(k, Insert(x, s));
        { assert Insert(x, s) == [s[0]] + rest; }
        WithKey(k, [s[0]] + rest);
        { WithKeyCons(k, s[0], rest); }
        head + WithKey(k, rest);
        { InsertWithKey(k, x, s[1..]); }
        head + (WithKey(k, s[1..]) + tail);
        { Seqs.Assoc(head, WithKey(k, s[1..]), tail); }
        (head + WithKey(k, s[1..])) + tail;
        { WithKeyCons(k, s[0], s[1..]); }
        WithKey(k, s) + tail;
      }
    }
  }

  lemma WithKeyCons(k: (int, int), y: Merged, s: seq<Merged>)
    ensures WithKey(k, [y] + s) == (if KeyOf(y) == k then [y] else []) + WithKey(k, s)
  {
    assert ([y] + s)[1..] == s;
  }

  /** No row of a sorted sequence whose first key exceeds `k` has key `k`. */
  lemma {:induction false} NoneWithKey(k: (int, int), s: seq<Merged>)
    requires SortedByKey(s) && s != [] && KeyLess(k, KeyOf(s[0]))
    ensures WithKey(k, s) == []
  {
    if |s| > 1 {
      assert !KeyLess(KeyOf(s[1]), KeyOf(s[0]));
      NoneWithKey(k, s[1..]);
    }
  }

  /** The sort is stable: the rows sharing a key keep their relative order. */
  lemma {:induction false} SortStable(k: (int, int), s: seq<Merged>)
    ensures WithKey(k, SortByKey(s)) == WithKey(k, s)
  {
    if s != [] {
      var init, last := s[..|s| - 1], s[|s| - 1];
      Seqs.InitLast(s);
      calc {
        WithKey(k, SortByKey(s));
        WithKey(k, Insert(last, SortByKey(init)));
        { InsertWithKey(k, last, SortByKey(init)); }
        WithKey(k, SortByKey(init)) + (if KeyOf(last) == k then [last] else []);
        { SortStable(k, init); WithKeyCons(k, last, []); }
        WithKey(k, init) + WithKey(k, [last]);
        { WithKeyAppend(k, init, [last]); }
        WithKey(k, s);
      }
    }
  }

  /** A result row with its pixel height from `ms`. */
  function WithPixel(ms: seq<PixelMatch>): Record -> Merged {
    (r: Record) => PointMatch.Merged(r, PixelHeight(ms, r.plot, r.nr))
  }

  /** Step 6: merge the pixel heights into the result rows and sort them. */
  method MergeAndSort(results: seq<Record>, ms: seq<PixelMatch>) returns (rows: seq<Merged>)
    ensures SortedByKey(rows)
    ensures multiset(rows) == multiset(Seqs.Map(WithPixel(ms), results))
    ensures forall k :: WithKey(k, rows) == WithKey(k, Seqs.Map(WithPixel(ms), results))
  {
    var lookup := BuildPixelLookup(ms);
    var merged := new Merged[|results|](i requires 0 <= i < |results| => PointMatch.Merged(results[i], None));
    MergePixelHeights(merged, lookup);
    assert merged[..] == Seqs.Map(WithPixel(ms), results);
    rows := SortByKey(merged[..]);
    forall k {
      SortStable(k, merged[..]);
    }
  }

  /** Steps 4 to 6 of `run_everything`: match stems to treetops and rescue unmatched stems
      (`pixelRows`), take the segment matcher's rows or the segmentation-off rows, then merge
      the pixel heights and sort. Fails exactly when the assignment solver does. */
  method RunMatching(useSegmentation: bool, sc: SegmentMatch.Scene, peaks: seq<(int, int)>,
                     survey: seq<SegmentMatch.Stem>, tops: seq<PointMatch.Top>, maxD: real, radius: real,
                     solve: Grid<PointMatch.Cost> -> Option<seq<(int, int)>>)
    returns (r: Result<seq<Merged>, string>, pixelRows: seq<PixelMatch>)
    requires PointMatch.Assigns(solve)
    requires SegmentMatch.WellFormed(sc)
    ensures r.Err? <==> !PointMatch.NoEligible(survey, tops, maxD) &&
                        solve(PointMatch.Reduced(survey, tops, maxD)).None?
    ensures r.Ok? ==> SortedByKey(r.value) && |r.value| == |survey|
    ensures r.Ok? && !useSegmentation ==>
              multiset(r.value) == multiset(Seqs.Map(WithPixel(pixelRows), SegmentationOff(survey)))
    ensures r.Ok? && useSegmentation ==>
              var stems := SegmentMatch.LocateAll(sc.t, survey);
              multiset(r.value) ==
              multiset(Seqs.Map(WithPixel(pixelRows), Seqs.Map(SegmentMatch.Expected(sc, peaks, stems), stems)))
  {
    var matched, _ := PointMatch.MatchStemsToTreetops(survey, tops, maxD, solve);
    if matched.Err? {
      r, pixelRows := Err(matched.error), [];
      return;
    }
    pixelRows := PointMatch.RescueUnmatched(matched.value, tops, radius);
    var results: seq<Record>;
    if useSegmentation {
      var unmatchedTops;
      results, unmatchedTops := SegmentMatch.SegmentMatchStems(sc, peaks, survey);
      var stems := SegmentMatch.LocateAll(sc.t, survey);
      Seqs.MapPermutation(WithPixel(pixelRows), results, Seqs.Map(SegmentMatch.Expected(sc, peaks, stems), stems));
      Seqs.PermutationLength(results, Seqs.Map(SegmentMatch.Expected(sc, peaks, stems), stems));
    } else {
      results := SegmentationOff(survey);
    }
    var rows := MergeAndSort(results, pixelRows);
    Seqs.PermutationLength(rows, Seqs.Map(WithPixel(pixelRows), results));
    r := Ok(rows);
  }
}
