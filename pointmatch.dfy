/** Distance-based matching of stems to detected treetops (`match_stems_to_treetops`), the
    rescue pass for stems left without a treetop (`process_unmatched_stems`) and the merge of
    pixel heights into result records (`merge_dictionaries`).

    Distances are compared squared: `sqrt(d2) <= limit` is `limit >= 0 && d2 <= limit * limit`
    (`WithinIff`). The assignment solver is a parameter with a contract. */
module PointMatch {
  import opened Outcomes
  import opened Grids
  import Seqs
  import SegmentMatch

  type Stem = SegmentMatch.Stem

  /** A detected treetop: map position and height. */
  datatype Top = Top(x: real, y: real, height: real)

  /** A row of `matched_data`: the stem and, when matched, its treetop. */
  datatype PixelMatch = PixelMatch(plot: int, nr: int, stemX: real, stemY: real, top: Option<Top>)

  function UnmatchedOf(s: Stem): PixelMatch {
    PixelMatch(s.plot, s.nr, s.x, s.y, None)
  }

  function MatchedOf(s: Stem, t: Top): PixelMatch {
    PixelMatch(s.plot, s.nr, s.x, s.y, Some(t))
  }

  function Dist2(ax: real, ay: real, bx: real, bY: real): real {
    (ax - bx) * (ax - bx) + (ay - bY) * (ay - bY)
  }

  /** A squared distance `d2` is within `limit`. */
  predicate Within(d2: real, limit: real) {
    limit >= 0.0 && d2 <= limit * limit
  }

  /** For the non-negative root `dist` of `d2`, `dist <= limit` is `Within(d2, limit)`. */
  lemma WithinIff(d2: real, dist: real, limit: real)
    requires dist >= 0.0 && dist * dist == d2
    ensures dist <= limit <==> Within(d2, limit)
  {
    if dist <= limit {
      assert dist * dist <= dist * limit;
      assert dist * limit <= limit * limit;
    } else if limit >= 0.0 {
      assert limit * limit <= limit * dist;
      assert limit * dist < dist * dist;
    }
  }

  /** Stem `s` and treetop `t` may be matched under `max_distance`. */
  predicate Eligible(s: Stem, t: Top, maxD: real) {
    Within(Dist2(s.x, s.y, t.x, t.y), maxD)
  }

  /** A cost-matrix entry: a squared distance, or `np.inf` for an ineligible pair. */
  datatype Cost = Finite(d2: real) | Inf

  function CostOf(s: Stem, t: Top, maxD: real): (c: Cost)
    ensures c.Finite? <==> Eligible(s, t, maxD)
    ensures c.Finite? ==> c.d2 == Dist2(s.x, s.y, t.x, t.y)
  {
    if Eligible(s, t, maxD) then Finite(Dist2(s.x, s.y, t.x, t.y)) else Inf
  }

  /** The cost matrix, one row per stem and one column per treetop. */
  function Costs(stems: seq<Stem>, tops: seq<Top>, maxD: real): (g: Grid<Cost>)
    ensures |g| == |stems|
    ensures forall i :: 0 <= i < |stems| ==> |g[i]| == |tops|
  {
    seq(|stems|, i requires 0 <= i < |stems| =>
      seq(|tops|, j requires 0 <= j < |tops| => CostOf(stems[i], tops[j], maxD)))
  }

  /** The contents of a cost array. */
  function Snapshot(cost: array2<Cost>): Grid<Cost>
    reads cost
  {
    seq(cost.Length0, i requires 0 <= i < cost.Length0 reads cost =>
      seq(cost.Length1, j requires 0 <= j < cost.Length1 reads cost => cost[i, j]))
  }

  /** The nested loops filling `cost_matrix` from `np.full(..., np.inf)`. */
  method BuildCostMatrix(stems: seq<Stem>, tops: seq<Top>, maxD: real) returns (cost: array2<Cost>)
    ensures fresh(cost)
    ensures Snapshot(cost) == Costs(stems, tops, maxD)
  {
    cost := new Cost[|stems|, |tops|]((i, j) => Inf);
    for i := 0 to |stems|
      invariant forall r, c :: 0 <= r < i && 0 <= c < |tops| ==> cost[r, c] == CostOf(stems[r], tops[c], maxD)
      invariant forall r, c :: i <= r < |stems| && 0 <= c < |tops| ==> cost[r, c] == Inf
    {
      for j := 0 to |tops|
        invariant forall r, c :: 0 <= r < i && 0 <= c < |tops| ==> cost[r, c] == CostOf(stems[r], tops[c], maxD)
        invariant forall c :: 0 <= c < j ==> cost[i, c] == CostOf(stems[i], tops[c], maxD)
        invariant forall r, c :: i <= r < |stems| && 0 <= c < |tops| && (r > i || c >= j) ==> cost[r, c] == Inf
      {
        var d2 := Dist2(stems[i].x, stems[i].y, tops[j].x, tops[j].y);
        if Within(d2, maxD) {
          cost[i, j] := Finite(d2);
        }
      }
    }
    assert forall i :: 0 <= i < |stems| ==> Snapshot(cost)[i] == Costs(stems, tops, maxD)[i];
  }

  /** `np.any(row != np.inf)`. */
  function AnyFinite(row: seq<Cost>): (b: bool)
    ensures b <==> exists j :: 0 <= j < |row| && row[j].Finite?
  {
    if row == [] then false else row[0].Finite? || AnyFinite(row[1..])
  }

  /** `np.any(m != np.inf)` over a whole matrix. */
  function AnyFiniteIn(m: Grid<Cost>): (b: bool)
    ensures b <==> exists r :: 0 <= r < |m| && AnyFinite(m[r])
  {
    if m == [] then false else AnyFinite(m[0]) || AnyFiniteIn(m[1..])
  }

  /** Column `j` of a grid whose rows all have more than `j` cells. */
  function Column(g: Grid<Cost>, j: nat): (col: seq<Cost>)
    requires forall i :: 0 <= i < |g| ==> j < |g[i]|
    ensures |col| == |g| && forall i :: 0 <= i < |g| ==> col[i] == g[i][j]
  {
    seq(|g|, i requires 0 <= i < |g| => g[i][j])
  }

  /** `valid_stem_indices`: the rows holding a finite entry. */
  function RowMask(g: Grid<Cost>): (mask: seq<bool>)
    ensures |mask| == |g| && forall i :: 0 <= i < |g| ==> mask[i] == AnyFinite(g[i])
  {
    seq(|g|, i requires 0 <= i < |g| => AnyFinite(g[i]))
  }

  /** `valid_treetop_indices`: the columns holding a finite entry. */
  function ColMask(g: Grid<Cost>, w: nat): (mask: seq<bool>)
    requires forall i :: 0 <= i < |g| ==> |g[i]| == w
    ensures |mask| == w && forall j :: 0 <= j < w ==> mask[j] == AnyFinite(Column(g, j))
  {
    seq(w, j requires 0 <= j < w => AnyFinite(Column(g, j)))
  }

  function Negate(mask: seq<bool>): (r: seq<bool>)
    ensures |r| == |mask| && forall i :: 0 <= i < |mask| ==> r[i] == !mask[i]
  {
    seq(|mask|, i requires 0 <= i < |mask| => !mask[i])
  }

  /** `np.where(mask)[0]`: the positions holding `true`, in increasing order. */
  function Where(mask: seq<bool>): (r: seq<nat>)
    ensures forall k :: 0 <= k < |r| ==> r[k] < |mask| && mask[r[k]]
    ensures forall i :: 0 <= i < |mask| && mask[i] ==> i in r
    ensures forall a, b :: 0 <= a < b < |r| ==> r[a] < r[b]
    ensures |r| <= |mask|
  {
    if mask == [] then []
    else Where(mask[..|mask| - 1]) + (if mask[|mask| - 1] then [|mask| - 1] else [])
  }

  lemma {:induction false} WhereAll(mask: seq<bool>)
    requires forall i :: 0 <= i < |mask| ==> mask[i]
    ensures |Where(mask)| == |mask| && forall k :: 0 <= k < |mask| ==> Where(mask)[k] == k
  {
    if mask != [] {
      WhereAll(mask[..|mask| - 1]);
    }
  }

  /** `cost_matrix[np.ix_(rows, cols)]`. */
  function Reduce(g: Grid<Cost>, rows: seq<nat>, cols: seq<nat>, w: nat): (m: Grid<Cost>)
    requires forall i :: 0 <= i < |g| ==> |g[i]| == w
    requires forall k :: 0 <= k < |rows| ==> rows[k] < |g|
    requires forall k :: 0 <= k < |cols| ==> cols[k] < w
    ensures |m| == |rows| && forall r :: 0 <= r < |rows| ==> |m[r]| == |cols|
    ensures forall r, c :: 0 <= r < |rows| && 0 <= c < |cols| ==> m[r][c] == g[rows[r]][cols[c]]
  {
    seq(|rows|, r requires 0 <= r < |rows| =>
      seq(|cols|, c requires 0 <= c < |cols| => g[rows[r]][cols[c]]))
  }

  /** The stems with at least one eligible treetop, by index. */
  function Matchable(stems: seq<Stem>, tops: seq<Top>, maxD: real): seq<nat> {
    Where(RowMask(Costs(stems, tops, maxD)))
  }

  /** The stems with no eligible treetop, by index (`np.where(~valid_stem_indices)`). */
  function Unmatchable(stems: seq<Stem>, tops: seq<Top>, maxD: real): seq<nat> {
    Where(Negate(RowMask(Costs(stems, tops, maxD))))
  }

  /** The treetops with at least one eligible stem, by index. */
  function Reachable(stems: seq<Stem>, tops: seq<Top>, maxD: real): seq<nat> {
    Where(ColMask(Costs(stems, tops, maxD), |tops|))
  }

  /** The cost matrix cut down to its matchable stems and reachable treetops. */
  function Reduced(stems: seq<Stem>, tops: seq<Top>, maxD: real): Grid<Cost> {
    Reduce(Costs(stems, tops, maxD), Matchable(stems, tops, maxD), Reachable(stems, tops, maxD), |tops|)
  }

  predicate NoEligible(stems: seq<Stem>, tops: seq<Top>, maxD: real) {
    forall i, j :: 0 <= i < |stems| && 0 <= j < |tops| ==> !Eligible(stems[i], tops[j], maxD)
  }

  /** `a` assigns rows of `m` to columns of `m`, no row and no column twice. */
  ghost predicate IsAssignment(m: Grid<Cost>, a: seq<(int, int)>) {
    && (forall k :: 0 <= k < |a| ==> 0 <= a[k].0 < |m| && 0 <= a[k].1 < |m[a[k].0]|)
    && (forall k, l :: 0 <= k < l < |a| ==> a[k].0 != a[l].0 && a[k].1 != a[l].1)
  }

  /** The contract of `linear_sum_assignment`: an assignment, or `None` where scipy raises
      because no complete assignment of finite cost exists. */
  ghost predicate Assigns(solve: Grid<Cost> -> Option<seq<(int, int)>>) {
    forall m :: solve(m).Some? ==> IsAssignment(m, solve(m).value)
  }

  /** A matrix with a matchable stem has a finite entry after reduction. */
  lemma ReducedHasFinite(stems: seq<Stem>, tops: seq<Top>, maxD: real)
    requires |Matchable(stems, tops, maxD)| > 0
    ensures |Reachable(stems, tops, maxD)| > 0
    ensures AnyFiniteIn(Reduced(stems, tops, maxD))
  {
    var g := Costs(stems, tops, maxD);
    var i := Matchable(stems, tops, maxD)[0];
    assert AnyFinite(g[i]);
    var j :| 0 <= j < |tops| && g[i][j].Finite?;
    assert Column(g, j)[i] == g[i][j];
    assert ColMask(g, |tops|)[j];
    var cols := Reachable(stems, tops, maxD);
    var c :| 0 <= c < |cols| && cols[c] == j;
    assert Reduced(stems, tops, maxD)[0][c] == g[i][j];
    assert AnyFinite(Reduced(stems, tops, maxD)[0]);
  }

  /** A stem is matchable exactly when some treetop is eligible for it. */
  lemma MatchableIff(stems: seq<Stem>, tops: seq<Top>, maxD: real, i: nat)
    requires i < |stems|
    ensures i in Matchable(stems, tops, maxD) <==> exists j :: 0 <= j < |tops| && Eligible(stems[i], tops[j], maxD)
    ensures i in Unmatchable(stems, tops, maxD) <==> !(i in Matchable(stems, tops, maxD))
  {
    var g := Costs(stems, tops, maxD);
    assert RowMask(g)[i] == AnyFinite(g[i]);
    if exists j :: 0 <= j < |tops| && Eligible(stems[i], tops[j], maxD) {
      var j :| 0 <= j < |tops| && Eligible(stems[i], tops[j], maxD);
      assert g[i][j].Finite?;
    }
  }

  /** No stem is matchable exactly when no pair is eligible. */
  lemma NothingMatchable(stems: seq<Stem>, tops: seq<Top>, maxD: real)
    ensures |Matchable(stems, tops, maxD)| == 0 <==> NoEligible(stems, tops, maxD)
  {
    if !NoEligible(stems, tops, maxD) {
      var i, j :| 0 <= i < |stems| && 0 <= j < |tops| && Eligible(stems[i], tops[j], maxD);
      MatchableIff(stems, tops, maxD, i);
    } else if |Matchable(stems, tops, maxD)| > 0 {
      MatchableIff(stems, tops, maxD, Matchable(stems, tops, maxD)[0]);
    }
  }

  /** With no eligible pair every stem is unmatchable, in order. */
  lemma AllUnmatchable(stems: seq<Stem>, tops: seq<Top>, maxD: real)
    requires NoEligible(stems, tops, maxD)
    ensures |Unmatchable(stems, tops, maxD)| == |stems|
    ensures forall k :: 0 <= k < |stems| ==> Unmatchable(stems, tops, maxD)[k] == k
  {
    var g := Costs(stems, tops, maxD);
    forall i | 0 <= i < |stems| ensures Negate(RowMask(g))[i] {
      MatchableIff(stems, tops, maxD, i);
    }
    WhereAll(Negate(RowMask(g)));
  }

  /** What the reduced matrix says about the original indices: `rows` and `cols` increase
      strictly and are in range, and a finite cell is an eligible pair. */
  ghost predicate ReducedFrom(stems: seq<Stem>, tops: seq<Top>, maxD: real,
                              rows: seq<nat>, cols: seq<nat>, reduced: Grid<Cost>)
  {
    && |reduced| == |rows|
    && (forall r :: 0 <= r < |rows| ==> |reduced[r]| == |cols| && rows[r] < |stems|)
    && (forall c :: 0 <= c < |cols| ==> cols[c] < |tops|)
    && (forall a, b :: 0 <= a < b < |rows| ==> rows[a] < rows[b])
    && (forall a, b :: 0 <= a < b < |cols| ==> cols[a] < cols[b])
    && (forall r, c :: 0 <= r < |rows| && 0 <= c < |cols| && reduced[r][c].Finite? ==>
          Eligible(stems[rows[r]], tops[cols[c]], maxD))
  }

  lemma ReducedFacts(stems: seq<Stem>, tops: seq<Top>, maxD: real)
    ensures ReducedFrom(stems, tops, maxD, Matchable(stems, tops, maxD), Reachable(stems, tops, maxD),
                        Reduced(stems, tops, maxD))
  {
    var g := Costs(stems, tops, maxD);
    var rows, cols := Matchable(stems, tops, maxD), Reachable(stems, tops, maxD);
    forall r, c | 0 <= r < |rows| && 0 <= c < |cols| && Reduced(stems, tops, maxD)[r][c].Finite?
      ensures Eligible(stems[rows[r]], tops[cols[c]], maxD)
    {
      assert Reduced(stems, tops, maxD)[r][c] == g[rows[r]][cols[c]];
    }
  }

  /** The loop over the solver's pairs keeping those of finite cost, translated back to
      original stem and treetop indices. */
  method CollectAssigned(stems: seq<Stem>, tops: seq<Top>, maxD: real,
                         rows: seq<nat>, cols: seq<nat>, reduced: Grid<Cost>, pairs: seq<(int, int)>)
    returns (matched: seq<PixelMatch>, pairing: seq<(nat, nat)>)
    requires ReducedFrom(stems, tops, maxD, rows, cols, reduced)
    requires IsAssignment(reduced, pairs)
    ensures |matched| == |pairing|
    ensures forall l :: 0 <= l < |pairing| ==>
              && pairing[l].0 < |stems| && pairing[l].1 < |tops|
              && Eligible(stems[pairing[l].0], tops[pairing[l].1], maxD)
              && matched[l] == MatchedOf(stems[pairing[l].0], tops[pairing[l].1])
    ensures forall l, l' :: 0 <= l < l' < |pairing| ==> pairing[l].0 != pairing[l'].0 && pairing[l].1 != pairing[l'].1
  {
    matched, pairing := [], [];
    ghost var origin: seq<nat> := [];
    for k := 0 to |pairs|
      invariant Collected(stems, tops, maxD, rows, cols, pairs, k, matched, pairing, origin)
    {
      var rr, cc := pairs[k].0, pairs[k].1;
      if reduced[rr][cc].Finite? {
        CollectStep(stems, tops, maxD, rows, cols, reduced, pairs, k, matched, pairing, origin);
        var i, j := rows[rr], cols[cc];
        ghost var from: nat := k;
        matched := matched + [MatchedOf(stems[i], tops[j])];
        pairing := pairing + [(i, j)];
        origin := origin + [from];
      }
    }
  }

  /** What `CollectAssigned` has after the first `k` solver pairs: one row per kept pair, each
      an eligible stem and treetop, no stem and no treetop twice; `origin` names the solver
      pair each row came from. */
  ghost predicate Collected(stems: seq<Stem>, tops: seq<Top>, maxD: real, rows: seq<nat>, cols: seq<nat>,
                            pairs: seq<(int, int)>, k: nat,
                            matched: seq<PixelMatch>, pairing: seq<(nat, nat)>, origin: seq<nat>)
  {
    && |matched| == |pairing| == |origin|
    && (forall l :: 0 <= l < |pairing| ==>
          && pairing[l].0 < |stems| && pairing[l].1 < |tops|
          && Eligible(stems[pairing[l].0], tops[pairing[l].1], maxD)
          && matched[l] == MatchedOf(stems[pairing[l].0], tops[pairing[l].1]))
    && (forall l :: 0 <= l < |origin| ==>
          && origin[l] < k && origin[l] < |pairs|
          && 0 <= pairs[origin[l]].0 < |rows| && 0 <= pairs[origin[l]].1 < |cols|
          && pairing[l] == (rows[pairs[origin[l]].0], cols[pairs[origin[l]].1]))
    && (forall l, l' :: 0 <= l < l' < |pairing| ==> pairing[l].0 != pairing[l'].0 && pairing[l].1 != pairing[l'].1)
  }

  /** Keeping the `k`-th solver pair, of finite cost, keeps `Collected`. */
  lemma CollectStep(stems: seq<Stem>, tops: seq<Top>, maxD: real, rows: seq<nat>, cols: seq<nat>,
                    reduced: Grid<Cost>, pairs: seq<(int, int)>, k: nat,
                    matched: seq<PixelMatch>, pairing: seq<(nat, nat)>, origin: seq<nat>)
    requires ReducedFrom(stems, tops, maxD, rows, cols, reduced)
    requires IsAssignment(reduced, pairs) && k < |pairs|
    requires Collected(stems, tops, maxD, rows, cols, pairs, k, matched, pairing, origin)
    requires reduced[pairs[k].0][pairs[k].1].Finite?
    ensures rows[pairs[k].0] < |stems| && cols[pairs[k].1] < |tops|
    ensures var i, j := rows[pairs[k].0], cols[pairs[k].1];
            Collected(stems, tops, maxD, rows, cols, pairs, k + 1,
                      matched + [MatchedOf(stems[i], tops[j])], pairing + [(i, j)], origin + [k])
  {
    NewPairDistinct(stems, tops, maxD, rows, cols, reduced, pairs, origin, pairing, k);
  }

  /** A solver pair taken after the pairs at `origin` translates to a stem and a treetop
      that none of them has: rows and columns of an assignment are distinct and the index
      maps increase strictly. */
  lemma NewPairDistinct(stems: seq<Stem>, tops: seq<Top>, maxD: real, rows: seq<nat>, cols: seq<nat>,
                        reduced: Grid<Cost>, pairs: seq<(int, int)>, origin: seq<nat>,
                        pairing: seq<(nat, nat)>, k: nat)
    requires ReducedFrom(stems, tops, maxD, rows, cols, reduced)
    requires IsAssignment(reduced, pairs) && k < |pairs|
    requires |origin| == |pairing|
    requires forall l :: 0 <= l < |origin| ==>
               origin[l] < k && pairing[l] == (rows[pairs[origin[l]].0], cols[pairs[origin[l]].1])
    ensures forall l :: 0 <= l < |pairing| ==>
              pairing[l].0 != rows[pairs[k].0] && pairing[l].1 != cols[pairs[k].1]
  {
    var rr, cc := pairs[k].0, pairs[k].1;
    forall l | 0 <= l < |pairing| ensures pairing[l].0 != rows[rr] && pairing[l].1 != cols[cc] {
      var p := origin[l];
      assert pairs[p].0 != rr && pairs[p].1 != cc;
      if pairs[p].0 < rr { assert rows[pairs[p].0] < rows[rr]; } else { assert rows[rr] < rows[pairs[p].0]; }
      if pairs[p].1 < cc { assert cols[pairs[p].1] < cols[cc]; } else { assert cols[cc] < cols[pairs[p].1]; }
    }
  }

  /** The rows `out` with pairing `pairing`: first one row per pair (an eligible stem and
      treetop), then one row without treetop per unmatchable stem, in order. */
  ghost predicate Assembled(stems: seq<Stem>, tops: seq<Top>, maxD: real,
                            out: seq<PixelMatch>, pairing: seq<(nat, nat)>)
  {
    && |out| == |pairing| + |Unmatchable(stems, tops, maxD)|
    && (forall k :: 0 <= k < |pairing| ==>
          && pairing[k].0 < |stems| && pairing[k].1 < |tops|
          && Eligible(stems[pairing[k].0], tops[pairing[k].1], maxD)
          && out[k] == MatchedOf(stems[pairing[k].0], tops[pairing[k].1]))
    && (forall k :: 0 <= k < |Unmatchable(stems, tops, maxD)| ==>
          out[|pairing| + k] == UnmatchedOf(stems[Unmatchable(stems, tops, maxD)[k]]))
  }

  /** With no eligible pair, the rows without treetop of all stems are assembled. */
  lemma AllUnmatchedAssembled(stems: seq<Stem>, tops: seq<Top>, maxD: real)
    requires NoEligible(stems, tops, maxD)
    ensures Assembled(stems, tops, maxD, Seqs.Map(UnmatchedOf, stems), [])
  {
    AllUnmatchable(stems, tops, maxD);
    var u := Unmatchable(stems, tops, maxD);
    var out := Seqs.Map(UnmatchedOf, stems);
    var none: seq<(nat, nat)> := [];
    assert |out| == |none| + |u|;
    forall k | 0 <= k < |u| ensures out[|none| + k] == UnmatchedOf(stems[u[k]]) {
      assert u[k] == k;
    }
  }

  /** The loop appending a row without treetop for every unmatchable stem. */
  method AppendUnmatchable(stems: seq<Stem>, tops: seq<Top>, maxD: real,
                           matched: seq<PixelMatch>, pairing: seq<(nat, nat)>)
    returns (rows: seq<PixelMatch>)
    requires |matched| == |pairing|
    requires forall k :: 0 <= k < |pairing| ==>
               && pairing[k].0 < |stems| && pairing[k].1 < |tops|
               && Eligible(stems[pairing[k].0], tops[pairing[k].1], maxD)
               && matched[k] == MatchedOf(stems[pairing[k].0], tops[pairing[k].1])
    ensures Assembled(stems, tops, maxD, rows, pairing)
  {
    var unmatchable := Unmatchable(stems, tops, maxD);
    rows := matched;
    for k := 0 to |unmatchable|
      invariant |rows| == |matched| + k
      invariant rows[..|matched|] == matched
      invariant forall l :: 0 <= l < k ==> rows[|matched| + l] == UnmatchedOf(stems[unmatchable[l]])
    {
      rows := rows + [UnmatchedOf(stems[unmatchable[k]])];
    }
    assert forall k :: 0 <= k < |pairing| ==> rows[k] == matched[k];
  }

  /** `valid_stem_indices`, `valid_treetop_indices` and `reduced_cost_matrix`. */
  method ReduceCostMatrix(stems: seq<Stem>, tops: seq<Top>, maxD: real, cost: array2<Cost>)
    returns (rows: seq<nat>, cols: seq<nat>, reduced: Grid<Cost>)
    requires Snapshot(cost) == Costs(stems, tops, maxD)
    ensures rows == Matchable(stems, tops, maxD) && cols == Reachable(stems, tops, maxD)
    ensures reduced == Reduced(stems, tops, maxD)
    ensures |reduced| == |rows| && forall r :: 0 <= r < |rows| ==> |reduced[r]| == |cols|
  {
    var g := Snapshot(cost);
    rows := Where(RowMask(g));
    cols := Where(ColMask(g, |tops|));
    reduced := Reduce(g, rows, cols, |tops|);
  }

  /** `match_stems_to_treetops`. Returns the rows of the assigned pairs, then the stems with
      no eligible treetop; `pairing` gives the original (stem, treetop) indices of the
      assigned rows. Stems that had an eligible treetop but were left out by the
      assignment get no row at all. */
  method MatchStemsToTreetops(stems: seq<Stem>, tops: seq<Top>, maxD: real,
                              solve: Grid<Cost> -> Option<seq<(int, int)>>)
    returns (r: Result<seq<PixelMatch>, string>, pairing: seq<(nat, nat)>)
    requires Assigns(solve)
    ensures NoEligible(stems, tops, maxD) ==> r == Ok(Seqs.Map(UnmatchedOf, stems))
    ensures r.Err? <==> !NoEligible(stems, tops, maxD) && solve(Reduced(stems, tops, maxD)).None?
    ensures r.Ok? ==> Assembled(stems, tops, maxD, r.value, pairing)
    ensures forall k, l :: 0 <= k < l < |pairing| ==> pairing[k].0 != pairing[l].0 && pairing[k].1 != pairing[l].1
  {
    var cost := BuildCostMatrix(stems, tops, maxD);
    var rows, cols, reduced := ReduceCostMatrix(stems, tops, maxD, cost);
    pairing := [];
    NothingMatchable(stems, tops, maxD);
    if |rows| > 0 {
      ReducedHasFinite(stems, tops, maxD);
    }
    if |rows| == 0 || |cols| == 0 || !AnyFiniteIn(reduced) {
      AllUnmatchedAssembled(stems, tops, maxD);
      r := Ok(Seqs.Map(UnmatchedOf, stems));
      return;
    }
    var assignment := solve(reduced);
    if assignment.None? {
      r := Err("cost matrix is infeasible");
      return;
    }
    ReducedFacts(stems, tops, maxD);
    var matched;
    matched, pairing := CollectAssigned(stems, tops, maxD, rows, cols, reduced, assignment.value);
    var all := AppendUnmatchable(stems, tops, maxD, matched, pairing);
    r := Ok(all);
  }

  /** At most `n` pairs whose second components are distinct and below `n`. */
  lemma {:induction false} DistinctSecondsBound(pairing: seq<(nat, nat)>, n: nat)
    requires forall k :: 0 <= k < |pairing| ==> pairing[k].1 < n
    requires forall k, l :: 0 <= k < l < |pairing| ==> pairing[k].1 != pairing[l].1
    ensures |pairing| <= n
    decreases |pairing|
  {
    if pairing != [] {
      var v := pairing[|pairing| - 1].1;
      var init := pairing[..|pairing| - 1];
      var shifted := seq(|init|, k requires 0 <= k < |init| =>
        (init[k].0, if init[k].1 > v then init[k].1 - 1 else init[k].1));
      forall k | 0 <= k < |shifted| ensures shifted[k].1 < n - 1 {
        assert init[k].1 != v;
      }
      DistinctSecondsBound(shifted, n - 1);
    }
  }

  /** Stems can be dropped: when every stem has an eligible treetop but there are fewer
      treetops than stems, the result has fewer rows than there are stems. */
  lemma AssignmentDropsStems(stems: seq<Stem>, tops: seq<Top>, maxD: real,
                             out: seq<PixelMatch>, pairing: seq<(nat, nat)>)
    requires Assembled(stems, tops, maxD, out, pairing)
    requires forall k, l :: 0 <= k < l < |pairing| ==> pairing[k].1 != pairing[l].1
    requires forall i :: 0 <= i < |stems| ==> exists j :: 0 <= j < |tops| && Eligible(stems[i], tops[j], maxD)
    requires |tops| < |stems|
    ensures |out| < |stems|
  {
    DistinctSecondsBound(pairing, |tops|);
    var u := Unmatchable(stems, tops, maxD);
    if |u| > 0 {
      MatchableIff(stems, tops, maxD, u[0]);
    }
  }

  /** Two stems 2 m apart with one treetop midway, `max_distance` 1.5: whatever the solver
      assigns, one stem is missing from the result. */
  lemma TwoStemsOneTop(out: seq<PixelMatch>, pairing: seq<(nat, nat)>)
    requires Assembled([SegmentMatch.Stem(1, 1, 0.0, 0.0), SegmentMatch.Stem(1, 2, 2.0, 0.0)],
                       [Top(1.0, 0.0, 20.0)], 1.5, out, pairing)
    requires forall k, l :: 0 <= k < l < |pairing| ==> pairing[k].1 != pairing[l].1
    ensures |out| < 2
  {
    var stems := [SegmentMatch.Stem(1, 1, 0.0, 0.0), SegmentMatch.Stem(1, 2, 2.0, 0.0)];
    var tops := [Top(1.0, 0.0, 20.0)];
    assert Eligible(stems[0], tops[0], 1.5);
    assert Eligible(stems[1], tops[0], 1.5);
    AssignmentDropsStems(stems, tops, 1.5, out, pairing);
  }

  /** The map position of a matched row's treetop. */
  function TopKey(t: Top): (real, real) {
    (t.x, t.y)
  }

  /** `matched_treetops` on entry: positions of the treetops the rows already hold. */
  function MatchedKeys(data: seq<PixelMatch>): (keys: set<(real, real)>)
    ensures forall i :: 0 <= i < |data| && data[i].top.Some? ==> TopKey(data[i].top.value) in keys
  {
    set i | 0 <= i < |data| && data[i].top.Some? :: TopKey(data[i].top.value)
  }

  /** `unmatched_stems`: the rows without treetop, in order. */
  function UnmatchedRows(data: seq<PixelMatch>): (u: seq<PixelMatch>)
    ensures forall k :: 0 <= k < |u| ==> u[k].top.None? && u[k] in data
    ensures forall i :: 0 <= i < |data| && data[i].top.None? ==> data[i] in u
  {
    if data == [] then []
    else (if data[0].top.None? then [data[0]] else []) + UnmatchedRows(data[1..])
  }

  /** `nearby_treetops`: treetops within `radius` of the row's stem whose position is not
      yet taken, in order. */
  function Nearby(u: PixelMatch, tops: seq<Top>, radius: real, taken: set<(real, real)>): (n: seq<Top>)
    ensures forall k :: 0 <= k < |n| ==>
              n[k] in tops && Within(Dist2(u.stemX, u.stemY, n[k].x, n[k].y), radius) && TopKey(n[k]) !in taken
    ensures forall t :: t in tops && Within(Dist2(u.stemX, u.stemY, t.x, t.y), radius) && TopKey(t) !in taken ==> t in n
  {
    if tops == [] then []
    else
      var t := tops[0];
      (if Within(Dist2(u.stemX, u.stemY, t.x, t.y), radius) && TopKey(t) !in taken then [t] else [])
        + Nearby(u, tops[1..], radius, taken)
  }

  /** The list comprehension replacing every row equal to `u` by `v`. */
  function ReplaceEqual(rows: seq<PixelMatch>, u: PixelMatch, v: PixelMatch): (r: seq<PixelMatch>)
    ensures |r| == |rows|
    ensures forall i :: 0 <= i < |rows| ==> r[i] == if rows[i] == u then v else rows[i]
  {
    seq(|rows|, i requires 0 <= i < |rows| => if rows[i] == u then v else rows[i])
  }

  /** Row `r` is row `d` rescued: `d` had no treetop, `r` is the same stem with a treetop
      from `tops` within `radius`. */
  predicate RescuedFrom(d: PixelMatch, r: PixelMatch, tops: seq<Top>, radius: real) {
    && d.top.None? && r.top.Some?
    && r == d.(top := r.top)
    && r.top.value in tops
    && Within(Dist2(d.stemX, d.stemY, r.top.value.x, r.top.value.y), radius)
  }

  /** What the rescue loop keeps: every row is kept or rescued with a treetop whose position
      was free on entry and is now `taken`, and rows rescued for different stems hold
      different positions. */
  ghost predicate RescueInv(data: seq<PixelMatch>, tops: seq<Top>, radius: real,
                            updated: seq<PixelMatch>, taken: set<(real, real)>)
  {
    && |updated| == |data|
    && MatchedKeys(data) <= taken
    && (forall i :: 0 <= i < |data| ==>
          updated[i] == data[i] ||
          (RescuedFrom(data[i], updated[i], tops, radius) && TopKey(updated[i].top.value) !in MatchedKeys(data)
           && TopKey(updated[i].top.value) in taken))
    && (forall i, j ::
          (0 <= i < |data| && 0 <= j < |data| && updated[i].top.Some? && updated[j].top.Some? &&
           updated[i] != data[i] && updated[j] != data[j] && data[i] != data[j]) ==>
          TopKey(updated[i].top.value) != TopKey(updated[j].top.value))
  }

  /** Giving every row equal to the unmatched row `u` the free treetop `t` nearby keeps the
      invariant once `t`'s position is taken. */
  lemma RescueStep(data: seq<PixelMatch>, tops: seq<Top>, radius: real,
                   updated: seq<PixelMatch>, taken: set<(real, real)>, u: PixelMatch, t: Top)
    requires RescueInv(data, tops, radius, updated, taken)
    requires u.top.None? && t in tops && Within(Dist2(u.stemX, u.stemY, t.x, t.y), radius) && TopKey(t) !in taken
    ensures RescueInv(data, tops, radius, ReplaceEqual(updated, u, u.(top := Some(t))), taken + {TopKey(t)})
  {
    forall i | 0 <= i < |data| && updated[i] == u ensures data[i] == u {
    }
  }

  /** One turn of the rescue loop for the unmatched row `u`: when exactly one free treetop
      lies within `radius`, every row equal to `u` takes it and its position is taken. */
  function RescueOne(u: PixelMatch, tops: seq<Top>, radius: real,
                     st: (seq<PixelMatch>, set<(real, real)>)): (seq<PixelMatch>, set<(real, real)>)
  {
    var nearby := Nearby(u, tops, radius, st.1);
    if |nearby| == 1 then (ReplaceEqual(st.0, u, u.(top := Some(nearby[0]))), st.1 + {TopKey(nearby[0])})
    else st
  }

  /** The rows and the taken positions once the rescue loop has handled the unmatched rows
      `us` in order, starting from `data` and the positions its rows hold. */
  function Rescued(us: seq<PixelMatch>, tops: seq<Top>, radius: real, data: seq<PixelMatch>)
    : (st: (seq<PixelMatch>, set<(real, real)>))
    ensures |st.0| == |data|
    ensures MatchedKeys(data) <= st.1
    ensures forall i :: 0 <= i < |data| ==> st.0[i] == data[i] || st.0[i].top.Some?
  {
    if us == [] then (data, MatchedKeys(data))
    else RescueOne(us[|us| - 1], tops, radius, Rescued(us[..|us| - 1], tops, radius, data))
  }

  /** At its turn `k`, the unmatched row `us[k]` has exactly one free treetop within `radius`. */
  predicate RescuedAt(us: seq<PixelMatch>, tops: seq<Top>, radius: real, data: seq<PixelMatch>, k: nat)
    requires k < |us|
  {
    |Nearby(us[k], tops, radius, Rescued(us[..k], tops, radius, data).1)| == 1
  }

  /** The single free treetop row `us[k]` finds at its turn. */
  function TurnTop(us: seq<PixelMatch>, tops: seq<Top>, radius: real, data: seq<PixelMatch>, k: nat): Top
    requires k < |us| && RescuedAt(us, tops, radius, data, k)
  {
    Nearby(us[k], tops, radius, Rescued(us[..k], tops, radius, data).1)[0]
  }

  /** Turn `k` is the first turn at which row `data[i]` finds exactly one free treetop. */
  predicate FirstTurn(us: seq<PixelMatch>, tops: seq<Top>, radius: real, data: seq<PixelMatch>, i: nat, k: nat)
    requires i < |data|
  {
    && k < |us| && us[k] == data[i] && RescuedAt(us, tops, radius, data, k)
    && forall k' :: 0 <= k' < k && us[k'] == data[i] ==> !RescuedAt(us, tops, radius, data, k')
  }

  /** The turns of a prefix are the turns of the whole sequence. */
  lemma PrefixTurns(us: seq<PixelMatch>, tops: seq<Top>, radius: real, data: seq<PixelMatch>, n: nat, k: nat)
    requires k < n <= |us|
    ensures RescuedAt(us[..n], tops, radius, data, k) == RescuedAt(us, tops, radius, data, k)
    ensures RescuedAt(us, tops, radius, data, k) ==> TurnTop(us[..n], tops, radius, data, k) == TurnTop(us, tops, radius, data, k)
  {
    assert us[..n][..k] == us[..k];
  }

  /** What one turn of the rescue loop does to row `i`. */
  lemma RescueOneAt(u: PixelMatch, tops: seq<Top>, radius: real, st: (seq<PixelMatch>, set<(real, real)>), i: nat)
    requires i < |st.0|
    ensures var nearby := Nearby(u, tops, radius, st.1);
            RescueOne(u, tops, radius, st).0[i] ==
              if st.0[i] == u && |nearby| == 1 then u.(top := Some(nearby[0])) else st.0[i]
  {
  }

  /** `PrefixTurns` for every turn of the prefix. */
  lemma PrefixTurnsAll(us: seq<PixelMatch>, tops: seq<Top>, radius: real, data: seq<PixelMatch>, n: nat)
    requires n <= |us|
    ensures forall k :: 0 <= k < n ==> RescuedAt(us[..n], tops, radius, data, k) == RescuedAt(us, tops, radius, data, k)
    ensures forall k :: 0 <= k < n && RescuedAt(us, tops, radius, data, k) ==>
              TurnTop(us[..n], tops, radius, data, k) == TurnTop(us, tops, radius, data, k)
  {
    forall k | 0 <= k < n
      ensures RescuedAt(us[..n], tops, radius, data, k) == RescuedAt(us, tops, radius, data, k)
      ensures RescuedAt(us, tops, radius, data, k) ==> TurnTop(us[..n], tops, radius, data, k) == TurnTop(us, tops, radius, data, k)
    {
      PrefixTurns(us, tops, radius, data, n, k);
    }
  }

  /** The turn of a row equal to `data[i]` that finds one free treetop changes row `i`. */
  lemma RescuedAtChanges(us: seq<PixelMatch>, tops: seq<Top>, radius: real, data: seq<PixelMatch>, i: nat, k: nat)
    requires forall k :: 0 <= k < |us| ==> us[k].top.None?
    requires i < |data| && k < |us| && us[k] == data[i] && RescuedAt(us, tops, radius, data, k)
    ensures Rescued(us[..k + 1], tops, radius, data).0[i] != data[i]
  {
    RescuedSnoc(us, tops, radius, data, k);
    RescueOneAt(us[k], tops, radius, Rescued(us[..k], tops, radius, data), i);
  }

  /** A changed row holds a treetop, which no later turn of an unmatched row replaces. */
  lemma {:induction false} ChangedStays(us: seq<PixelMatch>, tops: seq<Top>, radius: real, data: seq<PixelMatch>, i: nat, j: nat, k: nat)
    requires forall k :: 0 <= k < |us| ==> us[k].top.None?
    requires i < |data| && j <= k <= |us|
    requires Rescued(us[..j], tops, radius, data).0[i] != data[i]
    ensures Rescued(us[..k], tops, radius, data).0[i] == Rescued(us[..j], tops, radius, data).0[i]
    decreases k - j
  {
    if j < k {
      RescuedSnoc(us, tops, radius, data, j);
      RescueOneAt(us[j], tops, radius, Rescued(us[..j], tops, radius, data), i);
      ChangedStays(us, tops, radius, data, i, j + 1, k);
    }
  }

  /** Row `i` is changed once a turn of a row equal to it finds one free treetop. */
  lemma TurnChanges(us: seq<PixelMatch>, tops: seq<Top>, radius: real, data: seq<PixelMatch>, i: nat)
    requires forall k :: 0 <= k < |us| ==> us[k].top.None?
    requires i < |data|
    ensures forall k :: 0 <= k < |us| && us[k] == data[i] && RescuedAt(us, tops, radius, data, k) ==>
              Rescued(us, tops, radius, data).0[i] != data[i]
  {
    forall k | 0 <= k < |us| && us[k] == data[i] && RescuedAt(us, tops, radius, data, k)
      ensures Rescued(us, tops, radius, data).0[i] != data[i]
    {
      RescuedAtChanges(us, tops, radius, data, i, k);
      ChangedStays(us, tops, radius, data, i, k + 1, |us|);
      assert us[..|us|] == us;
    }
  }

  /** A changed row holds the treetop found at the first turn of a row equal to it that
      finds exactly one free treetop. */
  lemma {:induction false} ChangedAtFirstTurn(us: seq<PixelMatch>, tops: seq<Top>, radius: real, data: seq<PixelMatch>, i: nat)
    requires forall k :: 0 <= k < |us| ==> us[k].top.None?
    requires i < |data|
    ensures Rescued(us, tops, radius, data).0[i] != data[i] ==>
              exists k :: FirstTurn(us, tops, radius, data, i, k) &&
                Rescued(us, tops, radius, data).0[i] == data[i].(top := Some(TurnTop(us, tops, radius, data, k)))
  {
    if us != [] {
      var n := |us| - 1;
      var init := us[..n];
      ChangedAtFirstTurn(init, tops, radius, data, i);
      PrefixTurnsAll(us, tops, radius, data, n);
      var prev := Rescued(init, tops, radius, data);
      assert Rescued(us, tops, radius, data) == RescueOne(us[n], tops, radius, prev);
      RescueOneAt(us[n], tops, radius, prev, i);
      if prev.0[i] != data[i] {
        var k :| FirstTurn(init, tops, radius, data, i, k) &&
                 prev.0[i] == data[i].(top := Some(TurnTop(init, tops, radius, data, k)));
        assert FirstTurn(us, tops, radius, data, i, k);
      } else if us[n] == data[i] && RescuedAt(us, tops, radius, data, n) {
        TurnChanges(init, tops, radius, data, i);
        assert us[..n] == init;
        assert FirstTurn(us, tops, radius, data, i, n);
      }
    }
  }

  /** The rescue loop rescues row `i` exactly when, at some turn of a row equal to it, exactly
      one free treetop lies within `radius`; the row then holds the treetop found at the
      first such turn. */
  lemma RescueTurns(us: seq<PixelMatch>, tops: seq<Top>, radius: real, data: seq<PixelMatch>, i: nat)
    requires forall k :: 0 <= k < |us| ==> us[k].top.None?
    requires i < |data|
    ensures Rescued(us, tops, radius, data).0[i] != data[i] <==>
              exists k :: 0 <= k < |us| && us[k] == data[i] && RescuedAt(us, tops, radius, data, k)
    ensures Rescued(us, tops, radius, data).0[i] != data[i] ==>
              exists k :: FirstTurn(us, tops, radius, data, i, k) &&
                Rescued(us, tops, radius, data).0[i] == data[i].(top := Some(TurnTop(us, tops, radius, data, k)))
  {
    ChangedAtFirstTurn(us, tops, radius, data, i);
    TurnChanges(us, tops, radius, data, i);
  }

  /** The rescue pass as a whole: every row with no treetop is handled in order. */
  function RescueAll(data: seq<PixelMatch>, tops: seq<Top>, radius: real): (rows: seq<PixelMatch>)
    ensures |rows| == |data|
  {
    Rescued(UnmatchedRows(data), tops, radius, data).0
  }

  /** For an unmatched row that no other row equals: it is rescued exactly when exactly one
      free treetop lies within `radius` at its turn, and it then holds that treetop. */
  lemma {:induction false} RescueOfSingleRow(data: seq<PixelMatch>, tops: seq<Top>, radius: real, i: nat, k: nat)
    requires i < |data| && k < |UnmatchedRows(data)| && UnmatchedRows(data)[k] == data[i]
    requires forall k' :: 0 <= k' < |UnmatchedRows(data)| && k' != k ==> UnmatchedRows(data)[k'] != data[i]
    ensures var free := Nearby(data[i], tops, radius, Rescued(UnmatchedRows(data)[..k], tops, radius, data).1);
            && (RescueAll(data, tops, radius)[i] != data[i] <==> |free| == 1)
            && (|free| == 1 ==> RescueAll(data, tops, radius)[i] == data[i].(top := Some(free[0])))
  {
    var us := UnmatchedRows(data);
    RescueTurns(us, tops, radius, data, i);
    if RescueAll(data, tops, radius)[i] != data[i] {
      var k' :| FirstTurn(us, tops, radius, data, i, k') &&
                RescueAll(data, tops, radius)[i] == data[i].(top := Some(TurnTop(us, tops, radius, data, k')));
      assert k' == k;
    }
  }

  /** The first unmatched row, when no other row equals it, is rescued exactly when exactly
      one treetop within `radius` is held by no row on entry. */
  lemma FirstUnmatchedRescue(data: seq<PixelMatch>, tops: seq<Top>, radius: real, i: nat)
    requires i < |data| && UnmatchedRows(data) != [] && UnmatchedRows(data)[0] == data[i]
    requires forall k' :: 0 < k' < |UnmatchedRows(data)| ==> UnmatchedRows(data)[k'] != data[i]
    ensures RescueAll(data, tops, radius)[i] != data[i] <==> |Nearby(data[i], tops, radius, MatchedKeys(data))| == 1
  {
    assert UnmatchedRows(data)[..0] == [];
    RescueOfSingleRow(data, tops, radius, i, 0);
  }

  /** Handling one more unmatched row is one more turn of the loop. */
  lemma RescuedSnoc(us: seq<PixelMatch>, tops: seq<Top>, radius: real, data: seq<PixelMatch>, k: nat)
    requires k < |us|
    ensures Rescued(us[..k + 1], tops, radius, data) == RescueOne(us[k], tops, radius, Rescued(us[..k], tops, radius, data))
  {
    assert us[..k + 1][..k] == us[..k];
  }

  /** Taken positions only accumulate from turn to turn. */
  lemma {:induction false} TakenGrows(us: seq<PixelMatch>, tops: seq<Top>, radius: real, data: seq<PixelMatch>, j: nat, k: nat)
    requires j <= k <= |us|
    ensures Rescued(us[..j], tops, radius, data).1 <= Rescued(us[..k], tops, radius, data).1
    decreases k - j
  {
    if j < k {
      RescuedSnoc(us, tops, radius, data, j);
      TakenGrows(us, tops, radius, data, j + 1, k);
    }
  }

  /** Taking more positions never frees a treetop near a stem. */
  lemma {:induction false} NoneNearbyStaysNone(u: PixelMatch, tops: seq<Top>, radius: real,
                                               before: set<(real, real)>, later: set<(real, real)>)
    requires Nearby(u, tops, radius, before) == [] && before <= later
    ensures Nearby(u, tops, radius, later) == []
  {
    if tops != [] {
      NoneNearbyStaysNone(u, tops[1..], radius, before, later);
    }
  }

  /** Once the only free treetop near a stem is taken, none is left free near it. */
  lemma {:induction false} NearbyAfterTaking(u: PixelMatch, tops: seq<Top>, radius: real,
                                             before: set<(real, real)>, later: set<(real, real)>, t: Top)
    requires Nearby(u, tops, radius, before) == [t]
    requires before <= later && TopKey(t) in later
    ensures Nearby(u, tops, radius, later) == []
  {
    if tops != [] {
      var t0 := tops[0];
      if Within(Dist2(u.stemX, u.stemY, t0.x, t0.y), radius) && TopKey(t0) !in before {
        assert [t0] + Nearby(u, tops[1..], radius, before) == [t];
        NoneNearbyStaysNone(u, tops[1..], radius, before, later);
      } else {
        NearbyAfterTaking(u, tops[1..], radius, before, later, t);
      }
    }
  }

  /** A row rescued at turn `k` finds no free treetop at any later turn of an equal row, so a
      repeated unmatched row never takes a second position. */
  lemma RescueOnce(us: seq<PixelMatch>, tops: seq<Top>, radius: real, data: seq<PixelMatch>, k: nat, k': nat)
    requires k < k' < |us| && us[k'] == us[k] && RescuedAt(us, tops, radius, data, k)
    ensures Nearby(us[k'], tops, radius, Rescued(us[..k'], tops, radius, data).1) == []
  {
    var t := TurnTop(us, tops, radius, data, k);
    var before := Rescued(us[..k], tops, radius, data).1;
    var later := Rescued(us[..k'], tops, radius, data).1;
    RescuedSnoc(us, tops, radius, data, k);
    TakenGrows(us, tops, radius, data, k + 1, k');
    assert TopKey(t) in later;
    TakenGrows(us, tops, radius, data, k, k');
    NearbyAfterTaking(us[k], tops, radius, before, later, t);
  }

  /** `process_unmatched_stems`. The result is the rescue loop's reference `RescueAll`; every
      row is kept or rescued; a rescued row gets a treetop whose position no row held on
      entry, and rows rescued for different stems get treetops at different positions. */
  method RescueUnmatched(data: seq<PixelMatch>, tops: seq<Top>, radius: real) returns (updated: seq<PixelMatch>)
    ensures updated == RescueAll(data, tops, radius)
    ensures |updated| == |data|
    ensures forall i :: 0 <= i < |data| ==>
              updated[i] == data[i] ||
              (RescuedFrom(data[i], updated[i], tops, radius) && TopKey(updated[i].top.value) !in MatchedKeys(data))
    ensures forall i, j ::
              (0 <= i < |data| && 0 <= j < |data| && updated[i].top.Some? && updated[j].top.Some? &&
               updated[i] != data[i] && updated[j] != data[j] && data[i] != data[j]) ==>
              TopKey(updated[i].top.value) != TopKey(updated[j].top.value)
  {
    var taken := MatchedKeys(data);
    var unmatched := UnmatchedRows(data);
    updated := data;
    for k := 0 to |unmatched|
      invariant RescueInv(data, tops, radius, updated, taken)
      invariant (updated, taken) == Rescued(unmatched[..k], tops, radius, data)
    {
      var u := unmatched[k];
      RescuedSnoc(unmatched, tops, radius, data, k);
      var nearby := Nearby(u, tops, radius, taken);
      if |nearby| == 1 {
        var t := nearby[0];
        RescueStep(data, tops, radius, updated, taken, u, t);
        taken := taken + {TopKey(t)};
        updated := ReplaceEqual(updated, u, u.(top := Some(t)));
      }
    }
    assert unmatched[..|unmatched|] == unmatched;
  }

  /** The value `matched_stems` gives a row's pixel height. */
  function HeightOf(m: PixelMatch): Option<real> {
    if m.top.Some? then Some(m.top.value.height) else None
  }

  /** The pixel height looked up for (`plot`, `nr`): that of the last row with this key. */
  function Lookup(matched: seq<PixelMatch>, plot: int, nr: int): (h: Option<real>)
    ensures (forall k :: 0 <= k < |matched| ==> !(matched[k].plot == plot && matched[k].nr == nr)) ==> h.None?
    ensures forall k ::
              (0 <= k < |matched| && matched[k].plot == plot && matched[k].nr == nr &&
               forall l :: k < l < |matched| ==> !(matched[l].plot == plot && matched[l].nr == nr)) ==>
              h == HeightOf(matched[k])
  {
    if matched == [] then None
    else
      var last := matched[|matched| - 1];
      if last.plot == plot && last.nr == nr then HeightOf(last)
      else Lookup(matched[..|matched| - 1], plot, nr)
  }

  /** `matched_lookup`, the dictionary built from `matched_stems`; a later row overwrites an
      earlier one with the same key. */
  function LookupTable(matched: seq<PixelMatch>): (table: map<(int, int), Option<real>>)
    ensures forall plot, nr :: (if (plot, nr) in table then table[(plot, nr)] else None) == Lookup(matched, plot, nr)
  {
    if matched == [] then map[]
    else
      var last := matched[|matched| - 1];
      LookupTable(matched[..|matched| - 1])[(last.plot, last.nr) := HeightOf(last)]
  }

  /** A result record with the pixel height column. */
  datatype Merged = Merged(rec: SegmentMatch.Record, pixel: Option<real>)

  /** A result with its pixel height taken from `matched`. */
  function WithPixel(m: Merged, matched: seq<PixelMatch>): Merged {
    m.(pixel := Lookup(matched, m.rec.plot, m.rec.nr))
  }

  /** `merge_dictionaries`: sets every result's pixel height from the last matched row with
      the same (plot, number) key, or to `None` where there is none. */
  method MergeDictionaries(results: array<Merged>, matched: seq<PixelMatch>)
    modifies results
    ensures forall i :: 0 <= i < results.Length ==> results[i] == WithPixel(old(results[i]), matched)
  {
    var table := LookupTable(matched);
    ghost var before := results[..];
    for i := 0 to results.Length
      invariant forall l :: 0 <= l < i ==> results[l] == WithPixel(before[l], matched)
      invariant forall l :: i <= l < results.Length ==> results[l] == before[l]
    {
      var m := results[i];
      var key := (m.rec.plot, m.rec.nr);
      var h := if key in table then table[key] else None;
      assert h == Lookup(matched, m.rec.plot, m.rec.nr);
      results[i] := m.(pixel := h);
    }
  }
}
