/** Rectangular rasters and the north-up affine pixel <-> map transform
    (`rasterio.transform.rowcol`, `rasterio.transform.xy`, `transform * (col, row)`,
    `src.window_transform`). */
module Grids {

  /** A raster band: a list of rows. */
  type Grid<T> = seq<seq<T>>

  /** `g` has `h` rows of `w` cells each. */
  ghost predicate Shaped<T>(g: Grid<T>, h: nat, w: nat) {
    |g| == h && forall r :: 0 <= r < h ==> |g[r]| == w
  }

  function Width<T>(g: Grid<T>): nat {
    if |g| == 0 then 0 else |g[0]|
  }

  ghost predicate Rectangular<T>(g: Grid<T>) {
    Shaped(g, |g|, Width(g))
  }

  /** `0 <= r < g.shape[0] and 0 <= c < g.shape[1]` for a rectangular `g`. */
  predicate InGrid<T>(g: Grid<T>, r: int, c: int) {
    0 <= r < |g| && 0 <= c < |g[r]|
  }

  /** `g[r, c]` with a default for cells outside the grid. */
  function At<T>(g: Grid<T>, r: int, c: int, default: T): T {
    if InGrid(g, r, c) then g[r][c] else default
  }

  /** A north-up affine transform: x = c + a * col, y = f + e * row. */
  datatype Affine = Affine(a: real, c: real, e: real, f: real)

  predicate ValidAffine(t: Affine) {
    t.a != 0.0 && t.e != 0.0
  }

  /** `transform * (col, row)`: the map coordinate of the pixel's upper-left corner. */
  function XyCorner(t: Affine, row: int, col: int): (real, real) {
    (t.c + t.a * col as real, t.f + t.e * row as real)
  }

  /** `rasterio.transform.xy(t, row, col, offset="center")`. */
  function XyCenter(t: Affine, row: int, col: int): (real, real) {
    (t.c + t.a * (col as real + 0.5), t.f + t.e * (row as real + 0.5))
  }

  /** `rasterio.transform.rowcol(t, x, y)`: floor of the inverse transform. */
  function RowCol(t: Affine, x: real, y: real): (int, int)
    requires ValidAffine(t)
  {
    (((y - t.f) / t.e).Floor, ((x - t.c) / t.a).Floor)
  }

  /** `src.window_transform(Window(colOff, rowOff, ...))`: the transform of a cropped window. */
  function WindowTransform(t: Affine, rowOff: int, colOff: int): (w: Affine)
    ensures ValidAffine(t) ==> ValidAffine(w)
    ensures XyCorner(w, 0, 0).0 == XyCorner(t, rowOff, colOff).0
    ensures XyCorner(w, 0, 0).1 == XyCorner(t, rowOff, colOff).1
  {
    var w := Affine(t.a, t.c + t.a * colOff as real, t.e, t.f + t.e * rowOff as real);
    assert w.a * (0 as real) == 0.0 && w.e * (0 as real) == 0.0;
    w
  }

  lemma FloorOfShift(q: real, k: int)
    ensures (q + k as real).Floor == q.Floor + k
  {
  }

  lemma DivCancel(n: real, d: real, q: real)
    requires d != 0.0 && n == d * q
    ensures n / d == q
  {
  }

  /** Pixel -> map (centre) -> pixel returns the same pixel. */
  lemma {:induction false} RowColOfCenter(t: Affine, row: int, col: int)
    requires ValidAffine(t)
    ensures RowCol(t, XyCenter(t, row, col).0, XyCenter(t, row, col).1) == (row, col)
  {
    var (x, y) := XyCenter(t, row, col);
    DivCancel(x - t.c, t.a, col as real + 0.5);
    DivCancel(y - t.f, t.e, row as real + 0.5);
    FloorOfShift(0.5, col);
    FloorOfShift(0.5, row);
  }

  /** Pixel -> map (corner) -> pixel returns the same pixel. */
  lemma {:induction false} RowColOfCorner(t: Affine, row: int, col: int)
    requires ValidAffine(t)
    ensures RowCol(t, XyCorner(t, row, col).0, XyCorner(t, row, col).1) == (row, col)
  {
    var (x, y) := XyCorner(t, row, col);
    DivCancel(x - t.c, t.a, col as real);
    DivCancel(y - t.f, t.e, row as real);
  }

  /** A cell of a window and the matching cell of the full raster share a centre, and
      `rowcol` through the window transform is `rowcol` through the full one minus the offset. */
  lemma {:induction false} WindowTransformConsistent(t: Affine, rowOff: int, colOff: int, row: int, col: int, x: real, y: real)
    requires ValidAffine(t)
    ensures XyCenter(WindowTransform(t, rowOff, colOff), row, col).0 == XyCenter(t, row + rowOff, col + colOff).0
    ensures XyCenter(WindowTransform(t, rowOff, colOff), row, col).1 == XyCenter(t, row + rowOff, col + colOff).1
    ensures RowCol(WindowTransform(t, rowOff, colOff), x, y) == (RowCol(t, x, y).0 - rowOff, RowCol(t, x, y).1 - colOff)
  {
    var w := WindowTransform(t, rowOff, colOff);
    assert t.a * ((col + colOff) as real + 0.5) == t.a * colOff as real + t.a * (col as real + 0.5);
    assert t.e * ((row + rowOff) as real + 0.5) == t.e * rowOff as real + t.e * (row as real + 0.5);
    assert (x - w.c) / w.a == (x - t.c) / t.a + (-colOff) as real by {
      DivCancel(x - w.c, t.a, (x - t.c) / t.a - colOff as real);
    }
    assert (y - w.f) / w.e == (y - t.f) / t.e + (-rowOff) as real by {
      DivCancel(y - w.f, t.e, (y - t.f) / t.e - rowOff as real);
    }
    FloorOfShift((x - t.c) / t.a, -colOff);
    FloorOfShift((y - t.f) / t.e, -rowOff);
  }
}
