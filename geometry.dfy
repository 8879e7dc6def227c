/** Pixel geometry shared by both simulations: the 50 x 50 grid of 10-pixel cells,
    the agents' strict box test and their toroidal wrap. Coordinates are exact reals
    (the program's floats see only +, -, division by a constant, abs and comparisons). */
module Geometry {

  /** Width and height of one resource cell, in pixels. */
  const CellSize: int := 10
  const NumRows: int := 50
  const NumColumns: int := 50
  /** Number of cells; per-cell inputs are supplied in row-major order. */
  const NumCells: int := NumRows * NumColumns

  datatype Option<T> = None | Some(value: T)

  function Abs(r: real): (a: real)
    ensures 0.0 <= a
    ensures a == r || a == -r
  {
    if r < 0.0 then -r else r
  }

  /** Python's int() applied to a float: truncation toward zero. */
  function Trunc(r: real): (n: int)
    ensures 0.0 <= r ==> n as real <= r < n as real + 1.0
    ensures r < 0.0 ==> n as real - 1.0 < r <= n as real
  {
    if 0.0 <= r then r.Floor else -((-r).Floor)
  }

  /** Python's subscript l[i] on a list of length n: a negative i counts from the end,
      anything outside [-n, n) raises IndexError (None here). */
  function PyIndex(i: int, n: nat): (k: Option<nat>)
    ensures k.Some? <==> -(n as int) <= i < n
    ensures k.Some? ==> k.value < n
    ensures k.Some? && 0 <= i ==> k.value == i
    ensures k.Some? && i < 0 ==> k.value == i + n
  {
    if 0 <= i < n then Some(i) else if -(n as int) <= i < 0 then Some(i + n) else None
  }

  /** The cell TheGrid[int(Y/10)][int(X/10)] that a pixel position addresses, as
      (row, column), or None where that subscript raises IndexError. */
  function CellAt(x: real, y: real): (cell: Option<(nat, nat)>)
    ensures cell.Some? ==> cell.value.0 < NumRows && cell.value.1 < NumColumns
  {
    var row := PyIndex(Trunc(y / CellSize as real), NumRows);
    var column := PyIndex(Trunc(x / CellSize as real), NumColumns);
    if row.Some? && column.Some? then Some((row.value, column.value)) else None
  }

  /** One coordinate of the arena: a real at least 0 and below the extent. */
  predicate InRange(c: real, extent: int) {
    0.0 <= c < extent as real
  }

  lemma TruncInRange(r: real, n: nat)
    requires 0.0 <= r < n as real
    ensures 0 <= Trunc(r) < n
  {
  }

  /** Within a 500 x 500 arena every position addresses the cell one would expect:
      row y/10 and column x/10 rounded down, both inside the grid. */
  lemma CellAtInArena(x: real, y: real)
    requires InRange(x, NumColumns * CellSize) && InRange(y, NumRows * CellSize)
    ensures CellAt(x, y) == Some(((y / 10.0).Floor as nat, (x / 10.0).Floor as nat))
    ensures (y / 10.0).Floor < NumRows && (x / 10.0).Floor < NumColumns
  {
    TruncInRange(y / 10.0, NumRows);
    TruncInRange(x / 10.0, NumColumns);
  }

  /** Exactly the positions for which the cell lookup raises no IndexError; negative
      coordinates above -510 silently address cells from the far edge. */
  lemma CellAtDefined(x: real, y: real)
    ensures CellAt(x, y).Some? <==> (-510.0 < x < 500.0 && -510.0 < y < 500.0)
  {
    TruncBounds(x / 10.0);
    TruncBounds(y / 10.0);
  }

  lemma TruncBounds(r: real)
    ensures -50 <= Trunc(r) < 50 <==> -51.0 < r < 50.0
  {
  }

  /** The strict axis-aligned box test of eating, shooting, chasing and running. */
  predicate InBox(x0: real, y0: real, x1: real, y1: real, d: real): (b: bool)
    ensures b ==> 0.0 < d
    ensures b <==> Abs(x1 - x0) < d && Abs(y1 - y0) < d
  {
    Abs(x0 - x1) < d && Abs(y0 - y1) < d
  }

  /** The agents' boundary rule for one coordinate: below 0 becomes extent - 1, then
      at or beyond the extent becomes 0. */
  function Wrap(c: real, extent: int): (w: real)
    ensures 1 <= extent ==> InRange(w, extent)
    ensures InRange(c, extent) ==> w == c
    ensures c < 0.0 ==> w == (extent - 1) as real
  {
    var c' := if c < 0.0 then (extent - 1) as real else c;
    if c' >= extent as real then 0.0 else c'
  }

  /** The two boundary cases: -0.5 goes to the far edge, the extent itself goes
      to 0. */
  lemma WrapExamples()
    ensures Wrap(-0.5, 500) == 499.0
    ensures Wrap(500.0, 500) == 0.0
  {
  }
}
