/** The field of grass of the sheep-and-wolves model: a fixed 50 x 50 grid of cells,
    each holding a sign-encoded regrow counter (see ResourceCell). */
module Grass {
  import opened Geometry
  import opened ResourceCell

  /** The value the seeding loop leaves in one cell: int() of the regrow draw, replaced by
      a fresh rectangle id when the cover draw falls below percentFull / 100. */
  function Seed(regrowDraw: real, coverDraw: real, percentFull: real, id: int): (v: int)
    requires id > 0
    ensures coverDraw < percentFull / 100.0 ==> v == id
    ensures percentFull / 100.0 <= coverDraw ==> v == Trunc(regrowDraw)
  {
    if coverDraw < percentFull / 100.0 then id else Trunc(regrowDraw)
  }

  /** After seeding, every cell is an available id or a countdown in [-regrowCycles, 0]. */
  lemma SeedInRange(regrowCycles: nat, regrowDraw: real, coverDraw: real, percentFull: real, id: int)
    requires id > 0
    requires -(regrowCycles as real) <= regrowDraw <= 0.0
    ensures var v := Seed(regrowDraw, coverDraw, percentFull, id);
      Available(v) || Depleted(regrowCycles) <= v <= 0
  {
  }

  class Veg {
    const regrowCycles: nat
    /** TheGrid[Row][Column]. */
    const grid: array2<int>

    ghost predicate Valid()
      reads grid
    {
      && grid.Length0 == NumRows && grid.Length1 == NumColumns
      && forall r, c :: 0 <= r < NumRows && 0 <= c < NumColumns ==> WellFormed(grid[r, c], regrowCycles)
    }

    /** The seeding loop of the constructor. The random draws and the rectangle ids are
        inputs, one per cell in row-major order. */
    constructor (percentFull: real, regrowCycles: nat, regrowDraws: seq<real>, coverDraws: seq<real>, ids: seq<int>)
      requires |regrowDraws| == NumCells && |coverDraws| == NumCells && |ids| == NumCells
      requires forall k :: 0 <= k < NumCells ==> -(regrowCycles as real) <= regrowDraws[k] <= 0.0
      requires forall k :: 0 <= k < NumCells ==> ids[k] > 0
      ensures Valid() && fresh(grid) && this.regrowCycles == regrowCycles
      ensures forall r, c :: 0 <= r < NumRows && 0 <= c < NumColumns ==>
        grid[r, c] == Seed(regrowDraws[r * NumColumns + c], coverDraws[r * NumColumns + c], percentFull, ids[r * NumColumns + c])
    {
      this.regrowCycles := regrowCycles;
      grid := new int[NumRows, NumColumns]((r, c) => 0);
      new;
      var row := 0;
      while row < NumRows
        invariant 0 <= row <= NumRows
        invariant forall r, c :: 0 <= r < row && 0 <= c < NumColumns ==>
          grid[r, c] == Seed(regrowDraws[r * NumColumns + c], coverDraws[r * NumColumns + c], percentFull, ids[r * NumColumns + c])
      {
        var column := 0;
        while column < NumColumns
          invariant 0 <= column <= NumColumns
          invariant forall r, c :: 0 <= r < row && 0 <= c < NumColumns ==>
            grid[r, c] == Seed(regrowDraws[r * NumColumns + c], coverDraws[r * NumColumns + c], percentFull, ids[r * NumColumns + c])
          invariant forall c :: 0 <= c < column ==>
            grid[row, c] == Seed(regrowDraws[row * NumColumns + c], coverDraws[row * NumColumns + c], percentFull, ids[row * NumColumns + c])
        {
          var k := row * NumColumns + column;
          grid[row, column] := Trunc(regrowDraws[k]);
          if coverDraws[k] < percentFull / 100.0 {
            grid[row, column] := ids[k];
          }
          column := column + 1;
        }
        row := row + 1;
      }
      forall r, c | 0 <= r < NumRows && 0 <= c < NumColumns
        ensures WellFormed(grid[r, c], regrowCycles)
      {
        var k := r * NumColumns + c;
        SeedInRange(regrowCycles, regrowDraws[k], coverDraws[k], percentFull, ids[k]);
      }
    }

    /** Eat the grass under pixel (x, y) if there is any. The lookup must not raise
        IndexError. */
    method EatGrass(x: real, y: real) returns (ate: bool)
      requires Valid() && CellAt(x, y).Some?
      modifies grid
      ensures Valid()
      ensures var (row, column) := CellAt(x, y).value;
        (grid[row, column], ate) == Consume(old(grid[row, column]), true, regrowCycles)
      ensures forall r, c :: 0 <= r < NumRows && 0 <= c < NumColumns && (r, c) != CellAt(x, y).value ==>
        grid[r, c] == old(grid[r, c])
    {
      var (row, column) := CellAt(x, y).value;
      var cyclesToRegrow := grid[row, column];
      if cyclesToRegrow <= 0 {
        ate := false;
      } else {
        ate := true;
        grid[row, column] := Depleted(regrowCycles);
      }
    }

    /** One regrow step of every cell, row by row. ids[r * 50 + c] is the rectangle id the
        canvas would hand out if cell (r, c) respawns. */
    method Update(ids: seq<int>)
      requires Valid()
      requires |ids| == NumCells && forall k :: 0 <= k < NumCells ==> ids[k] > 0
      modifies grid
      ensures Valid()
      ensures forall r, c :: 0 <= r < NumRows && 0 <= c < NumColumns ==>
        grid[r, c] == Regrow(old(grid[r, c]), ids[r * NumColumns + c])
    {
      var row := 0;
      while row < NumRows
        invariant 0 <= row <= NumRows
        invariant forall r, c :: 0 <= r < row && 0 <= c < NumColumns ==>
          grid[r, c] == Regrow(old(grid[r, c]), ids[r * NumColumns + c])
        invariant forall r, c :: row <= r < NumRows && 0 <= c < NumColumns ==> grid[r, c] == old(grid[r, c])
      {
        var column := 0;
        while column < NumColumns
          invariant 0 <= column <= NumColumns
          invariant forall r, c :: 0 <= r < row && 0 <= c < NumColumns ==>
            grid[r, c] == Regrow(old(grid[r, c]), ids[r * NumColumns + c])
          invariant forall c :: 0 <= c < column ==> grid[row, c] == Regrow(old(grid[row, c]), ids[row * NumColumns + c])
          invariant forall r, c :: row <= r < NumRows && 0 <= c < NumColumns && (r > row || c >= column) ==>
            grid[r, c] == old(grid[r, c])
        {
          if grid[row, column] < 0 {
            grid[row, column] := grid[row, column] + 1;
          } else if grid[row, column] == 0 {
            grid[row, column] := ids[row * NumColumns + column];
          }
          column := column + 1;
        }
        row := row + 1;
      }
      forall r, c | 0 <= r < NumRows && 0 <= c < NumColumns
        ensures WellFormed(grid[r, c], regrowCycles)
      {
        RegrowKeepsWellFormed(old(grid[r, c]), ids[r * NumColumns + c], regrowCycles);
      }
    }
  }
}
