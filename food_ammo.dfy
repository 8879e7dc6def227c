/** The field of food and ammo of the humans-and-zombies model: the same 50 x 50 grid of
    sign-encoded cells as the grass, plus ONE grid-wide resource type, overwritten by every
    cell that spawns. Whether a consume call depletes its cell depends on that single
    field, not on the type the cell was spawned with. */
module FoodAmmo {
  import opened Geometry
  import opened ResourceCell

  /** TYPE_AMMO = 1, TYPE_FOOD = 2; Untyped stands for any other initial value (the
      driver passes an empty string). */
  datatype ResourceType = Ammo | Food | Untyped

  /** A spawning cell draws randint(1, 100): 1 makes ammo, anything else food. */
  function DrawnType(draw: int): (t: ResourceType)
    ensures t == Ammo <==> draw == 1
    ensures t != Untyped
  {
    if draw == 1 then Ammo else Food
  }

  /** The grid-wide type after a row-major pass in which the cells flagged in spawned
      respawn, drawing draws[k]: the type drawn by the last one that spawned, or t. */
  function LastSpawned(spawned: seq<bool>, draws: seq<int>, t: ResourceType): (r: ResourceType)
    requires |draws| == |spawned|
    ensures r == t || r != Untyped
    decreases |spawned|
  {
    if spawned == [] then t
    else
      var n := |spawned| - 1;
      if spawned[n] then DrawnType(draws[n]) else LastSpawned(spawned[..n], draws[..n], t)
  }

  /** The grid-wide type after a pass is its old value or the type some spawning cell drew. */
  lemma {:induction false} LastSpawnedOrigin(spawned: seq<bool>, draws: seq<int>, t: ResourceType)
    requires |draws| == |spawned|
    ensures var r := LastSpawned(spawned, draws, t);
      r == t || exists k :: 0 <= k < |spawned| && spawned[k] && r == DrawnType(draws[k])
    decreases |spawned|
  {
    if spawned != [] {
      var n := |spawned| - 1;
      if !spawned[n] {
        LastSpawnedOrigin(spawned[..n], draws[..n], t);
      }
    }
  }

  /** If no cell spawns, the grid-wide type is left as it was. */
  lemma {:induction false} NoSpawnKeepsType(spawned: seq<bool>, draws: seq<int>, t: ResourceType)
    requires |draws| == |spawned|
    requires forall k :: 0 <= k < |spawned| ==> !spawned[k]
    ensures LastSpawned(spawned, draws, t) == t
    decreases |spawned|
  {
    if spawned != [] {
      var n := |spawned| - 1;
      NoSpawnKeepsType(spawned[..n], draws[..n], t);
    }
  }

  /** If cell i is the last (row-major) to spawn, the grid-wide type is the one it drew:
      ammo exactly when its draw was 1. */
  lemma {:induction false} LastSpawnDecides(spawned: seq<bool>, draws: seq<int>, t: ResourceType, i: nat)
    requires |draws| == |spawned| && i < |spawned| && spawned[i]
    requires forall k :: i < k < |spawned| ==> !spawned[k]
    ensures LastSpawned(spawned, draws, t) == DrawnType(draws[i])
    ensures LastSpawned(spawned, draws, t) == Ammo <==> draws[i] == 1
    decreases |spawned|
  {
    var n := |spawned| - 1;
    if i < n {
      LastSpawnDecides(spawned[..n], draws[..n], t, i);
    }
  }

  /** One more cell of the row-major pass. */
  lemma LastSpawnedStep(spawned: seq<bool>, draws: seq<int>, t: ResourceType, k: nat)
    requires |draws| == |spawned| && k < |spawned|
    ensures LastSpawned(spawned[..k + 1], draws[..k + 1], t)
      == if spawned[k] then DrawnType(draws[k]) else LastSpawned(spawned[..k], draws[..k], t)
  {
    assert spawned[..k + 1][..k] == spawned[..k] && draws[..k + 1][..k] == draws[..k];
  }

  /** The value the seeding loop leaves in one cell, as in the grass grid. */
  function Seed(regrowDraw: real, covered: bool, id: int): (v: int)
    requires id > 0
    ensures covered ==> v == id
    ensures !covered ==> v == Trunc(regrowDraw)
  {
    if covered then id else Trunc(regrowDraw)
  }

  /** Which cells the seeding loop fills: those whose cover draw is below percentFull / 100. */
  function Covered(coverDraws: seq<real>, percentFull: real): (flags: seq<bool>)
    ensures |flags| == |coverDraws|
    ensures forall k :: 0 <= k < |coverDraws| ==> flags[k] == (coverDraws[k] < percentFull / 100.0)
  {
    seq(|coverDraws|, k requires 0 <= k < |coverDraws| => coverDraws[k] < percentFull / 100.0)
  }

  /** Which cells an update respawns: those at exactly 0. */
  function AtZero(cells: seq<int>): (flags: seq<bool>)
    ensures |flags| == |cells|
  {
    seq(|cells|, k requires 0 <= k < |cells| => cells[k] == 0)
  }

  lemma FlatIndex(row: int, column: int)
    requires 0 <= row < NumRows && 0 <= column < NumColumns
    ensures 0 <= row * NumColumns + column < NumCells
    ensures (row * NumColumns + column) / NumColumns == row
    ensures (row * NumColumns + column) % NumColumns == column
  {
  }

  class Veg {
    const regrowCycles: nat
    /** TheGrid[Row][Column]. */
    const grid: array2<int>
    /** self.Type: the one resource type of the whole grid. */
    var kind: ResourceType

    ghost predicate Valid()
      reads grid
    {
      && grid.Length0 == NumRows && grid.Length1 == NumColumns
      && forall r, c :: 0 <= r < NumRows && 0 <= c < NumColumns ==> WellFormed(grid[r, c], regrowCycles)
    }

    /** The cells in row-major order. */
    ghost function Cells(): (cells: seq<int>)
      reads grid
      requires grid.Length0 == NumRows && grid.Length1 == NumColumns
      ensures |cells| == NumCells
    {
      seq(NumCells, k requires 0 <= k < NumCells reads grid =>
        assert 0 <= k / NumColumns < NumRows; grid[k / NumColumns, k % NumColumns])
    }

    /** Cell (r, c) sits at r * 50 + c of the row-major order. */
    lemma ZeroLayout()
      requires grid.Length0 == NumRows && grid.Length1 == NumColumns
      ensures forall r, c :: 0 <= r < NumRows && 0 <= c < NumColumns ==>
        r * NumColumns + c < NumCells && AtZero(Cells())[r * NumColumns + c] == (grid[r, c] == 0)
    {
      forall r, c | 0 <= r < NumRows && 0 <= c < NumColumns
        ensures r * NumColumns + c < NumCells && AtZero(Cells())[r * NumColumns + c] == (grid[r, c] == 0)
      {
        FlatIndex(r, c);
      }
    }

    /** The seeding loop of the constructor, one row per call of SeedRow; a filled cell
        draws its type, which becomes the grid-wide type. Draws and rectangle ids are
        inputs, one per cell, row-major. */
    constructor (percentFull: real, regrowCycles: nat, kind: ResourceType,
                 regrowDraws: seq<real>, coverDraws: seq<real>, typeDraws: seq<int>, ids: seq<int>)
      requires |regrowDraws| == NumCells && |coverDraws| == NumCells && |typeDraws| == NumCells && |ids| == NumCells
      requires forall k :: 0 <= k < NumCells ==> -(regrowCycles as real) <= regrowDraws[k] <= 0.0
      requires forall k :: 0 <= k < NumCells ==> ids[k] > 0
      ensures Valid() && fresh(grid) && this.regrowCycles == regrowCycles
      ensures forall r, c :: 0 <= r < NumRows && 0 <= c < NumColumns ==>
        grid[r, c] == Seed(regrowDraws[r * NumColumns + c], Covered(coverDraws, percentFull)[r * NumColumns + c], ids[r * NumColumns + c])
      ensures this.kind == LastSpawned(Covered(coverDraws, percentFull), typeDraws, kind)
    {
      this.regrowCycles := regrowCycles;
      this.kind := kind;
      grid := new int[NumRows, NumColumns]((r, c) => 0);
      new;
      ghost var covered := Covered(coverDraws, percentFull);
      var row := 0;
      while row < NumRows
        invariant 0 <= row <= NumRows
        invariant forall r, c :: 0 <= r < row && 0 <= c < NumColumns ==>
          grid[r, c] == Seed(regrowDraws[r * NumColumns + c], covered[r * NumColumns + c], ids[r * NumColumns + c])
        invariant this.kind == LastSpawned(covered[..row * NumColumns], typeDraws[..row * NumColumns], kind)
      {
        SeedRow(row, percentFull, regrowDraws, coverDraws, typeDraws, ids, covered, kind);
        row := row + 1;
      }
      assert covered[..NumCells] == covered && typeDraws[..NumCells] == typeDraws;
      forall r, c | 0 <= r < NumRows && 0 <= c < NumColumns
        ensures WellFormed(grid[r, c], regrowCycles)
      {
        var k := r * NumColumns + c;
        assert regrowDraws[k] <= 0.0;
      }
    }

    /** The inner loop of the seeding pass, over the columns of one row. */
    method SeedRow(row: int, percentFull: real, regrowDraws: seq<real>, coverDraws: seq<real>,
                   typeDraws: seq<int>, ids: seq<int>, ghost covered: seq<bool>, ghost initial: ResourceType)
      requires grid.Length0 == NumRows && grid.Length1 == NumColumns && 0 <= row < NumRows
      requires |regrowDraws| == NumCells && |coverDraws| == NumCells && |typeDraws| == NumCells && |ids| == NumCells
      requires forall k :: 0 <= k < NumCells ==> ids[k] > 0
      requires |covered| == NumCells && forall k :: 0 <= k < NumCells ==> covered[k] == (coverDraws[k] < percentFull / 100.0)
      requires kind == LastSpawned(covered[..row * NumColumns], typeDraws[..row * NumColumns], initial)
      modifies this, grid
      ensures forall c :: 0 <= c < NumColumns ==>
        grid[row, c] == Seed(regrowDraws[row * NumColumns + c], covered[row * NumColumns + c], ids[row * NumColumns + c])
      ensures forall r, c :: 0 <= r < NumRows && r != row && 0 <= c < NumColumns ==> grid[r, c] == old(grid[r, c])
      ensures kind == LastSpawned(covered[..(row + 1) * NumColumns], typeDraws[..(row + 1) * NumColumns], initial)
    {
      var column := 0;
      while column < NumColumns
        invariant 0 <= column <= NumColumns
        invariant forall c :: 0 <= c < column ==>
          grid[row, c] == Seed(regrowDraws[row * NumColumns + c], covered[row * NumColumns + c], ids[row * NumColumns + c])
        invariant forall r, c :: 0 <= r < NumRows && 0 <= c < NumColumns && (r != row || column <= c) ==> grid[r, c] == old(grid[r, c])
        invariant kind == LastSpawned(covered[..row * NumColumns + column], typeDraws[..row * NumColumns + column], initial)
      {
        var k := row * NumColumns + column;
        LastSpawnedStep(covered, typeDraws, initial, k);
        grid[row, column] := Trunc(regrowDraws[k]);
        if coverDraws[k] < percentFull / 100.0 {
          // AddAmmo and AddFood both store the new rectangle's id; they differ only in colour
          grid[row, column] := ids[k];
          kind := DrawnType(typeDraws[k]);
        }
        column := column + 1;
      }
    }

    /** Eat the food under pixel (x, y): found whenever the cell holds a unit, whatever it
        was spawned as; the cell is depleted only while the grid-wide type is Food. */
    method EatFood(x: real, y: real) returns (found: bool)
      requires Valid() && CellAt(x, y).Some?
      modifies grid
      ensures Valid()
      ensures var (row, column) := CellAt(x, y).value;
        (grid[row, column], found) == Consume(old(grid[row, column]), kind == Food, regrowCycles)
      ensures forall r, c :: 0 <= r < NumRows && 0 <= c < NumColumns && (r, c) != CellAt(x, y).value ==>
        grid[r, c] == old(grid[r, c])
    {
      var (row, column) := CellAt(x, y).value;
      var cyclesToRegrow := grid[row, column];
      if cyclesToRegrow <= 0 {
        found := false;
      } else {
        found := true;
        if kind == Food {
          grid[row, column] := Depleted(regrowCycles);
        }
      }
    }

    /** Pick up the ammo under pixel (x, y): the mirror image of EatFood, depleting only
        while the grid-wide type is Ammo. */
    method UseAmmo(x: real, y: real) returns (found: bool)
      requires Valid() && CellAt(x, y).Some?
      modifies grid
      ensures Valid()
      ensures var (row, column) := CellAt(x, y).value;
        (grid[row, column], found) == Consume(old(grid[row, column]), kind == Ammo, regrowCycles)
      ensures forall r, c :: 0 <= r < NumRows && 0 <= c < NumColumns && (r, c) != CellAt(x, y).value ==>
        grid[r, c] == old(grid[r, c])
    {
      var (row, column) := CellAt(x, y).value;
      var cyclesToRegrow := grid[row, column];
      if cyclesToRegrow <= 0 {
        found := false;
      } else {
        found := true;
        if kind == Ammo {
          grid[row, column] := Depleted(regrowCycles);
        }
      }
    }

    /** One regrow step of every cell, one row per call of UpdateRow; every respawning cell
        draws its type (typeDraws[k]) and overwrites the grid-wide type with it. */
    method Update(ids: seq<int>, typeDraws: seq<int>)
      requires Valid()
      requires |ids| == NumCells && |typeDraws| == NumCells
      requires forall k :: 0 <= k < NumCells ==> ids[k] > 0
      modifies this, grid
      ensures Valid()
      ensures forall r, c :: 0 <= r < NumRows && 0 <= c < NumColumns ==>
        grid[r, c] == Regrow(old(grid[r, c]), ids[r * NumColumns + c])
      ensures kind == LastSpawned(AtZero(old(Cells())), typeDraws, old(kind))
    {
      ghost var zero := AtZero(Cells());
      ZeroLayout();
      var row := 0;
      while row < NumRows
        invariant 0 <= row <= NumRows
        invariant forall r, c :: 0 <= r < row && 0 <= c < NumColumns ==>
          grid[r, c] == Regrow(old(grid[r, c]), ids[r * NumColumns + c])
        invariant forall r, c :: row <= r < NumRows && 0 <= c < NumColumns ==> grid[r, c] == old(grid[r, c])
        invariant kind == LastSpawned(zero[..row * NumColumns], typeDraws[..row * NumColumns], old(kind))
      {
        UpdateRow(row, ids, typeDraws, zero, old(kind));
        row := row + 1;
      }
      assert zero[..NumCells] == zero && typeDraws[..NumCells] == typeDraws;
      forall r, c | 0 <= r < NumRows && 0 <= c < NumColumns
        ensures WellFormed(grid[r, c], regrowCycles)
      {
        RegrowKeepsWellFormed(old(grid[r, c]), ids[r * NumColumns + c], regrowCycles);
      }
    }

    /** The inner loop of Update, over the columns of one row; zero flags which cells sat
        at 0 before the update. */
    method UpdateRow(row: int, ids: seq<int>, typeDraws: seq<int>, ghost zero: seq<bool>, ghost initial: ResourceType)
      requires grid.Length0 == NumRows && grid.Length1 == NumColumns && 0 <= row < NumRows
      requires |ids| == NumCells && |typeDraws| == NumCells && |zero| == NumCells
      requires forall k :: 0 <= k < NumCells ==> ids[k] > 0
      requires forall c :: 0 <= c < NumColumns ==> zero[row * NumColumns + c] == (grid[row, c] == 0)
      requires kind == LastSpawned(zero[..row * NumColumns], typeDraws[..row * NumColumns], initial)
      modifies this, grid
      ensures forall c :: 0 <= c < NumColumns ==> grid[row, c] == Regrow(old(grid[row, c]), ids[row * NumColumns + c])
      ensures forall r, c :: 0 <= r < NumRows && r != row && 0 <= c < NumColumns ==> grid[r, c] == old(grid[r, c])
      ensures kind == LastSpawned(zero[..(row + 1) * NumColumns], typeDraws[..(row + 1) * NumColumns], initial)
    {
      var column := 0;
      while column < NumColumns
        invariant 0 <= column <= NumColumns
        invariant forall c :: 0 <= c < column ==> grid[row, c] == Regrow(old(grid[row, c]), ids[row * NumColumns + c])
        invariant forall r, c :: 0 <= r < NumRows && 0 <= c < NumColumns && (r != row || column <= c) ==> grid[r, c] == old(grid[r, c])
        invariant kind == LastSpawned(zero[..row * NumColumns + column], typeDraws[..row * NumColumns + column], initial)
      {
        var k := row * NumColumns + column;
        LastSpawnedStep(zero, typeDraws, initial, k);
        if grid[row, column] < 0 {
          grid[row, column] := grid[row, column] + 1;
        } else if grid[row, column] == 0 {
          // AddAmmo and AddFood both store the new rectangle's id; they differ only in colour
          grid[row, column] := ids[k];
          kind := DrawnType(typeDraws[k]);
        }
        column := column + 1;
      }
    }
  }
}
