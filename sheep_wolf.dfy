/** The agents of the sheep-and-wolves model: an animal is an object whose counters and
    position its own Update changes in place, and the population is the shared list of
    those objects that Update removes from and appends to. The list is passed in and the
    new one handed back. Every interaction loop scans the list as it stood when the loop
    started, so a removal never makes the scan skip an element. */
module SheepWolf {
  import opened Geometry
  import opened ResourceCell
  import opened Population
  import Grass

  datatype Kind = Prey | Predator

  class Animal {
    var x: real
    var y: real
    var birthCounter: int
    var lifeCounter: int
    const kind: Kind
    const maxBirthCycles: int
    const maxLifeCycles: int
    const distanceToEat: real
    /** The standard deviation of the random step; the step itself is an input of Update. */
    const distanceToMove: real

    /** A new animal starts with both counters at their maxima. */
    constructor (x: real, y: real, kind: Kind, maxBirthCycles: int, maxLifeCycles: int,
                 distanceToEat: real, distanceToMove: real)
      ensures this.x == x && this.y == y && this.kind == kind
      ensures this.maxBirthCycles == maxBirthCycles && this.maxLifeCycles == maxLifeCycles
      ensures this.distanceToEat == distanceToEat && this.distanceToMove == distanceToMove
      ensures birthCounter == maxBirthCycles && lifeCounter == maxLifeCycles
    {
      this.x := x;
      this.y := y;
      this.kind := kind;
      this.maxBirthCycles := maxBirthCycles;
      this.maxLifeCycles := maxLifeCycles;
      this.distanceToEat := distanceToEat;
      this.distanceToMove := distanceToMove;
      birthCounter := maxBirthCycles;
      lifeCounter := maxLifeCycles;
    }

    /** The predation loop: every prey inside the strict DistanceToEat box around this
        animal is taken out of the list. Reports whether anything was eaten. The scan sees
        the animals as bodies describes them. */
    method Hunt(animals: seq<Animal>, ghost bodies: seq<Body<Kind>>) returns (kept: seq<Animal>, ate: bool)
      requires Snapshot(bodies, animals)
      ensures kept == Spared(animals, bodies, Prey, x, y, distanceToEat)
      ensures ate <==> |kept| < |animals|
    {
      kept := [];
      ate := false;
      var i := 0;
      while i < |animals|
        invariant 0 <= i <= |animals|
        invariant kept == Spared(animals[..i], bodies[..i], Prey, x, y, distanceToEat)
        invariant ate <==> |kept| < i
      {
        SparedStep(animals, bodies, Prey, x, y, distanceToEat, i);
        var item := animals[i];
        if item.kind == Prey && Abs(x - item.x) < distanceToEat && Abs(y - item.y) < distanceToEat {
          ate := true;
        } else {
          kept := kept + [item];
        }
        i := i + 1;
      }
      assert animals[..i] == animals && bodies[..i] == bodies;
    }

    /** One cycle of this animal, in the program's order: both counters drop by one; at 0
        it dies and is removed; otherwise a newborn may be appended, a predator eats the
        prey around it or a prey grazes its cell, and it takes the random step (gx, gy)
        and wraps into the width x height canvas. */
    method Update(animals: seq<Animal>, grass: Grass.Veg, gx: real, gy: real, width: int, height: int)
      returns (animals': seq<Animal>)
      requires grass.Valid()
      requires lifeCounter <= 1 ==> this in animals
      requires kind == Prey && 1 < lifeCounter ==> CellAt(x, y).Some?
      modifies this, grass.grid
      ensures grass.Valid()
      // death: removed from the list, nothing else happens
      ensures old(lifeCounter) <= 1 ==>
        && animals' == RemoveFirst(animals, this)
        && birthCounter == old(birthCounter) - 1 && lifeCounter == old(lifeCounter) - 1
        && x == old(x) && y == old(y)
        && unchanged(grass.grid)
      // survival: birth, then predation, then the step and the wrap
      ensures 1 < old(lifeCounter) ==>
        && birthCounter == (if old(birthCounter) <= 1 then maxBirthCycles else old(birthCounter) - 1)
        && x == Wrap(old(x) + gx, width) && y == Wrap(old(y) + gy, height)
      ensures 1 < old(lifeCounter) ==>
        var kept := if kind == Predator then Spared(animals, old(Bodies(animals)), Prey, old(x), old(y), distanceToEat) else animals;
        && |animals'| == |kept| + (if old(birthCounter) <= 1 then 1 else 0)
        && animals'[..|kept|] == kept
        && (old(birthCounter) <= 1 ==>
              var newborn := animals'[|kept|];
              && fresh(newborn) && SameParameters(newborn, this) && AtMaxima(newborn)
              && newborn.x == old(x) && newborn.y == old(y))
      ensures 1 < old(lifeCounter) && kind == Predator ==>
        && lifeCounter == (if |Spared(animals, old(Bodies(animals)), Prey, old(x), old(y), distanceToEat)| < |animals|
                           then maxLifeCycles else old(lifeCounter) - 1)
        && unchanged(grass.grid)
      ensures 1 < old(lifeCounter) && kind == Prey ==>
        var rc := CellAt(old(x), old(y)).value;
        var row, column := rc.0, rc.1;
        && grass.grid[row, column] == Consume(old(grass.grid[row, column]), true, grass.regrowCycles).0
        && lifeCounter == (if Available(old(grass.grid[row, column])) then maxLifeCycles else old(lifeCounter) - 2)
        && forall r, c :: 0 <= r < NumRows && 0 <= c < NumColumns && (r, c) != (row, column) ==>
             grass.grid[r, c] == old(grass.grid[r, c])
      // nobody else moves; whoever is listed was listed before or is the newborn
      ensures forall a :: a in animals' ==> a in animals || (fresh(a) && a.x == old(x) && a.y == old(y))
    {
      if lifeCounter <= 1 {
        birthCounter := birthCounter - 1;
        lifeCounter := lifeCounter - 1;
        animals' := RemoveFirst(animals, this);
        forall a | a in animals'
          ensures a in animals
        {
          assert a in multiset(animals');
        }
      } else {
        animals' := Survive(animals, grass, gx, gy, width, height);
      }
    }

    /** The branch of Update where the decremented life counter is still positive: the
        decrement, birth, feeding, then the random step and the wrap. */
    method Survive(animals: seq<Animal>, grass: Grass.Veg, gx: real, gy: real, width: int, height: int)
      returns (animals': seq<Animal>)
      requires grass.Valid() && 1 < lifeCounter
      requires kind == Prey ==> CellAt(x, y).Some?
      modifies this`birthCounter, this`lifeCounter, this`x, this`y, grass.grid
      ensures grass.Valid()
      ensures birthCounter == (if old(birthCounter) <= 1 then maxBirthCycles else old(birthCounter) - 1)
      ensures x == Wrap(old(x) + gx, width) && y == Wrap(old(y) + gy, height)
      ensures
        var kept := if kind == Predator then Spared(animals, old(Bodies(animals)), Prey, old(x), old(y), distanceToEat) else animals;
        && |animals'| == |kept| + (if old(birthCounter) <= 1 then 1 else 0)
        && animals'[..|kept|] == kept
        && (old(birthCounter) <= 1 ==>
              var newborn := animals'[|kept|];
              && fresh(newborn) && SameParameters(newborn, this) && AtMaxima(newborn)
              && newborn.x == old(x) && newborn.y == old(y))
      ensures kind == Predator ==>
        && lifeCounter == (if |Spared(animals, old(Bodies(animals)), Prey, old(x), old(y), distanceToEat)| < |animals|
                           then maxLifeCycles else old(lifeCounter) - 1)
        && unchanged(grass.grid)
      ensures kind == Prey ==>
        var rc := CellAt(old(x), old(y)).value;
        var row, column := rc.0, rc.1;
        && grass.grid[row, column] == Consume(old(grass.grid[row, column]), true, grass.regrowCycles).0
        && lifeCounter == (if Available(old(grass.grid[row, column])) then maxLifeCycles else old(lifeCounter) - 2)
        && forall r, c :: 0 <= r < NumRows && 0 <= c < NumColumns && (r, c) != (row, column) ==>
             grass.grid[r, c] == old(grass.grid[r, c])
      ensures forall a :: a in animals' ==> a in animals || (fresh(a) && a.x == old(x) && a.y == old(y))
    {
      ghost var all := Bodies(animals);
      BodiesSnapshot(animals);
      animals' := Live(animals, all, grass);
      x := Wrap(x + gx, width);
      y := Wrap(y + gy, height);
    }

    /** The part of a surviving animal's cycle before its step: the decrement, birth and
        feeding. bodies describes the list at the start. */
    method Live(animals: seq<Animal>, ghost bodies: seq<Body<Kind>>, grass: Grass.Veg) returns (listed: seq<Animal>)
      requires grass.Valid() && 1 < lifeCounter && Snapshot(bodies, animals)
      requires kind == Prey ==> CellAt(x, y).Some?
      modifies this`birthCounter, this`lifeCounter, grass.grid
      ensures grass.Valid()
      ensures birthCounter == (if old(birthCounter) <= 1 then maxBirthCycles else old(birthCounter) - 1)
      ensures
        var kept := if kind == Predator then Spared(animals, bodies, Prey, x, y, distanceToEat) else animals;
        && |listed| == |kept| + (if old(birthCounter) <= 1 then 1 else 0)
        && listed[..|kept|] == kept
        && (old(birthCounter) <= 1 ==>
              var newborn := listed[|kept|];
              && fresh(newborn) && SameParameters(newborn, this) && AtMaxima(newborn)
              && newborn.x == x && newborn.y == y)
      ensures kind == Predator ==>
        && lifeCounter == (if |Spared(animals, bodies, Prey, x, y, distanceToEat)| < |animals|
                           then maxLifeCycles else old(lifeCounter) - 1)
        && unchanged(grass.grid)
      ensures kind == Prey ==>
        var rc := CellAt(x, y).value;
        var row, column := rc.0, rc.1;
        && grass.grid[row, column] == Consume(old(grass.grid[row, column]), true, grass.regrowCycles).0
        && lifeCounter == (if Available(old(grass.grid[row, column])) then maxLifeCycles else old(lifeCounter) - 2)
        && forall r, c :: 0 <= r < NumRows && 0 <= c < NumColumns && (r, c) != (row, column) ==>
             grass.grid[r, c] == old(grass.grid[r, c])
      ensures forall a :: a in listed ==> a in animals || (fresh(a) && a.x == x && a.y == y)
    {
      ghost var kept := if kind == Predator then Spared(animals, bodies, Prey, x, y, distanceToEat) else animals;
      birthCounter := birthCounter - 1;
      lifeCounter := lifeCounter - 1;
      listed := Breed(animals, bodies);
      if |listed| > |animals| {
        ghost var newborn := listed[|animals|];
        ghost var b := Body(kind, x, y);
        assert listed == animals + [newborn];
        if kind == Predator {
          SparedAppend(animals, bodies, newborn, b, Prey, x, y, distanceToEat);
        }
        listed := Feed(listed, bodies + [b], grass);
        assert listed == kept + [newborn];
      } else {
        listed := Feed(listed, bodies, grass);
      }
    }

    /** The birth step: when the birth counter has run out, an offspring with this
        animal's position and parameters is appended and the counter is reset. */
    method Breed(animals: seq<Animal>, ghost bodies: seq<Body<Kind>>) returns (animals': seq<Animal>)
      requires Snapshot(bodies, animals)
      modifies this`birthCounter
      ensures old(birthCounter) <= 0 ==>
        && birthCounter == maxBirthCycles
        && |animals'| == |animals| + 1 && animals'[..|animals|] == animals
        && var newborn := animals'[|animals|];
           fresh(newborn) && SameParameters(newborn, this) && AtMaxima(newborn) && newborn.x == x && newborn.y == y
      ensures old(birthCounter) <= 0 ==> Snapshot(bodies + [Body(kind, x, y)], animals')
      ensures 0 < old(birthCounter) ==> birthCounter == old(birthCounter) && animals' == animals && Snapshot(bodies, animals')
    {
      animals' := animals;
      if birthCounter <= 0 {
        var newborn := new Animal(x, y, kind, maxBirthCycles, maxLifeCycles, distanceToEat, distanceToMove);
        animals' := animals' + [newborn];
        birthCounter := maxBirthCycles;
      }
    }

    /** The feeding step: a predator eats every prey in its box and is sated if it ate
        any; a prey grazes the cell under it and, if there was no grass, loses a further
        unit of life. */
    method Feed(animals: seq<Animal>, ghost bodies: seq<Body<Kind>>, grass: Grass.Veg) returns (animals': seq<Animal>)
      requires grass.Valid() && Snapshot(bodies, animals)
      requires kind == Prey ==> CellAt(x, y).Some?
      modifies this`lifeCounter, grass.grid
      ensures grass.Valid()
      ensures kind == Predator ==>
        && animals' == Spared(animals, bodies, Prey, x, y, distanceToEat)
        && lifeCounter == (if |animals'| < |animals| then maxLifeCycles else old(lifeCounter))
        && unchanged(grass.grid)
      ensures kind == Prey ==>
        var rc := CellAt(x, y).value;
        var row, column := rc.0, rc.1;
        && animals' == animals
        && grass.grid[row, column] == Consume(old(grass.grid[row, column]), true, grass.regrowCycles).0
        && lifeCounter == (if Available(old(grass.grid[row, column])) then maxLifeCycles else old(lifeCounter) - 1)
        && forall r, c :: 0 <= r < NumRows && 0 <= c < NumColumns && (r, c) != (row, column) ==>
             grass.grid[r, c] == old(grass.grid[r, c])
      ensures forall a :: a in animals' ==> a in animals
    {
      if kind == Predator {
        var ate;
        animals', ate := Hunt(animals, bodies);
        SparedMembers(animals, bodies, Prey, x, y, distanceToEat);
        if ate {
          lifeCounter := maxLifeCycles;
        }
      } else {
        animals' := animals;
        var ate := grass.EatGrass(x, y);
        if ate {
          lifeCounter := maxLifeCycles;
        } else {
          lifeCounter := lifeCounter - 1;
        }
      }
    }
  }

  /** The constant parameters an offspring copies from its parent. */
  predicate SameParameters(a: Animal, b: Animal) {
    && a.kind == b.kind
    && a.maxBirthCycles == b.maxBirthCycles && a.maxLifeCycles == b.maxLifeCycles
    && a.distanceToEat == b.distanceToEat && a.distanceToMove == b.distanceToMove
  }

  predicate AtMaxima(a: Animal)
    reads a`birthCounter, a`lifeCounter
  {
    a.birthCounter == a.maxBirthCycles && a.lifeCounter == a.maxLifeCycles
  }

  /** What a predation scan sees of a list: the kind and position of each animal.
      Bodies, BodiesAt, Snapshot and BodiesSnapshot have twins in HumanZombie over that
      module's Animal class. The two classes are unrelated types, and a function generic
      over both could not read their fields without a common trait, so each module
      keeps its own copy. */
  function Bodies(s: seq<Animal>): (bs: seq<Body<Kind>>)
    reads s`x, s`y
    ensures |bs| == |s|
  {
    if s == [] then [] else
      var last := s[|s| - 1];
      Bodies(s[..|s| - 1]) + [Body(last.kind, last.x, last.y)]
  }

  lemma {:induction false} BodiesAt(s: seq<Animal>, i: nat)
    requires i < |s|
    ensures Bodies(s)[i] == Body(s[i].kind, s[i].x, s[i].y)
    decreases |s|
  {
    if i < |s| - 1 {
      BodiesAt(s[..|s| - 1], i);
    }
  }

  /** bs shows, entry by entry, the kind and position of the animals of s. Unlike Bodies
      it is not recursive, so it carries over cheaply to a heap in which no position
      changed. */
  ghost predicate Snapshot(bs: seq<Body<Kind>>, s: seq<Animal>)
    reads s`x, s`y
  {
    |bs| == |s| && forall j :: 0 <= j < |s| ==> bs[j] == Body(s[j].kind, s[j].x, s[j].y)
  }

  lemma BodiesSnapshot(s: seq<Animal>)
    ensures Snapshot(Bodies(s), s)
  {
    forall j | 0 <= j < |s|
      ensures Bodies(s)[j] == Body(s[j].kind, s[j].x, s[j].y)
    {
      BodiesAt(s, j);
    }
  }

  /** A predator is never eaten: every predator listed survives the scan. */
  lemma PredatorsSurvive(s: seq<Animal>, x: real, y: real, d: real)
    ensures forall a :: a in s && a.kind == Predator ==> a in Spared(s, Bodies(s), Prey, x, y, d)
  {
    BodiesSnapshot(s);
    SparedMembers(s, Bodies(s), Prey, x, y, d);
  }

  /** The predator is sated exactly when some prey is listed inside its box. */
  lemma SatedWhenPreyInReach(s: seq<Animal>, x: real, y: real, d: real)
    ensures |Spared(s, Bodies(s), Prey, x, y, d)| < |s| <==>
      exists i :: 0 <= i < |s| && s[i].kind == Prey && InBox(x, y, s[i].x, s[i].y, d)
  {
    BodiesSnapshot(s);
    SparedShrinks(s, Bodies(s), Prey, x, y, d);
  }

  /** A position inside the width x height canvas. */
  predicate InArena(a: Animal, width: int, height: int)
    reads a`x, a`y
  {
    InRange(a.x, width) && InRange(a.y, height)
  }

  /** One cycle of the program's main loop: the grass regrows, then each animal listed at
      the start of the cycle and still listed is updated with its own random step
      (moves[i] for the i-th). Every animal stays on a canvas that fits the grid. */
  method Cycle(grass: Grass.Veg, animals: seq<Animal>, ids: seq<int>, moves: seq<(real, real)>, width: int, height: int)
    returns (animals': seq<Animal>)
    requires grass.Valid()
    requires |ids| == NumCells && forall k :: 0 <= k < NumCells ==> ids[k] > 0
    requires |moves| == |animals|
    requires 1 <= width <= NumColumns * CellSize && 1 <= height <= NumRows * CellSize
    requires forall a :: a in animals ==> InArena(a, width, height)
    modifies grass.grid, set a | a in animals
    ensures grass.Valid()
    ensures forall a :: a in animals' ==> InArena(a, width, height)
    ensures forall a :: a in animals' ==> a in animals || fresh(a)
  {
    grass.Update(ids);
    animals' := animals;
    for i := 0 to |animals|
      invariant grass.Valid()
      invariant forall a :: a in animals' ==> InArena(a, width, height)
      invariant forall a :: a in animals' ==> a in animals || fresh(a)
    {
      var animal := animals[i];
      if animal in animals' {
        CellAtInArena(animal.x, animal.y);
        animals' := animal.Update(animals', grass, moves[i].0, moves[i].1, width, height);
      }
    }
  }
}
