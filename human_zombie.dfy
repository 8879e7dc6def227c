/** The agents of the humans-and-zombies model: humans age, die, breed, shoot zombies
    with their ammo, eat food and pick up ammo; zombies never die or breed on their own
    but turn every human they reach into a new zombie; both then move, a zombie chasing
    the humans near it and a human running from the zombies near it. As in the
    sheep-and-wolves model the population is the shared list of agent objects, and every
    scan of it sees the list as it stood when the scan started. */
module HumanZombie {
  import opened Geometry
  import opened ResourceCell
  import opened Population
  import FoodAmmo

  datatype Kind = Human | Zombie

  /** The kind an agent of kind k shoots, eats, chases or runs from. */
  function Opponent(k: Kind): (o: Kind)
    ensures o != k
  {
    match k
    case Human => Zombie
    case Zombie => Human
  }

  /** How an agent reacts to an opponent inside its box: a zombie steps by a tenth of the
      distance, a human steps back by a fifth of it. */
  datatype Reaction = Chase | Run

  function Nudge(c: real, distance: real, r: Reaction): (c': real)
    ensures 0.0 <= distance && r == Chase ==> c <= c'
    ensures 0.0 <= distance && r == Run ==> c' <= c
  {
    match r
    case Chase => c + distance / 10.0
    case Run => c - distance / 5.0
  }

  class Animal {
    var x: real
    var y: real
    var birthCounter: int
    var lifeCounter: int
    var ammo: int
    const kind: Kind
    const maxBirthCycles: int
    const maxLifeCycles: int
    const distanceToEat: real
    /** The standard deviation of the random steps; the steps themselves are inputs. */
    const distanceToMove: real
    const distanceToRun: real
    const distanceToChase: real
    const distanceToShoot: real

    /** A new agent starts with both counters at their maxima and the ammo it is given. */
    constructor (x: real, y: real, kind: Kind, maxBirthCycles: int, maxLifeCycles: int, distanceToEat: real,
                 distanceToMove: real, distanceToRun: real, distanceToChase: real, distanceToShoot: real, ammo: int)
      ensures this.x == x && this.y == y && this.kind == kind && this.ammo == ammo
      ensures this.maxBirthCycles == maxBirthCycles && this.maxLifeCycles == maxLifeCycles
      ensures this.distanceToEat == distanceToEat && this.distanceToMove == distanceToMove
      ensures this.distanceToRun == distanceToRun && this.distanceToChase == distanceToChase
      ensures this.distanceToShoot == distanceToShoot
      ensures birthCounter == maxBirthCycles && lifeCounter == maxLifeCycles
    {
      this.x := x;
      this.y := y;
      this.kind := kind;
      this.maxBirthCycles := maxBirthCycles;
      this.maxLifeCycles := maxLifeCycles;
      this.distanceToEat := distanceToEat;
      this.distanceToMove := distanceToMove;
      this.distanceToRun := distanceToRun;
      this.distanceToChase := distanceToChase;
      this.distanceToShoot := distanceToShoot;
      this.ammo := ammo;
      birthCounter := maxBirthCycles;
      lifeCounter := maxLifeCycles;
    }

    /** The half-width of the box inside which this agent reacts to an opponent. */
    function Alertness(): real {
      if kind == Zombie then distanceToChase else distanceToRun
    }

    function Reacts(): Reaction {
      if kind == Zombie then Chase else Run
    }

    /** A copy of this agent made at (x, y) when it had ammo a: what a human's newborn
        and a zombie's victim become. */
    predicate Copies(a: Animal, x: real, y: real, ammo: int)
      reads a`birthCounter, a`lifeCounter, a`x, a`y, a`ammo
    {
      && SameParameters(a, this)
      && a.birthCounter == a.maxBirthCycles && a.lifeCounter == a.maxLifeCycles
      && a.x == x && a.y == y && a.ammo == ammo
    }

    /** One cycle of this agent, in the program's order: both counters drop by one; a
        human whose life counter reaches 0 dies and is removed, a zombie never dies;
        otherwise a human may breed, shoot while it has ammo and forage, a zombie eats
        the humans it reaches, and both move. The life test is made on the counter
        before the decrement (at most 1), which is the program's test after it. */
    method Update(animals: seq<Animal>, food: FoodAmmo.Veg, draw: nat -> (real, real), width: int, height: int)
      returns (animals': seq<Animal>)
      requires food.Valid()
      requires kind == Human && lifeCounter <= 1 ==> this in animals
      requires kind == Human && 1 < lifeCounter ==> CellAt(x, y).Some?
      modifies this, food.grid
      ensures food.Valid()
      ensures kind == Human && old(lifeCounter) <= 1 ==>
        && animals' == RemoveFirst(animals, this)
        && birthCounter == old(birthCounter) - 1 && lifeCounter == old(lifeCounter) - 1
        && x == old(x) && y == old(y) && ammo == old(ammo)
        && unchanged(food.grid)
      ensures kind == Human && 1 < old(lifeCounter) ==>
        var all := old(Bodies(animals));
        var kept := if old(ammo) > 0 then Spared(animals, all, Zombie, old(x), old(y), distanceToShoot) else animals;
        var seen := if old(ammo) > 0 then Spared(all, all, Zombie, old(x), old(y), distanceToShoot) else all;
        var rc := CellAt(old(x), old(y)).value;
        var row, column := rc.0, rc.1;
        var pick := Pickup(old(food.grid[row, column]), food.kind, food.regrowCycles);
        var cell, ate, armed := pick.0, pick.1, pick.2;
        && birthCounter == (if old(birthCounter) <= 1 then maxBirthCycles else old(birthCounter) - 1)
        && |animals'| == |kept| + (if old(birthCounter) <= 1 then 1 else 0)
        && animals'[..|kept|] == kept
        && (old(birthCounter) <= 1 ==> fresh(animals'[|kept|]) && Copies(animals'[|kept|], old(x), old(y), old(ammo)))
        && ammo == old(ammo) - (|animals| - |kept|) + (if armed then 1 else 0)
        && lifeCounter == (if ate then maxLifeCycles else old(lifeCounter) - 2)
        && food.grid[row, column] == cell
        && (forall r, c :: 0 <= r < NumRows && 0 <= c < NumColumns && (r, c) != (row, column) ==>
              food.grid[r, c] == old(food.grid[r, c]))
        && (x, y) == Track((old(x), old(y)), seen, Zombie, distanceToRun, Run, draw, width, height)
      ensures kind == Zombie ==>
        var all := old(Bodies(animals));
        var kept := Spared(animals, all, Human, old(x), old(y), distanceToEat);
        var converted := |animals| - |kept|;
        && |animals'| == |animals| && animals'[..|kept|] == kept
        && (forall i :: |kept| <= i < |animals'| ==> fresh(animals'[i]) && Copies(animals'[i], old(x), old(y), old(ammo)))
        && birthCounter == (if 0 < converted then maxBirthCycles else old(birthCounter) - 1)
        && lifeCounter == (if 0 < converted then maxLifeCycles else old(lifeCounter) - 1)
        && ammo == old(ammo)
        && unchanged(food.grid)
        && (x, y) == Track((old(x), old(y)), Spared(all, all, Human, old(x), old(y), distanceToEat),
                           Human, distanceToChase, Chase, draw, width, height)
      ensures forall a :: a in animals' ==> a in animals || (fresh(a) && a.x == old(x) && a.y == old(y))
    {
      if kind == Human {
        if lifeCounter <= 1 {
          birthCounter := birthCounter - 1;
          lifeCounter := lifeCounter - 1;
          animals' := RemoveFirst(animals, this);
          forall a | a in animals'
            ensures a in animals
          {
            assert a in multiset(animals');
          }
        } else {
          animals' := HumanCycle(animals, food, draw, width, height);
        }
      } else {
        animals' := ZombieCycle(animals, draw, width, height);
      }
    }

    /** The cycle of a human that survives it: decrement, birth and shooting, then
        foraging and running. */
    method HumanCycle(animals: seq<Animal>, food: FoodAmmo.Veg, draw: nat -> (real, real), width: int, height: int)
      returns (animals': seq<Animal>)
      requires kind == Human && 1 < lifeCounter
      requires food.Valid() && CellAt(x, y).Some?
      modifies this`birthCounter, this`lifeCounter, this`ammo, this`x, this`y, food.grid
      ensures food.Valid()
      ensures
        var all := old(Bodies(animals));
        var kept := if old(ammo) > 0 then Spared(animals, all, Zombie, old(x), old(y), distanceToShoot) else animals;
        var seen := if old(ammo) > 0 then Spared(all, all, Zombie, old(x), old(y), distanceToShoot) else all;
        var rc := CellAt(old(x), old(y)).value;
        var row, column := rc.0, rc.1;
        var pick := Pickup(old(food.grid[row, column]), food.kind, food.regrowCycles);
        var cell, ate, armed := pick.0, pick.1, pick.2;
        && birthCounter == (if old(birthCounter) <= 1 then maxBirthCycles else old(birthCounter) - 1)
        && |animals'| == |kept| + (if old(birthCounter) <= 1 then 1 else 0)
        && animals'[..|kept|] == kept
        && (old(birthCounter) <= 1 ==> fresh(animals'[|kept|]) && Copies(animals'[|kept|], old(x), old(y), old(ammo)))
        && ammo == old(ammo) - (|animals| - |kept|) + (if armed then 1 else 0)
        && lifeCounter == (if ate then maxLifeCycles else old(lifeCounter) - 2)
        && food.grid[row, column] == cell
        && (forall r, c :: 0 <= r < NumRows && 0 <= c < NumColumns && (r, c) != (row, column) ==>
              food.grid[r, c] == old(food.grid[r, c]))
        && (x, y) == Track((old(x), old(y)), seen, Zombie, distanceToRun, Run, draw, width, height)
      ensures forall a :: a in animals' ==> a in animals || (fresh(a) && a.x == old(x) && a.y == old(y))
    {
      ghost var all := Bodies(animals);
      BodiesSnapshot(animals);
      ghost var seen := if ammo > 0 then Spared(all, all, Zombie, x, y, distanceToShoot) else all;
      ghost var b := Body(Human, x, y);
      var listed := Arm(animals, all);
      ghost var bodies := if old(birthCounter) <= 1 then seen + [b] else seen;
      Forage(food);
      Move(listed, bodies, draw, width, height);
      if old(birthCounter) <= 1 {
        TrackAppendBystander((old(x), old(y)), seen, b, Zombie, distanceToRun, Run, draw, width, height);
      }
      animals' := listed;
    }

    /** The first part of a surviving human's cycle: the decrement, birth and, while it
        has ammo, shooting. bodies describes the list at the start. */
    method Arm(animals: seq<Animal>, ghost bodies: seq<Body<Kind>>) returns (listed: seq<Animal>)
      requires kind == Human && Snapshot(bodies, animals)
      modifies this`birthCounter, this`lifeCounter, this`ammo
      ensures
        var kept := if old(ammo) > 0 then Spared(animals, bodies, Zombie, x, y, distanceToShoot) else animals;
        var seen := if old(ammo) > 0 then Spared(bodies, bodies, Zombie, x, y, distanceToShoot) else bodies;
        var born := old(birthCounter) <= 1;
        && birthCounter == (if born then maxBirthCycles else old(birthCounter) - 1)
        && lifeCounter == old(lifeCounter) - 1
        && |listed| == |kept| + (if born then 1 else 0) && listed[..|kept|] == kept
        && (born ==> fresh(listed[|kept|]) && Copies(listed[|kept|], x, y, old(ammo)))
        && ammo == old(ammo) - (|animals| - |kept|)
        && Snapshot(if born then seen + [Body(Human, x, y)] else seen, listed)
        && (forall a :: a in listed ==> a in animals || (born && a == listed[|kept|]))
    {
      birthCounter := birthCounter - 1;
      lifeCounter := lifeCounter - 1;
      ghost var kept := if ammo > 0 then Spared(animals, bodies, Zombie, x, y, distanceToShoot) else animals;
      listed := Breed(animals, bodies);
      if |listed| > |animals| {
        ghost var newborn := listed[|animals|];
        ghost var b := Body(Human, x, y);
        assert listed == animals + [newborn];
        if ammo > 0 {
          SparedAppend(animals, bodies, newborn, b, Zombie, x, y, distanceToShoot);
          SparedAppend(bodies, bodies, b, b, Zombie, x, y, distanceToShoot);
          listed := Shoot(listed, bodies + [b]);
        }
        assert listed == kept + [newborn];
      } else if ammo > 0 {
        listed := Shoot(listed, bodies);
      }
    }

    /** The cycle of a zombie: decrement, eating and chasing. */
    method ZombieCycle(animals: seq<Animal>, draw: nat -> (real, real), width: int, height: int)
      returns (animals': seq<Animal>)
      requires kind == Zombie
      modifies this`birthCounter, this`lifeCounter, this`x, this`y
      ensures
        var all := old(Bodies(animals));
        var kept := Spared(animals, all, Human, old(x), old(y), distanceToEat);
        var converted := |animals| - |kept|;
        && |animals'| == |animals| && animals'[..|kept|] == kept
        && (forall i :: |kept| <= i < |animals'| ==> fresh(animals'[i]) && Copies(animals'[i], old(x), old(y), old(ammo)))
        && birthCounter == (if 0 < converted then maxBirthCycles else old(birthCounter) - 1)
        && lifeCounter == (if 0 < converted then maxLifeCycles else old(lifeCounter) - 1)
        && (x, y) == Track((old(x), old(y)), Spared(all, all, Human, old(x), old(y), distanceToEat),
                           Human, distanceToChase, Chase, draw, width, height)
      ensures forall a :: a in animals' ==> a in animals || (fresh(a) && a.x == old(x) && a.y == old(y))
    {
      ghost var all := Bodies(animals);
      BodiesSnapshot(animals);
      ghost var kept := Spared(animals, all, Human, x, y, distanceToEat);
      ghost var seen := Spared(all, all, Human, x, y, distanceToEat);
      var listed := Feast(animals, all);
      ghost var newcomers := Repeat(Body(Zombie, x, y), |animals| - |kept|);
      BystandersDoNotMatter((x, y), seen, newcomers, Human, distanceToChase, Chase, draw, width, height);
      Move(listed, seen + newcomers, draw, width, height);
      animals' := listed;
    }

    /** The first half of a zombie's cycle: the decrement and the meal. bodies describes
        the list at the start. */
    method Feast(animals: seq<Animal>, ghost bodies: seq<Body<Kind>>) returns (listed: seq<Animal>)
      requires kind == Zombie && Snapshot(bodies, animals)
      modifies this`birthCounter, this`lifeCounter
      ensures
        var kept := Spared(animals, bodies, Human, x, y, distanceToEat);
        var converted := |animals| - |kept|;
        && |listed| == |animals| && listed[..|kept|] == kept
        && (forall i :: |kept| <= i < |listed| ==> fresh(listed[i]) && Copies(listed[i], x, y, ammo))
        && birthCounter == (if 0 < converted then maxBirthCycles else old(birthCounter) - 1)
        && lifeCounter == (if 0 < converted then maxLifeCycles else old(lifeCounter) - 1)
        && Snapshot(Spared(bodies, bodies, Human, x, y, distanceToEat) + Repeat(Body(Zombie, x, y), converted), listed)
      ensures forall a :: a in listed ==> a in animals || (fresh(a) && a.x == x && a.y == y)
    {
      birthCounter := birthCounter - 1;
      lifeCounter := lifeCounter - 1;
      var kept, converts := Devour(animals, bodies);
      listed := kept + converts;
      assert listed[|kept|..] == converts;
      SparedMembers(animals, bodies, Human, x, y, distanceToEat);
      SparedSnapshot(animals, bodies, Human, x, y, distanceToEat);
      ghost var newcomers := Repeat(Body(Zombie, x, y), |converts|);
      forall j | |kept| <= j < |listed|
        ensures (Spared(bodies, bodies, Human, x, y, distanceToEat) + newcomers)[j]
          == Body(listed[j].kind, listed[j].x, listed[j].y)
      {
        assert Copies(converts[j - |kept|], x, y, ammo);
      }
    }

    /** The birth step of a human: when the birth counter has run out, a copy of it (with
        its current ammo) is appended and the counter is reset. */
    method Breed(animals: seq<Animal>, ghost bodies: seq<Body<Kind>>) returns (animals': seq<Animal>)
      requires kind == Human && Snapshot(bodies, animals)
      modifies this`birthCounter
      ensures old(birthCounter) <= 0 ==>
        && birthCounter == maxBirthCycles
        && |animals'| == |animals| + 1 && animals'[..|animals|] == animals
        && fresh(animals'[|animals|]) && Copies(animals'[|animals|], x, y, ammo)
        && Snapshot(bodies + [Body(Human, x, y)], animals')
      ensures 0 < old(birthCounter) ==> birthCounter == old(birthCounter) && animals' == animals && Snapshot(bodies, animals')
    {
      animals' := animals;
      if birthCounter <= 0 {
        var newborn := new Animal(x, y, kind, maxBirthCycles, maxLifeCycles, distanceToEat, distanceToMove,
                                  distanceToRun, distanceToChase, distanceToShoot, ammo);
        animals' := animals' + [newborn];
        birthCounter := maxBirthCycles;
      }
    }

    /** The shooting loop: every zombie inside the strict DistanceToShoot box is removed
        and costs one unit of ammo. The ammo test guards only the start of the loop, so
        more zombies than rounds drive the ammo below 0. The scan sees the agents as
        bodies describes them. */
    method Shoot(animals: seq<Animal>, ghost bodies: seq<Body<Kind>>) returns (kept: seq<Animal>)
      requires Snapshot(bodies, animals)
      modifies this`ammo
      ensures kept == Spared(animals, bodies, Zombie, x, y, distanceToShoot)
      ensures ammo == old(ammo) - (|animals| - |kept|)
      ensures Snapshot(Spared(bodies, bodies, Zombie, x, y, distanceToShoot), kept)
      ensures forall a :: a in kept ==> a in animals
    {
      kept := [];
      var i := 0;
      while i < |animals|
        invariant 0 <= i <= |animals|
        invariant kept == Spared(animals[..i], bodies[..i], Zombie, x, y, distanceToShoot)
        invariant ammo == old(ammo) - (i - |kept|)
      {
        SparedStep(animals, bodies, Zombie, x, y, distanceToShoot, i);
        var item := animals[i];
        if item.kind == Zombie && Abs(x - item.x) < distanceToShoot && Abs(y - item.y) < distanceToShoot {
          ammo := ammo - 1;
        } else {
          kept := kept + [item];
        }
        i := i + 1;
      }
      assert animals[..i] == animals && bodies[..i] == bodies;
      SparedSnapshot(animals, bodies, Zombie, x, y, distanceToShoot);
      SparedMembers(animals, bodies, Zombie, x, y, distanceToShoot);
    }

    /** The eating loop of a zombie: every human inside the strict DistanceToEat box is
        removed, and for each a new zombie, a copy of this one, is created to be appended
        at the end; each meal resets both counters. */
    method Devour(animals: seq<Animal>, ghost bodies: seq<Body<Kind>>) returns (kept: seq<Animal>, converts: seq<Animal>)
      requires kind == Zombie && Snapshot(bodies, animals)
      modifies this`birthCounter, this`lifeCounter
      ensures kept == Spared(animals, bodies, Human, x, y, distanceToEat)
      ensures |converts| == |animals| - |kept|
      ensures forall j :: 0 <= j < |converts| ==> fresh(converts[j]) && Copies(converts[j], x, y, ammo)
      ensures |kept| < |animals| ==> birthCounter == maxBirthCycles && lifeCounter == maxLifeCycles
      ensures |kept| == |animals| ==> birthCounter == old(birthCounter) && lifeCounter == old(lifeCounter)
    {
      kept := [];
      converts := [];
      var i := 0;
      while i < |animals|
        invariant 0 <= i <= |animals|
        invariant kept == Spared(animals[..i], bodies[..i], Human, x, y, distanceToEat)
        invariant |converts| == i - |kept|
        invariant forall j :: 0 <= j < |converts| ==> fresh(converts[j]) && Copies(converts[j], x, y, ammo)
        invariant |kept| < i ==> birthCounter == maxBirthCycles && lifeCounter == maxLifeCycles
        invariant |kept| == i ==> birthCounter == old(birthCounter) && lifeCounter == old(lifeCounter)
        invariant Snapshot(bodies, animals)
      {
        SparedStep(animals, bodies, Human, x, y, distanceToEat, i);
        var item := animals[i];
        var newborn := Bite(item, bodies[i]);
        if newborn.Some? {
          converts := converts + [newborn.value];
        } else {
          kept := kept + [item];
        }
        i := i + 1;
      }
      assert animals[..i] == animals && bodies[..i] == bodies;
    }

    /** The body of the eating loop for the agent item, which looks like b: a human inside
        the box is eaten, and the copy of this zombie that replaces it is returned. */
    method Bite(item: Animal, ghost b: Body<Kind>) returns (newborn: Option<Animal>)
      requires b == Body(item.kind, item.x, item.y)
      modifies this`birthCounter, this`lifeCounter
      ensures newborn.Some? <==> Reached(b, Human, x, y, distanceToEat)
      ensures newborn.Some? ==>
        && fresh(newborn.value) && Copies(newborn.value, x, y, ammo)
        && birthCounter == maxBirthCycles && lifeCounter == maxLifeCycles
      ensures newborn.None? ==> birthCounter == old(birthCounter) && lifeCounter == old(lifeCounter)
    {
      newborn := None;
      if item.kind == Human && Abs(x - item.x) < distanceToEat && Abs(y - item.y) < distanceToEat {
        lifeCounter := maxLifeCycles;
        var copy := new Animal(x, y, kind, maxBirthCycles, maxLifeCycles, distanceToEat, distanceToMove,
                               distanceToRun, distanceToChase, distanceToShoot, ammo);
        newborn := Some(copy);
        birthCounter := maxBirthCycles;
      }
    }

    /** Foraging of a human on the cell under it: eat food, then pick up ammo from the
        same cell. */
    method Forage(food: FoodAmmo.Veg)
      requires food.Valid() && CellAt(x, y).Some?
      modifies this`lifeCounter, this`ammo, food.grid
      ensures food.Valid()
      ensures
        var rc := CellAt(x, y).value;
        var row, column := rc.0, rc.1;
        var pick := Pickup(old(food.grid[row, column]), food.kind, food.regrowCycles);
        var cell, ate, armed := pick.0, pick.1, pick.2;
        && food.grid[row, column] == cell
        && lifeCounter == (if ate then maxLifeCycles else old(lifeCounter) - 1)
        && ammo == (if armed then old(ammo) + 1 else old(ammo))
        && forall r, c :: 0 <= r < NumRows && 0 <= c < NumColumns && (r, c) != (row, column) ==>
             food.grid[r, c] == old(food.grid[r, c])
    {
      var ate := food.EatFood(x, y);
      if ate {
        lifeCounter := maxLifeCycles;
      } else {
        lifeCounter := lifeCounter - 1;
      }
      var armed := food.UseAmmo(x, y);
      if armed {
        ammo := ammo + 1;
      }
    }

    /** The movement loop: for every opponent in the list, in order, a step towards it
        (zombie) or away from it (human) when it is inside the box, otherwise the random
        step draw(i) for the opponent at position i; each step is followed by the wrap. */
    method Move(animals: seq<Animal>, ghost bodies: seq<Body<Kind>>, draw: nat -> (real, real), width: int, height: int)
      requires Snapshot(bodies, animals)
      modifies this`x, this`y
      ensures (x, y) == Track((old(x), old(y)), bodies, Opponent(kind), Alertness(), Reacts(), draw, width, height)
    {
      var i := 0;
      while i < |animals|
        invariant 0 <= i <= |animals|
        invariant (x, y) == Track((old(x), old(y)), bodies[..i], Opponent(kind), Alertness(), Reacts(), draw, width, height)
        invariant forall j :: 0 <= j < |animals| && animals[j].kind != kind ==>
          bodies[j] == Body(animals[j].kind, animals[j].x, animals[j].y)
      {
        assert bodies[..i + 1][..i] == bodies[..i];
        React(animals[i], bodies[i], i, draw, width, height);
        i := i + 1;
      }
      assert bodies[..i] == bodies;
    }

    /** The body of the movement loop for the agent item at position i, which looks like
        b: chase or run from it if it is an opponent inside the box, otherwise take the
        random step draw(i). */
    method React(item: Animal, ghost b: Body<Kind>, i: nat, draw: nat -> (real, real), width: int, height: int)
      requires item.kind == kind || b == Body(item.kind, item.x, item.y)
      requires b.kind == item.kind
      modifies this`x, this`y
      ensures (x, y) == Step((old(x), old(y)), b, i, Opponent(kind), Alertness(), Reacts(), draw, width, height)
    {
      if item.kind == Opponent(kind) {
        var reach := Alertness();
        var distanceX := Abs(x - item.x);
        var distanceY := Abs(y - item.y);
        if distanceX < reach && distanceY < reach {
          x := Wrap(Nudge(x, distanceX, Reacts()), width);
          y := Wrap(Nudge(y, distanceY, Reacts()), height);
        } else {
          var (gx, gy) := draw(i);
          x := Wrap(x + gx, width);
          y := Wrap(y + gy, height);
        }
      }
    }
  }

  /** n copies of a. */
  function Repeat<T>(a: T, n: nat): (r: seq<T>)
    ensures |r| == n && forall i :: 0 <= i < n ==> r[i] == a
  {
    seq(n, _ => a)
  }

  /** The constant parameters a copy shares with its original. */
  predicate SameParameters(a: Animal, b: Animal) {
    && a.kind == b.kind
    && a.maxBirthCycles == b.maxBirthCycles && a.maxLifeCycles == b.maxLifeCycles
    && a.distanceToEat == b.distanceToEat && a.distanceToMove == b.distanceToMove
    && a.distanceToRun == b.distanceToRun && a.distanceToChase == b.distanceToChase
    && a.distanceToShoot == b.distanceToShoot
  }

  /** The number of agents of kind k in a list. */
  function Count(s: seq<Animal>, k: Kind): (n: nat)
    ensures n <= |s|
  {
    if s == [] then 0 else Count(s[..|s| - 1], k) + (if s[|s| - 1].kind == k then 1 else 0)
  }

  lemma {:induction false} CountAppend(s: seq<Animal>, t: seq<Animal>, k: Kind)
    ensures Count(s + t, k) == Count(s, k) + Count(t, k)
    decreases |t|
  {
    if t == [] {
      assert s + t == s;
    } else {
      var n := |t| - 1;
      CountAppend(s, t[..n], k);
      assert (s + t)[..|s + t| - 1] == s + t[..n];
    }
  }

  /** The i-th body describes the kind of the i-th agent. */
  predicate Describes(bs: seq<Body<Kind>>, s: seq<Animal>) {
    |bs| == |s| && forall i :: 0 <= i < |s| ==> bs[i].kind == s[i].kind
  }

  /** A scan removes only agents of its target kind: the other kind keeps its number and
      the target kind loses exactly the agents removed. */
  lemma {:induction false} SparedCounts(s: seq<Animal>, bs: seq<Body<Kind>>, target: Kind, x: real, y: real, d: real)
    requires Describes(bs, s)
    ensures Count(Spared(s, bs, target, x, y, d), Opponent(target)) == Count(s, Opponent(target))
    ensures Count(Spared(s, bs, target, x, y, d), target) == Count(s, target) - (|s| - |Spared(s, bs, target, x, y, d)|)
    decreases |s|
  {
    if s != [] {
      var n := |s| - 1;
      assert Describes(bs[..n], s[..n]);
      SparedCounts(s[..n], bs[..n], target, x, y, d);
      var rest := Spared(s[..n], bs[..n], target, x, y, d);
      if Reached(bs[n], target, x, y, d) {
        assert rest + [] == rest;
        assert s[n].kind == target && Opponent(target) != target;
      } else {
        assert Spared(s, bs, target, x, y, d) == rest + [s[n]];
        CountAppend(rest, [s[n]], target);
        CountAppend(rest, [s[n]], Opponent(target));
      }
    }
  }

  /** Every human a zombie eats becomes a zombie: humans lose and zombies gain exactly the
      number eaten, and the population keeps its size. */
  lemma Conversion(s: seq<Animal>, bs: seq<Body<Kind>>, converts: seq<Animal>, x: real, y: real, d: real)
    requires Describes(bs, s)
    requires |converts| == |s| - |Spared(s, bs, Human, x, y, d)|
    requires forall a :: a in converts ==> a.kind == Zombie
    ensures var after := Spared(s, bs, Human, x, y, d) + converts;
      var eaten := |s| - |Spared(s, bs, Human, x, y, d)|;
      && |after| == |s|
      && Count(after, Human) == Count(s, Human) - eaten
      && Count(after, Zombie) == Count(s, Zombie) + eaten
  {
    var kept := Spared(s, bs, Human, x, y, d);
    SparedCounts(s, bs, Human, x, y, d);
    CountAppend(kept, converts, Human);
    CountAppend(kept, converts, Zombie);
    AllZombies(converts);
  }

  lemma {:induction false} AllZombies(s: seq<Animal>)
    requires forall a :: a in s ==> a.kind == Zombie
    ensures Count(s, Zombie) == |s| && Count(s, Human) == 0
    decreases |s|
  {
    if s != [] {
      AllZombies(s[..|s| - 1]);
    }
  }

  /** What every scan of a list sees: the kind and position of each agent. */
  function Bodies(s: seq<Animal>): (bs: seq<Body<Kind>>)
    reads s`x, s`y
    ensures |bs| == |s|
  {
    if s == [] then [] else
      var last := s[|s| - 1];
      Bodies(s[..|s| - 1]) + [Body(last.kind, last.x, last.y)]
  }

  lemma {:induction false} BodiesAt(s: seq<Animal>, i: nat)
    requires i < |s|
    ensures Bodies(s)[i] == Body(s[i].kind, s[i].x, s[i].y)
    decreases |s|
  {
    if i < |s| - 1 {
      BodiesAt(s[..|s| - 1], i);
    }
  }

  /** bs shows, entry by entry, the kind and position of the agents of s. Unlike Bodies
      it is not recursive, so it carries over cheaply to a heap in which no position
      changed. */
  ghost predicate Snapshot(bs: seq<Body<Kind>>, s: seq<Animal>)
    reads s`x, s`y
  {
    |bs| == |s| && forall j :: 0 <= j < |s| ==> bs[j] == Body(s[j].kind, s[j].x, s[j].y)
  }

  lemma BodiesSnapshot(s: seq<Animal>)
    ensures Snapshot(Bodies(s), s)
  {
    forall j | 0 <= j < |s|
      ensures Bodies(s)[j] == Body(s[j].kind, s[j].x, s[j].y)
    {
      BodiesAt(s, j);
    }
  }

  /** What a scan leaves of a list looks exactly like what it leaves of that list's
      snapshot: later scans may work on the bodies alone. */
  lemma {:induction false} SparedSnapshot(s: seq<Animal>, bs: seq<Body<Kind>>, target: Kind, x: real, y: real, d: real)
    requires Snapshot(bs, s)
    ensures Snapshot(Spared(bs, bs, target, x, y, d), Spared(s, bs, target, x, y, d))
    decreases |s|
  {
    if s != [] {
      var n := |s| - 1;
      assert Snapshot(bs[..n], s[..n]);
      SparedSnapshot(s[..n], bs[..n], target, x, y, d);
    }
  }

  /** Where a movement scan over bs leaves an agent that starts at p, looking for agents
      of kind target inside the box of half-width d. Once an opponent is listed, the
      agent ends on the canvas. */
  function Track(p: (real, real), bs: seq<Body<Kind>>, target: Kind, d: real, r: Reaction,
                 draw: nat -> (real, real), width: int, height: int): (q: (real, real))
    ensures 1 <= width && 1 <= height && (exists i :: 0 <= i < |bs| && bs[i].kind == target) ==>
              InRange(q.0, width) && InRange(q.1, height)
    decreases |bs|
  {
    if bs == [] then p
    else
      var n := |bs| - 1;
      Step(Track(p, bs[..n], target, d, r, draw, width, height), bs[n], n, target, d, r, draw, width, height)
  }

  /** One step of the scan, from q, for the agent b at position n of the list: nothing
      unless it is of kind target; a reaction when it is inside the box, otherwise the
      random step draw(n); then the wrap. */
  function Step(q: (real, real), b: Body<Kind>, n: nat, target: Kind, d: real, r: Reaction,
                draw: nat -> (real, real), width: int, height: int): (q': (real, real))
    ensures b.kind != target ==> q' == q
    ensures b.kind == target && 1 <= width && 1 <= height ==> InRange(q'.0, width) && InRange(q'.1, height)
  {
    if b.kind != target then q
    else if InBox(q.0, q.1, b.x, b.y, d) then
      (Wrap(Nudge(q.0, Abs(q.0 - b.x), r), width), Wrap(Nudge(q.1, Abs(q.1 - b.y), r), height))
    else
      (Wrap(q.0 + draw(n).0, width), Wrap(q.1 + draw(n).1, height))
  }

  /** With no opponent in the list an agent does not move at all. */
  lemma {:induction false} TrackWithoutTargets(p: (real, real), bs: seq<Body<Kind>>, target: Kind, d: real, r: Reaction,
                                               draw: nat -> (real, real), width: int, height: int)
    requires forall i :: 0 <= i < |bs| ==> bs[i].kind != target
    ensures Track(p, bs, target, d, r, draw, width, height) == p
    decreases |bs|
  {
    if bs != [] {
      TrackWithoutTargets(p, bs[..|bs| - 1], target, d, r, draw, width, height);
    }
  }

  /** Every step ends with the wrap, so an agent either has not moved or is on the
      canvas. */
  lemma {:induction false} TrackInArena(p: (real, real), bs: seq<Body<Kind>>, target: Kind, d: real, r: Reaction,
                                        draw: nat -> (real, real), width: int, height: int)
    requires 1 <= width && 1 <= height
    ensures var q := Track(p, bs, target, d, r, draw, width, height);
      q == p || (InRange(q.0, width) && InRange(q.1, height))
    decreases |bs|
  {
    if bs != [] {
      TrackInArena(p, bs[..|bs| - 1], target, d, r, draw, width, height);
    }
  }

  /** An agent that starts on the canvas stays on it, whatever the scan sees. */
  lemma TrackKeepsInArena(p: (real, real), draw: nat -> (real, real), width: int, height: int)
    requires InRange(p.0, width) && InRange(p.1, height)
    ensures forall bs, target, d, r :: var q := Track(p, bs, target, d, r, draw, width, height);
      InRange(q.0, width) && InRange(q.1, height)
  {
    forall bs, target, d, r
      ensures var q := Track(p, bs, target, d, r, draw, width, height);
        InRange(q.0, width) && InRange(q.1, height)
    {
      TrackInArena(p, bs, target, d, r, draw, width, height);
    }
  }

  /** Agents of the mover's own kind appended to the list change nothing. */
  lemma TrackAppendBystander(p: (real, real), bs: seq<Body<Kind>>, b: Body<Kind>, target: Kind, d: real, r: Reaction,
                             draw: nat -> (real, real), width: int, height: int)
    requires b.kind != target
    ensures Track(p, bs + [b], target, d, r, draw, width, height) == Track(p, bs, target, d, r, draw, width, height)
  {
    assert (bs + [b])[..|bs|] == bs;
  }

  lemma {:induction false} BystandersDoNotMatter(p: (real, real), bs: seq<Body<Kind>>, extra: seq<Body<Kind>>, target: Kind,
                                                 d: real, r: Reaction, draw: nat -> (real, real), width: int, height: int)
    requires forall i :: 0 <= i < |extra| ==> extra[i].kind != target
    ensures Track(p, bs + extra, target, d, r, draw, width, height) == Track(p, bs, target, d, r, draw, width, height)
    decreases |extra|
  {
    if extra != [] {
      var n := |extra| - 1;
      assert bs + extra == (bs + extra[..n]) + [extra[n]];
      BystandersDoNotMatter(p, bs, extra[..n], target, d, r, draw, width, height);
      TrackAppendBystander(p, bs + extra[..n], extra[n], target, d, r, draw, width, height);
    } else {
      assert bs + extra == bs;
    }
  }

  /** The chase as written: a zombie at (100, 100) with a human at (95, 95) inside its
      chase box steps to (100.5, 100.5), away from the human, because the step adds the
      absolute distance whatever side the human is on. */
  lemma ChaseIgnoresDirection(draw: nat -> (real, real))
    ensures Track((100.0, 100.0), [Body(Human, 95.0, 95.0)], Human, 10.0, Chase, draw, 500, 500) == (100.5, 100.5)
  {
  }

  /** Foraging on one cell holding v while the grid-wide type is t: EatFood, then UseAmmo
      on what it left. Returns (new cell, food found, ammo found). */
  function Pickup(v: int, t: FoodAmmo.ResourceType, regrowCycles: nat): (res: (int, bool, bool))
    ensures res.1 <==> Available(v)
    ensures res.2 <==> Available(v) && t != FoodAmmo.Food
    ensures res.0 == if Available(v) && t != FoodAmmo.Untyped then Depleted(regrowCycles) else v
  {
    var (cell, ate) := Consume(v, t == FoodAmmo.Food, regrowCycles);
    var (cell', armed) := Consume(cell, t == FoodAmmo.Ammo, regrowCycles);
    (cell', ate, armed)
  }

  /** A position inside the width x height canvas. */
  predicate InArena(a: Animal, width: int, height: int)
    reads a`x, a`y
  {
    InRange(a.x, width) && InRange(a.y, height)
  }

  /** One cycle of the program's main loop: the food and ammo regrow, then each agent
      listed at the start of the cycle and still listed is updated, the i-th with the
      random steps draws[i]. Every agent stays on a canvas that fits the grid. */
  method Cycle(food: FoodAmmo.Veg, animals: seq<Animal>, ids: seq<int>, typeDraws: seq<int>,
               draws: seq<nat -> (real, real)>, width: int, height: int)
    returns (animals': seq<Animal>)
    requires food.Valid()
    requires |ids| == NumCells && |typeDraws| == NumCells && forall k :: 0 <= k < NumCells ==> ids[k] > 0
    requires |draws| == |animals|
    requires 1 <= width <= NumColumns * CellSize && 1 <= height <= NumRows * CellSize
    requires forall a :: a in animals ==> InArena(a, width, height)
    modifies food, food.grid, set a | a in animals
    ensures food.Valid()
    ensures forall a :: a in animals' ==> InArena(a, width, height)
    ensures forall a :: a in animals' ==> a in animals || fresh(a)
  {
    food.Update(ids, typeDraws);
    animals' := animals;
    for i := 0 to |animals|
      invariant food.Valid()
      invariant forall a :: a in animals' ==> InArena(a, width, height)
      invariant forall a :: a in animals' ==> a in animals || fresh(a)
    {
      var animal := animals[i];
      if animal in animals' {
        CellAtInArena(animal.x, animal.y);
        TrackKeepsInArena((animal.x, animal.y), draws[i], width, height);
        animals' := animal.Update(animals', food, draws[i], width, height);
      }
    }
  }
}
