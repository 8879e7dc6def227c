# Agent-based sheep/wolves and humans/zombies, modelled in Dafny

The repository holds two small agent-based simulations that share one design.

- **Sheep and wolves** (`Original_ABM`): prey graze a field of grass; predators eat the prey near them.
- **Humans and zombies** (`Zombie_ABM`): humans eat food, pick up and fire ammo, and run from zombies. Zombies turn the humans they reach into new zombies and chase the humans near them.

Each simulation has two core parts:

- a **resource grid** (`Veg`): a 50 x 50 grid of integer cells whose sign encodes their state. A positive value is an available unit; the program keeps the id of its canvas rectangle there. A value of at most 0 counts the updates left until the unit regrows.
- an **agent** (`AnimalClass`): its `Update` acts on the agent's own counters and position and on the shared population list. In order, it:
  1. decrements the birth and life counters;
  2. removes a dead agent;
  3. appends a newborn;
  4. does predation, shooting or conversion;
  5. forages on the grid;
  6. moves and wraps into the canvas.

The model keeps the program's imperative form.

- A grid is a class `Veg` over an `array2<int>`. Its constructor, `Update`, and the consume operations change the cells in place.
- `FoodAmmo.Veg` also keeps the program's single grid-wide resource type, `kind`.
- An agent is a class `Animal`. Its counters, position and ammo are mutable fields; its parameters are constants.
- The population is a `seq<Animal>` of object references. `Update` takes it and returns the new list.
- Every loop of the program is a loop here.
- The interaction loops (predation, shooting, eating, movement) are proved against specification functions:
  - `Spared` (`population.dfy`) is what a scan leaves of a list;
  - `Track` (`human_zombie.dfy`) is where the movement scan leaves an agent.

  Further lemmas establish what the program promises about those functions.

**Iteration semantics.** The program removes from and appends to the list it is iterating over. In Python that can skip or revisit elements. The model instead fixes a snapshot semantics:

- every scan inside one `Update` sees the list as it stood when the scan started, including agents appended earlier in the same `Update`;
- a removal never makes a scan skip an element;
- conversions made by a zombie are appended after the agents that survive its meal;
- the per-cycle drivers (`SheepWolf.Cycle`, `HumanZombie.Cycle`) update every agent listed at the start of the cycle that is still listed, in order. Agents born or converted during the cycle wait for the next one.

A scan works on the bodies of the agents: a `Body` holds an agent's kind and position, as the scan takes them at its start.

**Where the code does something other than its own comments say, the model follows the code.** The same holds for a few behaviours a reader might not expect:

- **One grid-wide type.** The humans-and-zombies grid has a single grid-wide `Type`, not a type per cell. Every spawning cell overwrites it, so after `Update` it is the type drawn by the last cell (row-major) that spawned.
- **A draw of 1 grows ammo.** The comment at `Zombie_ABM/Veg.py:78` (and `:158`) says a draw of 1 grows food, but the next line adds ammo and sets the type to ammo. The model follows the code (`FoodAmmo.DrawnType`).
- **Found regardless of type.** `EatFood` and `UseAmmo` report a unit whenever the cell is positive, whatever it was spawned as. Only the depletion depends on the grid-wide type.
- **Seeding range.** Seeding stores Python's `int()` of a draw in `[-RegrowCycles, 0]`. That truncates toward zero, so seeded countdowns lie in `[-RegrowCycles, 0]`; 0 is included.
- **Chase direction.** The chase adds `|dx|/10` and `|dy|/10` whatever side the human is on, and the flight subtracts `|dx|/5` and `|dy|/5`. The direction of the step does not depend on which side the opponent is on (`HumanZombie.ChaseIgnoresDirection` shows a zombie stepping away from a human at smaller coordinates).
- **Every opponent in range.** The mover reacts once to each opponent in the list.
- **One random step per opponent out of range.** The comments at `Zombie_ABM/Animal.py:145-146` and `:169` say the movement is random if no opponent is nearby. The code instead takes one random step for each listed opponent outside the box, and an agent with no opponent listed does not move at all (`HumanZombie.TrackWithoutTargets`).
- **Ammo can go negative.** Shooting is guarded by `Ammo > 0` only at the start of the loop, so ammo can drop below 0.
- **Zombies count down but never die.** A zombie's life counter keeps dropping; it is never removed by its own update.

Positions are exact reals (the program's floats see only `+`, `-`, `/10`, `/5`, `abs` and comparisons). Random draws and canvas rectangle ids are inputs:

- one per cell, in row-major order, for the grids;
- `(gx, gy)` for the sheep-and-wolves step;
- `draw(i)` for the random step a human or zombie takes at list position `i`.

The canvas width and height are parameters.

## Model

| member | source | states |
|---|---|---|
| Geometry.Trunc | Original_ABM/Veg.py:90-91 | Python's `int()` on a float truncates toward zero: the result is the floor for non-negative inputs and the ceiling for negative ones |
| Geometry.PyIndex | Original_ABM/Veg.py:93 | a list subscript succeeds exactly for `-n <= i < n`, and a negative index counts from the end |
| Geometry.CellAt | Original_ABM/Veg.py:90-93 | the row and column a pixel addresses, when defined, lie inside the 50 x 50 grid |
| Geometry.CellAtInArena | Original_ABM/Veg.py:88-93 | for `0 <= x, y < 500` the lookup never fails and addresses row `floor(y/10)`, column `floor(x/10)` |
| Geometry.CellAtDefined | Original_ABM/Veg.py:90-93 | the lookup raises no IndexError exactly when `-510 < x, y < 500`; negative coordinates address cells from the far edge |
| Geometry.InBox | Original_ABM/Animal.py:97-99 | the strict box test `abs(dx) < d and abs(dy) < d`: it holds only for a positive half-width, and it does not depend on which of the two agents is the mover |
| Geometry.Wrap | Original_ABM/Animal.py:117-125 | after the wrap a coordinate lies in `[0, extent)`; a coordinate already in range is unchanged; a negative one goes to `extent - 1` |
| Geometry.WrapExamples | Original_ABM/Animal.py:117-125 | the two boundary cases: -0.5 goes to 499, and 500 goes to 0 on a 500-wide canvas |
| ResourceCell.Regrow | Original_ABM/Veg.py:118-121 | one update of a cell: a countdown rises by exactly 1, a cell at 0 respawns with the fresh positive id, an available cell is untouched |
| ResourceCell.RegrowMany | Original_ABM/Veg.py:109-123 | repeated updates of one cell never lower it, and an available cell keeps its id |
| ResourceCell.Depleted | Original_ABM/Veg.py:101 | a consumed cell is set to `-RegrowCycles` and is unavailable |
| ResourceCell.Consume | Original_ABM/Veg.py:93-101 | a consume call reports a unit iff the cell is positive; it depletes the cell only if it is positive and the call is one that depletes; otherwise the cell is unchanged |
| ResourceCell.CountsUp | Original_ABM/Veg.py:118-119 | a countdown that has not reached 0 rises by exactly the number of updates applied |
| ResourceCell.RespawnsOnTime | Original_ABM/Veg.py:118-121 | a cell at `v <= 0` holds the id of the `(1 - v)`-th update right after it |
| ResourceCell.RegrowTiming | Original_ABM/Veg.py:101-121 | a cell just eaten stays unavailable through the next `RegrowCycles` updates and is available after the one that follows |
| ResourceCell.RegrowKeepsWellFormed | Original_ABM/Veg.py:118-121 | an update never takes a cell below `-RegrowCycles` |
| Grass.Seed | Original_ABM/Veg.py:64-66 | a seeded cell holds the rectangle id when its cover draw is below the portion to fill, otherwise the truncated regrow draw |
| Grass.SeedInRange | Original_ABM/Veg.py:64-66 | every seeded cell is an available id or a countdown in `[-RegrowCycles, 0]` |
| Grass.Veg.constructor | Original_ABM/Veg.py:48-68 | the nested seeding loop fills every cell with its `Seed` value, and the grid is well formed |
| Grass.Veg.EatGrass | Original_ABM/Veg.py:88-102 | reports true iff the addressed cell is positive; in that case only that cell becomes `-RegrowCycles`; every other cell is unchanged |
| Grass.Veg.Update | Original_ABM/Veg.py:109-123 | every cell takes exactly one `Regrow` step, and the grid stays well formed |
| FoodAmmo.DrawnType | Zombie_ABM/Veg.py:157-163 | a spawning cell makes ammo iff its 1..100 draw is 1, otherwise food |
| FoodAmmo.LastSpawned | Zombie_ABM/Veg.py:157-163 | the grid-wide type after a pass is the type it had before or a drawn type, food or ammo |
| FoodAmmo.LastSpawnedOrigin | Zombie_ABM/Veg.py:157-163 | the grid-wide type after a pass is either the type it had before or the type drawn by some cell that spawned |
| FoodAmmo.Seed | Zombie_ABM/Veg.py:75-83 | a seeded cell holds the rectangle id when covered, otherwise the truncated regrow draw |
| FoodAmmo.Covered | Zombie_ABM/Veg.py:76 | cell k is filled at seeding iff its cover draw is below the portion to fill |
| FoodAmmo.NoSpawnKeepsType | Zombie_ABM/Veg.py:150-165 | if no cell spawns, the grid-wide type is left as it was |
| FoodAmmo.LastSpawnDecides | Zombie_ABM/Veg.py:150-165 | the grid-wide type is the one drawn by the last cell (row-major) that spawned: ammo iff its draw was 1 |
| FoodAmmo.Veg.constructor | Zombie_ABM/Veg.py:59-85 | every cell holds its `Seed` value; the grid-wide type is the one drawn by the last covered cell, or the initial type if none was covered |
| FoodAmmo.Veg.SeedRow | Zombie_ABM/Veg.py:74-84 | one row of the seeding pass: the row's cells are seeded, the other rows are untouched, and the type follows the last covered cell so far |
| FoodAmmo.Veg.EatFood | Zombie_ABM/Veg.py:105-120 | reports a unit iff the cell is positive, whatever its type; the cell is depleted only while the grid-wide type is food; other cells are unchanged |
| FoodAmmo.Veg.UseAmmo | Zombie_ABM/Veg.py:123-138 | the mirror image of `EatFood`: it depletes only while the grid-wide type is ammo |
| FoodAmmo.Veg.Update | Zombie_ABM/Veg.py:146-165 | every cell takes exactly one `Regrow` step; the grid-wide type becomes the one drawn by the last cell that was at 0 |
| FoodAmmo.Veg.UpdateRow | Zombie_ABM/Veg.py:153-164 | one row of `Update`: the row regrows, the other rows are untouched, and the type follows the last spawn so far |
| Population.RemoveFirst | Original_ABM/Animal.py:79 | `list.remove` drops exactly one occurrence of the agent: length down by one, multiset of the rest unchanged |
| Population.Spared | Original_ABM/Animal.py:94-102 | the list a predation, shooting (Zombie_ABM/Animal.py:109-117) or eating (Zombie_ABM/Animal.py:119-133) scan leaves: agents of the target kind inside the strict box are dropped, and the list never grows |
| Population.SparedAppend | Zombie_ABM/Animal.py:100-117 | an agent appended out of reach, such as a newborn, survives the scan at the end of the list |
| Population.SparedMembers | Original_ABM/Animal.py:94-102 | a scan only removes: every survivor was listed, and every agent out of reach survives, in particular every agent of another kind |
| Population.SparedShrinks | Original_ABM/Animal.py:94-102 | a scan shortens the list iff some agent of the target kind is inside the strict box |
| SheepWolf.Animal.constructor | Original_ABM/Animal.py:37-59 | a new animal has the given position and parameters, with both counters at their maxima |
| SheepWolf.Animal.Hunt | Original_ABM/Animal.py:94-102 | the predation loop leaves exactly the `Spared` list: every prey inside the strict box removed; it reports eating iff the list shrank |
| SheepWolf.Animal.Breed | Original_ABM/Animal.py:85-91 | when the birth counter has run out, exactly one newborn is appended with the parent's position and parameters and full counters, and the counter is reset; otherwise nothing changes |
| SheepWolf.Animal.Feed | Original_ABM/Animal.py:94-108 | a predator removes the prey in reach and is sated iff it ate; a prey grazes its cell, sated iff there was grass, otherwise it loses one more unit of life |
| SheepWolf.Animal.Live | Original_ABM/Animal.py:73-108 | decrement, birth and feeding in that order; the newborn sits after the survivors and escapes the scan |
| SheepWolf.Animal.Survive | Original_ABM/Animal.py:82-125 | a surviving animal's whole branch: `Live`, then the random step and the wrap |
| SheepWolf.Animal.Update | Original_ABM/Animal.py:70-129 | both counters drop by 1. A dead animal (life at most 0 after the drop) is removed, and nothing else changes. A survivor breeds, feeds, takes its random step and wraps, as above. No other agent moves, and every agent listed afterwards was listed before or is the newborn |
| SheepWolf.PredatorsSurvive | Original_ABM/Animal.py:94-102 | predation never removes a predator |
| SheepWolf.SatedWhenPreyInReach | Original_ABM/Animal.py:94-102 | a predator's life counter is reset iff some prey is listed inside its strict box |
| SheepWolf.Cycle | Original_ABM/Test.py:132-136 | one cycle of the main loop, the grass update then every listed animal's update, keeps every animal on a canvas that fits the grid |
| HumanZombie.Nudge | Zombie_ABM/Animal.py:154-195 | a chase step never decreases a coordinate, and a flight step never increases one |
| HumanZombie.Animal.constructor | Zombie_ABM/Animal.py:42-72 | a new agent has the given position, parameters and ammo, with both counters at their maxima |
| HumanZombie.Animal.Update | Zombie_ABM/Animal.py:84-227 | both counters drop by 1. Only a human at life at most 0 is removed, and then nothing else changes. A surviving human breeds, shoots (ammo down by the number shot), forages and runs. A zombie converts the humans in reach; the list keeps its length, and there is one fresh copy per human eaten. It then chases. Every agent listed afterwards was listed before or is fresh at the agent's starting position |
| HumanZombie.Animal.HumanCycle | Zombie_ABM/Animal.py:97-227 | a surviving human's branch: birth, shooting while ammo was positive, food and ammo on its cell, then the run over the list left by the shooting |
| HumanZombie.Animal.Arm | Zombie_ABM/Animal.py:87-117 | decrement, birth (the newborn copies the current ammo) and shooting; only the zombies in reach go, each costing one round |
| HumanZombie.Animal.ZombieCycle | Zombie_ABM/Animal.py:97-187 | a zombie's branch: the meal, then the chase over the list after the meal, whose converts change nothing in the chase |
| HumanZombie.Animal.Feast | Zombie_ABM/Animal.py:87-133 | decrement and meal: the survivors, then one fresh zombie per human eaten, with both counters reset iff it ate |
| HumanZombie.Animal.Breed | Zombie_ABM/Animal.py:100-106 | a human whose birth counter has run out appends one copy of itself, including its ammo, and resets the counter |
| HumanZombie.Animal.Shoot | Zombie_ABM/Animal.py:109-117 | the shooting loop leaves exactly the `Spared` list of zombies, and ammo drops by one per zombie removed, even below 0 |
| HumanZombie.Animal.Devour | Zombie_ABM/Animal.py:120-133 | the eating loop leaves exactly the `Spared` list of humans, makes one fresh copy of the zombie per human eaten, and resets both counters iff it ate |
| HumanZombie.Animal.Bite | Zombie_ABM/Animal.py:122-133 | one agent of the eating loop: a copy is made iff the agent is a human inside the strict box |
| HumanZombie.Animal.Forage | Zombie_ABM/Animal.py:134-140 | food found resets the life counter, otherwise it drops once more; ammo found adds exactly one round; only the agent's own cell may change |
| HumanZombie.Animal.Move | Zombie_ABM/Animal.py:148-227 | the movement loop ends where `Track` says, from the bodies the list had when the loop started |
| HumanZombie.Animal.React | Zombie_ABM/Animal.py:148-227 | one agent of the movement loop: a reaction to an opponent inside the box, a random step for one outside it, nothing for an agent of the mover's own kind |
| HumanZombie.Step | Zombie_ABM/Animal.py:148-227 | one iteration of the movement loop: an agent of the mover's own kind changes nothing; an opponent makes the mover react or take a random step, after which it is wrapped onto the canvas |
| HumanZombie.Track | Zombie_ABM/Animal.py:148-227 | the position after the whole movement loop, one `Step` per listed agent: once any opponent is listed, the mover ends on the canvas |
| HumanZombie.SparedCounts | Zombie_ABM/Animal.py:109-133 | a scan keeps the number of agents of the other kind and removes exactly the agents of its target kind it drops |
| HumanZombie.Conversion | Zombie_ABM/Animal.py:120-133 | each human eaten is one human fewer and one zombie more, and the population keeps its size |
| HumanZombie.TrackWithoutTargets | Zombie_ABM/Animal.py:148-167 | with no opponent in the list an agent does not move at all |
| HumanZombie.TrackInArena | Zombie_ABM/Animal.py:148-227 | every movement step ends with the wrap, so an agent has either not moved or is on the canvas |
| HumanZombie.TrackKeepsInArena | Zombie_ABM/Animal.py:148-227 | an agent that starts on the canvas stays on it, whatever the list looks like |
| HumanZombie.TrackAppendBystander | Zombie_ABM/Animal.py:148-150 | appending an agent of the mover's own kind to the list does not change where it ends |
| HumanZombie.BystandersDoNotMatter | Zombie_ABM/Animal.py:148-150 | any number of appended agents of the mover's own kind, such as fresh converts, change nothing in its movement |
| HumanZombie.ChaseIgnoresDirection | Zombie_ABM/Animal.py:151-155 | a zombie at (100, 100) chasing a human at (95, 95) steps to (100.5, 100.5), away from it |
| HumanZombie.Pickup | Zombie_ABM/Animal.py:135-140 | foraging on one cell finds food iff the cell is positive, finds ammo iff it is positive and the grid-wide type is not food, and depletes the cell once if positive and typed |
| HumanZombie.Cycle | Zombie_ABM/Test.py:144-148 | one cycle of the main loop, the food and ammo update then every listed agent's update, keeps every agent on a canvas that fits the grid |

## Left out

- Drawing. The canvas (`create_rectangle`, `delete`, `coords`, `lower`) is not modelled. `AddGrass`, `AddFood` and `AddAmmo` are the store of a fresh positive id, supplied as an input; they differ only in colour.
- Canvas size. `winfo_width`/`winfo_height` become the `width` and `height` parameters.
- Randomness. `random.uniform`, `random.gauss` and `random.randint` are not modelled as distributions; their values are inputs.
- Floating point. Positions are exact reals, so rounding is ignored.
- Python's mutate-while-iterating artefacts (skipped or revisited elements) are not reproduced; the snapshot semantics above is used instead.
- The driver scripts `Original_ABM/Test.py` and `Zombie_ABM/Test.py` are not part of this model. They hold the window setup, random placement, the endless loop with `time.sleep`, and the statistics with `print`. Only the order of one cycle is mirrored by the `Cycle` methods.
- The commented-out `HasGrass`/`HasFood` are not modelled, because they are dead code. The `print` debug output is not modelled.
- SheepWolf.Cycle: states only that agents stay on the canvas and that no agent appears from nowhere. The per-agent effects are the `Update` contracts.
- HumanZombie.Cycle: as `SheepWolf.Cycle`, states only that agents stay on the canvas and that no agent appears from nowhere.
- SheepWolf.Animal.Update, HumanZombie.Animal.Update, Grass.Veg.EatGrass, FoodAmmo.Veg.EatFood and FoodAmmo.Veg.UseAmmo: they require the position to address a cell (`CellAt(...).Some?`). Where it does not, the program raises IndexError at the grid subscript (`Original_ABM/Veg.py:93`, `Zombie_ABM/Veg.py:108` and `:126`), and the model does not represent the exception.
