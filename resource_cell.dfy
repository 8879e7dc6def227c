/** One cell of a resource grid, encoded in the sign of a single integer: a positive
    value is an available unit (the program keeps the id of its canvas rectangle there),
    a value at most 0 counts the updates left until the unit regrows. */
module ResourceCell {

  predicate Available(v: int) {
    v > 0
  }

  /** What one grid update does to a cell: a depleted cell counts up by one, a cell at 0
      respawns with the fresh positive id the canvas hands out, an available cell stays. */
  function Regrow(v: int, id: int): (v': int)
    requires id > 0
    ensures Available(v) ==> v' == v
    ensures v < 0 ==> v' == v + 1 && !Available(v')
    ensures v == 0 ==> v' == id && Available(v')
  {
    if v < 0 then v + 1 else if v == 0 then id else v
  }

  /** The countdown a freshly consumed cell starts from. */
  function Depleted(regrowCycles: nat): (v: int)
    ensures !Available(v) && v + regrowCycles == 0
  {
    -(regrowCycles as int)
  }

  /** A consume call on a cell: it reports whether a unit was there and, when the call is
      one that depletes, sets the cell to -regrowCycles. Returns (new value, found). */
  function Consume(v: int, depletes: bool, regrowCycles: nat): (res: (int, bool))
    ensures res.1 <==> Available(v)
    ensures !Available(v) ==> res.0 == v
    ensures Available(v) && depletes ==> res.0 == Depleted(regrowCycles) && !Available(res.0)
    ensures !depletes ==> res.0 == v
  {
    if v <= 0 then (v, false)
    else if depletes then (Depleted(regrowCycles), true)
    else (v, true)
  }

  /** The value of a cell after one update per id in ids, in order. */
  function RegrowMany(v: int, ids: seq<int>): (r: int)
    requires forall k :: 0 <= k < |ids| ==> ids[k] > 0
    ensures v <= r
    ensures Available(v) ==> r == v
    decreases |ids|
  {
    if ids == [] then v else RegrowMany(Regrow(v, ids[0]), ids[1..])
  }

  /** A depleted cell stays depleted, counting up by exactly one per update, as long as it
      has not reached 0. */
  lemma {:induction false} CountsUp(v: int, ids: seq<int>)
    requires forall k :: 0 <= k < |ids| ==> ids[k] > 0
    requires v + |ids| <= 0
    ensures RegrowMany(v, ids) == v + |ids|
    decreases |ids|
  {
    if ids != [] {
      CountsUp(v + 1, ids[1..]);
    }
  }

  /** A cell at v <= 0 is available again exactly on the (1 - v)-th update, holding the id
      handed out by that update. */
  lemma {:induction false} RespawnsOnTime(v: int, ids: seq<int>)
    requires forall k :: 0 <= k < |ids| ==> ids[k] > 0
    requires v <= 0 && |ids| == 1 - v
    ensures RegrowMany(v, ids) == ids[|ids| - 1]
    decreases |ids|
  {
    if v < 0 {
      RespawnsOnTime(v + 1, ids[1..]);
    }
  }

  /** The regrow timing: a cell just eaten (set to -regrowCycles) is unavailable through
      the next regrowCycles updates and available on the one after. */
  lemma RegrowTiming(regrowCycles: nat, ids: seq<int>)
    requires forall k :: 0 <= k < |ids| ==> ids[k] > 0
    requires |ids| == regrowCycles + 1
    ensures forall k :: 0 <= k <= regrowCycles ==> !Available(RegrowMany(Depleted(regrowCycles), ids[..k]))
    ensures Available(RegrowMany(Depleted(regrowCycles), ids))
  {
    forall k | 0 <= k <= regrowCycles
      ensures !Available(RegrowMany(Depleted(regrowCycles), ids[..k]))
    {
      CountsUp(Depleted(regrowCycles), ids[..k]);
    }
    RespawnsOnTime(Depleted(regrowCycles), ids);
  }

  /** Every cell the program ever writes is a countdown no longer than regrowCycles or an
      available unit; this is kept by updates and by consuming. */
  predicate WellFormed(v: int, regrowCycles: nat) {
    Depleted(regrowCycles) <= v
  }

  lemma RegrowKeepsWellFormed(v: int, id: int, regrowCycles: nat)
    requires id > 0 && WellFormed(v, regrowCycles)
    ensures WellFormed(Regrow(v, id), regrowCycles)
  {
  }
}
