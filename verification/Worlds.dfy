/** The cells and the world of Cell.m and FxWorld.m as objects, updated in place, sweep by sweep. */
module Worlds {
  import opened Options
  import opened Sums
  import opened Automaton
  import opened Habitats
  import Floats

  type Float = Floats.Float

  class Cell {
    var state: Float
    var lastState: Float
    var phase: Float
    var velocity: Float
    var habitat: Option<seq<Cell>>
    const coordX: int
    const coordY: int
    const coordZ: int

    constructor (s: real, x: int, y: int, z: int)
      ensures state == Some(s) && lastState == phase == velocity == Some(0.0) && habitat == None
      ensures coordX == x && coordY == y && coordZ == z
    {
      state, lastState, phase, velocity, habitat := Some(s), Some(0.0), Some(0.0), Some(0.0), None;
      coordX, coordY, coordZ := x, y, z;
    }

    // next: add: frameRateRatio: the plain average
    method NextPlain(add: real, ratio: int) returns (avg: Float)
      modifies this`state, this`velocity
      ensures habitat == None ==> avg == Some(0.0) && state == old(state) && velocity == old(velocity)
      ensures habitat.Some? ==>
        var vals := LastStates(habitat.value);
        var ones := Ones(|vals|);
        && avg == state ==
           (if Floats.Finite(vals) && vals != []
            then Some(Folded(Floats.Weighted(vals, ones) / |vals| as real + add)) else None)
        && Floats.Leads(velocity, lastState, state, ratio)
    {
      avg := Some(0.0);
      if habitat.Some? {
        var hab := habitat.value;
        ghost var vals, ones := LastStates(hab), Ones(|hab|);
        var val: Float := Some(0.0);
        for i := 0 to |hab|
          invariant val == Floats.Sum(vals[..i], ones[..i])
        {
          Floats.SumSnoc(vals, ones, i);
          val := Floats.Plus(val, hab[i].lastState);
        }
        assert vals[..|vals|] == vals && ones[..|vals|] == ones;
        avg := Floats.Over(val, |hab| as real);
        avg := Floats.Fold(Floats.Plus(avg, Some(add)));
        Floats.SpeedLeads(lastState, avg, ratio);
        velocity := Floats.Over(Floats.Minus(avg, lastState), ratio as real);
        state := avg;
        assert LastStates(hab) == vals;
      }
    }

    // next: add: weights: frameRateRatio. Without a habitat the plain rule does nothing, but no weights for no
    // neighbours are taken as a match, and the weighted rule divides zero by zero.
    method Next(add: real, weights: seq<real>, ratio: int) returns (avg: Float)
      modifies this`state, this`velocity
      ensures habitat == None && weights != [] ==>
        avg == Some(0.0) && state == old(state) && velocity == old(velocity)
      ensures habitat == None && weights == [] ==> avg == state == velocity == None
      ensures habitat.Some? ==>
        && avg == state == Floats.NewState(LastStates(habitat.value), weights, add)
        && Floats.Leads(velocity, lastState, state, ratio)
    {
      var count := if habitat.Some? then |habitat.value| else 0;
      if |weights| != count {
        Floats.OnesWeight(count);
        avg := NextPlain(add, ratio);
        return;
      }
      hide Floats.Plus, Floats.Times, Floats.Over, Floats.Fold, Floats.Sum, Floats.NewState, Floats.Leads, Weight;
      var hab := if habitat.Some? then habitat.value else [];
      ghost var vals := LastStates(hab);
      Floats.NothingSummed();
      var wsum := 0.0;
      avg := Some(0.0);
      for i := 0 to |hab|
        invariant avg == Floats.Sum(vals[..i], weights[..i]) && wsum == Weight(weights[..i])
      {
        Floats.SumSnoc(vals, weights, i);
        avg := Floats.Plus(avg, Floats.Times(hab[i].lastState, weights[i]));
        wsum := wsum + weights[i];
      }
      assert vals[..|vals|] == vals && weights[..|weights|] == weights;
      if habitat.Some? {
        Floats.NewStateOfSum(vals, weights, add);
      } else {
        Floats.OverNothing(avg, lastState, add, ratio as real);
      }
      avg := Floats.Over(avg, wsum);
      avg := Floats.Fold(Floats.Plus(avg, Some(add)));
      Floats.SpeedLeads(lastState, avg, ratio);
      velocity := Floats.Over(Floats.Minus(avg, lastState), ratio as real);
      state := avg;
      assert LastStates(hab) == vals;
    }
  }

  ghost function LastStates(hab: seq<Cell>): (vals: seq<Float>)
    reads hab
    ensures |vals| == |hab|
  {
    seq(|hab|, i requires 0 <= i < |hab| reads hab => hab[i].lastState)
  }

  // ---- The grid of cells ----

  type Cells = seq<seq<seq<Cell>>>

  ghost predicate Box(cs: Cells, n: nat) {
    && |cs| == n
    && (forall x | 0 <= x < n :: |cs[x]| == n)
    && (forall x, y | 0 <= x < n && 0 <= y < n :: |cs[x][y]| == n)
    && (forall x, y, z | Inside(n, x, y, z) ::
          cs[x][y][z].coordX == x && cs[x][y][z].coordY == y && cs[x][y][z].coordZ == z)
  }

  ghost function All(cs: Cells): set<Cell> {
    set x, y, z | 0 <= x < |cs| && 0 <= y < |cs[x]| && 0 <= z < |cs[x][y]| :: cs[x][y][z]
  }

  // The cells a loop over h, i, j has already passed.
  predicate Passed(x: int, y: int, z: int, h: int, i: int, j: int) {
    x < h || (x == h && (y < i || (y == i && z < j)))
  }

  // The cell that setHabitat finds for each offset.
  ghost function HabitatOf(cs: Cells, n: nat, offs: seq<Offset>, p: Place): (hab: seq<Cell>)
    requires n > 0 && Box(cs, n)
    ensures |hab| == |offs|
  {
    seq(|offs|, q requires 0 <= q < |offs| => CellAt(cs, n, Neighbour(n, offs[q], p)))
  }

  lemma HabitatAt(cs: Cells, n: nat, offs: seq<Offset>, p: Place, q: nat)
    requires n > 0 && Box(cs, n) && q < |offs|
    ensures var hab := HabitatOf(cs, n, offs, p);
      hab[..q + 1] == hab[..q] + [CellAt(cs, n, Neighbour(n, offs[q], p))]
  {
    hide Wrap, Box;
  }

  ghost function CellAt(cs: Cells, n: nat, p: Place): Cell
    requires Box(cs, n) && On(n, p)
  {
    cs[p.x][p.y][p.z]
  }

  // Every cell has its habitat.
  ghost predicate Wired(cs: Cells, n: nat, offs: seq<Offset>)
    requires n > 0 && Box(cs, n)
    reads All(cs)
  {
    forall x, y, z | Inside(n, x, y, z) :: cs[x][y][z].habitat == Some(HabitatOf(cs, n, offs, Place(x, y, z)))
  }

  // The grid a world shows: real values, or in every cell none.
  type Shown = Option<Grid>

  function At(g: Shown, x: int, y: int, z: int): Float {
    if g.Some? then Some(g.value(x, y, z)) else None
  }

  // One generation of what is shown: weights that cancel leave no finite value, and none comes back.
  function NextShown(n: nat, offs: seq<Offset>, s: Setting, g: Shown): Shown
    requires n > 0
  {
    if g.Some? && Usable(s, |offs|) then Some(Step(n, offs, s, g.value)) else None
  }

  function RunShown(n: nat, offs: seq<Offset>, settings: seq<Setting>, g: Shown): Shown
    requires n > 0
  {
    if settings == [] then g
    else
      var k := |settings| - 1;
      NextShown(n, offs, settings[k], RunShown(n, offs, settings[..k], g))
  }

  /** A run keeps finite values exactly when in each of its settings the weights in force do not cancel. */
  lemma {:induction false} RunStaysFinite(n: nat, offs: seq<Offset>, settings: seq<Setting>, g: Grid)
    requires n > 0
    ensures RunShown(n, offs, settings, Some(g)) ==
            if AllUsable(settings, |offs|) then Some(Generations(n, offs, settings, g)) else None
    decreases |settings|
  {
    hide Step, Usable;
    if settings != [] {
      var k := |settings| - 1;
      RunStaysFinite(n, offs, settings[..k], g);
      assert settings == settings[..k] + [settings[k]];
      assert AllUsable(settings, |offs|) <==> AllUsable(settings[..k], |offs|) && Usable(settings[k], |offs|);
    }
  }

  // The last states are those of a grid.
  ghost predicate LastAre(cs: Cells, n: nat, g: Shown)
    requires Box(cs, n)
    reads All(cs)
  {
    forall x, y, z | Inside(n, x, y, z) :: cs[x][y][z].lastState == At(g, x, y, z)
  }

  ghost predicate StatesAre(cs: Cells, n: nat, g: Shown)
    requires Box(cs, n)
    reads All(cs)
  {
    forall x, y, z | Inside(n, x, y, z) :: cs[x][y][z].state == At(g, x, y, z)
  }

  // Every cell's speed leads from what one grid shows to what another shows.
  ghost predicate SpeedsLead(cs: Cells, n: nat, g: Shown, next: Shown, ratio: int)
    requires Box(cs, n)
    reads All(cs)
  {
    forall x, y, z | Inside(n, x, y, z) :: Floats.Leads(cs[x][y][z].velocity, At(g, x, y, z), At(next, x, y, z), ratio)
  }

  // What a neighbour in a direction shows.
  function NeighbourShown(n: nat, g: Shown, o: Offset, p: Place): Float
    requires n > 0
  {
    if g.Some? then Some(NeighbourValue(n, g.value, o, p.x, p.y, p.z)) else None
  }

  lemma {:induction false} WeightedIsGather(n: nat, offs: seq<Offset>, ws: seq<real>, g: Grid, p: Place, vals: seq<Float>)
    requires n > 0 && |offs| == |ws| == |vals|
    requires forall q | 0 <= q < |vals| :: vals[q] == NeighbourShown(n, Some(g), offs[q], p)
    ensures Floats.Finite(vals) && Floats.Weighted(vals, ws) == Gather(n, offs, ws, g, p.x, p.y, p.z)
    decreases |vals|
  {
    hide NeighbourValue;
    if vals != [] {
      var q := |vals| - 1;
      WeightedIsGather(n, offs[..q], ws[..q], g, p, vals[..q]);
    }
  }

  lemma NoWeight(ws: seq<real>)
    ensures Weight(Effective(ws, 0)) == 0.0
  {
  }

  // The rule on values is the rule of the grid.
  lemma RuleOfValues(n: nat, offs: seq<Offset>, s: Setting, g: Shown, p: Place, vals: seq<Float>)
    requires n > 0 && |vals| == |offs|
    requires forall q | 0 <= q < |vals| :: vals[q] == NeighbourShown(n, g, offs[q], p)
    ensures Floats.NewState(vals, s.weights, s.add) == At(NextShown(n, offs, s, g), p.x, p.y, p.z)
  {
    hide NeighbourValue, Gather, Floats.Weighted, Weight, Effective;
    NoWeight(s.weights);
    if g.Some? {
      WeightedIsGather(n, offs, Effective(s.weights, |offs|), g.value, p, vals);
    } else if vals != [] {
      assert vals[0] == NeighbourShown(n, g, offs[0], p) == None;
    }
  }

  // What a wired cell finds in its habitat.
  lemma HabitatValues(cs: Cells, n: nat, offs: seq<Offset>, g: Shown, p: Place)
    requires n > 0 && Box(cs, n) && On(n, p) && Wired(cs, n, offs) && LastAre(cs, n, g)
    ensures CellAt(cs, n, p).habitat.Some?
    ensures var vals := LastStates(CellAt(cs, n, p).habitat.value);
      |vals| == |offs| && forall q | 0 <= q < |vals| :: vals[q] == NeighbourShown(n, g, offs[q], p)
  {
    hide Wrap, Box, LastAre, Neighbour, NeighbourShown;
    var hab := HabitatOf(cs, n, offs, p);
    assert CellAt(cs, n, p).habitat == Some(hab);
    var vals := LastStates(hab);
    forall q | 0 <= q < |vals| ensures vals[q] == NeighbourShown(n, g, offs[q], p) {
      NeighbourLast(cs, n, g, offs[q], p);
    }
  }

  lemma NeighbourLast(cs: Cells, n: nat, g: Shown, o: Offset, p: Place)
    requires n > 0 && Box(cs, n) && LastAre(cs, n, g)
    ensures CellAt(cs, n, Neighbour(n, o, p)).lastState == NeighbourShown(n, g, o, p)
  {
    hide Wrap, Box;
  }

  /** The rule applied to the objects of a wired world is the rule of the grid. */
  lemma NewStateIsStep(cs: Cells, n: nat, offs: seq<Offset>, s: Setting, g: Shown, p: Place)
    requires n > 0 && Box(cs, n) && On(n, p) && Wired(cs, n, offs) && LastAre(cs, n, g)
    ensures CellAt(cs, n, p).habitat.Some?
    ensures var vals := LastStates(CellAt(cs, n, p).habitat.value);
      |vals| == |offs| && Floats.NewState(vals, s.weights, s.add) == At(NextShown(n, offs, s, g), p.x, p.y, p.z)
  {
    hide Floats.NewState, NextShown, At, Wired, LastAre, Box, NeighbourShown;
    HabitatValues(cs, n, offs, g, p);
    RuleOfValues(n, offs, s, g, p, LastStates(CellAt(cs, n, p).habitat.value));
  }

  datatype Seed = Seed(x: int, y: int, z: int, value: real)

  // The state a list of seeds gives to a place: the last one there counts.
  function SeedState(seeds: seq<Seed>, p: Place): real {
    if seeds == [] then 0.0
    else
      var k := |seeds| - 1;
      if Place(seeds[k].x, seeds[k].y, seeds[k].z) == p then seeds[k].value else SeedState(seeds[..k], p)
  }

  function PlaceOfSeed(s: Seed): Place {
    Place(s.x, s.y, s.z)
  }

  // The last seed at a place counts, and without one (k == -1) the state is 0.
  lemma {:induction false} LastSeedCounts(seeds: seq<Seed>, p: Place, k: int)
    requires -1 <= k < |seeds| && (k >= 0 ==> PlaceOfSeed(seeds[k]) == p)
    requires forall i | k < i < |seeds| :: PlaceOfSeed(seeds[i]) != p
    ensures SeedState(seeds, p) == if k >= 0 then seeds[k].value else 0.0
  {
    if seeds != [] && k < |seeds| - 1 {
      assert PlaceOfSeed(seeds[|seeds| - 1]) != p;
      LastSeedCounts(seeds[..|seeds| - 1], p, k);
    }
  }

  predicate SeedsInside(n: nat, seeds: seq<Seed>) {
    forall s | s in seeds :: Inside(n, s.x, s.y, s.z)
  }

  class World {
    var size: nat
    var cells: Cells
    var indices: seq<Offset>
    var weights: seq<real>

    constructor (s: nat, offs: seq<Offset>, ws: seq<real>)
      ensures size == s && cells == [] && indices == offs && weights == ws
    {
      size, cells, indices, weights := s, [], offs, ws;
    }

    // Every cell has the state that seeds give to its place, and no habitat yet.
    ghost predicate Seeded(seeds: seq<Seed>)
      requires Box(cells, size)
      reads this, All(cells)
    {
      forall x, y, z | Inside(size, x, y, z) ::
        cells[x][y][z].state == Some(SeedState(seeds, Place(x, y, z))) && cells[x][y][z].habitat == None
    }

    // One round of the second loop of initCells.
    method PlaceSeed(currentCell: Cell, s: Seed, ghost before: seq<Seed>)
      requires Box(cells, size) && Inside(size, s.x, s.y, s.z) && currentCell == cells[s.x][s.y][s.z] && Seeded(before)
      modifies currentCell`state
      ensures Seeded(before + [s])
    {
      currentCell.state := Some(s.value);
      assert (before + [s])[..|before|] == before;
    }

    // initCells; a seed outside the grid raises an exception, and the seeds before it have been placed.
    method InitCells(seeds: seq<Seed>) returns (placed: nat)
      modifies this`cells
      ensures placed <= |seeds| && SeedsInside(size, seeds[..placed])
      ensures placed < |seeds| ==> !Inside(size, seeds[placed].x, seeds[placed].y, seeds[placed].z)
      ensures Box(cells, size) && fresh(All(cells)) && Seeded(seeds[..placed])
    {
      hide Seeded;
      cells := NewCells(size);
      NothingSeeded();
      placed := 0;
      while placed < |seeds|
        invariant placed <= |seeds| && SeedsInside(size, seeds[..placed])
        invariant Box(cells, size) && fresh(All(cells)) && Seeded(seeds[..placed])
      {
        var s := seeds[placed];
        if !Inside(size, s.x, s.y, s.z) {
          return;
        }
        assert seeds[..placed + 1] == seeds[..placed] + [s];
        assert cells[s.x][s.y][s.z] in All(cells);
        PlaceSeed(cells[s.x][s.y][s.z], s, seeds[..placed]);
        placed := placed + 1;
      }
    }

    lemma NothingSeeded()
      requires Box(cells, size)
      requires forall x, y, z | Inside(size, x, y, z) ::
        cells[x][y][z].state == Some(0.0) && cells[x][y][z].habitat == None
      ensures Seeded([])
    {
    }

    // The cells before (h, i, j) have their habitat.
    ghost predicate WiredTo(h: int, i: int, j: int)
      requires size > 0 && Box(cells, size)
      reads this, All(cells)
    {
      forall x, y, z | Inside(size, x, y, z) && Passed(x, y, z, h, i, j) ::
        cells[x][y][z].habitat == Some(HabitatOf(cells, size, indices, Place(x, y, z)))
    }

    lemma NothingWired()
      requires size > 0 && Box(cells, size)
      ensures WiredTo(0, 0, 0)
    {
    }

    lemma RowWired(h: int, i: int)
      requires size > 0 && Box(cells, size)
      ensures WiredTo(h, i, size) ==> WiredTo(h, i + 1, 0)
      ensures WiredTo(h, size, 0) ==> WiredTo(h + 1, 0, 0)
      ensures WiredTo(size, 0, 0) ==> Wired(cells, size, indices)
    {
    }

    // One cell of setHabitat.
    method WireNext(cell: Cell, h: int, i: int, j: int)
      requires size > 0 && Box(cells, size) && Inside(size, h, i, j) && cell == cells[h][i][j] && WiredTo(h, i, j)
      modifies cell`habitat
      ensures WiredTo(h, i, j + 1)
    {
      hide HabitatOf;
      var hab := FindHabitat(h, i, j);
      cell.habitat := Some(hab);
    }

    // setHabitat
    method SetHabitat()
      requires Box(cells, size) && size > 0
      modifies All(cells)`habitat
      ensures Wired(cells, size, indices)
    {
      hide WiredTo, Wired;
      NothingWired();
      for h := 0 to |cells|
        invariant WiredTo(h, 0, 0)
      {
        var col := cells[h];
        for i := 0 to |col|
          invariant WiredTo(h, i, 0)
        {
          var row := col[i];
          for j := 0 to |row|
            invariant WiredTo(h, i, j)
          {
            var cell := row[j];
            assert cells[h][i][j] in All(cells);
            WireNext(cell, h, i, j);
          }
          RowWired(h, i);
        }
        RowWired(h, |col|);
      }
      RowWired(0, 0);
    }

    // The innermost loop of setHabitat.
    method FindHabitat(h: int, i: int, j: int) returns (hab: seq<Cell>)
      requires Box(cells, size) && Inside(size, h, i, j)
      ensures hab == HabitatOf(cells, size, indices, Place(h, i, j))
    {
      hide Wrap, HabitatOf;
      hab := [];
      for ind := 0 to |indices|
        invariant hab == HabitatOf(cells, size, indices, Place(h, i, j))[..ind]
      {
        HabitatAt(cells, size, indices, Place(h, i, j), ind);
        var o := indices[ind];
        var indx, indy, indz := Wrap(h + o.x, size), Wrap(i + o.y, size), Wrap(j + o.z, size);
        hab := hab + [cells[indx][indy][indz]];
      }
    }

    // The world shows a grid, and the cells before (h, i, j) have their state for last state.
    ghost predicate PreparedTo(g: Shown, h: int, i: int, j: int)
      requires Box(cells, size)
      reads this, All(cells)
    {
      && StatesAre(cells, size, g)
      && forall x, y, z | Inside(size, x, y, z) && Passed(x, y, z, h, i, j) :: cells[x][y][z].lastState == At(g, x, y, z)
    }

    lemma NothingPrepared(g: Shown)
      requires Box(cells, size) && StatesAre(cells, size, g)
      ensures PreparedTo(g, 0, 0, 0)
    {
    }

    lemma RowPrepared(g: Shown, h: int, i: int)
      requires Box(cells, size)
      ensures PreparedTo(g, h, i, size) ==> PreparedTo(g, h, i + 1, 0)
      ensures PreparedTo(g, h, size, 0) ==> PreparedTo(g, h + 1, 0, 0)
      ensures PreparedTo(g, size, 0, 0) ==> StatesAre(cells, size, g) && LastAre(cells, size, g)
    {
    }

    // One cell of prepareNext.
    method PrepareOne(cell: Cell, h: int, i: int, j: int, ghost g: Shown)
      requires Box(cells, size) && Inside(size, h, i, j) && cell == cells[h][i][j] && PreparedTo(g, h, i, j)
      modifies cell`lastState
      ensures PreparedTo(g, h, i, j + 1)
    {
      hide At;
      cell.lastState := cell.state;
    }

    // prepareNext
    method PrepareNext(ghost g: Shown)
      requires Box(cells, size) && StatesAre(cells, size, g)
      modifies All(cells)`lastState
      ensures LastAre(cells, size, g) && StatesAre(cells, size, g)
    {
      hide PreparedTo, LastAre, StatesAre;
      NothingPrepared(g);
      for h := 0 to |cells|
        invariant PreparedTo(g, h, 0, 0)
      {
        var col := cells[h];
        for i := 0 to |col|
          invariant PreparedTo(g, h, i, 0)
        {
          var row := col[i];
          for j := 0 to |row|
            invariant PreparedTo(g, h, i, j)
          {
            var cell := row[j];
            assert cells[h][i][j] in All(cells);
            PrepareOne(cell, h, i, j, g);
          }
          RowPrepared(g, h, i);
        }
        RowPrepared(g, h, |col|);
      }
      RowPrepared(g, 0, 0);
    }

    ghost predicate Ready(s: Setting, g: Shown)
      reads this, All(cells)
    {
      && size > 0 && Box(cells, size) && Wired(cells, size, indices) && LastAre(cells, size, g)
      && s.weights == weights
    }

    lemma ReadyBox(s: Setting, g: Shown)
      requires Ready(s, g)
      ensures size > 0 && Box(cells, size) && s.weights == weights
    {
    }

    // One cell of a renewing sweep.
    method RenewCell(p: Place, add: real, ratio: int, ghost g: Shown)
      requires Ready(Setting(add, weights), g) && On(size, p)
      modifies CellAt(cells, size, p)`state, CellAt(cells, size, p)`velocity
      ensures Ready(Setting(add, weights), g)
      ensures var c := CellAt(cells, size, p);
        && c.state == At(NextShown(size, indices, Setting(add, weights), g), p.x, p.y, p.z)
        && Floats.Leads(c.velocity, At(g, p.x, p.y, p.z), c.state, ratio)
    {
      hide Floats.NewState, NextShown, At;
      ghost var s := Setting(add, weights);
      NewStateIsStep(cells, size, indices, s, g, p);
      var avg := cells[p.x][p.y][p.z].Next(add, weights, ratio);
      assert Wired(cells, size, indices) && LastAre(cells, size, g);
      NewStateIsStep(cells, size, indices, s, g, p);
    }

    // The cells before (h, i, j) hold the states of a grid, and the speeds that lead there from another.
    ghost predicate Renewed(g: Shown, next: Shown, ratio: int, h: int, i: int, j: int)
      requires Box(cells, size)
      reads this, All(cells)
    {
      forall x, y, z | Inside(size, x, y, z) && Passed(x, y, z, h, i, j) ::
        && cells[x][y][z].state == At(next, x, y, z)
        && Floats.Leads(cells[x][y][z].velocity, At(g, x, y, z), At(next, x, y, z), ratio)
    }

    lemma NothingRenewed(g: Shown, next: Shown, ratio: int)
      requires Box(cells, size)
      ensures Renewed(g, next, ratio, 0, 0, 0)
    {
    }

    lemma RowRenewed(g: Shown, next: Shown, ratio: int, h: int, i: int)
      requires Box(cells, size)
      ensures Renewed(g, next, ratio, h, i, size) ==> Renewed(g, next, ratio, h, i + 1, 0)
      ensures Renewed(g, next, ratio, h, size, 0) ==> Renewed(g, next, ratio, h + 1, 0, 0)
      ensures Renewed(g, next, ratio, size, 0, 0) ==>
        StatesAre(cells, size, next) && SpeedsLead(cells, size, g, next, ratio)
    {
      hide At, Floats.Leads;
    }

    // The next cell of the sweep.
    method RenewNext(p: Place, add: real, ratio: int, ghost g: Shown, ghost next: Shown)
      requires Ready(Setting(add, weights), g) && On(size, p) && Renewed(g, next, ratio, p.x, p.y, p.z)
      requires next == NextShown(size, indices, Setting(add, weights), g)
      modifies CellAt(cells, size, p)`state, CellAt(cells, size, p)`velocity
      ensures Ready(Setting(add, weights), g) && Renewed(g, next, ratio, p.x, p.y, p.z + 1)
    {
      hide NextShown, At, Floats.Leads;
      RenewCell(p, add, ratio, g);
    }

    // The renewing sweep of drawCells: each cell takes its next state in place, from last states only.
    method Renew(add: real, ratio: int, ghost g: Shown)
      requires Ready(Setting(add, weights), g)
      modifies All(cells)`state, All(cells)`velocity
      ensures Ready(Setting(add, weights), g)
      ensures StatesAre(cells, size, NextShown(size, indices, Setting(add, weights), g))
      ensures SpeedsLead(cells, size, g, NextShown(size, indices, Setting(add, weights), g), ratio)
    {
      hide NextShown, Ready, Renewed, StatesAre, SpeedsLead;
      ReadyBox(Setting(add, weights), g);
      ghost var next := NextShown(size, indices, Setting(add, weights), g);
      NothingRenewed(g, next, ratio);
      for i := 0 to |cells|
        invariant Ready(Setting(add, weights), g) && Renewed(g, next, ratio, i, 0, 0)
      {
        var col := cells[i];
        for j := 0 to |col|
          invariant Ready(Setting(add, weights), g) && Renewed(g, next, ratio, i, j, 0)
        {
          var row := col[j];
          for k := 0 to |row|
            invariant Ready(Setting(add, weights), g) && Renewed(g, next, ratio, i, j, k)
          {
            assert cells[i][j][k] in All(cells);
            RenewNext(Place(i, j, k), add, ratio, g, next);
          }
          RowRenewed(g, next, ratio, i, j);
        }
        RowRenewed(g, next, ratio, i, |col|);
      }
      RowRenewed(g, next, ratio, 0, 0);
    }

    // The same sweep in any order, with any repetitions: the visited cells get their next state.
    method RenewInOrder(order: seq<Place>, add: real, ratio: int, ghost g: Shown)
      requires Ready(Setting(add, weights), g) && forall p | p in order :: On(size, p)
      modifies All(cells)`state, All(cells)`velocity
      ensures Ready(Setting(add, weights), g)
      ensures forall x, y, z | Inside(size, x, y, z) ::
        cells[x][y][z].state == if Place(x, y, z) in order
          then At(NextShown(size, indices, Setting(add, weights), g), x, y, z) else old(cells[x][y][z].state)
      ensures forall x, y, z | Inside(size, x, y, z) && Place(x, y, z) in order ::
        Floats.Leads(cells[x][y][z].velocity, At(g, x, y, z), cells[x][y][z].state, ratio)
    {
      hide NextShown, Floats.Leads;
      ghost var next := NextShown(size, indices, Setting(add, weights), g);
      for k := 0 to |order|
        invariant Ready(Setting(add, weights), g)
        invariant forall x, y, z | Inside(size, x, y, z) ::
          cells[x][y][z].state == if Place(x, y, z) in order[..k] then At(next, x, y, z) else old(cells[x][y][z].state)
        invariant forall x, y, z | Inside(size, x, y, z) && Place(x, y, z) in order[..k] ::
          Floats.Leads(cells[x][y][z].velocity, At(g, x, y, z), cells[x][y][z].state, ratio)
      {
        assert order[k] in order && order[..k + 1] == order[..k] + [order[k]];
        RenewCell(order[k], add, ratio, g);
      }
      assert order[..|order|] == order;
    }

    // Generation after generation, each with its own amount, weights and frame rate.
    method Run(settings: seq<Setting>, ratios: seq<int>, ghost g: Shown)
      requires size > 0 && Box(cells, size) && Wired(cells, size, indices) && StatesAre(cells, size, g)
      requires |ratios| == |settings|
      modifies this`weights, All(cells)`state, All(cells)`velocity, All(cells)`lastState
      ensures Box(cells, size) && Wired(cells, size, indices)
      ensures StatesAre(cells, size, RunShown(size, indices, settings, g))
      ensures settings != [] ==>
        var k := |settings| - 1;
        SpeedsLead(cells, size, RunShown(size, indices, settings[..k], g), RunShown(size, indices, settings, g), ratios[k])
    {
      hide NextShown, At, Floats.Leads;
      for k := 0 to |settings|
        invariant Box(cells, size) && Wired(cells, size, indices)
        invariant StatesAre(cells, size, RunShown(size, indices, settings[..k], g))
        invariant k > 0 ==>
          SpeedsLead(cells, size, RunShown(size, indices, settings[..k - 1], g),
                     RunShown(size, indices, settings[..k], g), ratios[k - 1])
      {
        ghost var now := RunShown(size, indices, settings[..k], g);
        assert settings[k] in settings && settings[..k + 1][..k] == settings[..k];
        weights := settings[k].weights;
        PrepareNext(now);
        Renew(settings[k].add, ratios[k], now);
      }
      assert settings[..|settings|] == settings;
    }
  }

  // The grid that seeds lay out.
  function SeedGrid(seeds: seq<Seed>): Grid {
    (x, y, z) => SeedState(seeds, Place(x, y, z))
  }

  // All cells hold finite states between two bounds.
  ghost predicate CellsBetween(cs: Cells, n: nat, lo: real, hi: real)
    requires Box(cs, n)
    reads All(cs)
  {
    forall x, y, z | Inside(n, x, y, z) :: cs[x][y][z].state.Some? && lo <= cs[x][y][z].state.value <= hi
  }

  // Seeds and settings that keep every state in [0, 1].
  ghost predicate Tame(n: nat, offs: seq<Offset>, seeds: seq<Seed>, settings: seq<Setting>) {
    && (forall s | s in seeds :: 0.0 <= s.value <= 1.0)
    && (forall s | s in settings :: Convex(s, |offs|) && 0.0 <= s.add <= 1.0)
  }

  lemma {:induction false} SeedsBetween(seeds: seq<Seed>, p: Place)
    requires forall s | s in seeds :: 0.0 <= s.value <= 1.0
    ensures 0.0 <= SeedState(seeds, p) <= 1.0
  {
    if seeds != [] {
      SeedsBetween(seeds[..|seeds| - 1], p);
    }
  }

  lemma TameStaysInUnit(n: nat, offs: seq<Offset>, seeds: seq<Seed>, settings: seq<Setting>)
    requires n > 0 && Tame(n, offs, seeds, settings)
    ensures AllUsable(settings, |offs|)
    ensures Between(n, Generations(n, offs, settings, SeedGrid(seeds)), 0.0, 1.0)
  {
    forall x, y, z | Inside(n, x, y, z) ensures 0.0 <= SeedGrid(seeds)(x, y, z) <= 1.0 {
      SeedsBetween(seeds, Place(x, y, z));
    }
    RunsStayInUnit(n, offs, settings, SeedGrid(seeds));
  }

  /** A whole life: the world is made, seeded, wired and run, unless a seed is outside the grid. Its cells end with the
      run of the grid that the seeds lay out: finite states exactly when no setting's weights cancel. Then the total
      over the cells is that of the seeds, plus what was added, minus the cells that passed 1 on the way; and with
      seeds and amounts in [0, 1] and weights not negative every cell stays in [0, 1]. */
  method Live(size: nat, offs: seq<Offset>, seeds: seq<Seed>, settings: seq<Setting>, ratios: seq<int>)
    returns (w: World?, ghost g: Shown)
    requires size > 0 && |ratios| == |settings|
    ensures w == null <==> !SeedsInside(size, seeds)
    ensures w != null ==> fresh(w) && w.size == size && Box(w.cells, size) && StatesAre(w.cells, size, g)
    ensures g == RunShown(size, offs, settings, Some(SeedGrid(seeds)))
    ensures g.Some? <==> AllUsable(settings, |offs|)
    ensures g.Some? ==>
      Total(size, g.value) == Total(size, SeedGrid(seeds)) + Volume(size) * Added(settings)
                              - AllWraps(size, offs, settings, SeedGrid(seeds))
    ensures w != null && Tame(size, offs, seeds, settings) ==> CellsBetween(w.cells, size, 0.0, 1.0)
  {
    hide Total, Volume, Added, AllWraps, Generations, AllUsable, Tame, RunShown, Between;
    g := RunShown(size, offs, settings, Some(SeedGrid(seeds)));
    RunStaysFinite(size, offs, settings, SeedGrid(seeds));
    if AllUsable(settings, |offs|) {
      RunConservation(size, offs, settings, SeedGrid(seeds));
    }
    var world := new World(size, offs, []);
    var placed := world.InitCells(seeds);
    if placed < |seeds| {
      assert seeds[placed] in seeds;
      return null, g;
    }
    assert seeds[..placed] == seeds;
    world.SetHabitat();
    world.Run(settings, ratios, Some(SeedGrid(seeds)));
    if Tame(size, offs, seeds, settings) {
      TameStaysInUnit(size, offs, seeds, settings);
      StatesBetween(world.cells, size, g);
    }
    w := world;
  }

  lemma StatesBetween(cs: Cells, n: nat, g: Shown)
    requires Box(cs, n) && g.Some? && StatesAre(cs, n, g) && Between(n, g.value, 0.0, 1.0)
    ensures CellsBetween(cs, n, 0.0, 1.0)
  {
  }

  // The three loops that make the cells.
  method NewCells(n: nat) returns (cs: Cells)
    ensures Box(cs, n) && fresh(All(cs))
    ensures forall x, y, z | Inside(n, x, y, z) :: cs[x][y][z].state == Some(0.0) && cs[x][y][z].habitat == None
  {
    cs := [];
    for h := 0 to n
      invariant |cs| == h && forall x | 0 <= x < h :: |cs[x]| == n
      invariant forall x, y | 0 <= x < h && 0 <= y < n :: |cs[x][y]| == n
      invariant forall x, y, z | 0 <= x < h && 0 <= y < n && 0 <= z < n :: Blank(cs[x][y][z], x, y, z) && fresh(cs[x][y][z])
    {
      var col := NewColumn(n, h);
      cs := cs + [col];
    }
  }

  ghost predicate Blank(c: Cell, x: int, y: int, z: int)
    reads c
  {
    c.coordX == x && c.coordY == y && c.coordZ == z && c.state == Some(0.0) && c.habitat == None
  }

  method NewColumn(n: nat, h: nat) returns (col: seq<seq<Cell>>)
    ensures |col| == n && forall y | 0 <= y < n :: |col[y]| == n
    ensures forall y, z | 0 <= y < n && 0 <= z < n :: Blank(col[y][z], h, y, z) && fresh(col[y][z])
  {
    col := [];
    for i := 0 to n
      invariant |col| == i && forall y | 0 <= y < i :: |col[y]| == n
      invariant forall y, z | 0 <= y < i && 0 <= z < n :: Blank(col[y][z], h, y, z) && fresh(col[y][z])
    {
      var row := NewRow(n, h, i);
      col := col + [row];
    }
  }

  method NewRow(n: nat, h: nat, i: nat) returns (row: seq<Cell>)
    ensures |row| == n && forall z | 0 <= z < n :: Blank(row[z], h, i, z) && fresh(row[z])
  {
    row := [];
    for j := 0 to n
      invariant |row| == j && forall z | 0 <= z < j :: Blank(row[z], h, i, z) && fresh(row[z])
    {
      var cell := new Cell(0.0, h, i, j);
      row := row + [cell];
    }
  }
}
