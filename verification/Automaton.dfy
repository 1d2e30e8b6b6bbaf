/** The cell rule of Cell.m over the torus of FxWorld.m as a step on whole grids, with exact arithmetic. */
module Automaton {
  import opened Sums

  datatype Offset = Offset(x: int, y: int, z: int)

  // The neighbour of a place in a direction.
  function NeighbourValue(n: nat, g: Grid, o: Offset, x: int, y: int, z: int): real
    requires n > 0
  {
    g(Wrap(x + o.x, n), Wrap(y + o.y, n), Wrap(z + o.z, n))
  }

  // The weighted sum over a neighbourhood.
  function Gather(n: nat, offs: seq<Offset>, ws: seq<real>, g: Grid, x: int, y: int, z: int): real
    requires n > 0 && |offs| == |ws|
  {
    if offs == [] then 0.0
    else
      var q := |offs| - 1;
      Gather(n, offs[..q], ws[..q], g, x, y, z) + NeighbourValue(n, g, offs[q], x, y, z) * ws[q]
  }

  function Weight(ws: seq<real>): real {
    if ws == [] then 0.0 else Weight(ws[..|ws| - 1]) + ws[|ws| - 1]
  }

  function Ones(k: nat): (ws: seq<real>)
    ensures |ws| == k
  {
    seq(k, _ => 1.0)
  }

  // The weights in force: with another number of weights than neighbours the plain average is taken.
  function Effective(ws: seq<real>, count: nat): (e: seq<real>)
    ensures |e| == count
  {
    if |ws| == count then ws else Ones(count)
  }

  // What one generation is given: the amount added to every cell, and the weights.
  datatype Setting = Setting(add: real, weights: seq<real>)

  predicate Usable(s: Setting, count: nat) {
    Weight(Effective(s.weights, count)) != 0.0
  }

  function Raw(n: nat, offs: seq<Offset>, s: Setting, g: Grid, x: int, y: int, z: int): real
    requires n > 0 && Usable(s, |offs|)
  {
    var ws := Effective(s.weights, |offs|);
    Gather(n, offs, ws, g, x, y, z) / Weight(ws) + s.add
  }

  function Folded(v: real): real {
    if v > 1.0 then v - 1.0 else v
  }

  function Wrapped(v: real): real {
    if v > 1.0 then 1.0 else 0.0
  }

  // One generation, all cells at once.
  function Step(n: nat, offs: seq<Offset>, s: Setting, g: Grid): Grid
    requires n > 0 && Usable(s, |offs|)
  {
    (x, y, z) => Folded(Raw(n, offs, s, g, x, y, z))
  }

  // How many cells pass 1 and lose 1 in one generation.
  function Wraps(n: nat, offs: seq<Offset>, s: Setting, g: Grid): real
    requires n > 0 && Usable(s, |offs|)
  {
    Total(n, (x, y, z) => Wrapped(Raw(n, offs, s, g, x, y, z)))
  }

  predicate AllUsable(settings: seq<Setting>, count: nat) {
    forall s | s in settings :: Usable(s, count)
  }

  // Generation after generation, each with its own setting.
  function Generations(n: nat, offs: seq<Offset>, settings: seq<Setting>, g: Grid): Grid
    requires n > 0 && AllUsable(settings, |offs|)
  {
    if settings == [] then g
    else
      var k := |settings| - 1;
      Step(n, offs, settings[k], Generations(n, offs, settings[..k], g))
  }

  // Weight q goes to the neighbour in direction q: with all other weights zero, it alone counts.
  lemma {:induction false} WeightGoesToItsNeighbour(n: nat, offs: seq<Offset>, ws: seq<real>, g: Grid, x: int, y: int, z: int, q: int)
    requires n > 0 && |offs| == |ws| && -1 <= q < |ws|
    requires forall i | 0 <= i < |ws| && i != q :: ws[i] == 0.0
    ensures Gather(n, offs, ws, g, x, y, z) ==
            if q >= 0 then ws[q] * g(Wrap(x + offs[q].x, n), Wrap(y + offs[q].y, n), Wrap(z + offs[q].z, n)) else 0.0
  {
    hide Wrap;
    if offs != [] {
      var k := |offs| - 1;
      WeightGoesToItsNeighbour(n, offs[..k], ws[..k], g, x, y, z, if q == k then -1 else q);
    }
  }

  // Sums of weights give sums of gathered values; with the lemma before, that is all there is to say of Gather.
  lemma {:induction false} GatherAdds(n: nat, offs: seq<Offset>, us: seq<real>, vs: seq<real>, ws: seq<real>,
                                      g: Grid, x: int, y: int, z: int)
    requires n > 0 && |offs| == |us| == |vs| == |ws| && forall i | 0 <= i < |ws| :: ws[i] == us[i] + vs[i]
    ensures Gather(n, offs, ws, g, x, y, z) == Gather(n, offs, us, g, x, y, z) + Gather(n, offs, vs, g, x, y, z)
    decreases |offs|
  {
    hide NeighbourValue;
    if offs != [] {
      var k := |offs| - 1;
      GatherAdds(n, offs[..k], us[..k], vs[..k], ws[..k], g, x, y, z);
      Distributed(us[k], vs[k], NeighbourValue(n, g, offs[k], x, y, z));
    }
  }

  lemma {:induction false} WeightOfOne(ws: seq<real>, q: int)
    requires -1 <= q < |ws| && forall i | 0 <= i < |ws| && i != q :: ws[i] == 0.0
    ensures Weight(ws) == if q >= 0 then ws[q] else 0.0
  {
    if ws != [] {
      var k := |ws| - 1;
      WeightOfOne(ws[..k], if q == k then -1 else q);
    }
  }

  /** The rule by its cases: when the numbers agree the weights are used, and a cell with one weight takes over that
      neighbour's state, with the amount added; when they do not, every neighbour counts the same. */
  lemma WeightsInForce(n: nat, offs: seq<Offset>, s: Setting, g: Grid, x: int, y: int, z: int, q: nat)
    requires n > 0 && q < |offs|
    ensures |s.weights| != |offs| ==> forall i | 0 <= i < |offs| :: Effective(s.weights, |offs|)[i] == 1.0
    ensures |s.weights| == |offs| && s.weights[q] != 0.0 && (forall i | 0 <= i < |offs| && i != q :: s.weights[i] == 0.0) ==>
      var v := g(Wrap(x + offs[q].x, n), Wrap(y + offs[q].y, n), Wrap(z + offs[q].z, n)) + s.add;
      Usable(s, |offs|) && Step(n, offs, s, g)(x, y, z) == if v > 1.0 then v - 1.0 else v
  {
    hide Wrap, Gather, Weight;
    if |s.weights| == |offs| && s.weights[q] != 0.0 && forall i | 0 <= i < |offs| && i != q :: s.weights[i] == 0.0 {
      WeightOfOne(s.weights, q);
      WeightGoesToItsNeighbour(n, offs, s.weights, g, x, y, z, q);
      var w, v := s.weights[q], g(Wrap(x + offs[q].x, n), Wrap(y + offs[q].y, n), Wrap(z + offs[q].z, n));
      Divided(w * v, w);
      Cancelled(w, v);
    }
  }

  // ---- Conservation ----

  lemma {:induction false} GatherTotal(n: nat, offs: seq<Offset>, ws: seq<real>, g: Grid, h: Grid)
    requires n > 0 && |offs| == |ws|
    requires forall x, y, z | Inside(n, x, y, z) :: h(x, y, z) == Gather(n, offs, ws, g, x, y, z)
    ensures Total(n, h) == Weight(ws) * Total(n, g)
    decreases |offs|
  {
    hide Total, NeighbourValue;
    if offs == [] {
      ConstantTotal(n, 0.0, h);
    } else {
      var q := |offs| - 1;
      var o := offs[q];
      var less := (x, y, z) => Gather(n, offs[..q], ws[..q], g, x, y, z);
      var neighbour := (x, y, z) => NeighbourValue(n, g, o, x, y, z);
      var last := (x, y, z) => ws[q] * NeighbourValue(n, g, o, x, y, z);
      Distributed(Weight(ws[..q]), ws[q], Total(n, g));
      GatherTotal(n, offs[..q], ws[..q], g, less);
      NeighbourTotal(n, g, o, neighbour);
      TotalScaled(n, ws[q], neighbour, last);
      TotalPlus(n, less, last, h);
    }
  }

  lemma Distributed(a: real, b: real, t: real)
    ensures (a + b) * t == a * t + b * t
  {
  }

  lemma NeighbourTotal(n: nat, g: Grid, o: Offset, h: Grid)
    requires n > 0 && forall x, y, z | Inside(n, x, y, z) :: h(x, y, z) == NeighbourValue(n, g, o, x, y, z)
    ensures Total(n, h) == Total(n, g)
  {
    TotalShifted(n, o.x, o.y, o.z, g, h);
  }

  function Volume(n: nat): real {
    n as real * (n as real * n as real)
  }

  lemma ConstantTotal(n: nat, c: real, f: Grid)
    requires forall x, y, z | Inside(n, x, y, z) :: f(x, y, z) == c
    ensures Total(n, f) == Volume(n) * c
  {
    TotalConstant(n, c, f);
  }

  lemma Cancelled(w: real, t: real)
    requires w != 0.0
    ensures (1.0 / w) * (w * t) == t
  {
  }

  lemma Divided(v: real, w: real)
    requires w != 0.0
    ensures v / w == (1.0 / w) * v
  {
  }

  /** Conservation: one generation changes the total by n^3 * add minus the number of cells that passed 1,
      for every size, every offset list and all weights whose sum is not zero. */
  lemma Conservation(n: nat, offs: seq<Offset>, s: Setting, g: Grid)
    requires n > 0 && Usable(s, |offs|)
    ensures Total(n, Step(n, offs, s, g)) == Total(n, g) + Volume(n) * s.add - Wraps(n, offs, s, g)
  {
    hide Total, Gather, Volume, Effective, Weight;
    var ws := Effective(s.weights, |offs|);
    var w := Weight(ws);
    var gather := (x, y, z) => Gather(n, offs, ws, g, x, y, z);
    var mean := (x, y, z) => Gather(n, offs, ws, g, x, y, z) / w;
    var added := (x: int, y: int, z: int) => s.add;
    var raw := (x, y, z) => Raw(n, offs, s, g, x, y, z);
    var wrapped := (x, y, z) => Wrapped(Raw(n, offs, s, g, x, y, z));
    GatherTotal(n, offs, ws, g, gather);
    forall x, y, z | Inside(n, x, y, z) ensures mean(x, y, z) == (1.0 / w) * gather(x, y, z) {
      Divided(gather(x, y, z), w);
    }
    TotalScaled(n, 1.0 / w, gather, mean);
    Cancelled(w, Total(n, g));
    ConstantTotal(n, s.add, added);
    TotalPlus(n, mean, added, raw);
    TotalPlus(n, Step(n, offs, s, g), wrapped, raw);
    TotalSame(n, wrapped, (x, y, z) => Wrapped(Raw(n, offs, s, g, x, y, z)));
  }

  function Added(settings: seq<Setting>): real {
    if settings == [] then 0.0 else Added(settings[..|settings| - 1]) + settings[|settings| - 1].add
  }

  function AllWraps(n: nat, offs: seq<Offset>, settings: seq<Setting>, g: Grid): real
    requires n > 0 && AllUsable(settings, |offs|)
  {
    if settings == [] then 0.0
    else
      var k := |settings| - 1;
      AllWraps(n, offs, settings[..k], g) + Wraps(n, offs, settings[k], Generations(n, offs, settings[..k], g))
  }

  /** Conservation over every run, whatever the settings of its generations. */
  lemma {:induction false} RunConservation(n: nat, offs: seq<Offset>, settings: seq<Setting>, g: Grid)
    requires n > 0 && AllUsable(settings, |offs|)
    ensures Total(n, Generations(n, offs, settings, g)) ==
            Total(n, g) + Volume(n) * Added(settings) - AllWraps(n, offs, settings, g)
    decreases |settings|
  {
    hide Total, Volume, Wraps, Step;
    if settings != [] {
      var k := |settings| - 1;
      RunConservation(n, offs, settings[..k], g);
      Conservation(n, offs, settings[k], Generations(n, offs, settings[..k], g));
      Distributed'(Volume(n), Added(settings[..k]), settings[k].add);
    }
  }

  lemma Distributed'(t: real, a: real, b: real)
    ensures t * (a + b) == t * a + t * b
  {
  }

  // ---- Bounds ----

  ghost predicate Between(n: nat, g: Grid, lo: real, hi: real) {
    forall x, y, z | Inside(n, x, y, z) :: lo <= g(x, y, z) <= hi
  }

  predicate NonNegative(ws: seq<real>) {
    forall i | 0 <= i < |ws| :: ws[i] >= 0.0
  }

  // The weights of every run the program is meant for: not negative, and not all zero.
  predicate Convex(s: Setting, count: nat) {
    var ws := Effective(s.weights, count);
    NonNegative(ws) && Weight(ws) > 0.0
  }

  lemma Product(a: real, b: real, w: real)
    requires w >= 0.0
    ensures a <= b ==> a * w <= b * w
    ensures a < b && w > 0.0 ==> a * w < b * w
  {
  }

  lemma OneMoreTerm(lo: real, hi: real, sum: real, gathered: real, w: real, v: real)
    requires lo * sum <= gathered <= hi * sum && lo <= v <= hi && w >= 0.0
    ensures lo * (sum + w) <= gathered + v * w <= hi * (sum + w)
  {
    Product(lo, v, w);
    Product(v, hi, w);
    Distributed'(lo, sum, w);
    Distributed'(hi, sum, w);
  }

  lemma NeighbourBetween(n: nat, g: Grid, o: Offset, x: int, y: int, z: int, lo: real, hi: real)
    requires n > 0 && Between(n, g, lo, hi)
    ensures lo <= NeighbourValue(n, g, o, x, y, z) <= hi
  {
    assert Inside(n, Wrap(x + o.x, n), Wrap(y + o.y, n), Wrap(z + o.z, n));
  }

  lemma {:induction false} GatherBetween(n: nat, offs: seq<Offset>, ws: seq<real>, g: Grid, x: int, y: int, z: int,
                                         lo: real, hi: real)
    requires n > 0 && |offs| == |ws| && NonNegative(ws) && Between(n, g, lo, hi)
    ensures lo * Weight(ws) <= Gather(n, offs, ws, g, x, y, z) <= hi * Weight(ws)
    decreases |offs|
  {
    hide Between, NeighbourValue;
    if offs != [] {
      var q := |offs| - 1;
      GatherBetween(n, offs[..q], ws[..q], g, x, y, z, lo, hi);
      NeighbourBetween(n, g, offs[q], x, y, z, lo, hi);
      OneMoreTerm(lo, hi, Weight(ws[..q]), Gather(n, offs[..q], ws[..q], g, x, y, z), ws[q],
                  NeighbourValue(n, g, offs[q], x, y, z));
    }
  }

  lemma Quotient(lo: real, hi: real, v: real, w: real)
    requires w > 0.0 && lo * w <= v <= hi * w
    ensures lo <= v / w <= hi
  {
    var d := v / w;
    assert d * w == v;
    Product(d, lo, w);
    Product(hi, d, w);
  }

  /** With nothing added, a generation stays within the bounds of the one before: the global maximum never
      rises and the global minimum never falls. */
  lemma BoundsNeverWiden(n: nat, offs: seq<Offset>, s: Setting, g: Grid, lo: real, hi: real)
    requires n > 0 && Convex(s, |offs|) && s.add == 0.0 && Between(n, g, lo, hi) && hi <= 1.0
    ensures Between(n, Step(n, offs, s, g), lo, hi)
  {
    var ws := Effective(s.weights, |offs|);
    forall x, y, z | Inside(n, x, y, z) ensures lo <= Step(n, offs, s, g)(x, y, z) <= hi {
      GatherBetween(n, offs, ws, g, x, y, z, lo, hi);
      Quotient(lo, hi, Gather(n, offs, ws, g, x, y, z), Weight(ws));
    }
  }

  lemma StepStaysInUnit(n: nat, offs: seq<Offset>, s: Setting, g: Grid)
    requires n > 0 && Convex(s, |offs|) && 0.0 <= s.add <= 1.0 && Between(n, g, 0.0, 1.0)
    ensures Between(n, Step(n, offs, s, g), 0.0, 1.0)
  {
    var ws := Effective(s.weights, |offs|);
    forall x, y, z | Inside(n, x, y, z) ensures 0.0 <= Step(n, offs, s, g)(x, y, z) <= 1.0 {
      GatherBetween(n, offs, ws, g, x, y, z, 0.0, 1.0);
      Quotient(0.0, 1.0, Gather(n, offs, ws, g, x, y, z), Weight(ws));
    }
  }

  /** Every state of every generation of every run stays in [0, 1]. */
  lemma {:induction false} RunsStayInUnit(n: nat, offs: seq<Offset>, settings: seq<Setting>, g: Grid)
    requires n > 0 && Between(n, g, 0.0, 1.0) && AllUsable(settings, |offs|)
    requires forall s | s in settings :: Convex(s, |offs|) && 0.0 <= s.add <= 1.0
    ensures Between(n, Generations(n, offs, settings, g), 0.0, 1.0)
    decreases |settings|
  {
    hide Between, Step, Convex, Usable;
    if settings != [] {
      var k := |settings| - 1;
      RunsStayInUnit(n, offs, settings[..k], g);
      StepStaysInUnit(n, offs, settings[k], Generations(n, offs, settings[..k], g));
    }
  }
}
