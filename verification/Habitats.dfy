/** The neighbourhoods of Habitat.m: lists of offsets, and their place on the torus. */
module Habitats {
  import opened Sums
  import opened Automaton

  function Negated(o: Offset): Offset {
    Offset(-o.x, -o.y, -o.z)
  }

  // Turned around, the list is its own negation.
  ghost predicate Symmetric(offs: seq<Offset>) {
    forall q | 0 <= q < |offs| :: offs[|offs| - 1 - q] == Negated(offs[q])
  }

  ghost predicate Distinct(offs: seq<Offset>) {
    forall p, q | 0 <= p < q < |offs| :: offs[p] != offs[q]
  }

  // ---- Numbering a cube of s by s by s places ----

  function Rank(s: int, i: int, j: int, k: int): int {
    (i * s + j) * s + k
  }

  lemma DigitsOfRank(s: nat, i: int, j: int, k: int)
    requires 0 <= i < s && 0 <= j < s && 0 <= k < s
    ensures var t := Rank(s, i, j, k); t >= 0 && t % s == k && t / s % s == j && t / s / s == i
  {
    var t := Rank(s, i, j, k);
    WrapUnique(t, s, i * s + j, k);
    WrapUnique(i * s + j, s, i, j);
    assert i * s >= 0;
    assert (i * s + j) * s >= 0;
  }

  lemma RankOfDigits(s: nat, t: nat)
    requires s > 0 && t < s * s * s
    ensures var i, j, k := t / s / s, t / s % s, t % s;
      0 <= i < s && 0 <= j < s && 0 <= k < s && Rank(s, i, j, k) == t
  {
    var h := t / s;
    QuotientBelow(t, s, s * s);
    QuotientBelow(h, s, s);
    DivisionParts(t, s);
    DivisionParts(h, s);
  }

  lemma DivisionParts(t: nat, s: nat)
    requires s > 0
    ensures t == t / s * s + t % s && 0 <= t % s < s && t / s >= 0
  {
  }

  lemma QuotientBelow(t: nat, s: nat, m: nat)
    requires s > 0 && t < m * s
    ensures 0 <= t / s < m
  {
    DivisionParts(t, s);
    if t / s >= m {
      MulMonotone(m, t / s, s);
    }
  }

  lemma MulMonotone(a: int, b: int, s: nat)
    requires a <= b
    ensures a * s <= b * s
  {
    assert (b - a) * s >= 0;
  }

  lemma DigitsUp(u: int, v: int, n: nat, k: int, l: int)
    requires u < v && k < n && 0 <= l
    ensures u * n + k < v * n + l
  {
    MulMonotone(u + 1, v, n);
    assert (u + 1) * n == u * n + n;
  }

  // Later digits, first ones first, make a higher number.
  lemma RankIncreases(s: nat, i: int, j: int, k: int, x: int, y: int, z: int)
    requires 0 <= i < s && 0 <= j < s && 0 <= k < s && 0 <= x < s && 0 <= y < s && 0 <= z < s
    requires i < x || (i == x && (j < y || (j == y && k < z)))
    ensures Rank(s, i, j, k) < Rank(s, x, y, z)
  {
    var u, v := i * s + j, x * s + y;
    if i < x {
      DigitsUp(i, x, s, j, y);
    }
    if u < v {
      DigitsUp(u, v, s, k, z);
    } else {
      assert u == v;
    }
  }

  // The place opposite to another, seen from the middle.
  lemma OppositeRank(s: int, i: int, j: int, k: int)
    ensures Rank(s, s - 1 - i, s - 1 - j, s - 1 - k) == s * s * s - 1 - Rank(s, i, j, k)
  {
    var a, b := s - 1 - i, i * s + j;
    assert a * s == s * s - s - i * s;
    var c := a * s + (s - 1 - j);
    assert c == s * s - 1 - b;
    assert c * s == (s * s) * s - s - b * s;
  }

  // ---- Moore ----

  function OffsetAt(r: nat, t: nat): Offset {
    var s := 2 * r + 1;
    Offset(t / s % s - r, t / s / s - r, t % s - r)
  }

  predicate Zero(o: Offset) {
    o.x == 0 && o.y == 0 && o.z == 0
  }

  // The first t places of the cube, without its middle.
  function MooreUpTo(r: nat, t: nat): seq<Offset> {
    if t == 0 then []
    else MooreUpTo(r, t - 1) + if Zero(OffsetAt(r, t - 1)) then [] else [OffsetAt(r, t - 1)]
  }

  function Middle(r: nat): nat {
    var s := 2 * r + 1;
    assert r * s + r >= 0;
    assert (r * s + r) * s >= 0;
    Rank(s, r, r, r)
  }

  function CubeSize(r: nat): nat {
    var s: nat := 2 * r + 1;
    s * s * s
  }

  lemma MiddleIsHalf(r: nat)
    ensures 2 * Middle(r) + 1 == CubeSize(r)
  {
    var s := 2 * r + 1;
    OppositeRank(s, r, r, r);
  }

  lemma ZeroIsMiddle(r: nat, t: nat)
    requires t < CubeSize(r)
    ensures Zero(OffsetAt(r, t)) <==> t == Middle(r)
  {
    var s := 2 * r + 1;
    RankOfDigits(s, t);
    DigitsOfRank(s, r, r, r);
  }

  // The place of the q-th offset in the cube.
  function PlaceOf(r: nat, q: nat): nat {
    if q < Middle(r) then q else q + 1
  }

  lemma {:induction false} MooreAt(r: nat, t: nat)
    requires t <= CubeSize(r)
    ensures var m := MooreUpTo(r, t);
      && |m| == (if t <= Middle(r) then t else t - 1)
      && forall q | 0 <= q < |m| :: m[q] == OffsetAt(r, PlaceOf(r, q))
    decreases t
  {
    hide Middle, CubeSize, OffsetAt, Zero;
    if t > 0 {
      MooreAt(r, t - 1);
      ZeroIsMiddle(r, t - 1);
    }
  }

  function MooreList(radius: int): seq<Offset> {
    if radius < 0 then [] else MooreUpTo(radius, CubeSize(radius))
  }

  lemma Digits(s: nat, t: nat) returns (i: int, j: int, k: int)
    requires s > 0 && t < s * s * s
    ensures 0 <= i < s && 0 <= j < s && 0 <= k < s && Rank(s, i, j, k) == t
  {
    RankOfDigits(s, t);
    i, j, k := t / s / s, t / s % s, t % s;
  }

  lemma OffsetOfRank(r: nat, i: int, j: int, k: int)
    requires var s := 2 * r + 1; 0 <= i < s && 0 <= j < s && 0 <= k < s
    ensures Rank(2 * r + 1, i, j, k) >= 0 && OffsetAt(r, Rank(2 * r + 1, i, j, k)) == Offset(j - r, i - r, k - r)
  {
    hide Rank;
    DigitsOfRank(2 * r + 1, i, j, k);
  }

  lemma OppositeOffset(r: nat, t: nat)
    requires t < CubeSize(r)
    ensures OffsetAt(r, CubeSize(r) - 1 - t) == Negated(OffsetAt(r, t))
  {
    hide OffsetAt, Rank;
    var s := 2 * r + 1;
    var i, j, k := Digits(s, t);
    OppositeRank(s, i, j, k);
    OffsetOfRank(r, i, j, k);
    OffsetOfRank(r, s - 1 - i, s - 1 - j, s - 1 - k);
  }

  lemma OffsetAtInjective(r: nat, t: nat, u: nat)
    requires t < CubeSize(r) && u < CubeSize(r) && OffsetAt(r, t) == OffsetAt(r, u)
    ensures t == u
  {
    RankOfDigits(2 * r + 1, t);
    RankOfDigits(2 * r + 1, u);
  }

  predicate Near(r: nat, o: Offset) {
    0 <= o.x + r <= 2 * r && 0 <= o.y + r <= 2 * r && 0 <= o.z + r <= 2 * r
  }

  lemma OffsetsAreNear(r: nat, t: nat)
    requires t < CubeSize(r)
    ensures Near(r, OffsetAt(r, t))
  {
    RankOfDigits(2 * r + 1, t);
  }

  // The place of an offset in the cube.
  lemma NearIsPlaced(r: nat, o: Offset) returns (t: nat)
    requires Near(r, o)
    ensures t < CubeSize(r) && OffsetAt(r, t) == o
  {
    var s := 2 * r + 1;
    var i, j, k := o.y + r, o.x + r, o.z + r;
    DigitsOfRank(s, i, j, k);
    DigitsOfRank(s, s - 1 - i, s - 1 - j, s - 1 - k);
    OppositeRank(s, i, j, k);
    t := Rank(s, i, j, k);
  }

  /** A Moore neighbourhood of radius r holds every offset within r in each coordinate but the zero one, once;
      these are (2r+1)^3 - 1, and turned around the list is its own negation. */
  lemma MooreStructure(r: nat)
    ensures var m := MooreList(r); |m| == CubeSize(r) - 1 && Distinct(m) && Symmetric(m)
    ensures forall o :: o in MooreList(r) <==> Near(r, o) && !Zero(o)
  {
    hide Middle, CubeSize, OffsetAt, Zero, Near;
    var m := MooreList(r);
    MiddleIsHalf(r);
    MooreAt(r, CubeSize(r));
    forall p, q | 0 <= p < q < |m| ensures m[p] != m[q] {
      if m[p] == m[q] {
        OffsetAtInjective(r, PlaceOf(r, p), PlaceOf(r, q));
      }
    }
    forall q | 0 <= q < |m| ensures m[|m| - 1 - q] == Negated(m[q]) {
      OppositeOffset(r, PlaceOf(r, q));
      assert PlaceOf(r, |m| - 1 - q) == CubeSize(r) - 1 - PlaceOf(r, q);
    }
    forall o | o in m ensures Near(r, o) && !Zero(o) {
      var q :| 0 <= q < |m| && m[q] == o;
      ZeroIsMiddle(r, PlaceOf(r, q));
      OffsetsAreNear(r, PlaceOf(r, q));
    }
    forall o | Near(r, o) && !Zero(o) ensures o in m {
      var t := NearIsPlaced(r, o);
      ZeroIsMiddle(r, t);
      var q := if t < Middle(r) then t else t - 1;
      assert m[q] == OffsetAt(r, PlaceOf(r, q));
    }
  }

  // The order of the Moore list: by y, then by x, then by z.
  predicate RowsFirst(a: Offset, b: Offset) {
    a.y < b.y || (a.y == b.y && (a.x < b.x || (a.x == b.x && a.z < b.z)))
  }

  lemma OffsetsIncrease(r: nat, t: nat, u: nat)
    requires t < u < CubeSize(r)
    ensures RowsFirst(OffsetAt(r, t), OffsetAt(r, u))
  {
    hide OffsetAt, Rank;
    var s := 2 * r + 1;
    var i, j, k := Digits(s, t);
    var x, y, z := Digits(s, u);
    OffsetOfRank(r, i, j, k);
    OffsetOfRank(r, x, y, z);
    if x < i || (x == i && (y < j || (y == j && z < k))) {
      RankIncreases(s, x, y, z, i, j, k);
    }
  }

  /** The order decides which weight goes to which neighbour; with the members it leaves one list. */
  lemma MooreOrder(r: nat)
    ensures var m := MooreList(r); forall p, q | 0 <= p < q < |m| :: RowsFirst(m[p], m[q])
  {
    hide Middle, CubeSize, OffsetAt, RowsFirst;
    var m := MooreList(r);
    MiddleIsHalf(r);
    MooreAt(r, CubeSize(r));
    forall p, q | 0 <= p < q < |m| ensures RowsFirst(m[p], m[q]) {
      OffsetsIncrease(r, PlaceOf(r, p), PlaceOf(r, q));
    }
  }

  // ---- von Neumann ----

  function NeumannAt(q: int): Offset {
    if q == 0 then Offset(-1, 0, 0)
    else if q == 1 then Offset(0, -1, 0)
    else if q == 2 then Offset(0, 0, -1)
    else if q == 3 then Offset(0, 0, 1)
    else if q == 4 then Offset(0, 1, 0)
    else Offset(1, 0, 0)
  }

  function NeumannList(): seq<Offset> {
    seq(6, NeumannAt)
  }

  lemma NeumannStep(p: int, q: int)
    requires 0 <= p < 6 && 0 <= q < 6
    ensures NeumannAt(p) == NeumannAt(q) ==> p == q
    ensures p < q ==> Lexicographic(NeumannAt(p), NeumannAt(q))
  {
  }

  lemma NeumannOpposite(q: int)
    requires 0 <= q < 6
    ensures NeumannAt(5 - q) == Negated(NeumannAt(q))
  {
  }

  lemma NeumannNextTo(q: int)
    requires 0 <= q < 6
    ensures NextTo(NeumannAt(q))
  {
  }

  lemma NeumannPlace(o: Offset) returns (q: int)
    requires NextTo(o)
    ensures 0 <= q < 6 && NeumannAt(q) == o
  {
    q := if o.x == -1 then 0 else if o.y == -1 then 1 else if o.z == -1 then 2
         else if o.z == 1 then 3 else if o.y == 1 then 4 else 5;
  }

  function Abs(c: int): nat {
    if c < 0 then -c else c
  }

  // One step away along one axis.
  predicate NextTo(o: Offset) {
    Abs(o.x) + Abs(o.y) + Abs(o.z) == 1
  }

  predicate Lexicographic(a: Offset, b: Offset) {
    a.x < b.x || (a.x == b.x && (a.y < b.y || (a.y == b.y && a.z < b.z)))
  }

  /** A von Neumann neighbourhood holds exactly the offsets one step away, in lexicographic order, and turned around the
      list is its own negation. */
  lemma NeumannStructure()
    ensures var m := NeumannList();
      && |m| == 6 && Distinct(m) && Symmetric(m)
      && (forall p, q | 0 <= p < q < |m| :: Lexicographic(m[p], m[q]))
    ensures forall o :: o in NeumannList() <==> NextTo(o)
  {
    hide NeumannAt, NextTo, Negated, Lexicographic;
    var m := NeumannList();
    forall p, q | 0 <= p < q < |m| ensures m[p] != m[q] && Lexicographic(m[p], m[q]) {
      NeumannStep(p, q);
    }
    forall q | 0 <= q < |m| ensures m[|m| - 1 - q] == Negated(m[q]) {
      NeumannOpposite(q);
    }
    forall o | o in m ensures NextTo(o) {
      var q :| 0 <= q < |m| && m[q] == o;
      NeumannNextTo(q);
    }
    forall o | NextTo(o) ensures o in m {
      var q := NeumannPlace(o);
      assert m[q] == o;
    }
  }

  // ---- The object ----

  class Habitat {
    var indices: seq<Offset>
    var numNeighbors: int
    var range: int

    // initMoore
    constructor Moore(radius: int)
      ensures indices == MooreList(radius)
      ensures range == radius && numNeighbors == (2 * radius + 1) * (2 * radius + 1) - 1
    {
      var size := radius * 2 + 1;
      numNeighbors := size * size - 1;
      range := radius;
      var list := [];
      if size > 0 {
        list := MooreLoops(radius, size);
      }
      indices := list;
    }

    // initNeumann: the radius does not change the list.
    constructor Neumann(radius: int)
      ensures indices == NeumannList() && range == radius && numNeighbors == 4 * radius
    {
      numNeighbors := 4 * radius;
      range := radius;
      indices := [Offset(-1, 0, 0)] + [Offset(0, -1, 0)] + [Offset(0, 0, -1)]
               + [Offset(0, 0, 1)] + [Offset(0, 1, 0)] + [Offset(1, 0, 0)];
    }
  }

  // The three loops of initMoore.
  method MooreLoops(r: nat, size: nat) returns (list: seq<Offset>)
    requires size == 2 * r + 1
    ensures list == MooreList(r)
  {
    hide OffsetAt, MooreUpTo;
    list := [];
    MooreStart(r, size);
    for i := 0 to size
      invariant RankFits(size, i, 0, 0) && list == MooreUpTo(r, Rank(size, i, 0, 0))
    {
      for j := 0 to size
        invariant RankFits(size, i, j, 0) && list == MooreUpTo(r, Rank(size, i, j, 0))
      {
        for k := 0 to size
          invariant RankFits(size, i, j, k) && list == MooreUpTo(r, Rank(size, i, j, k))
        {
          var o := Offset(j - size / 2, i - size / 2, k - size / 2);
          MooreRound(r, size, i, j, k);
          if !(o.y == 0 && o.x == 0 && o.z == 0) {
            list := list + [o];
          }
        }
        RankCarry(size, i, j);
      }
      RankCarryOut(size, i);
    }
    RankOfAll(size);
  }

  ghost predicate RankFits(s: nat, i: int, j: int, k: int) {
    Rank(s, i, j, k) >= 0
  }

  lemma MooreStart(r: nat, s: nat)
    ensures Rank(s, 0, 0, 0) == 0 && MooreUpTo(r, 0) == []
  {
  }

  lemma MooreRound(r: nat, s: nat, i: int, j: int, k: int)
    requires s == 2 * r + 1 && 0 <= i < s && 0 <= j < s && 0 <= k < s
    ensures Rank(s, i, j, k) >= 0 && Rank(s, i, j, k + 1) == Rank(s, i, j, k) + 1 && s / 2 == r
    ensures var o := Offset(j - r, i - r, k - r);
      MooreUpTo(r, Rank(s, i, j, k + 1)) == MooreUpTo(r, Rank(s, i, j, k)) + if Zero(o) then [] else [o]
  {
    DigitsOfRank(s, i, j, k);
  }

  lemma RankCarry(s: nat, i: int, j: int)
    ensures Rank(s, i, j, s) == Rank(s, i, j + 1, 0)
  {
    assert (i * s + j + 1) * s == (i * s + j) * s + s;
  }

  lemma RankCarryOut(s: nat, i: int)
    ensures Rank(s, i, s, 0) == Rank(s, i + 1, 0, 0)
  {
    assert (i + 1) * s == i * s + s;
  }

  lemma RankOfAll(s: nat)
    ensures Rank(s, s, 0, 0) == s * s * s
  {
  }

  /** The field numNeighbors still counts a flat neighbourhood: whatever radius is asked for, it agrees with the Moore
      list exactly for radius 0 and -1, where both are empty, and with the von Neumann list for none. */
  lemma NumNeighborsIsFlat(radius: int)
    ensures (2 * radius + 1) * (2 * radius + 1) - 1 == |MooreList(radius)| <==> radius == 0 || radius == -1
    ensures 4 * radius != |NeumannList()|
  {
    hide MooreList, Distinct, Symmetric;
    if radius >= 0 {
      MooreStructure(radius);
      FlatIsNotCubic(2 * radius + 1);
    } else {
      NoMooreList(radius);
      var s := -2 * radius - 1;
      assert (2 * radius + 1) * (2 * radius + 1) == s * s;
      if s > 1 {
        MulMonotone(2, s, s);
      }
    }
  }

  lemma NoMooreList(radius: int)
    requires radius < 0
    ensures MooreList(radius) == []
  {
  }

  lemma FlatIsNotCubic(s: nat)
    requires s > 0
    ensures s * s == s * s * s <==> s == 1
  {
    var t := s * s;
    if s > 1 {
      MulMonotone(1, s, s);
      MulMonotone(2, s, t);
      assert 2 * t <= s * t == t * s;
    }
  }

  // ---- On the torus ----

  datatype Place = Place(x: int, y: int, z: int)

  predicate On(n: nat, p: Place) {
    Inside(n, p.x, p.y, p.z)
  }

  // Neighbour q of a cell, as setHabitat wires it.
  function Neighbour(n: nat, o: Offset, p: Place): (b: Place)
    requires n > 0
    ensures On(n, b)
  {
    Place(Wrap(p.x + o.x, n), Wrap(p.y + o.y, n), Wrap(p.z + o.z, n))
  }

  // A neighbour is the offset away, up to whole turns around the torus: none when that is on the grid, one when it is
  // just past an edge.
  lemma NeighbourIsOffset(n: nat, o: Offset, p: Place) returns (i: int, j: int, k: int)
    requires n > 0 && On(n, p)
    ensures Neighbour(n, o, p) == Place(p.x + o.x - i * n, p.y + o.y - j * n, p.z + o.z - k * n)
    ensures 0 <= p.x + o.x < n ==> Neighbour(n, o, p).x == p.x + o.x
    ensures 0 <= p.y + o.y < n ==> Neighbour(n, o, p).y == p.y + o.y
    ensures 0 <= p.z + o.z < n ==> Neighbour(n, o, p).z == p.z + o.z
  {
    hide Wrap;
    i := WrapTurns(p.x + o.x, n);
    j := WrapTurns(p.y + o.y, n);
    k := WrapTurns(p.z + o.z, n);
  }

  lemma WrapTurns(c: int, n: nat) returns (k: int)
    requires n > 0
    ensures Wrap(c, n) == c - k * n
    ensures 0 <= c < n ==> Wrap(c, n) == c
  {
    k := c / n;
    assert c == k * n + c % n;
    if 0 <= c < n {
      WrapInside(c, n);
    }
  }

  lemma ThereAndBack(n: nat, o: Offset, p: Place)
    requires n > 0 && On(n, p)
    ensures Neighbour(n, Negated(o), Neighbour(n, o, p)) == p
    ensures Neighbour(n, o, Neighbour(n, Negated(o), p)) == p
  {
    hide Wrap;
    WrapWrap(p.x + o.x, -o.x, n);
    WrapWrap(p.y + o.y, -o.y, n);
    WrapWrap(p.z + o.z, -o.z, n);
    WrapWrap(p.x - o.x, o.x, n);
    WrapWrap(p.y - o.y, o.y, n);
    WrapWrap(p.z - o.z, o.z, n);
    WrapInside(p.x, n);
    WrapInside(p.y, n);
    WrapInside(p.z, n);
  }

  /** Neighbourhood is mutual: B is neighbour q of A exactly when A is neighbour count - 1 - q of B. */
  lemma NeighboursAreMutual(n: nat, offs: seq<Offset>, q: nat, a: Place, b: Place)
    requires n > 0 && Symmetric(offs) && q < |offs| && On(n, a) && On(n, b)
    ensures b == Neighbour(n, offs[q], a) <==> a == Neighbour(n, offs[|offs| - 1 - q], b)
  {
    ThereAndBack(n, offs[q], a);
    ThereAndBack(n, offs[q], b);
  }

  /** Every cell is neighbour q of exactly one cell, so it occurs in exactly count habitats, with multiplicity. */
  lemma NeighbourOfExactlyOne(n: nat, offs: seq<Offset>, q: nat, b: Place)
    requires n > 0 && q < |offs| && On(n, b)
    ensures exists a :: On(n, a) && b == Neighbour(n, offs[q], a) &&
              forall c | On(n, c) && b == Neighbour(n, offs[q], c) :: c == a
  {
    var a := Neighbour(n, Negated(offs[q]), b);
    ThereAndBack(n, offs[q], b);
    forall c | On(n, c) && b == Neighbour(n, offs[q], c) ensures c == a {
      ThereAndBack(n, offs[q], c);
    }
  }
}
