/** The frame of FxView.m around the sweep: when a generation is renewed, and how listed cells are polled. */
module Polls {
  import opened Sums
  import opened Habitats

  // ---- The renewal counter ----

  datatype Counter = Counter(phase: int, ratio: int)

  // Whether a frame renews the world, and the counter after it; rate is the frame rate read on renewal.
  predicate Renews(c: Counter) {
    c.phase == c.ratio
  }

  function Frame(c: Counter, rate: int): Counter {
    if Renews(c) then Counter(1, rate) else Counter(c.phase + 1, c.ratio)
  }

  // The counter after k frames, each of which would read the given rate.
  function After(c: Counter, rates: seq<int>): Counter {
    if rates == [] then c else Frame(After(c, rates[..|rates| - 1]), rates[|rates| - 1])
  }

  /** After a renewal that reads rate r, the next renewal is exactly r frames later; with a rate below one the
      world is never renewed again. */
  lemma {:induction false} RenewalPeriod(c: Counter, r: int, rates: seq<int>)
    requires Renews(c) && (|rates| < r || r < 1)
    ensures After(Frame(c, r), rates) == Counter(|rates| + 1, r)
    ensures Renews(After(Frame(c, r), rates)) <==> r == |rates| + 1
  {
    if rates != [] {
      RenewalPeriod(c, r, rates[..|rates| - 1]);
    }
  }

  // ---- Polling ----

  // Lexicographic order of places, which is the order of the sweep.
  predicate Precedes(a: Place, b: Place) {
    a.x < b.x || (a.x == b.x && (a.y < b.y || (a.y == b.y && a.z < b.z)))
  }

  predicate OnGrid(n: nat, list: seq<Place>) {
    forall p | 0 <= p < |list| :: On(n, list[p])
  }

  predicate Increasing(list: seq<Place>) {
    forall p | 0 <= p < |list| - 1 :: Precedes(list[p], list[p + 1])
  }

  function Number(n: nat, p: Place): int {
    Rank(n, p.x, p.y, p.z)
  }

  lemma NumbersFollowOrder(n: nat, a: Place, b: Place)
    requires On(n, a) && On(n, b)
    ensures Precedes(a, b) <==> Number(n, a) < Number(n, b)
    ensures a == b <==> Number(n, a) == Number(n, b)
  {
    DigitsOfRank(n, a.x, a.y, a.z);
    DigitsOfRank(n, b.x, b.y, b.z);
    if Precedes(a, b) {
      StepUp(n, a, b);
    } else if Precedes(b, a) {
      StepUp(n, b, a);
    }
  }

  lemma StepUp(n: nat, a: Place, b: Place)
    requires On(n, a) && On(n, b) && Precedes(a, b)
    ensures Number(n, a) < Number(n, b)
  {
    RankIncreases(n, a.x, a.y, a.z, b.x, b.y, b.z);
  }

  // The poll index, the stored values, and how many listed cells have been met; an access outside the list or the
  // values raises an exception, and the sweep is over.
  datatype Scan = Scan(index: nat, values: seq<real>, hits: nat, raised: bool)

  // One cell of the sweep, with nextPollIndex. The list may have been replaced since the index and the values were
  // set up, so nothing ties their lengths together.
  function Visit(list: seq<Place>, phases: Grid, s: Scan, p: Place): Scan {
    if s.raised then s
    else if s.index >= |list| then s.(raised := true)
    else if list[s.index] != p then s
    else if s.index >= |s.values| then s.(raised := true)
    else Scan(if s.index == |list| - 1 then 0 else s.index + 1,
              s.values[s.index := phases(p.x, p.y, p.z)], s.hits + 1, false)
  }

  function PlaceOfNumber(n: nat, t: nat): Place
    requires n > 0
  {
    Place(t / n / n, t / n % n, t % n)
  }

  // The first t cells of the sweep.
  function ScanTo(n: nat, list: seq<Place>, phases: Grid, s: Scan, t: nat): Scan
    requires n > 0
  {
    if t == 0 then s else Visit(list, phases, ScanTo(n, list, phases, s, t - 1), PlaceOfNumber(n, t - 1))
  }

  predicate Fresh(s: Scan) {
    s.index == 0 && s.hits == 0 && !s.raised
  }

  // The cell at place p of the list comes when the scan waits for it: it is on the grid, behind the one before.
  predicate Comes(n: nat, list: seq<Place>, p: nat)
    requires p < |list|
  {
    On(n, list[p]) && (p > 0 ==> Precedes(list[p - 1], list[p]))
  }

  // The state of a sweep from index 0 after t cells: the hits are the first cells of the list, met in order,
  // and the next one has not been passed since, or there was no value left for it.
  ghost predicate Progress(n: nat, list: seq<Place>, phases: Grid, s: Scan, r: Scan, t: nat) {
    && |r.values| == |s.values| && r.hits <= |list| && r.hits <= |s.values|
    && (forall p | 0 <= p < r.hits :: Comes(n, list, p) && Number(n, list[p]) < t)
    && (forall p | 0 <= p < |s.values| ::
          r.values[p] == if p < r.hits then phases(list[p].x, list[p].y, list[p].z) else s.values[p])
    && r.index == (if r.hits == |list| then 0 else r.hits)
    && if r.raised
       then list == [] || (r.hits == |s.values| < |list| && Comes(n, list, r.hits))
       else
         && (list == [] ==> t == 0)
         && (r.hits < |list| && Comes(n, list, r.hits) ==> Number(n, list[r.hits]) >= t)
  }

  lemma PlaceHasNumber(n: nat, t: nat)
    requires n > 0 && t < n * n * n
    ensures var p := PlaceOfNumber(n, t); On(n, p) && Number(n, p) == t
  {
    RankOfDigits(n, t);
  }

  // A cell that the scan does not wait for, or that comes after an exception.
  lemma ProgressPast(n: nat, list: seq<Place>, phases: Grid, s: Scan, r: Scan, t: nat, p: Place)
    requires Progress(n, list, phases, s, r, t) && On(n, p) && Number(n, p) == t
    requires r.raised || (r.index < |list| && list[r.index] != p)
    ensures Progress(n, list, phases, s, r, t + 1)
  {
    hide Number, Precedes;
    if !r.raised && r.hits < |list| && On(n, list[r.hits]) {
      NumbersFollowOrder(n, list[r.hits], p);
    }
  }

  // The cell the sweep is at comes in the list, and one that comes after it is still to be met.
  lemma CellComes(n: nat, list: seq<Place>, h: nat, t: nat)
    requires h < |list| && On(n, list[h]) && Number(n, list[h]) == t
    requires h > 0 ==> Comes(n, list, h - 1) && Number(n, list[h - 1]) < t
    ensures Comes(n, list, h)
    ensures h + 1 < |list| && Comes(n, list, h + 1) ==> Number(n, list[h + 1]) > t
  {
    hide Number, Precedes;
    if h > 0 {
      NumbersFollowOrder(n, list[h - 1], list[h]);
    }
    if h + 1 < |list| && On(n, list[h + 1]) {
      NumbersFollowOrder(n, list[h], list[h + 1]);
    }
  }

  // The cell the scan waits for.
  lemma ProgressHit(n: nat, list: seq<Place>, phases: Grid, s: Scan, r: Scan, t: nat, p: Place)
    requires Progress(n, list, phases, s, r, t) && On(n, p) && Number(n, p) == t
    requires !r.raised && r.index < |list| && list[r.index] == p
    ensures Progress(n, list, phases, s, Visit(list, phases, r, p), t + 1)
  {
    hide Number, Comes, On;
    FirstIsPast(n, list, phases, s, r, t);
    CellComes(n, list, r.hits, t);
  }

  // When all listed cells have been met, the first one is not waited for again.
  lemma FirstIsPast(n: nat, list: seq<Place>, phases: Grid, s: Scan, r: Scan, t: nat)
    requires Progress(n, list, phases, s, r, t) && list != []
    ensures r.hits == |list| ==> Number(n, list[0]) < t
  {
    hide Number, Comes;
  }

  lemma ProgressStep(n: nat, list: seq<Place>, phases: Grid, s: Scan, r: Scan, t: nat)
    requires n > 0 && t < n * n * n && Progress(n, list, phases, s, r, t)
    ensures Progress(n, list, phases, s, Visit(list, phases, r, PlaceOfNumber(n, t)), t + 1)
  {
    hide Number, Precedes, PlaceOfNumber, Comes;
    var p := PlaceOfNumber(n, t);
    PlaceHasNumber(n, t);
    if r.raised || (r.index < |list| && list[r.index] != p) {
      ProgressPast(n, list, phases, s, r, t, p);
    } else if r.index < |list| {
      ProgressHit(n, list, phases, s, r, t, p);
    }
  }

  lemma {:induction false} ProgressOfSweep(n: nat, list: seq<Place>, phases: Grid, s: Scan, t: nat)
    requires n > 0 && t <= n * n * n && Fresh(s)
    ensures Progress(n, list, phases, s, ScanTo(n, list, phases, s, t), t)
    decreases t
  {
    hide Visit, Progress;
    if t == 0 {
      ProgressStart(n, list, phases, s);
    } else {
      ProgressOfSweep(n, list, phases, s, t - 1);
      ProgressStep(n, list, phases, s, ScanTo(n, list, phases, s, t - 1), t - 1);
    }
  }

  lemma ProgressStart(n: nat, list: seq<Place>, phases: Grid, s: Scan)
    requires Fresh(s)
    ensures Progress(n, list, phases, s, s, 0)
  {
    forall p | 0 <= p < |list| && On(n, list[p]) ensures Number(n, list[p]) >= 0 {
      DigitsOfRank(n, list[p].x, list[p].y, list[p].z);
    }
  }

  lemma AllCome(n: nat, list: seq<Place>)
    ensures OnGrid(n, list) && Increasing(list) <==> forall p | 0 <= p < |list| :: Comes(n, list, p)
  {
    hide Precedes, On;
    if OnGrid(n, list) && Increasing(list) {
      forall p | 0 <= p < |list| ensures Comes(n, list, p) {
        assert p > 0 ==> Precedes(list[p - 1], list[p - 1 + 1]);
      }
    }
    if forall p | 0 <= p < |list| :: Comes(n, list, p) {
      forall p | 0 <= p < |list| ensures On(n, list[p]) {
        assert Comes(n, list, p);
      }
      forall p | 0 <= p < |list| - 1 ensures Precedes(list[p], list[p + 1]) {
        assert Comes(n, list, p + 1);
      }
    }
  }

  /** A sweep that starts at poll index 0 meets every listed cell, exactly when the list lies on the grid, is strictly
      lexicographically increasing and has a value for each cell; then each phase is stored at the cell's own position
      and the index is back at 0. Otherwise it gets stuck at the first cell that breaks the order, and stores only
      those before; or it raises an exception, exactly when the list is empty or a cell comes that has no value. */
  lemma SweepPollsAll(n: nat, list: seq<Place>, phases: Grid, s: Scan)
    requires n > 0 && Fresh(s)
    ensures var r := ScanTo(n, list, phases, s, n * n * n);
      && r.hits <= |list| && |r.values| == |s.values|
      && (r.hits == |list| <==> OnGrid(n, list) && Increasing(list) && |list| <= |s.values|)
      && (r.raised <==> list == [] || (|s.values| < |list| && forall p | 0 <= p <= |s.values| :: Comes(n, list, p)))
      && (forall p | 0 <= p < r.hits :: Comes(n, list, p))
      && (r.hits < |list| && !r.raised ==> !Comes(n, list, r.hits))
      && r.index == (if r.hits == |list| then 0 else r.hits)
      && forall p | 0 <= p < |s.values| ::
           r.values[p] == if p < r.hits then phases(list[p].x, list[p].y, list[p].z) else s.values[p]
  {
    hide ScanTo, Number, Precedes, On, OnGrid, Increasing;
    var r := ScanTo(n, list, phases, s, n * n * n);
    ProgressOfSweep(n, list, phases, s, n * n * n);
    AllCome(n, list);
    CubeIsPositive(n);
    if r.hits < |list| && Comes(n, list, r.hits) {
      NumberBelow(n, list[r.hits]);
      assert r.raised;
    }
  }

  lemma CubeIsPositive(n: nat)
    requires n > 0
    ensures n * n * n > 0
  {
    MulMonotone(1, n * n, n);
    MulMonotone(1, n, n);
  }

  // A poll index that is not reset when a shorter list comes is outside the list at once.
  lemma StaleIndexRaises(n: nat, list: seq<Place>, phases: Grid, s: Scan, t: nat)
    requires 0 < t <= n * n * n && n > 0 && |list| <= s.index && !s.raised
    ensures ScanTo(n, list, phases, s, t) == s.(raised := true)
  {
    if t > 1 {
      StaleIndexRaises(n, list, phases, s, t - 1);
    }
  }

  lemma NumberBelow(n: nat, p: Place)
    requires On(n, p)
    ensures 0 <= Number(n, p) < n * n * n
  {
    OppositeRank(n, p.x, p.y, p.z);
    DigitsOfRank(n, n - 1 - p.x, n - 1 - p.y, n - 1 - p.z);
    DigitsOfRank(n, p.x, p.y, p.z);
  }

  // After an exception nothing changes.
  lemma {:induction false} RaisedStays(n: nat, list: seq<Place>, phases: Grid, s: Scan, t: nat, u: nat)
    requires n > 0 && t <= u && ScanTo(n, list, phases, s, t).raised
    ensures ScanTo(n, list, phases, s, u) == ScanTo(n, list, phases, s, t)
    decreases u
  {
    hide PlaceOfNumber;
    if t < u {
      RaisedStays(n, list, phases, s, t, u - 1);
    }
  }

  // The polling part of the triple loop of drawCells.
  method PollSweep(n: nat, list: seq<Place>, phases: Grid, start: Scan) returns (s: Scan)
    requires n > 0 && !start.raised
    ensures s == ScanTo(n, list, phases, start, n * n * n)
  {
    hide ScanTo, Rank, PlaceOfNumber;
    s := start;
    SweepStart(n, list, phases, start);
    for i := 0 to n
      invariant Rank(n, i, 0, 0) >= 0 && !s.raised && s == ScanTo(n, list, phases, start, Rank(n, i, 0, 0))
    {
      for j := 0 to n
        invariant Rank(n, i, j, 0) >= 0 && !s.raised && s == ScanTo(n, list, phases, start, Rank(n, i, j, 0))
      {
        for k := 0 to n
          invariant Rank(n, i, j, k) >= 0 && !s.raised && s == ScanTo(n, list, phases, start, Rank(n, i, j, k))
        {
          SweepRound(n, list, phases, start, i, j, k);
          if s.index >= |list| {
            s := s.(raised := true);
            return;
          }
          var poll := list[s.index];
          if i == poll.x && j == poll.y && k == poll.z {
            if s.index >= |s.values| {
              s := s.(raised := true);
              return;
            }
            s := s.(values := s.values[s.index := phases(i, j, k)], hits := s.hits + 1);
            if s.index == |list| - 1 {
              s := s.(index := 0);
            } else {
              s := s.(index := s.index + 1);
            }
          }
        }
        RankCarry(n, i, j);
      }
      RankCarryOut(n, i);
    }
    RankOfAll(n);
  }

  lemma SweepStart(n: nat, list: seq<Place>, phases: Grid, start: Scan)
    requires n > 0
    ensures Rank(n, 0, 0, 0) == 0 && ScanTo(n, list, phases, start, 0) == start
  {
  }

  lemma NumberOfRound(n: nat, i: nat, j: nat, k: nat)
    requires i < n && j < n && k < n
    ensures Rank(n, i, j, k) >= 0 && Rank(n, i, j, k + 1) == Rank(n, i, j, k) + 1 <= n * n * n
    ensures PlaceOfNumber(n, Rank(n, i, j, k)) == Place(i, j, k)
  {
    DigitsOfRank(n, i, j, k);
    NumberBelow(n, Place(i, j, k));
  }

  lemma SweepRound(n: nat, list: seq<Place>, phases: Grid, start: Scan, i: nat, j: nat, k: nat)
    requires n > 0 && i < n && j < n && k < n
    ensures Rank(n, i, j, k) >= 0 && Rank(n, i, j, k + 1) == Rank(n, i, j, k) + 1
    ensures var s := Visit(list, phases, ScanTo(n, list, phases, start, Rank(n, i, j, k)), Place(i, j, k));
      && ScanTo(n, list, phases, start, Rank(n, i, j, k + 1)) == s
      && (s.raised ==> ScanTo(n, list, phases, start, n * n * n) == s)
  {
    hide Rank, PlaceOfNumber, Visit;
    NumberOfRound(n, i, j, k);
    if ScanTo(n, list, phases, start, Rank(n, i, j, k + 1)).raised {
      RaisedStays(n, list, phases, start, Rank(n, i, j, k + 1), n * n * n);
    }
  }

  // ---- The default poll list ----

  predicate OnStep(step: nat, c: int)
    requires step > 0
  {
    (c - 2) % step == 0
  }

  // The coordinates of polled cells: from 2 on, in steps of a quarter of the size.
  predicate Polled(size: nat, c: int) {
    size >= 4 && 2 <= c < size && OnStep(size / 4, c)
  }

  predicate PolledCell(size: nat, p: Place) {
    Polled(size, p.x) && Polled(size, p.y) && Polled(size, p.z)
  }

  // A coordinate that a loop from 2 in steps of a quarter of the size comes to, below the size.
  ghost predicate Reached(size: nat, c: int) {
    c < size && exists m: nat :: c == 2 + m * (size / 4)
  }

  lemma PolledMeans(size: nat, c: int)
    requires size >= 4
    ensures Polled(size, c) <==> Reached(size, c)
  {
    var step := size / 4;
    if Polled(size, c) {
      var m := (c - 2) / step;
      assert c == 2 + m * step;
    }
    if Reached(size, c) {
      var m: nat :| c == 2 + m * step;
      WrapUnique(c - 2, step, m, 0);
      MulMonotone(0, m, step);
    }
  }

  // The list holds exactly the polled cells before (i, j, k), in order.
  ghost predicate ListedUpTo(size: nat, list: seq<Place>, i: int, j: int, k: int) {
    && Increasing(list) && (list != [] ==> Precedes(list[|list| - 1], Place(i, j, k)))
    && (forall p :: p in list <==> PolledCell(size, p) && Precedes(p, Place(i, j, k)))
  }

  // setPollIndices without a list. For size 3 the step is 0 and the loops never end; below that the list is empty.
  method DefaultPollIndices(size: nat) returns (list: seq<Place>)
    requires size != 3
    ensures Increasing(list) && OnGrid(size, list)
    ensures size >= 4 <==> list != []
    ensures forall p :: p in list <==> Reached(size, p.x) && Reached(size, p.y) && Reached(size, p.z)
  {
    hide OnStep, Increasing, OnGrid, ListedUpTo, Polled, NoneBetween, Reached;
    list := [];
    NothingPolled(size);
    if size < 4 {
      NothingReached(size);
      return;
    }
    var step := size / 4;
    FirstOnStep(step);
    var i := 2;
    while i < size
      invariant i >= 2 && OnStep(step, i) && ListedUpTo(size, list, i, 2, 2)
      decreases size - i
    {
      NextPolled(step, i);
      var j := 2;
      while j < size
        invariant j >= 2 && OnStep(step, j) && ListedUpTo(size, list, i, j, 2)
        decreases size - j
      {
        NextPolled(step, j);
        var k := 2;
        while k < size
          invariant k >= 2 && OnStep(step, k) && ListedUpTo(size, list, i, j, k)
          decreases size - k
        {
          NextPolled(step, k);
          ListOne(size, list, i, j, k);
          list := list + [Place(i, j, k)];
          k := k + step;
        }
        ListedRow(size, list, i, j, k);
        j := j + step;
      }
      ListedPlane(size, list, i, j);
      i := i + step;
    }
    AllListed(size, list, i);
  }

  lemma ListOne(size: nat, list: seq<Place>, i: int, j: int, k: int)
    requires size >= 4 && ListedUpTo(size, list, i, j, k)
    requires 2 <= i < size && 2 <= j < size && 2 <= k < size
    requires OnStep(size / 4, i) && OnStep(size / 4, j) && OnStep(size / 4, k)
    requires NoneBetween(size / 4, k)
    ensures ListedUpTo(size, list + [Place(i, j, k)], i, j, k + size / 4)
  {
    hide OnStep, Increasing;
    IncreasingSnoc(list, Place(i, j, k));
  }

  lemma ListedRow(size: nat, list: seq<Place>, i: int, j: int, k: int)
    requires size >= 4 && ListedUpTo(size, list, i, j, k) && k >= size
    requires NoneBetween(size / 4, j)
    ensures ListedUpTo(size, list, i, j + size / 4, 2)
  {
    hide OnStep, Increasing;
    assert list != [] ==> list[|list| - 1] in list;
  }

  lemma ListedPlane(size: nat, list: seq<Place>, i: int, j: int)
    requires size >= 4 && ListedUpTo(size, list, i, j, 2) && j >= size
    requires NoneBetween(size / 4, i)
    ensures ListedUpTo(size, list, i + size / 4, 2, 2)
  {
    hide OnStep, Increasing;
    assert list != [] ==> list[|list| - 1] in list;
  }

  lemma AllListed(size: nat, list: seq<Place>, i: int)
    requires size >= 4 && ListedUpTo(size, list, i, 2, 2) && i >= size && OnStep(size / 4, 2)
    ensures Increasing(list) && OnGrid(size, list) && list != []
    ensures forall p :: p in list <==> Reached(size, p.x) && Reached(size, p.y) && Reached(size, p.z)
  {
    hide OnStep, Increasing, Reached;
    forall c ensures Polled(size, c) <==> Reached(size, c) {
      PolledMeans(size, c);
    }
    assert PolledCell(size, Place(2, 2, 2));
    assert forall p :: p in list <==> PolledCell(size, p);
    PolledOnGrid(size, list);
  }

  /** The loops of the default list come to an end exactly when the size is not 3. */
  lemma LoopsEnd(size: nat)
    ensures (exists rounds: nat :: 2 + rounds * (size / 4) >= size) <==> size != 3
  {
    if size != 3 {
      var step := size / 4;
      if step > 0 {
        MulMonotone(1, step, size);
      }
      assert 2 + size * step >= size;
    }
  }

  lemma NothingReached(size: nat)
    requires size < 3
    ensures forall c :: !Reached(size, c)
  {
  }

  lemma NothingPolled(size: nat)
    ensures Increasing([]) && OnGrid(size, []) && ListedUpTo(size, [], 2, 2, 2)
    ensures size < 4 ==> forall c :: !Polled(size, c)
  {
  }

  lemma IncreasingSnoc(list: seq<Place>, p: Place)
    requires Increasing(list) && (list != [] ==> Precedes(list[|list| - 1], p))
    ensures Increasing(list + [p])
  {
  }

  lemma PolledOnGrid(size: nat, list: seq<Place>)
    requires forall p | p in list :: Polled(size, p.x) && Polled(size, p.y) && Polled(size, p.z)
    ensures OnGrid(size, list)
  {
    forall q | 0 <= q < |list| ensures On(size, list[q]) {
      assert list[q] in list;
    }
  }

  lemma FirstOnStep(step: nat)
    requires step > 0
    ensures OnStep(step, 2)
  {
  }

  // Between two polled coordinates there is none.
  ghost predicate NoneBetween(step: nat, c: int)
    requires step > 0
  {
    forall d | c < d < c + step :: !OnStep(step, d)
  }

  lemma NextPolled(step: nat, c: int)
    requires step > 0 && c >= 2 && OnStep(step, c)
    ensures OnStep(step, c + step)
    ensures NoneBetween(step, c)
  {
    var q := (c - 2) / step;
    WrapUnique(c + step - 2, step, q + 1, 0);
    forall d | c < d < c + step ensures !OnStep(step, d) {
      WrapUnique(d - 2, step, q, d - c);
    }
  }
}
