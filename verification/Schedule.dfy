/** Whole runs of the server: packets arrive, the clock moves, lo_server_recv is called again and again.
    Messages are numbered as they are accepted, and the queue holds their numbers. */
module Schedule {
  import opened Bytes
  import opened Timetags
  import opened EventQueue
  import opened Receiving

  // A message that was handed to the methods, and the clock reading that let it go.
  datatype Run = Run(id: nat, ts: Timetag, now: Timetag)

  datatype State = State(queue: seq<Entry<nat>>, accepted: nat, ran: seq<Run>, fault: bool)

  const INITIAL := State([], 0, [], false)

  function Enqueue(s: State, ts: Timetag, path: seq<byte>): State {
    s.(queue := Insert(s.queue, Entry(ts, path, s.accepted)), accepted := s.accepted + 1)
  }

  function RunNow(s: State, ts: Timetag, now: Timetag): State {
    s.(ran := s.ran + [Run(s.accepted, ts, now)], accepted := s.accepted + 1)
  }

  function Runs(batch: seq<Entry<nat>>, now: Timetag): (r: seq<Run>)
    ensures |r| == |batch|
    ensures forall i | 0 <= i < |r| :: r[i] == Run(batch[i].msg, batch[i].ts, now)
  {
    seq(|batch|, i requires 0 <= i < |batch| => Run(batch[i].msg, batch[i].ts, now))
  }

  // dispatch_queued, which complains about an empty queue.
  function Fire(s: State, now: Timetag): State {
    if s.queue == [] then s.(fault := true)
    else
      var n := Batch(s.queue);
      s.(queue := s.queue[n..], ran := s.ran + Runs(s.queue[..n], now))
  }

  // A packet of well-formed messages under one timetag, message by message.
  function Arrive(s: State, ts: Timetag, paths: seq<seq<byte>>, now: Timetag): State
    decreases |paths|
  {
    if paths == [] then s
    else
      var next := if Immediate(ts, now) then RunNow(s, ts, now) else Enqueue(s, ts, paths[0]);
      Arrive(next, ts, paths[1..], now)
  }

  datatype Packet = Packet(ts: Timetag, paths: seq<seq<byte>>)

  // lo_server_recv
  function Recv(s: State, rounds: seq<Round<Packet>>): State {
    match Decide(s.queue, rounds)
    case Waiting => s
    case Failed => s
    case Received(b, at) => Arrive(s, b.ts, b.paths, at)
    case Due(now) => Fire(s, now)
  }

  function Execute(s: State, calls: seq<seq<Round<Packet>>>): State
    decreases |calls|
  {
    if calls == [] then s else Execute(Recv(s, calls[0]), calls[1..])
  }

  // All accepted messages: those that ran, in order, and then those that wait, in order.
  function Line(s: State): (line: seq<nat>)
    ensures |line| == |s.ran| + |s.queue|
    ensures forall i | 0 <= i < |s.ran| :: line[i] == s.ran[i].id
    ensures forall i | 0 <= i < |s.queue| :: line[|s.ran| + i] == s.queue[i].msg
  {
    seq(|s.ran| + |s.queue|, i requires 0 <= i < |s.ran| + |s.queue| => NumberAt(s, i))
  }

  function NumberAt(s: State, i: nat): nat
    requires i < |s.ran| + |s.queue|
  {
    if i < |s.ran| then s.ran[i].id else s.queue[i - |s.ran|].msg
  }

  function Numbers(first: nat, n: nat): (s: seq<nat>)
    ensures |s| == n && forall i | 0 <= i < n :: s[i] == first + i
  {
    seq(n, i requires 0 <= i => first + i)
  }

  // Every number up to n exactly once.
  ghost predicate Exactly(line: seq<nat>, n: nat) {
    && (forall i, j | 0 <= i < j < |line| :: line[i] != line[j])
    && (forall x | x in line :: x < n)
    && (forall x: nat | x < n :: x in line)
  }

  // The waiting order: earlier tags first, and of equal tags the earlier arrival.
  ghost predicate InOrder(q: seq<Entry<nat>>) {
    forall i, j | 0 <= i < j < |q| ::
      Key(q[i].ts) < Key(q[j].ts) || (Key(q[i].ts) == Key(q[j].ts) && q[i].msg < q[j].msg)
  }

  // By the measure of lo_timetag_diff; what that means for instants is the matter of Timetags.EarlyByInstants.
  predicate OnTime(r: Run) {
    Key(r.ts) - Key(r.now) < 0.01 + FLT_EPSILON
  }

  ghost predicate Invariant(s: State) {
    && Exactly(Line(s), s.accepted)
    && InOrder(s.queue)
    && (forall r | r in s.ran :: OnTime(r))
    && !s.fault
  }

  ghost predicate Before(line: seq<nat>, a: nat, b: nat) {
    exists i, j :: 0 <= i < j < |line| && line[i] == a && line[j] == b
  }

  // The messages at places p to p + n of the line have all run, or all wait under one timetag.
  ghost predicate Block(s: State, p: nat, n: nat, ts: Timetag) {
    && p + n <= |Line(s)|
    && (p + n <= |s.ran| ||
        (p >= |s.ran| && forall i | p - |s.ran| <= i < p - |s.ran| + n :: s.queue[i].ts == ts))
  }

  ghost predicate SameBlock(s: State, p: nat, t: State, r: nat, n: nat, ts: Timetag) {
    Block(t, r, n, ts) && p + n <= |Line(s)| && Line(t)[r..r + n] == Line(s)[p..p + n]
  }

  /** What one state owes to an earlier one: the invariant, the order of the line, and whole blocks. */
  ghost predicate Evolves(s: State, t: State) {
    && (Invariant(s) ==> Invariant(t))
    && s.ran <= t.ran
    && (forall a, b :: Before(Line(s), a, b) ==> Before(Line(t), a, b))
    && (Invariant(s) ==>
        forall p, n, ts :: Block(s, p, n, ts) ==> exists r :: SameBlock(s, p, t, r, n, ts))
  }

  lemma EvolvesReflexive(s: State)
    ensures Evolves(s, s)
  {
    forall p, n, ts | Block(s, p, n, ts) ensures exists r :: SameBlock(s, p, s, r, n, ts) {
      assert SameBlock(s, p, s, p, n, ts);
    }
  }

  lemma EvolvesTransitive(s: State, t: State, u: State)
    requires Evolves(s, t) && Evolves(t, u)
    ensures Evolves(s, u)
  {
    if Invariant(s) {
      forall p, n, ts | Block(s, p, n, ts) ensures exists r :: SameBlock(s, p, u, r, n, ts) {
        var q :| SameBlock(s, p, t, q, n, ts);
        var r :| SameBlock(t, q, u, r, n, ts);
        assert SameBlock(s, p, u, r, n, ts);
      }
    }
  }

  // A line with one new number put in.
  lemma NumberAdded(line: seq<nat>, more: seq<nat>, p: nat, x: nat)
    requires p <= |line| && more == line[..p] + [x] + line[p..]
    ensures Exactly(line, x) ==> Exactly(more, x + 1)
    ensures forall a, b :: Before(line, a, b) ==> Before(more, a, b)
  {
    Spliced(line, x, p);
    forall a, b | Before(line, a, b) ensures Before(more, a, b) {
      var i, j :| 0 <= i < j < |line| && line[i] == a && line[j] == b;
      assert more[if i < p then i else i + 1] == a && more[if j < p then j else j + 1] == b;
    }
    if Exactly(line, x) {
      forall i, j | 0 <= i < j < |more| ensures more[i] != more[j] {
        assert i != p ==> more[i] in line;
        assert j != p ==> more[j] in line;
      }
      forall y: nat | y < x + 1 ensures y in more {
        if y == x {
          assert more[p] == y;
        } else {
          assert y in line;
          var i :| 0 <= i < |line| && line[i] == y;
          assert more[if i < p then i else i + 1] == y;
        }
      }
      forall y | y in more ensures y < x + 1 {
        var i :| 0 <= i < |more| && more[i] == y;
        assert i != p ==> more[i] in line;
      }
    }
  }

  lemma LineOfEnqueue(s: State, ts: Timetag, path: seq<byte>)
    ensures var k := |s.ran| + Place(s.queue, ts);
      Line(Enqueue(s, ts, path)) == Line(s)[..k] + [s.accepted] + Line(s)[k..]
  {
    hide Key, Place, Insert, Line;
    var p, t := Place(s.queue, ts), Enqueue(s, ts, path);
    var k := |s.ran| + p;
    var line := Line(s)[..k] + [s.accepted] + Line(s)[k..];
    Spliced(s.queue, Entry(ts, path, s.accepted), p);
    InsertSplices(s.queue, Entry(ts, path, s.accepted));
    Spliced(Line(s), s.accepted, k);
    forall i | 0 <= i < |line| ensures Line(t)[i] == line[i] {
      if i >= |s.ran| {
        var j := i - |s.ran|;
        assert Line(t)[i] == t.queue[j].msg;
        assert j < p ==> Line(s)[i] == s.queue[j].msg;
        assert j > p ==> Line(s)[i - 1] == s.queue[j - 1].msg;
      }
    }
  }

  lemma InOrderAt(q: seq<Entry<nat>>, i: nat, j: nat)
    requires InOrder(q) && i < j < |q|
    ensures Key(q[i].ts) < Key(q[j].ts) || (Key(q[i].ts) == Key(q[j].ts) && q[i].msg < q[j].msg)
  {
    hide Key;
  }

  lemma NumbersBelow(s: State, i: nat)
    requires Exactly(Line(s), s.accepted) && i < |s.queue|
    ensures s.queue[i].msg < s.accepted
  {
    hide Line;
    assert Line(s)[|s.ran| + i] in Line(s);
  }

  lemma EnqueueKeepsInvariant(s: State, ts: Timetag, path: seq<byte>)
    requires Invariant(s)
    ensures InOrder(Enqueue(s, ts, path).queue)
  {
    hide Key, Place, Insert, Line, Exactly, OnTime;
    var q, e := s.queue, Entry(ts, path, s.accepted);
    var k, r := Place(q, ts), Insert(q, e);
    InsertSplices(q, e);
    forall i | 0 <= i < |q| ensures q[i].msg < e.msg {
      NumbersBelow(s, i);
    }
    forall i, j | 0 <= i < j < |r|
      ensures Key(r[i].ts) < Key(r[j].ts) || (Key(r[i].ts) == Key(r[j].ts) && r[i].msg < r[j].msg)
    {
      NewOneInOrder(q, e, k, i, j);
    }
  }

  lemma NewOneInOrder(q: seq<Entry<nat>>, e: Entry<nat>, k: nat, i: nat, j: nat)
    requires InOrder(q) && k <= |q| && i < j <= |q|
    requires forall x | 0 <= x < k :: Key(q[x].ts) <= Key(e.ts)
    requires k < |q| ==> Key(q[k].ts) > Key(e.ts)
    requires forall x | 0 <= x < |q| :: q[x].msg < e.msg
    ensures var r := q[..k] + [e] + q[k..];
      Key(r[i].ts) < Key(r[j].ts) || (Key(r[i].ts) == Key(r[j].ts) && r[i].msg < r[j].msg)
  {
    hide Key;
    Spliced(q, e, k);
  }

  // Inside a waiting block, neighbours share the timetag.
  lemma InsideBlock(s: State, p: nat, n: nat, tag: Timetag, at: nat)
    requires Block(s, p, n, tag)
    ensures p < at < p + n && at > |s.ran| ==>
      s.queue[at - |s.ran| - 1].ts == tag && s.queue[at - |s.ran|].ts == tag
    ensures p < at < p + n ==> at != |s.ran|
  {
  }

  // The place of a new message is not inside a block, for it is behind the last tag that is not later.
  lemma PlaceNotInside(s: State, ts: Timetag, p: nat, n: nat, tag: Timetag)
    requires Block(s, p, n, tag)
    ensures !(p < |s.ran| + Place(s.queue, ts) < p + n)
  {
    hide Key, Place, Line;
    InsideBlock(s, p, n, tag, |s.ran| + Place(s.queue, ts));
  }

  // A block is never split by a new message.
  lemma EnqueueKeepsBlocks(s: State, ts: Timetag, path: seq<byte>, p: nat, n: nat, tag: Timetag) returns (r: nat)
    requires Block(s, p, n, tag)
    ensures SameBlock(s, p, Enqueue(s, ts, path), r, n, tag)
  {
    hide Enqueue, Place, Line, Block;
    var at, t := |s.ran| + Place(s.queue, ts), Enqueue(s, ts, path);
    PlaceNotInside(s, ts, p, n, tag);
    r := if p + n <= at then p else p + 1;
    BlockMoved(s, ts, path, p, n, tag);
    BlockInLine(s, p, n, tag);
    LineOfEnqueue(s, ts, path);
    SliceKept(Line(s), s.accepted, at, p, n);
  }

  lemma BlockInLine(s: State, p: nat, n: nat, tag: Timetag)
    requires Block(s, p, n, tag)
    ensures p + n <= |Line(s)|
  {
  }

  lemma BlockMoved(s: State, ts: Timetag, path: seq<byte>, p: nat, n: nat, tag: Timetag)
    requires Block(s, p, n, tag)
    requires !(p < |s.ran| + Place(s.queue, ts) < p + n)
    ensures Block(Enqueue(s, ts, path), if p + n <= |s.ran| + Place(s.queue, ts) then p else p + 1, n, tag)
  {
    hide Place, Insert, Line;
    InsertSplices(s.queue, Entry(ts, path, s.accepted));
    if p >= |s.ran| {
      TagsKept(s.queue, Entry(ts, path, s.accepted), Place(s.queue, ts), p - |s.ran|, n, tag);
    }
  }

  lemma TagsKept(q: seq<Entry<nat>>, e: Entry<nat>, k: nat, o: nat, n: nat, tag: Timetag)
    requires o + n <= |q| && k <= |q| && !(o < k < o + n) && forall i | o <= i < o + n :: q[i].ts == tag
    ensures var r := q[..k] + [e] + q[k..]; var u := if o + n <= k then o else o + 1;
      forall i | u <= i < u + n :: r[i].ts == tag
  {
    Spliced(q, e, k);
  }

  lemma SliceKept<T>(line: seq<T>, x: T, at: nat, p: nat, n: nat)
    requires at <= |line| && p + n <= |line| && !(p < at < p + n)
    ensures var r := if p + n <= at then p else p + 1;
      (line[..at] + [x] + line[at..])[r..r + n] == line[p..p + n]
  {
  }

  lemma EnqueueEvolves(s: State, ts: Timetag, path: seq<byte>)
    ensures Evolves(s, Enqueue(s, ts, path))
  {
    hide Line, Place, Insert, InOrder, Exactly, Block, Key;
    var t := Enqueue(s, ts, path);
    LineOfEnqueue(s, ts, path);
    NumberAdded(Line(s), Line(t), |s.ran| + Place(s.queue, ts), s.accepted);
    if Invariant(s) {
      EnqueueKeepsInvariant(s, ts, path);
    }
    forall p, n, tag | Block(s, p, n, tag) ensures exists r :: SameBlock(s, p, t, r, n, tag) {
      var r := EnqueueKeepsBlocks(s, ts, path, p, n, tag);
    }
  }

  lemma LineOfRunNow(s: State, ts: Timetag, now: Timetag)
    ensures Line(RunNow(s, ts, now)) == Line(s)[..|s.ran|] + [s.accepted] + Line(s)[|s.ran|..]
  {
    hide Line;
    var t, k := RunNow(s, ts, now), |s.ran|;
    var line := Line(s)[..k] + [s.accepted] + Line(s)[k..];
    Spliced(Line(s), s.accepted, k);
    forall i | 0 <= i < |line| ensures Line(t)[i] == line[i] {
      if i > k {
        assert Line(t)[|t.ran| + (i - k - 1)] == s.queue[i - k - 1].msg == Line(s)[k + (i - k - 1)];
      }
    }
  }

  lemma RunNowKeepsBlocks(s: State, ts: Timetag, now: Timetag, p: nat, n: nat, tag: Timetag) returns (r: nat)
    requires Block(s, p, n, tag)
    ensures SameBlock(s, p, RunNow(s, ts, now), r, n, tag)
  {
    hide Line;
    var t, at := RunNow(s, ts, now), |s.ran|;
    LineOfRunNow(s, ts, now);
    Spliced(Line(s), s.accepted, at);
    r := if p + n <= at then p else p + 1;
    assert Line(t)[r..r + n] == Line(s)[p..p + n];
  }

  lemma RunNowEvolves(s: State, ts: Timetag, now: Timetag)
    requires Immediate(ts, now)
    ensures Evolves(s, RunNow(s, ts, now))
  {
    var t, at := RunNow(s, ts, now), |s.ran|;
    LineOfRunNow(s, ts, now);
    NumberAdded(Line(s), Line(t), at, s.accepted);
    forall p, n, tag | Block(s, p, n, tag) ensures exists r :: SameBlock(s, p, t, r, n, tag) {
      var r := RunNowKeepsBlocks(s, ts, now, p, n, tag);
    }
  }

  lemma LineOfFire(s: State, now: Timetag)
    ensures Line(Fire(s, now)) == Line(s)
  {
    hide Batch, Line;
    if s.queue != [] {
      var n, t := Batch(s.queue), Fire(s, now);
      forall i | 0 <= i < |Line(s)| ensures Line(t)[i] == Line(s)[i] {
        var j := i - |s.ran|;
        if j >= n {
          assert Line(t)[|t.ran| + (j - n)] == t.queue[j - n].msg;
        }
        assert j >= 0 ==> Line(s)[|s.ran| + j] == s.queue[j].msg;
      }
    }
  }

  lemma OrderIsSorted(q: seq<Entry<nat>>)
    requires InOrder(q)
    ensures Sorted(q)
  {
    forall i, j | 0 <= i <= j < |q| ensures Key(q[i].ts) <= Key(q[j].ts) {
    }
  }

  // Everything in the batch of dispatch_queued is due within 0.01 s plus FLT_EPSILON, by lo_timetag_diff.
  lemma FiredOnTime(s: State, now: Timetag, i: nat)
    requires InOrder(s.queue) && NextEventDelay(s.queue, now) <= 0.01 && i < Batch(s.queue)
    ensures OnTime(Run(s.queue[i].msg, s.queue[i].ts, now))
  {
    OrderIsSorted(s.queue);
    BatchIsMaximal(s.queue);
    DiffsAreKeyDifferences();
  }

  // The batch takes a block whole or leaves it whole.
  lemma FireKeepsBlocks(s: State, now: Timetag, p: nat, n: nat, tag: Timetag)
    requires Invariant(s) && Block(s, p, n, tag)
    ensures Block(Fire(s, now), p, n, tag) && p + n <= |Line(s)|
  {
    hide Key, Batch;
    LineOfFire(s, now);
    if s.queue != [] {
      OrderIsSorted(s.queue);
      BatchIsMaximal(s.queue);
      var b := Batch(s.queue);
      var at := |s.ran| + b;
      InsideBlock(s, p, n, tag, at);
      assert !(p < at < p + n);
    }
  }

  lemma FireKeepsInvariant(s: State, now: Timetag)
    requires NextEventDelay(s.queue, now) <= 0.01 && Invariant(s)
    ensures Invariant(Fire(s, now))
  {
    hide Batch, Line, Exactly, OnTime;
    LineOfFire(s, now);
    var b := Batch(s.queue);
    forall i | 0 <= i < b ensures OnTime(Run(s.queue[i].msg, s.queue[i].ts, now)) {
      FiredOnTime(s, now, i);
    }
  }

  lemma FireEvolves(s: State, now: Timetag)
    requires NextEventDelay(s.queue, now) <= 0.01
    ensures Evolves(s, Fire(s, now))
  {
    hide Invariant, Block, Line, NextEventDelay;
    var t := Fire(s, now);
    LineOfFire(s, now);
    if Invariant(s) {
      FireKeepsInvariant(s, now);
      forall p, n, tag | Block(s, p, n, tag) ensures exists r :: SameBlock(s, p, t, r, n, tag) {
        FireKeepsBlocks(s, now, p, n, tag);
        assert SameBlock(s, p, t, p, n, tag);
      }
    }
  }

  lemma {:induction false} ArriveEvolves(s: State, ts: Timetag, paths: seq<seq<byte>>, now: Timetag)
    ensures Evolves(s, Arrive(s, ts, paths, now))
    decreases |paths|
  {
    if paths == [] {
      EvolvesReflexive(s);
    } else {
      var next := if Immediate(ts, now) then RunNow(s, ts, now) else Enqueue(s, ts, paths[0]);
      if Immediate(ts, now) {
        RunNowEvolves(s, ts, now);
      } else {
        EnqueueEvolves(s, ts, paths[0]);
      }
      ArriveEvolves(next, ts, paths[1..], now);
      EvolvesTransitive(s, next, Arrive(next, ts, paths[1..], now));
    }
  }

  lemma RecvEvolves(s: State, rounds: seq<Round<Packet>>)
    ensures Evolves(s, Recv(s, rounds))
  {
    match Decide(s.queue, rounds)
    case Waiting => EvolvesReflexive(s);
    case Failed => EvolvesReflexive(s);
    case Received(b, at) => ArriveEvolves(s, b.ts, b.paths, at);
    case Due(now) =>
      DueMeansDue(s.queue, rounds);
      FireEvolves(s, now);
  }

  lemma {:induction false} ExecuteEvolves(s: State, calls: seq<seq<Round<Packet>>>)
    ensures Evolves(s, Execute(s, calls))
    decreases |calls|
  {
    if calls == [] {
      EvolvesReflexive(s);
    } else {
      var next := Recv(s, calls[0]);
      RecvEvolves(s, calls[0]);
      ExecuteEvolves(next, calls[1..]);
      EvolvesTransitive(s, next, Execute(next, calls[1..]));
    }
  }

  lemma KeptInvariant(s: State, t: State)
    requires Evolves(s, t) && Invariant(s)
    ensures Invariant(t)
  {
  }

  lemma KeptOrder(s: State, t: State, a: nat, b: nat)
    requires Evolves(s, t) && Invariant(s) && Before(Line(s), a, b)
    ensures Before(Line(t), a, b) && Exactly(Line(t), t.accepted)
  {
  }

  /** Over every run: each accepted message is once in the line of run and waiting messages, the queue is in order
      of keys, nothing ran too early by the code's measure, and dispatch_queued never met an empty queue. */
  lemma EveryRunIsSafe(calls: seq<seq<Round<Packet>>>)
    ensures Invariant(Execute(INITIAL, calls))
  {
    assert Line(INITIAL) == [];
    ExecuteEvolves(INITIAL, calls);
  }

  /** Of two messages that wait together, the one with the earlier tag, or with the same time and the
      earlier arrival, runs first however the run goes on. */
  lemma EarlierRunsFirst(s: State, calls: seq<seq<Round<Packet>>>, i: nat, j: nat, b: nat)
    requires Invariant(s) && i < |s.queue| && j < |s.queue|
    requires Key(s.queue[i].ts) < Key(s.queue[j].ts) ||
             (Key(s.queue[i].ts) == Key(s.queue[j].ts) && s.queue[i].msg < s.queue[j].msg)
    requires var t := Execute(s, calls); b < |t.ran| && t.ran[b].id == s.queue[j].msg
    ensures var t := Execute(s, calls); exists a :: 0 <= a < b && t.ran[a].id == s.queue[i].msg
  {
    hide Execute, Evolves, Line, Key;
    var t := Execute(s, calls);
    ExecuteEvolves(s, calls);
    var x, y := s.queue[i].msg, s.queue[j].msg;
    assert i < j;
    assert Line(s)[|s.ran| + i] == x && Line(s)[|s.ran| + j] == y;
    KeptOrder(s, t, x, y);
    var a, c :| 0 <= a < c < |Line(t)| && Line(t)[a] == x && Line(t)[c] == y;
    assert Line(t)[b] == y;
    assert c == b;
    assert t.ran[a].id == x;
  }

  // ---- Progress ----

  /** What a call does to the state is settled by its first round that is not quiet. */
  lemma FirstEventActs(s: State, rounds: seq<Round<Packet>>, k: nat)
    requires k <= |rounds| && Quiet(s.queue, rounds, k)
    ensures k == |rounds| ==> Recv(s, rounds) == s
    ensures k < |rounds| && s.queue != [] && Diff(s.queue[0].ts, rounds[k].now) <= 0.01 ==>
      Recv(s, rounds) == Fire(s, rounds[k].now)
    ensures k < |rounds| && (s.queue == [] || Diff(s.queue[0].ts, rounds[k].now) > 0.01) && rounds[k].poll != Idle ==>
      var poll := rounds[k].poll;
      Recv(s, rounds) == if poll.Error? then s else Arrive(s, poll.packet.ts, poll.packet.paths, poll.at)
  {
    hide Diff, Fire, Arrive, Decide;
    FirstEventDecides(s.queue, rounds, k);
  }

  // Some reading of the clock in a call finds a tag due, and nothing has come from the polls before it.
  ghost predicate FindsDue(rounds: seq<Round<Packet>>, ts: Timetag) {
    exists j :: 0 <= j < |rounds| && Diff(ts, rounds[j].now) <= 0.01 && forall i | 0 <= i < j :: rounds[i].poll == Idle
  }

  // A call that finds any waiting message due dispatches the queue, whatever its polls would bring after that.
  lemma DueCallFires(s: State, rounds: seq<Round<Packet>>, k: nat) returns (j: nat)
    requires InOrder(s.queue) && k < |s.queue| && FindsDue(rounds, s.queue[k].ts)
    ensures j < |rounds| && Recv(s, rounds) == Fire(s, rounds[j].now)
  {
    hide Key, Diff, Fire, Recv;
    DiffsAreKeyDifferences();
    OrderIsSorted(s.queue);
    assert Key(s.queue[0].ts) <= Key(s.queue[k].ts);
    var due :| 0 <= due < |rounds| && Diff(s.queue[k].ts, rounds[due].now) <= 0.01 &&
               forall i | 0 <= i < due :: rounds[i].poll == Idle;
    j := FirstEvent(s.queue, rounds);
    assert j <= due;
    FirstEventActs(s, rounds, j);
  }

  // A message is in the batch, and has run, or is that much nearer to the head.
  lemma FireTakesOrAdvances(s: State, now: Timetag, k: nat)
    requires k < |s.queue|
    ensures var n, t, e := Batch(s.queue), Fire(s, now), s.queue[k];
      && n > 0
      && if k < n then Run(e.msg, e.ts, now) in t.ran else k - n < |t.queue| && t.queue[k - n] == e
  {
    hide Batch;
    var n, t, e := Batch(s.queue), Fire(s, now), s.queue[k];
    if k < n {
      assert t.ran[|s.ran| + k] == Run(e.msg, e.ts, now);
    }
  }

  // The message ran in one of the first n calls, at one of its readings of the clock.
  ghost predicate RanIn(ran: seq<Run>, e: Entry<nat>, calls: seq<seq<Round<Packet>>>, n: nat)
    requires n <= |calls|
  {
    exists i, j :: 0 <= i < n && 0 <= j < |calls[i]| && Run(e.msg, e.ts, calls[i][j].now) in ran
  }

  /** Progress: the message at place k of the queue runs when each of the next k + 1 calls finds it due at some reading
      of the clock before a poll brings anything. */
  lemma {:induction false} DueMessageRuns(s: State, calls: seq<seq<Round<Packet>>>, k: nat)
    requires Invariant(s) && k < |s.queue| && k < |calls|
    requires forall i | 0 <= i <= k :: FindsDue(calls[i], s.queue[k].ts)
    ensures RanIn(Execute(s, calls).ran, s.queue[k], calls, k + 1)
    decreases k
  {
    hide Invariant, Fire, Batch, Diff, Recv, Evolves, FindsDue;
    var e, n := s.queue[k], Batch(s.queue);
    QueueInOrder(s);
    var j := DueCallFires(s, calls[0], k);
    var now := calls[0][j].now;
    var t := Fire(s, now);
    FireTakesOrAdvances(s, now, k);
    RecvEvolves(s, calls[0]);
    KeptInvariant(s, t);
    if k < n {
      ExecuteEvolves(t, calls[1..]);
      KeptRuns(t, Execute(t, calls[1..]), Run(e.msg, e.ts, now));
    } else {
      var rest := calls[1..];
      assert forall i | 0 <= i <= k - n :: rest[i] == calls[i + 1];
      DueMessageRuns(t, rest, k - n);
      var i, l :| 0 <= i < k - n + 1 && 0 <= l < |rest[i]| && Run(e.msg, e.ts, rest[i][l].now) in Execute(t, rest).ran;
      assert Run(e.msg, e.ts, calls[i + 1][l].now) in Execute(s, calls).ran;
    }
  }

  lemma QueueInOrder(s: State)
    requires Invariant(s)
    ensures InOrder(s.queue)
  {
  }

  lemma KeptRuns(s: State, t: State, r: Run)
    requires Evolves(s, t) && r in s.ran
    ensures r in t.ran
  {
  }

  // ---- The same in instants ----

  /** Over every run no message runs more than EARLIEST before its instant, and none more than 0.01 s and FLT_EPSILON
      unless the seconds of its tag were one to four ahead of the clock's. */
  lemma EarlyInstants(calls: seq<seq<Round<Packet>>>)
    ensures forall r | r in Execute(INITIAL, calls).ran :: Instant(r.ts) - Instant(r.now) < EARLIEST
    ensures forall r | r in Execute(INITIAL, calls).ran && !(1 <= r.ts.sec - r.now.sec <= 4) ::
      Instant(r.ts) - Instant(r.now) < 0.01 + FLT_EPSILON
  {
    hide Execute, Line, Exactly, InOrder, Key, Instant;
    var t := Execute(INITIAL, calls);
    EveryRunIsSafe(calls);
    forall r | r in t.ran
      ensures Instant(r.ts) - Instant(r.now) < EARLIEST
      ensures !(1 <= r.ts.sec - r.now.sec <= 4) ==> Instant(r.ts) - Instant(r.now) < 0.01 + FLT_EPSILON
    {
      assert OnTime(r);
      EarlyByInstants(r.ts, r.now);
    }
  }

  /** Of two messages that wait together and whose seconds are equal or at least four apart, the one with the earlier
      instant runs first, and of equal tags the earlier arrival. */
  lemma EarlierInstantRunsFirst(s: State, calls: seq<seq<Round<Packet>>>, i: nat, j: nat, b: nat)
    requires Invariant(s) && i < |s.queue| && j < |s.queue| && FarEnough(s.queue[i].ts, s.queue[j].ts)
    requires Instant(s.queue[i].ts) < Instant(s.queue[j].ts) ||
             (s.queue[i].ts == s.queue[j].ts && s.queue[i].msg < s.queue[j].msg)
    requires var t := Execute(s, calls); b < |t.ran| && t.ran[b].id == s.queue[j].msg
    ensures var t := Execute(s, calls); exists a :: 0 <= a < b && t.ran[a].id == s.queue[i].msg
  {
    hide Execute, Invariant, Instant, Key;
    FarApart(s.queue[j].ts, s.queue[i].ts);
    EarlierRunsFirst(s, calls, i, j, b);
  }

  // A call that finds a packet at once, and one that finds the clock at a time.
  function Arrival(ts: Timetag): seq<Round<Packet>> {
    [Round(Timetag(0, 0), Poll.Data(Packet(ts, [[]]), Timetag(0, 0)))]
  }

  function ClockAt(now: Timetag): seq<Round<Packet>> {
    [Round(now, Poll.Idle)]
  }

  lemma OneArrives(s: State, ts: Timetag)
    requires NextEventDelay(s.queue, Timetag(0, 0)) > 0.01 && !Immediate(ts, Timetag(0, 0))
    ensures Recv(s, Arrival(ts)) == Enqueue(s, ts, [])
  {
    hide NextEventDelay, Insert, Immediate;
    assert Arrive(Enqueue(s, ts, []), ts, [[]][1..], Timetag(0, 0)) == Enqueue(s, ts, []);
  }

  lemma OneQueued(ts: Timetag, calls: seq<seq<Round<Packet>>>)
    requires ts.sec > 0 || ts.frac == 4294967295
    ensures var e: Entry<nat> := Entry(ts, [], 0);
      Execute(INITIAL, [Arrival(ts)] + calls) == Execute(State([e], 1, [], false), calls)
  {
    hide Execute;
    OneArrives(INITIAL, ts);
    ExecuteStep(INITIAL, Arrival(ts), calls);
    assert Insert([], Entry(ts, [], 0)) == [Entry(ts, [], 0)];
  }

  // A message for second 4 that runs when the clock shows just under one second.
  lemma ThreeSecondsEarly()
    ensures var ts, now := Timetag(4, 0), Timetag(0, 4294967295);
      Execute(INITIAL, [Arrival(ts), ClockAt(now)]).ran == [Run(0, ts, now)] && Instant(ts) - Instant(now) > 3.0
  {
    var ts, now := Timetag(4, 0), Timetag(0, 4294967295);
    var s := State([Entry(ts, [], 0)], 1, [], false);
    OneQueued(ts, [ClockAt(now)]);
    assert [Arrival(ts)] + [ClockAt(now)] == [Arrival(ts), ClockAt(now)];
    assert Recv(s, ClockAt(now)) == Fire(s, now);
    assert Fire(s, now).ran == [Run(0, ts, now)];
    assert Execute(s, [ClockAt(now)]) == Recv(s, ClockAt(now));
  }

  // For every distance that is not far enough, two waiting messages of which the later instant runs first, at its
  // time, while the earlier one, long due, goes on waiting.
  lemma LaterInstantFirst(d: nat)
    requires 1 <= d <= 3
    ensures var early, late := Timetag(0, 4294967295), Timetag(d, 0);
      var t := Execute(INITIAL, [Arrival(early), Arrival(late), ClockAt(late)]);
      t.ran == [Run(1, late, late)] && t.queue == [Entry(early, [], 0)] && Instant(early) < Instant(late)
  {
    hide Execute;
    var early, late := Timetag(0, 4294967295), Timetag(d, 0);
    var e: Entry<nat>, f: Entry<nat> := Entry(early, [], 0), Entry(late, [], 1);
    var s, u := State([e], 1, [], false), State([f, e], 2, [], false);
    var arrives, fires := Arrival(late), ClockAt(late);
    assert Execute(INITIAL, [Arrival(early), arrives, fires]) == Execute(s, [arrives, fires]) by {
      OneQueued(early, [arrives, fires]);
      assert [Arrival(early)] + [arrives, fires] == [Arrival(early), arrives, fires];
    }
    assert Execute(s, [arrives, fires]) == Execute(u, [fires]) by {
      OneArrives(s, late);
      InsertAt([e], f, 0);
      assert [e][..0] + [f] + [e][0..] == [f, e];
      ExecuteStep(s, arrives, [fires]);
      assert [arrives] + [fires] == [arrives, fires];
    }
    assert Execute(u, [fires]) == Fire(u, late) by {
      assert NextEventDelay(u.queue, late) == 0.0;
      assert Decide(u.queue, fires) == Due(late);
      ExecuteOne(u, fires);
    }
    assert u.queue[1..] == [e] && Within([e], late) == 0;
  }

  lemma ExecuteStep(s: State, call: seq<Round<Packet>>, calls: seq<seq<Round<Packet>>>)
    ensures Execute(s, [call] + calls) == Execute(Recv(s, call), calls)
  {
    hide Recv;
    assert ([call] + calls)[1..] == calls;
  }

  lemma ExecuteOne(s: State, call: seq<Round<Packet>>)
    ensures Execute(s, [call]) == Recv(s, call)
  {
    hide Recv;
  }

  // ---- Bundles ----

  // The messages of one bundle, numbered from first, side by side at place p of the line.
  ghost predicate Together(s: State, p: nat, first: nat, n: nat, ts: Timetag) {
    Block(s, p, n, ts) && Line(s)[p..p + n] == Numbers(first, n)
  }

  lemma {:induction false} ArriveSnoc(s: State, ts: Timetag, front: seq<seq<byte>>, last: seq<byte>, now: Timetag)
    requires !Immediate(ts, now)
    ensures Arrive(s, ts, front + [last], now) == Enqueue(Arrive(s, ts, front, now), ts, last)
    ensures Arrive(s, ts, front, now).accepted == s.accepted + |front|
    ensures Arrive(s, ts, front, now).ran == s.ran
    decreases |front|
  {
    if front == [] {
      assert (front + [last])[1..] == [];
    } else {
      assert (front + [last])[1..] == front[1..] + [last];
      ArriveSnoc(Enqueue(s, ts, front[0]), ts, front[1..], last, now);
    }
  }

  // What a packet for later does to the queue is what lo_server_dispatch_data does to the linked list.
  lemma {:induction false} ArriveIsQueueAll(s: State, ts: Timetag, paths: seq<seq<byte>>, now: Timetag)
    requires !Immediate(ts, now)
    ensures Arrive(s, ts, paths, now).queue == QueueAll(s.queue, ts, paths, Numbers(s.accepted, |paths|))
    decreases |paths|
  {
    hide Immediate, Insert;
    if paths != [] {
      var n := |paths| - 1;
      ArriveIsQueueAll(s, ts, paths[..n], now);
      ArriveSnoc(s, ts, paths[..n], paths[n], now);
      assert paths[..n] + [paths[n]] == paths;
      assert Numbers(s.accepted, n + 1)[..n] == Numbers(s.accepted, n);
    }
  }

  // Behind a bundle that has just been queued stand only later tags.
  lemma PlaceBehindBundle(s: State, ts: Timetag, p: nat, first: nat, n: nat)
    requires Invariant(s) && n > 0 && s.accepted == first + n
    requires Together(s, p, first, n, ts) && p >= |s.ran|
    ensures |s.ran| + Place(s.queue, ts) == p + n
  {
    hide Key, Place, Line, Exactly, InOrder, OnTime;
    var o := p - |s.ran|;
    forall x | 0 <= x < o + n ensures Key(s.queue[x].ts) <= Key(ts) {
      assert s.queue[o].ts == ts;
      if x < o {
        InOrderAt(s.queue, x, o);
      }
    }
    if o + n < |s.queue| {
      var x := o + n - 1;
      assert s.queue[x].msg == Line(s)[p..p + n][n - 1] == s.accepted - 1;
      NumbersBelow(s, o + n);
      InOrderAt(s.queue, x, x + 1);
    }
    PlaceUnique(s.queue, ts, o + n);
  }

  lemma JoinedBehind<T>(line: seq<T>, x: T, p: nat, n: nat)
    requires p + n <= |line|
    ensures (line[..p + n] + [x] + line[p + n..])[p..p + n + 1] == line[p..p + n] + [x]
  {
  }

  lemma TagsJoined(q: seq<Entry<nat>>, e: Entry<nat>, o: nat, n: nat)
    requires o + n <= |q| && forall i | o <= i < o + n :: q[i].ts == e.ts
    ensures var r := q[..o + n] + [e] + q[o + n..]; forall i | o <= i < o + n + 1 :: r[i].ts == e.ts
  {
    Spliced(q, e, o + n);
  }

  // The next message of a bundle is put right behind the ones before it.
  lemma LastJoinsBlock(s: State, ts: Timetag, last: seq<byte>, p: nat, first: nat, n: nat)
    requires Invariant(s) && s.accepted == first + n
    requires Together(s, p, first, n, ts) && p >= |s.ran| && (n == 0 ==> p == |s.ran| + Place(s.queue, ts))
    ensures Together(Enqueue(s, ts, last), p, first, n + 1, ts)
  {
    hide Key, Place, Insert, Line, Invariant;
    var t, k := Enqueue(s, ts, last), Place(s.queue, ts);
    if n > 0 {
      PlaceBehindBundle(s, ts, p, first, n);
    }
    LineOfEnqueue(s, ts, last);
    JoinedBehind(Line(s), s.accepted, p, n);
    InsertSplices(s.queue, Entry(ts, last, s.accepted));
    TagsJoined(s.queue, Entry(ts, last, s.accepted), p - |s.ran|, n);
    assert Numbers(first, n + 1) == Numbers(first, n) + [s.accepted];
  }

  lemma NoneTogether(s: State, p: nat, ts: Timetag)
    requires |s.ran| <= p <= |s.ran| + |s.queue|
    ensures Together(s, p, s.accepted, 0, ts)
  {
  }

  lemma {:induction false} QueuedTogether(s: State, ts: Timetag, paths: seq<seq<byte>>, now: Timetag)
    returns (p: nat)
    requires Invariant(s) && !Immediate(ts, now)
    ensures var t := Arrive(s, ts, paths, now);
      Together(t, p, s.accepted, |paths|, ts) && p >= |t.ran|
    ensures paths == [] ==> p == |s.ran| + Place(s.queue, ts)
    decreases |paths|
  {
    hide Line, Place, Insert, Immediate, Exactly, InOrder, OnTime, Evolves;
    if paths == [] {
      p := |s.ran| + Place(s.queue, ts);
      NoneTogether(s, p, ts);
    } else {
      var front, last := paths[..|paths| - 1], paths[|paths| - 1];
      assert front + [last] == paths;
      p := QueuedTogether(s, ts, front, now);
      ArriveSnoc(s, ts, front, last, now);
      ArriveEvolves(s, ts, front, now);
      KeptInvariant(s, Arrive(s, ts, front, now));
      LastJoinsBlock(Arrive(s, ts, front, now), ts, last, p, s.accepted, |front|);
    }
  }

  lemma KeptBlock(s: State, t: State, p: nat, n: nat, ts: Timetag) returns (r: nat)
    requires Evolves(s, t) && Invariant(s) && Block(s, p, n, ts)
    ensures SameBlock(s, p, t, r, n, ts)
  {
    r :| SameBlock(s, p, t, r, n, ts);
  }

  /** Bundle atomicity over every run: the messages of a future bundle wait side by side in their order,
      and later have either all run, side by side, or all still wait. */
  lemma BundlesStayTogether(s: State, ts: Timetag, paths: seq<seq<byte>>, now: Timetag, calls: seq<seq<Round<Packet>>>)
    ensures Invariant(s) && !Immediate(ts, now) ==>
      exists r :: Together(Execute(Arrive(s, ts, paths, now), calls), r, s.accepted, |paths|, ts)
  {
    hide Evolves, Immediate, Arrive, Execute, Line, Block, Invariant;
    if Invariant(s) && !Immediate(ts, now) {
      var u := Arrive(s, ts, paths, now);
      var t := Execute(u, calls);
      var p := QueuedTogether(s, ts, paths, now);
      ArriveEvolves(s, ts, paths, now);
      ExecuteEvolves(u, calls);
      KeptInvariant(s, u);
      var r := KeptBlock(u, t, p, |paths|, ts);
      assert Together(t, r, s.accepted, |paths|, ts);
    }
  }
}
