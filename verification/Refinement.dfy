/** The server on packets and linked lists does what the state machine of whole runs does on numbered messages. */
module Refinement {
  import opened Bytes
  import opened Codec
  import opened Timetags
  import opened BundleFormat
  import opened Messages
  import opened EventQueue
  import opened Receiving
  import opened Server
  import S = Schedule

  // ---- Queues of messages and of their numbers ----

  // The queue q holds the messages whose numbers w holds, in the same order and each under its own path.
  predicate Shows(q: seq<Entry<Message>>, w: seq<Entry<nat>>, all: seq<Dispatched>) {
    && |q| == |w|
    && forall i | 0 <= i < |w| ::
         && w[i].msg < |all| && w[i].path == all[w[i].msg].path
         && q[i] == Entry(w[i].ts, w[i].path, all[w[i].msg].msg)
  }

  lemma SamePlace<M>(q: seq<Entry<M>>, w: seq<Entry<nat>>, ts: Timetag)
    requires |q| == |w| && forall i | 0 <= i < |w| :: q[i].ts == w[i].ts
    ensures Place(q, ts) == Place(w, ts)
  {
    hide Key, Place;
    PlaceUnique(q, ts, Place(w, ts));
  }

  lemma {:induction false} SameWithin<M>(q: seq<Entry<M>>, w: seq<Entry<nat>>, ts: Timetag)
    requires |q| == |w| && forall i | 0 <= i < |w| :: q[i].ts == w[i].ts
    ensures Within(q, ts) == Within(w, ts)
  {
    hide Diff, Key;
    if w != [] {
      SameWithin(q[1..], w[1..], ts);
    }
  }

  lemma SameBatch<M>(q: seq<Entry<M>>, w: seq<Entry<nat>>)
    requires |q| == |w| && forall i | 0 <= i < |w| :: q[i].ts == w[i].ts
    ensures Batch(q) == Batch(w)
  {
    hide Within;
    if w != [] {
      SameWithin(q[1..], w[1..], w[0].ts);
    }
  }

  lemma InsertShown(q: seq<Entry<Message>>, w: seq<Entry<nat>>, all: seq<Dispatched>, ts: Timetag, n: nat)
    requires Shows(q, w, all) && n < |all|
    ensures Shows(Insert(q, Entry(ts, all[n].path, all[n].msg)), Insert(w, Entry(ts, all[n].path, n)), all)
  {
    hide Place, Insert, Key;
    var k, e, f := Place(w, ts), Entry(ts, all[n].path, all[n].msg), Entry(ts, all[n].path, n);
    SamePlace(q, w, ts);
    InsertSplices(q, e);
    InsertSplices(w, f);
    Spliced(q, e, k);
    Spliced(w, f, k);
  }

  lemma {:induction false} QueueAllShown(q: seq<Entry<Message>>, w: seq<Entry<nat>>, all: seq<Dispatched>, ts: Timetag,
                                         items: seq<Item>, msgs: seq<Message>)
    requires Shows(q, w, all) && |items| == |msgs|
    ensures Shows(QueueAll(q, ts, Paths(items), msgs), QueueAll(w, ts, Paths(items), S.Numbers(|all|, |msgs|)),
                  all + Calls(items, msgs))
    decreases |msgs|
  {
    hide Insert;
    if msgs != [] {
      var n := |msgs| - 1;
      QueueAllShown(q, w, all, ts, items[..n], msgs[..n]);
      assert S.Numbers(|all|, n + 1)[..n] == S.Numbers(|all|, n) && Paths(items)[..n] == Paths(items[..n]);
      var r := QueueAll(q, ts, Paths(items)[..n], msgs[..n]);
      var v := QueueAll(w, ts, Paths(items)[..n], S.Numbers(|all|, n));
      var more := all + Calls(items, msgs);
      assert more == all + Calls(items[..n], msgs[..n]) + [Dispatched(items[n].path, msgs[n])];
      assert Shows(r, v, more);
      InsertShown(r, v, more, ts, |all| + n);
    }
  }

  // ---- Packets ----

  // The timetag of a packet; one that is no bundle is for at once.
  function TagOf(data: seq<byte>): Timetag {
    if StringSpan(data) >= 0 && data[..Strlen(data)] == MARKER && BundleSpan(data) >= 0
    then ReadTimetag(data[StringSpan(data)..])
    else Timetag(0, 1)
  }

  // What the state machine sees of a packet: its tag and the paths of the messages that are accepted.
  function PacketOf(data: seq<byte>): S.Packet {
    S.Packet(TagOf(data), Paths(Receive(data, Timetag(0, 1)).items))
  }

  // The clock decides between dispatching and queueing, never what is read.
  lemma ReceivedUntil(data: seq<byte>, now: Timetag)
    ensures var o := Receive(data, now);
      o.until == Until(PacketOf(data).ts, now) && Paths(o.items) == PacketOf(data).paths
    ensures data == [] ==> Receive(data, now).items == []
  {
    hide Diff, ReadTimetag, ReadElements, Decode, Tiled;
  }

  function Seen(poll: Poll<seq<byte>>): Poll<S.Packet> {
    match poll
    case Error => Poll.Error
    case Idle => Poll.Idle
    case Data(packet, at) => Poll.Data(PacketOf(packet), at)
  }

  function AllSeen(rounds: seq<Round<seq<byte>>>): (r: seq<Round<S.Packet>>)
    ensures |r| == |rounds|
  {
    seq(|rounds|, i requires 0 <= i < |rounds| => Round(rounds[i].now, Seen(rounds[i].poll)))
  }

  function SeenDecision(d: Decision<seq<byte>>): Decision<S.Packet> {
    match d
    case Waiting => Waiting
    case Failed => Decision.Failed
    case Received(packet, at) => Received(PacketOf(packet), at)
    case Due(now) => Due(now)
  }

  lemma {:induction false} SameDecision(q: seq<Entry<Message>>, w: seq<Entry<nat>>, rounds: seq<Round<seq<byte>>>)
    requires |q| == |w| && forall i | 0 <= i < |w| :: q[i].ts == w[i].ts
    ensures Decide(w, AllSeen(rounds)) == SeenDecision(Decide(q, rounds))
    ensures Decide(w, rounds) == Decide(q, rounds)
  {
    hide PacketOf, Diff;
    if rounds != [] {
      assert AllSeen(rounds)[1..] == AllSeen(rounds[1..]);
      SameDecision(q, w, rounds[1..]);
    }
  }

  // ---- One call ----

  // What one call hands to the methods, in order: messages from the queue, and those just read.
  function Handed(fired: seq<Entry<Message>>, ran: seq<Dispatched>): (h: seq<Dispatched>)
    ensures |h| == |fired| + |ran|
    ensures forall i | 0 <= i < |fired| :: h[i] == Dispatched(fired[i].path, fired[i].msg)
    ensures forall i | 0 <= i < |ran| :: h[|fired| + i] == ran[i]
  {
    seq(|fired|, i requires 0 <= i < |fired| => Dispatched(fired[i].path, fired[i].msg)) + ran
  }

  // A log of what was handed to the methods shows the runs of the state machine.
  predicate Logs(log: seq<Dispatched>, runs: seq<S.Run>, all: seq<Dispatched>) {
    |log| == |runs| && forall i | 0 <= i < |runs| :: runs[i].id < |all| && log[i] == all[runs[i].id]
  }

  // Queue, log and accepted messages of the server against a state.
  predicate Agree(q: seq<Entry<Message>>, log: seq<Dispatched>, all: seq<Dispatched>, s: S.State) {
    |all| == s.accepted && Shows(q, s.queue, all) && Logs(log, s.ran, all)
  }

  // The runs of a packet whose messages are dispatched at once.
  function RunsNow(first: nat, n: nat, ts: Timetag, now: Timetag): (r: seq<S.Run>)
    ensures |r| == n && forall i | 0 <= i < n :: r[i] == S.Run(first + i, ts, now)
  {
    seq(n, i requires 0 <= i => S.Run(first + i, ts, now))
  }

  lemma {:induction false} ArriveAtOnce(s: S.State, ts: Timetag, paths: seq<seq<byte>>, now: Timetag)
    requires Immediate(ts, now)
    ensures var t := S.Arrive(s, ts, paths, now);
      && t.queue == s.queue && t.accepted == s.accepted + |paths|
      && t.ran == s.ran + RunsNow(s.accepted, |paths|, ts, now)
    decreases |paths|
  {
    hide Immediate;
    if paths != [] {
      ArriveAtOnce(S.RunNow(s, ts, now), ts, paths[1..], now);
      assert RunsNow(s.accepted, |paths|, ts, now) ==
             [S.Run(s.accepted, ts, now)] + RunsNow(s.accepted + 1, |paths| - 1, ts, now);
    }
  }

  lemma ArriveForLater(s: S.State, ts: Timetag, paths: seq<seq<byte>>, now: Timetag)
    requires !Immediate(ts, now)
    ensures var t := S.Arrive(s, ts, paths, now);
      && t.queue == QueueAll(s.queue, ts, paths, S.Numbers(s.accepted, |paths|))
      && t.accepted == s.accepted + |paths| && t.ran == s.ran
  {
    hide Immediate, Insert;
    S.ArriveIsQueueAll(s, ts, paths, now);
    if paths != [] {
      var n := |paths| - 1;
      assert paths[..n] + [paths[n]] == paths;
      S.ArriveSnoc(s, ts, paths[..n], paths[n], now);
    }
  }

  lemma LogGrows(log: seq<Dispatched>, runs: seq<S.Run>, all: seq<Dispatched>,
                 more: seq<Dispatched>, further: seq<S.Run>, news: seq<Dispatched>)
    requires Logs(log, runs, all) && Logs(more, further, all + news)
    ensures Logs(log + more, runs + further, all + news)
  {
  }

  lemma DispatchedLog(all: seq<Dispatched>, news: seq<Dispatched>, ts: Timetag, now: Timetag)
    ensures Logs(Handed([], news), RunsNow(|all|, |news|, ts, now), all + news)
  {
    hide Handed, RunsNow;
    var log, runs := Handed([], news), RunsNow(|all|, |news|, ts, now);
    forall i | 0 <= i < |runs| ensures runs[i].id < |all + news| && log[i] == (all + news)[runs[i].id] {
      assert runs[i].id == |all| + i && log[0 + i] == news[i];
    }
  }

  lemma NothingHanded(all: seq<Dispatched>)
    ensures Handed([], []) == [] && Logs([], [], all)
  {
  }

  lemma MoreMessages(q: seq<Entry<Message>>, w: seq<Entry<nat>>, all: seq<Dispatched>, news: seq<Dispatched>)
    requires Shows(q, w, all)
    ensures Shows(q, w, all + news)
  {
  }

  lemma PacketRefines(before: seq<Entry<Message>>, after: seq<Entry<Message>>, data: seq<byte>, now: Timetag,
                      msgs: seq<Message>, ran: seq<Dispatched>, s: S.State, all: seq<Dispatched>, log: seq<Dispatched>)
    requires Agree(before, log, all, s)
    requires var o := Receive(data, now); Delivered(o.items, msgs, ran, o.until, before, after)
    ensures Agree(after, log + Handed([], ran), all + Calls(Receive(data, now).items, msgs),
                  S.Arrive(s, PacketOf(data).ts, PacketOf(data).paths, now))
  {
    hide Receive, TagOf, PacketOf, Immediate, QueueAll, S.Arrive, Shows, Logs;
    ReceivedUntil(data, now);
    var o, b := Receive(data, now), PacketOf(data);
    var news := Calls(o.items, msgs);
    if Immediate(b.ts, now) {
      ArriveAtOnce(s, b.ts, b.paths, now);
      MoreMessages(before, s.queue, all, news);
      DispatchedLog(all, news, b.ts, now);
      LogGrows(log, s.ran, all, Handed([], ran), RunsNow(s.accepted, |msgs|, b.ts, now), news);
    } else {
      ArriveForLater(s, b.ts, b.paths, now);
      QueueAllShown(before, s.queue, all, b.ts, o.items, msgs);
      NothingHanded(all + news);
      LogGrows(log, s.ran, all, [], [], news);
      assert log + [] == log && s.ran + [] == s.ran;
    }
  }

  lemma FireRefines(before: seq<Entry<Message>>, now: Timetag, s: S.State, all: seq<Dispatched>, log: seq<Dispatched>)
    requires Agree(before, log, all, s) && before != []
    ensures var n := Batch(before);
      Agree(before[n..], log + Handed(before[..n], []), all, S.Fire(s, now))
  {
    hide Batch;
    SameBatch(before, s.queue);
    var n := Batch(before);
    LogGrows(log, s.ran, all, Handed(before[..n], []), S.Runs(s.queue[..n], now), []);
    assert all + [] == all;
  }

  /** One call of lo_server_recv on a queue and packets is one step of the state machine on their numbers: queue,
      accepted messages and those handed out stay in agreement. */
  lemma RecvRefines(before: seq<Entry<Message>>, after: seq<Entry<Message>>, rounds: seq<Round<seq<byte>>>,
                    fired: seq<Entry<Message>>, msgs: seq<Message>, ran: seq<Dispatched>,
                    s: S.State, all: seq<Dispatched>, log: seq<Dispatched>)
    requires Agree(before, log, all, s) && Handled(before, after, rounds, fired, msgs, ran)
    ensures ReadBy(s.queue, rounds) == ReadBy(before, rounds) && |ReadBy(before, rounds)| == |msgs|
    ensures Agree(after, log + Handed(fired, ran), all + Calls(ReadBy(before, rounds), msgs),
                  S.Recv(s, AllSeen(rounds)))
  {
    hide Decide, Receive, PacketOf, Batch, S.Arrive, S.Fire, Diff, QueueAll;
    SameDecision(before, s.queue, rounds);
    assert all + Calls([], []) == all && Handed([], []) == [] && log + [] == log;
    match Decide(before, rounds)
    case Waiting =>
    case Failed =>
    case Received(data, at) =>
      ReceivedUntil(data, at);
      if data == [] {
        NothingArrives(s, at);
      } else {
        PacketRefines(before, after, data, at, msgs, ran, s, all, log);
      }
    case Due(now) =>
      FireRefines(before, now, s, all, log);
  }

  lemma NothingArrives(s: S.State, now: Timetag)
    ensures S.Arrive(s, PacketOf([]).ts, PacketOf([]).paths, now) == s
  {
    ReceivedUntil([], now);
    assert PacketOf([]).paths == [];
  }

  // ---- Whole runs ----

  function AllCalls(calls: seq<seq<Round<seq<byte>>>>): (r: seq<seq<Round<S.Packet>>>)
    ensures |r| == |calls|
  {
    seq(|calls|, i requires 0 <= i < |calls| => AllSeen(calls[i]))
  }

  // The state after some calls, and the messages of all packets received by then.
  function StateAfter(calls: seq<seq<Round<seq<byte>>>>): S.State {
    S.Execute(S.INITIAL, AllCalls(calls))
  }

  function ReadIn(calls: seq<seq<Round<seq<byte>>>>): seq<Item> {
    if calls == [] then []
    else
      var n := |calls| - 1;
      ReadIn(calls[..n]) + ReadBy(StateAfter(calls[..n]).queue, calls[n])
  }

  lemma {:induction false} ExecuteSnoc(s: S.State, front: seq<seq<Round<S.Packet>>>, last: seq<Round<S.Packet>>)
    ensures S.Execute(s, front + [last]) == S.Recv(S.Execute(s, front), last)
    decreases |front|
  {
    hide S.Recv;
    if front == [] {
      assert (front + [last])[1..] == [];
    } else {
      assert (front + [last])[1..] == front[1..] + [last];
      ExecuteSnoc(S.Recv(s, front[0]), front[1..], last);
    }
  }

  lemma OneMoreCall(calls: seq<seq<Round<seq<byte>>>>, k: nat)
    requires k < |calls|
    ensures StateAfter(calls[..k + 1]) == S.Recv(StateAfter(calls[..k]), AllSeen(calls[k]))
    ensures ReadIn(calls[..k + 1]) == ReadIn(calls[..k]) + ReadBy(StateAfter(calls[..k]).queue, calls[k])
  {
    hide S.Recv, S.Execute, ReadBy;
    assert calls[..k + 1][..k] == calls[..k];
    assert AllCalls(calls[..k + 1]) == AllCalls(calls[..k]) + [AllSeen(calls[k])];
    ExecuteSnoc(S.INITIAL, AllCalls(calls[..k]), AllSeen(calls[k]));
  }

  // Each accepted message is valid, and has path and arguments of the packet it came in.
  ghost predicate Brings(all: seq<Dispatched>, items: seq<Item>)
    reads set d | d in all :: d.msg
    reads set d | d in all :: d.msg.types
    reads set d | d in all :: d.msg.data
  {
    && |all| == |items|
    && forall i | 0 <= i < |all| ::
         all[i].path == items[i].path && all[i].msg.args == items[i].args && all[i].msg.Valid()
  }

  lemma BringsMore(all: seq<Dispatched>, items: seq<Item>, msgs: seq<Message>, news: seq<Item>)
    requires Brings(all, items) && Carry(msgs, news) && forall m | m in msgs :: m.Valid()
    ensures Brings(all + Calls(news, msgs), items + news)
  {
    hide Message.Valid;
    var more := all + Calls(news, msgs);
    forall i | 0 <= i < |more|
      ensures more[i].path == (items + news)[i].path && more[i].msg.args == (items + news)[i].args && more[i].msg.Valid()
    {
      if i >= |all| {
        assert more[i] == Dispatched(news[i - |all|].path, msgs[i - |all|]);
        assert msgs[i - |all|] in msgs;
      }
    }
  }

  /** lo_server_recv again and again from an empty queue. The messages accepted are those of the packets received,
      in order, with their paths and arguments and in valid objects; what waits in the linked list and what was handed
      out agree with a run of the state machine on them, and so satisfy its invariant. */
  method Serve(q: Queue<Message>, calls: seq<seq<Round<seq<byte>>>>)
    returns (log: seq<Dispatched>, ghost all: seq<Dispatched>, ghost s: S.State)
    requires q.Valid() && q.Entries() == []
    modifies q, q.Footprint()
    ensures q.Valid()
    ensures s == StateAfter(calls) && S.Invariant(s)
    ensures Agree(q.Entries(), log, all, s)
    ensures Brings(all, ReadIn(calls))
  {
    hide Agree, Handled, S.Recv, S.Execute, S.Invariant, Queue.Valid, Queue.Entries, ReadIn, ReadBy, StateAfter, Message.Valid, Carry;
    log, all, s := [], [], S.INITIAL;
    NothingYet(calls);
    for k := 0 to |calls|
      invariant q.Valid() && fresh(q.Footprint() - old(q.Footprint()))
      invariant s == StateAfter(calls[..k])
      invariant Agree(q.Entries(), log, all, s)
      invariant Brings(all, ReadIn(calls[..k]))
    {
      ghost var before := q.Entries();
      var fired, msgs, ran, result := Recv(q, calls[k]);
      RecvRefines(before, q.Entries(), calls[k], fired, msgs, ran, s, all, log);
      ghost var read := ReadBy(before, calls[k]);
      BringsMore(all, ReadIn(calls[..k]), msgs, read);
      OneMoreCall(calls, k);
      log, all, s := log + Handed(fired, ran), all + Calls(read, msgs), S.Recv(s, AllSeen(calls[k]));
    }
    assert calls[..|calls|] == calls;
    RunIsSafe(calls);
  }

  lemma RunIsSafe(calls: seq<seq<Round<seq<byte>>>>)
    ensures S.Invariant(StateAfter(calls))
  {
    S.EveryRunIsSafe(AllCalls(calls));
  }

  lemma NothingYet(calls: seq<seq<Round<seq<byte>>>>)
    ensures Agree([], [], [], S.INITIAL) && StateAfter(calls[..0]) == S.INITIAL && ReadIn(calls[..0]) == []
    ensures Brings([], [])
  {
    assert AllCalls(calls[..0]) == [];
  }
}
