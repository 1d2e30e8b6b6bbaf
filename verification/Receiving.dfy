/** The decisions of lo_server_recv: when to poll, when to take a packet, when to dispatch the queue. */
module Receiving {
  import opened Timetags
  import opened EventQueue

  // lo_server_next_event_delay
  function NextEventDelay<M>(q: seq<Entry<M>>, now: Timetag): real {
    if q == [] then 100.0
    else
      var delay := Diff(q[0].ts, now);
      if delay > 100.0 then 100.0 else if delay < 0.0 then 0.0 else delay
  }

  // The test of lo_server_dispatch_data for immediate dispatch.
  predicate Immediate(ts: Timetag, now: Timetag) {
    (ts.sec == 0 && ts.frac == 1) || Diff(ts, now) <= 0.0
  }

  datatype Poll<D> = Error | Idle | Data(packet: D, at: Timetag)

  // One reading of the clock in lo_server_recv, and what the poll that may follow brings.
  datatype Round<D> = Round(now: Timetag, poll: Poll<D>)

  datatype Decision<D> = Waiting | Failed | Received(packet: D, at: Timetag) | Due(now: Timetag)

  // lo_server_recv polls as long as the next event is more than 0.01 s away and nothing happens.
  function Decide<M, D>(q: seq<Entry<M>>, rounds: seq<Round<D>>): Decision<D> {
    if rounds == [] then Waiting
    else if NextEventDelay(q, rounds[0].now) > 0.01 then
      match rounds[0].poll
      case Error => Failed
      case Data(packet, at) => Received(packet, at)
      case Idle => Decide(q, rounds[1..])
    else Due(rounds[0].now)
  }

  /** The queue is dispatched only when it holds a message due within 0.01 s by lo_timetag_diff: lo_server_recv never
      calls dispatch_queued on an empty queue. */
  lemma {:induction false} DueMeansDue<M, D>(q: seq<Entry<M>>, rounds: seq<Round<D>>)
    requires Decide(q, rounds).Due?
    ensures var now := Decide(q, rounds).now;
      q != [] && Diff(q[0].ts, now) <= 0.01 && NextEventDelay(q, now) <= 0.01
  {
    if NextEventDelay(q, rounds[0].now) > 0.01 {
      DueMeansDue(q, rounds[1..]);
    }
  }

  // The delay is the code's difference, kept between 0 and 100; it is above a margin in between exactly when the head
  // is more than that away, or there is none.
  lemma DelayMeans<M>(q: seq<Entry<M>>, now: Timetag, margin: real)
    requires 0.0 <= margin < 100.0
    ensures 0.0 <= NextEventDelay(q, now) <= 100.0
    ensures NextEventDelay(q, now) > margin <==> q == [] || Diff(q[0].ts, now) > margin
    ensures q != [] && 0.0 <= Diff(q[0].ts, now) <= 100.0 ==> NextEventDelay(q, now) == Diff(q[0].ts, now)
  {
  }

  // Nothing has come up to a round: every poll was idle, with the head more than 0.01 s away, if there is one.
  ghost predicate Quiet<M, D>(q: seq<Entry<M>>, rounds: seq<Round<D>>, k: nat)
    requires k <= |rounds|
  {
    forall i | 0 <= i < k :: rounds[i].poll == Idle && (q == [] || Diff(q[0].ts, rounds[i].now) > 0.01)
  }

  /** What lo_server_recv decides is settled by the first round that is not quiet: with a head due within 0.01 s the
      queue is dispatched at that reading of the clock, whatever the poll would bring; otherwise a poll that fails or
      brings a packet ends the call. When all rounds are quiet it is still waiting. */
  lemma {:induction false} FirstEventDecides<M, D>(q: seq<Entry<M>>, rounds: seq<Round<D>>, k: nat)
    requires k <= |rounds| && Quiet(q, rounds, k)
    ensures k == |rounds| ==> Decide(q, rounds) == Waiting
    ensures k < |rounds| && q != [] && Diff(q[0].ts, rounds[k].now) <= 0.01 ==> Decide(q, rounds) == Due(rounds[k].now)
    ensures k < |rounds| && (q == [] || Diff(q[0].ts, rounds[k].now) > 0.01) && rounds[k].poll != Idle ==>
      Decide(q, rounds) ==
        if rounds[k].poll.Error? then Failed else Received(rounds[k].poll.packet, rounds[k].poll.at)
  {
    hide Diff, NextEventDelay;
    if rounds != [] {
      DelayMeans(q, rounds[0].now, 0.01);
      if k > 0 {
        assert forall i | 0 <= i < k - 1 :: rounds[1..][i] == rounds[i + 1];
        FirstEventDecides(q, rounds[1..], k - 1);
      }
    }
  }

  // There is such a round, or all rounds are quiet.
  lemma {:induction false} FirstEvent<M, D>(q: seq<Entry<M>>, rounds: seq<Round<D>>) returns (k: nat)
    ensures k <= |rounds| && Quiet(q, rounds, k)
    ensures k < |rounds| ==> rounds[k].poll != Idle || (q != [] && Diff(q[0].ts, rounds[k].now) <= 0.01)
  {
    hide Diff;
    k := 0;
    while k < |rounds| && rounds[k].poll == Idle && (q == [] || Diff(q[0].ts, rounds[k].now) > 0.01)
      invariant k <= |rounds| && Quiet(q, rounds, k)
    {
      k := k + 1;
    }
  }

  /** The messages of a packet are dispatched at once exactly when its timetag is the special one, 0 seconds and
      fraction 1, or not later than the clock by the code's measure; for tags that the code orders as instants, when it
      is not a later instant. */
  lemma ImmediateMeans(ts: Timetag, now: Timetag)
    ensures Immediate(ts, now) <==> ts == Timetag(0, 1) || Key(ts) <= Key(now)
    ensures FarEnough(ts, now) ==> (Immediate(ts, now) <==> ts == Timetag(0, 1) || Instant(ts) <= Instant(now))
  {
    hide Key, Instant, Diff;
    DiffsAreKeyDifferences();
    if FarEnough(ts, now) {
      FarApart(ts, now);
    }
  }
}
