/** The queue of future messages in server.c: a linked list kept in the order of lo_timetag_diff. */
module EventQueue {
  import opened Bytes
  import opened Timetags

  datatype Entry<M> = Entry(ts: Timetag, path: seq<byte>, msg: M)

  // The place queue_data gives to a message with timetag ts: before the first one that is later.
  function Place<M>(q: seq<Entry<M>>, ts: Timetag): (k: nat)
    ensures k <= |q|
    ensures forall i | 0 <= i < k :: Key(q[i].ts) <= Key(ts)
    ensures k < |q| ==> Key(q[k].ts) > Key(ts)
  {
    if q == [] || Diff(q[0].ts, ts) > 0.0 then 0 else 1 + Place(q[1..], ts)
  }

  function Insert<M>(q: seq<Entry<M>>, e: Entry<M>): (r: seq<Entry<M>>)
    ensures |r| == |q| + 1
  {
    var k := Place(q, e.ts);
    q[..k] + [e] + q[k..]
  }

  // Messages of one bundle queued one after the other.
  function QueueAll<M>(q: seq<Entry<M>>, ts: Timetag, paths: seq<seq<byte>>, msgs: seq<M>): seq<Entry<M>>
    requires |paths| == |msgs|
  {
    if msgs == [] then q
    else
      var n := |msgs| - 1;
      Insert(QueueAll(q, ts, paths[..n], msgs[..n]), Entry(ts, paths[n], msgs[n]))
  }

  // How many leading messages lie within FLT_EPSILON after a time.
  function Within<M>(q: seq<Entry<M>>, ts: Timetag): (n: nat)
    ensures n <= |q|
    ensures forall i | 0 <= i < n :: Key(q[i].ts) < Key(ts) + FLT_EPSILON
    ensures n < |q| ==> Key(q[n].ts) >= Key(ts) + FLT_EPSILON
  {
    if q != [] && Diff(q[0].ts, ts) < FLT_EPSILON then 1 + Within(q[1..], ts) else 0
  }

  // How many messages one call of dispatch_queued runs.
  function Batch<M>(q: seq<Entry<M>>): (n: nat)
    ensures n <= |q| && (q != [] ==> n > 0)
  {
    if q == [] then 0 else 1 + Within(q[1..], q[0].ts)
  }

  ghost predicate Sorted<M>(q: seq<Entry<M>>) {
    forall i, j | 0 <= i <= j < |q| :: Key(q[i].ts) <= Key(q[j].ts)
  }

  lemma PlaceUnique<M>(q: seq<Entry<M>>, ts: Timetag, k: nat)
    requires k <= |q| && (forall i | 0 <= i < k :: Key(q[i].ts) <= Key(ts)) && (k < |q| ==> Key(q[k].ts) > Key(ts))
    ensures Place(q, ts) == k
  {
    hide Key, Place;
    var p := Place(q, ts);
    if p < k {
      assert false;
    } else if k < p {
      assert false;
    }
  }

  /** queue_data is stable sorted insertion: a sorted queue stays sorted, everything not later than the
      new message stays before it, everything later comes after it. */
  lemma InsertIsStable<M>(q: seq<Entry<M>>, e: Entry<M>)
    requires Sorted(q)
    ensures Sorted(Insert(q, e))
    ensures var k := Place(q, e.ts); forall i | 0 <= i < |q| :: i < k <==> Key(q[i].ts) <= Key(e.ts)
  {
    hide Key, Place, Insert;
    var k, r := Place(q, e.ts), Insert(q, e);
    InsertSplices(q, e);
    forall i, j | 0 <= i <= j < |r| ensures Key(r[i].ts) <= Key(r[j].ts) {
      InsertedInOrder(q, e, k, i, j);
    }
    forall i | 0 <= i < |q| ensures i < k <==> Key(q[i].ts) <= Key(e.ts) {
      if k <= i {
        assert Key(q[k].ts) <= Key(q[i].ts);
      }
    }
  }

  lemma InsertSplices<M>(q: seq<Entry<M>>, e: Entry<M>)
    ensures var k := Place(q, e.ts); Insert(q, e) == q[..k] + [e] + q[k..]
  {
  }

  lemma InsertedInOrder<M>(q: seq<Entry<M>>, e: Entry<M>, k: nat, i: nat, j: nat)
    requires Sorted(q) && k <= |q| && i <= j <= |q|
    requires k > 0 ==> Key(q[k - 1].ts) <= Key(e.ts)
    requires k < |q| ==> Key(q[k].ts) > Key(e.ts)
    ensures var r := q[..k] + [e] + q[k..]; Key(r[i].ts) <= Key(r[j].ts)
  {
    hide Key;
    Spliced(q, e, k);
    if i < k {
      assert Key(q[i].ts) <= Key(q[k - 1].ts);
    }
    if k < j {
      assert Key(q[k].ts) <= Key(q[j - 1].ts);
    }
  }

  lemma Spliced<T>(q: seq<T>, e: T, k: nat)
    requires k <= |q|
    ensures var r := q[..k] + [e] + q[k..];
      && (forall i | 0 <= i < k :: r[i] == q[i]) && r[k] == e && (forall i | k < i <= |q| :: r[i] == q[i - 1])
  {
  }

  /** dispatch_queued takes exactly the messages within FLT_EPSILON of the head, and leaves a sorted
      queue whose every time is at least that far later. */
  lemma BatchIsMaximal<M>(q: seq<Entry<M>>)
    requires Sorted(q) && q != []
    ensures forall i | 0 <= i < |q| :: i < Batch(q) <==> Key(q[i].ts) < Key(q[0].ts) + FLT_EPSILON
    ensures Sorted(q[Batch(q)..])
  {
    var n := Within(q[1..], q[0].ts);
    forall i | 0 <= i < |q| ensures i < Batch(q) <==> Key(q[i].ts) < Key(q[0].ts) + FLT_EPSILON {
      if 0 < i <= n {
        assert q[i] == q[1..][i - 1];
      } else if n < i {
        assert q[1 + n] == q[1..][n];
      }
    }
  }

  class Node<M> {
    const entry: Entry<M>
    var next: Node?<M>

    constructor (e: Entry<M>)
      ensures entry == e && next == null
    {
      entry, next := e, null;
    }
  }

  ghost function EntriesOf<M>(nodes: seq<Node<M>>): (q: seq<Entry<M>>)
    ensures |q| == |nodes| && forall i | 0 <= i < |q| :: q[i] == nodes[i].entry
  {
    seq(|nodes|, i requires 0 <= i < |nodes| => nodes[i].entry)
  }

  lemma EntriesSpliced<M>(nodes: seq<Node<M>>, ins: Node<M>, k: nat)
    requires k <= |nodes|
    ensures EntriesOf(nodes[..k] + [ins] + nodes[k..]) == EntriesOf(nodes)[..k] + [ins.entry] + EntriesOf(nodes)[k..]
  {
  }

  lemma InsertAt<M>(q: seq<Entry<M>>, e: Entry<M>, k: nat)
    requires k <= |q| && (forall i | 0 <= i < k :: Key(q[i].ts) <= Key(e.ts)) && (k < |q| ==> Key(q[k].ts) > Key(e.ts))
    ensures Insert(q, e) == q[..k] + [e] + q[k..]
  {
    PlaceUnique(q, e.ts, k);
  }

  class Queue<M> {
    var queued: Node?<M>
    ghost var nodes: seq<Node<M>>

    ghost predicate Valid()
      reads this, nodes
    {
      && queued == At(0)
      && (forall i | 0 <= i < |nodes| :: nodes[i].next == At(i + 1))
      && (forall i, j | 0 <= i < j < |nodes| :: nodes[i] != nodes[j])
    }

    ghost function At(i: nat): Node?<M>
      reads this
    {
      if i < |nodes| then nodes[i] else null
    }

    ghost function Footprint(): set<object>
      reads this
    {
      set n | n in nodes
    }

    ghost function Entries(): seq<Entry<M>>
      reads this
    {
      EntriesOf(nodes)
    }

    constructor ()
      ensures Valid() && Entries() == [] && nodes == []
    {
      queued, nodes := null, [];
    }

    // The pointer surgery of queue_data: ins goes between prev and it.
    method Link(prev: Node?<M>, it: Node?<M>, ins: Node<M>, ghost k: nat)
      requires Valid() && k <= |nodes| && it == At(k) && ins !in nodes
      requires prev == if k == 0 then null else nodes[k - 1]
      modifies this, prev, ins
      ensures Valid() && nodes == old(nodes[..k]) + [ins] + old(nodes[k..])
    {
      if prev != null {
        prev.next := ins;
      } else {
        queued := ins;
        ins.next := null;
      }
      ins.next := it;
      ghost var was := nodes;
      nodes := nodes[..k] + [ins] + nodes[k..];
      Spliced(was, ins, k);
      forall i | 0 <= i < |nodes| ensures nodes[i].next == At(i + 1) {
        if i > k {
          assert nodes[i] == was[i - 1];
        }
      }
    }

    // The walk of queue_data to the first message that is later.
    method FindPlace(ts: Timetag) returns (prev: Node?<M>, it: Node?<M>, ghost k: nat)
      requires Valid()
      ensures k <= |nodes| == |Entries()| && it == At(k) && prev == if k == 0 then null else nodes[k - 1]
      ensures forall i | 0 <= i < k :: Key(Entries()[i].ts) <= Key(ts)
      ensures k < |nodes| ==> Key(Entries()[k].ts) > Key(ts)
    {
      hide Key, Diff, Valid, EntriesOf;
      DiffsAreKeyDifferences();
      Head();
      it, prev, k := queued, null, 0;
      while it != null
        invariant k <= |nodes| && it == At(k)
        invariant prev == if k == 0 then null else nodes[k - 1]
        invariant forall i | 0 <= i < k :: Key(Entries()[i].ts) <= Key(ts)
        decreases |nodes| - k
      {
        Here(k);
        if Diff(it.entry.ts, ts) > 0.0 {
          break;
        }
        prev := it;
        it := it.next;
        k := k + 1;
      }
    }

    // queue_data
    method QueueData(ts: Timetag, path: seq<byte>, msg: M)
      requires Valid()
      modifies this, Footprint()
      ensures Valid() && fresh(Footprint() - old(Footprint())) && Entries() == Insert(old(Entries()), Entry(ts, path, msg))
    {
      hide Key, Place, Insert, Valid;
      var prev, it, k := FindPlace(ts);
      var ins := new Node(Entry(ts, path, msg));
      ghost var was := nodes;
      InsertAt(Entries(), ins.entry, k);
      Link(prev, it, ins, k);
      EntriesSpliced(was, ins, k);
    }

    lemma Head()
      requires Valid()
      ensures |Entries()| == |nodes| && queued == if nodes == [] then null else nodes[0]
    {
    }

    lemma Here(k: nat)
      requires Valid() && k < |nodes|
      ensures nodes[k].next == At(k + 1) && Entries()[k] == nodes[k].entry
    {
    }

    // One round of the loop of dispatch_queued: the head is handed out and unlinked.
    method Unlink() returns (e: Entry<M>)
      requires Valid() && queued != null
      modifies this
      ensures Valid() && nodes == old(nodes)[1..] && e == old(nodes)[0].entry
    {
      e := queued.entry;
      queued := queued.next;
      nodes := nodes[1..];
    }

    // dispatch_queued; the messages are handed to dispatch_method in the order of ran.
    method DispatchQueued() returns (ran: seq<Entry<M>>, result: int)
      requires Valid()
      modifies this
      ensures Valid()
      ensures result == if old(queued) == null then 1 else 0
      ensures ran == old(Entries())[..Batch(old(Entries()))]
      ensures Entries() == old(Entries())[Batch(old(Entries()))..]
      ensures Footprint() <= old(Footprint())
    {
      hide Key, Batch, Diff, Valid, EntriesOf;
      Head();
      if queued == null {
        NoBatch<M>();
        assert Entries() == [];
        return [], 1;
      }
      ghost var q, was, n := Entries(), nodes, 0;
      var dispTime := queued.entry.ts;
      ran := [];
      var more := true;
      while more
        invariant Valid()
        invariant n <= |q| == |was| && ran == q[..n] && nodes == was[n..]
        invariant more ==> queued != null
        invariant n == 0 ==> more
        invariant n > 0 ==> n <= Batch(q) && (more <==> n < Batch(q))
        decreases |nodes|
      {
        Head();
        var e := Unlink();
        TakenOff(was, n);
        ran := ran + [e];
        n := n + 1;
        Head();
        BatchStep(q, n);
        more := queued != null && Diff(queued.entry.ts, dispTime) < FLT_EPSILON;
      }
      EntriesBehind(was, n);
      return ran, 0;
    }
  }

  lemma TakenOff<M>(nodes: seq<Node<M>>, n: nat)
    requires n < |nodes|
    ensures nodes[n..][0] == nodes[n] && nodes[n..][1..] == nodes[n + 1..]
    ensures EntriesOf(nodes)[..n + 1] == EntriesOf(nodes)[..n] + [nodes[n].entry]
    ensures n + 1 < |nodes| ==> nodes[n + 1..][0].entry == EntriesOf(nodes)[n + 1]
  {
  }

  lemma EntriesBehind<M>(nodes: seq<Node<M>>, n: nat)
    requires n <= |nodes|
    ensures EntriesOf(nodes[n..]) == EntriesOf(nodes)[n..]
  {
  }

  lemma NoBatch<M>()
    ensures Batch<M>([]) == 0
  {
  }

  lemma BatchStep<M>(q: seq<Entry<M>>, n: nat)
    requires 0 < n <= |q| && n <= Batch(q)
    ensures n < Batch(q) <==> n < |q| && Diff(q[n].ts, q[0].ts) < FLT_EPSILON
  {
    if n < |q| {
      assert q[n] == q[1..][n - 1];
    }
  }
}
