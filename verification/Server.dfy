/** The server's treatment of one packet, and its receive call. */
module Server {
  import opened Options
  import opened Bytes
  import opened Osc
  import opened Codec
  import opened Timetags
  import opened BundleFormat
  import Validators
  import Refusals
  import opened Messages
  import opened EventQueue
  import opened Receiving

  // What lo_server_dispatch_data does with a packet: the messages it reads, the timetag they wait for
  // (or None when they are dispatched at once), and the result.
  datatype Outcome = Outcome(items: seq<Item>, until: Option<Timetag>, result: int)

  function Receive(data: seq<byte>, now: Timetag): Outcome {
    var len := StringSpan(data);
    if len < 0 then Outcome([], None, len)
    else if data[..Strlen(data)] == MARKER then
      if BundleSpan(data) < 0 then Outcome([], None, BundleSpan(data))
      else
        var ts, reading := ReadTimetag(data[len..]), ReadElements(data[len + 8..]);
        Outcome(reading.items, if Immediate(ts, now) then None else Some(ts),
                if reading.error == 0 then |data| else -reading.error)
    else
      match Decode(data)
      case Content(path, args) => Outcome([Item(path, args)], None, |data|)
      case Refused(e) => Outcome([], None, -e)
  }

  /** Bundle end to end: the server gets the timetag and the messages that were serialised, in order, and
      sends all of them to immediate dispatch or all of them to the queue. When a message carries a blob
      over the limit, the messages before it are delivered and the packet is reported as bad. */
  lemma BundleDelivered(ts: Timetag, items: seq<Item>, now: Timetag)
    requires Writable(items)
    ensures var w, k := BundleWire(ts, items), FirstMisfit(items);
      Receive(w, now) == Outcome(items[..k], if Immediate(ts, now) then None else Some(ts),
                                 if k == |items| then |w| else -EINVALIDARG)
  {
    HeaderReads(ts, Elements(items));
    BundleRoundTrip(ts, items);
  }

  // Whatever is read from the elements of a packet was shorter than the packet.
  lemma {:induction false} ItemsAreShorter(s: seq<byte>, i: nat)
    requires Tiled(s) && i < |ReadElements(s).items|
    ensures |ReadElements(s).items[i].Wire()| < |s|
  {
    hide Decode, Osc.Wire;
    var n := ReadNetwork32(s);
    Canonical(s[4..4 + n]);
    if i > 0 {
      ItemsAreShorter(s[4 + n..], i - 1);
    }
  }

  /** A serialised message that fits is delivered, exactly when its path is not "#bundle". */
  lemma MessageDelivered(path: seq<byte>, args: seq<Arg>, now: Timetag)
    requires NulFree(path) && AllFit(args)
    ensures var w := Wire(path, args);
      Receive(w, now) == Outcome([Item(path, args)], None, |w|) <==> path != MARKER
  {
    hide Decode, Osc.Wire, Strlen, StringSpan;
    var w := Wire(path, args);
    WireStartsWithPath(path, args);
    RoundTrip(path, args);
    if path == MARKER && BundleSpan(w) >= 0 {
      var s := w[StringSpan(w) + 8..];
      if |ReadElements(s).items| == 1 {
        ItemsAreShorter(s, 0);
      }
    }
  }

  lemma WireStartsWithPath(path: seq<byte>, args: seq<Arg>)
    requires NulFree(path)
    ensures var w := Wire(path, args);
      Strlen(w) == |path| && w[..|path|] == path && StringSpan(w) == PaddedSize(|path|) <= |w|
  {
    var rest := Pad(TypeString(args)) + Forms(args, Network);
    assert Wire(path, args) == Pad(path) + rest;
    PaddedStringSpan(path, rest);
  }

  // ---- Which packets are accepted ----

  // What was read without an error is what was there: the wire form of messages that fit.
  lemma {:induction false} ReadElementsCanonical(s: seq<byte>)
    requires Tiled(s) && ReadElements(s).error == 0
    ensures var items := ReadElements(s).items; Writable(items) && Fitting(items) && s == Elements(items)
  {
    hide Decode, Osc.Wire, AllFit, Network32, ReadNetwork32;
    if s != [] {
      FirstElement(s);
      var n := ReadNetwork32(s);
      if Decode(s[4..4 + n]).Refused? {
        RefusedIsError(s[4..4 + n]);
      }
      Canonical(s[4..4 + n]);
      Network32Canonical(s);
      var item, rest := Item(Decode(s[4..4 + n]).path, Decode(s[4..4 + n]).args), s[4 + n..];
      ReadElementsCanonical(rest);
      var more := ReadElements(rest).items;
      assert ([item] + more)[1..] == more;
      assert s == s[..4] + s[4..4 + n] + rest;
    }
  }

  predicate Fitting(items: seq<Item>) {
    forall i | 0 <= i < |items| :: AllFit(items[i].args)
  }

  lemma RefusedIsError(w: seq<byte>)
    requires Decode(w).Refused?
    ensures Decode(w).error > 0
  {
    hide StringSpan, Strlen, DecodeArgs;
    if StringSpan(w) >= 0 {
      StringSpanPadded(w);
      var rest := w[StringSpan(w)..];
      if StringSpan(rest) >= 0 {
        StringSpanPadded(rest);
        if Strlen(rest) >= 1 {
          ArgumentErrors(rest[1..Strlen(rest)], rest[StringSpan(rest)..]);
        }
      }
    }
  }

  lemma {:induction false} ArgumentErrors(tags: seq<byte>, s: seq<byte>)
    ensures var r := DecodeArgs(tags, s); r.BadArguments? ==> r.error > 0
  {
    hide ArgSpan, ArgAt;
    if tags != [] && ArgSpan(tags[0], s) >= 0 {
      ParsedForm(tags[0], s);
      ArgumentErrors(tags[1..], s[ArgSpan(tags[0], s)..]);
    }
  }

  // A message that the server takes for one.
  ghost predicate IsMessage(w: seq<byte>, path: seq<byte>, args: seq<Arg>) {
    NulFree(path) && path != MARKER && AllFit(args) && w == Wire(path, args)
  }

  // A bundle whose messages all fit.
  ghost predicate IsGoodBundle(w: seq<byte>, ts: Timetag, items: seq<Item>) {
    Writable(items) && Fitting(items) && w == BundleWire(ts, items)
  }

  lemma MessageAccepted(w: seq<byte>, path: seq<byte>, args: seq<Arg>, now: Timetag)
    requires IsMessage(w, path, args)
    ensures Receive(w, now) == Outcome([Item(path, args)], None, |w|)
  {
    MessageDelivered(path, args, now);
  }

  lemma BundleAccepted(w: seq<byte>, ts: Timetag, items: seq<Item>, now: Timetag)
    requires IsGoodBundle(w, ts, items)
    ensures Receive(w, now) == Outcome(items, if Immediate(ts, now) then None else Some(ts), |w|)
  {
    hide Immediate, BundleWire;
    BundleDelivered(ts, items, now);
    assert FirstMisfit(items) == |items|;
    assert items[..|items|] == items;
  }

  lemma HeaderFound(data: seq<byte>)
    requires BundleSpan(data) >= 0
    ensures StringSpan(data) == 8 && |data| >= 16 && Tiled(data[16..])
    ensures data == Header(ReadTimetag(data[8..])) + data[16..]
  {
    hide Strlen, Tiled, ReadNetwork32, Network32;
    StringSpanPadded(data);
    var span := StringSpan(data);
    assert Pad(MARKER) == data[..8] && span == 8;
    Network32Canonical(data[8..]);
    Network32Canonical(data[8..][4..]);
    assert data[8..][..4] == data[8..12] && data[8..][4..][..4] == data[12..16] && data[8..][4..] == data[12..];
    assert data == data[..8] + data[8..12] + data[12..16] + data[16..];
    assert data[span + 8..] == data[16..];
  }

  lemma AcceptedBundle(data: seq<byte>, now: Timetag)
    requires StringSpan(data) >= 0 && data[..Strlen(data)] == MARKER && Receive(data, now).result >= 0
    ensures exists ts, items :: IsGoodBundle(data, ts, items)
  {
    hide Strlen, StringSpan, Tiled, Immediate, Elements, Decode, ReadElements, ReadTimetag;
    BundleIsWhole(data);
    HeaderFound(data);
    ElementErrors(data[16..]);
    ReadElementsCanonical(data[16..]);
    assert IsGoodBundle(data, ReadTimetag(data[8..]), ReadElements(data[16..]).items);
  }

  lemma BundleIsWhole(data: seq<byte>)
    ensures BundleSpan(data) < 0 || BundleSpan(data) == |data|
  {
  }

  lemma {:induction false} ElementErrors(s: seq<byte>)
    requires Tiled(s)
    ensures ReadElements(s).error >= 0
  {
    hide Decode, ReadNetwork32;
    if s != [] {
      FirstElement(s);
      var n := ReadNetwork32(s);
      if Decode(s[4..4 + n]).Refused? {
        RefusedIsError(s[4..4 + n]);
      } else {
        ElementErrors(s[4 + n..]);
      }
    }
  }

  /** The server accepts exactly the packets that are serialised messages that fit, under another path than "#bundle",
      or serialised bundles of messages that fit; then the result is the size of the packet, and otherwise it is
      negative. */
  lemma AcceptsExactly(data: seq<byte>, now: Timetag)
    ensures Receive(data, now).result >= 0 <==>
      (exists path, args :: IsMessage(data, path, args)) || (exists ts, items :: IsGoodBundle(data, ts, items))
    ensures Receive(data, now).result >= 0 ==> Receive(data, now).result == |data|
  {
    hide Decode, Strlen, Tiled, Immediate, IsMessage, IsGoodBundle, ReadElements, BundleSpan, ReadTimetag;
    if path, args :| IsMessage(data, path, args) {
      MessageAccepted(data, path, args, now);
    } else if ts, items :| IsGoodBundle(data, ts, items) {
      BundleAccepted(data, ts, items, now);
    } else if Receive(data, now).result >= 0 {
      if data[..Strlen(data)] == MARKER {
        AcceptedBundle(data, now);
      } else {
        AcceptedMessage(data);
      }
      assert false;
    }
    ResultIsSize(data, now);
  }

  lemma AcceptedMessage(data: seq<byte>)
    requires data[..Strlen(data)] != MARKER
    ensures Decode(data).Refused? ==> Decode(data).error > 0
    ensures Decode(data).Content? ==> IsMessage(data, Decode(data).path, Decode(data).args)
  {
    hide Decode, Strlen, StringSpan, AllFit;
    if Decode(data).Refused? {
      RefusedIsError(data);
    } else {
      Canonical(data);
      DecodedPath(data);
    }
  }

  lemma ResultIsSize(data: seq<byte>, now: Timetag)
    ensures Receive(data, now).result >= 0 ==> Receive(data, now).result == |data|
  {
    hide Decode, Strlen, Tiled, Immediate, ReadElements, ReadTimetag, BundleSpan, StringSpan;
    if StringSpan(data) >= 0 {
      if data[..Strlen(data)] == MARKER {
        BundleIsWhole(data);
        if BundleSpan(data) >= 0 {
          HeaderFound(data);
          ElementErrors(data[16..]);
        }
      } else {
        AcceptedMessage(data);
      }
    }
  }

  /** The result for a packet that is not accepted: the error of its path when it does not begin with a string, that of
      the decoder when it is no bundle, the size when a bundle is cut short, and otherwise that of its first bad element,
      with the messages before it delivered. */
  lemma RefusedPackets(data: seq<byte>, now: Timetag)
    ensures !Refusals.HasString(data) ==> Receive(data, now) == Outcome([], None, StringSpan(data))
    ensures forall path, rest | Refusals.Begins(data, path, rest) && path != MARKER && Decode(data).Refused? ::
      Receive(data, now) == Outcome([], None, -Decode(data).error)
    ensures forall rest | Refusals.Begins(data, MARKER, rest) && (|rest| < 8 || !Tiled(rest[8..])) ::
      Receive(data, now) == Outcome([], None, -ESIZE)
    ensures forall ts, elements | data == Header(ts) + elements && Tiled(elements) && ReadElements(elements).error != 0 ::
      var r := ReadElements(elements);
      Receive(data, now) == Outcome(r.items, if Immediate(ts, now) then None else Some(ts), -r.error)
  {
    hide Decode, Strlen, StringSpan, Tiled, Immediate, ReadElements, ReadTimetag, Refusals.Begins, Refusals.HasString, Header;
    Refusals.AcceptsStrings(data);
    Refusals.BundleErrors(data);
    forall path, rest | Refusals.Begins(data, path, rest)
      ensures 0 <= StringSpan(data) <= |data| && data[..Strlen(data)] == path && data[StringSpan(data)..] == rest
    {
      Refusals.BeginsMeans(data, path, rest);
      StringSpanPadded(data);
    }
    forall ts, elements | data == Header(ts) + elements
      ensures Strlen(data) == 7 && data[..7] == MARKER && StringSpan(data) == 8 && ReadTimetag(data[8..]) == ts
      ensures data[16..] == elements
    {
      HeaderReads(ts, elements);
    }
  }

  // An element that does not decode ends the reading: what comes before it is delivered, and its error is the packet's.
  lemma {:induction false} BadElementEnds(items: seq<Item>, bad: seq<byte>, rest: seq<byte>)
    requires Writable(items) && Fitting(items) && |bad| < TWO_TO_THE_32 && Decode(bad).Refused? && Tiled(rest)
    ensures var s := Elements(items) + (Network32(|bad|) + bad + rest);
      Tiled(s) && ReadElements(s) == Reading(items, Decode(bad).error)
  {
    hide Decode, Osc.Wire, Network32, AllFit;
    if items == [] {
      Network32RoundTrip(|bad|, bad + rest);
      Assoc(Network32(|bad|), bad, rest);
      var s := Network32(|bad|) + bad + rest;
      assert s[4..4 + |bad|] == bad && s[4 + |bad|..] == rest;
      assert Elements([]) + s == s;
    } else {
      var item, more := items[0], items[1..];
      BadElementEnds(more, bad, rest);
      var tail := Elements(more) + (Network32(|bad|) + bad + rest);
      ElementReads(item, tail);
      Assoc(Network32(|item.Wire()|) + item.Wire(), Elements(more), Network32(|bad|) + bad + rest);
      assert items == [item] + more;
    }
  }

  // A call of dispatch_method.
  datatype Dispatched = Dispatched(path: seq<byte>, msg: Message)

  // Message objects stand for the messages of a packet.
  ghost predicate Carry(msgs: seq<Message>, items: seq<Item>)
    reads msgs
  {
    |msgs| == |items| && forall i | 0 <= i < |msgs| :: msgs[i].args == items[i].args
  }

  lemma CarryNothing()
    ensures Carry([], [])
  {
  }

  lemma CarryOneMore(msgs: seq<Message>, items: seq<Item>, m: Message, item: Item)
    requires Carry(msgs, items) && m.args == item.args
    ensures Carry(msgs + [m], items + [item])
  {
  }

  function Paths(items: seq<Item>): (p: seq<seq<byte>>)
    ensures |p| == |items|
  {
    seq(|items|, i requires 0 <= i < |items| => items[i].path)
  }

  function Calls(items: seq<Item>, msgs: seq<Message>): (c: seq<Dispatched>)
    requires |items| == |msgs|
    ensures |c| == |items|
  {
    seq(|items|, i requires 0 <= i < |items| => Dispatched(items[i].path, msgs[i]))
  }

  // What has become of the messages read so far: all dispatched in order, or all queued in order.
  ghost predicate Delivered(items: seq<Item>, msgs: seq<Message>, ran: seq<Dispatched>, at: Option<Timetag>,
                            before: seq<Entry<Message>>, after: seq<Entry<Message>>)
  {
    && |items| == |msgs|
    && ran == (if at.None? then Calls(items, msgs) else [])
    && after == if at.None? then before else QueueAll(before, at.value, Paths(items), msgs)
  }

  lemma DeliveredNothing(at: Option<Timetag>, q: seq<Entry<Message>>)
    ensures Delivered([], [], [], at, q, q)
  {
  }

  lemma DeliveredOneMore(items: seq<Item>, msgs: seq<Message>, ran: seq<Dispatched>, at: Option<Timetag>,
                         before: seq<Entry<Message>>, after: seq<Entry<Message>>, item: Item, m: Message)
    requires Delivered(items, msgs, ran, at, before, after)
    ensures Delivered(items + [item], msgs + [m], ran + (if at.None? then [Dispatched(item.path, m)] else []), at,
                      before, if at.None? then after else Insert(after, Entry(at.value, item.path, m)))
  {
    hide Insert, Place;
    var moreItems, moreMsgs := items + [item], msgs + [m];
    assert moreMsgs[..|msgs|] == msgs && moreMsgs[|msgs|] == m;
    assert Paths(moreItems)[..|msgs|] == Paths(items);
    assert Calls(moreItems, moreMsgs) == Calls(items, msgs) + [Dispatched(item.path, m)];
  }

  lemma DecodedPath(w: seq<byte>)
    requires Decode(w).Content?
    ensures Decode(w).path == w[..Strlen(w)]
  {
  }

  // The first element of tiled data, and tiled data behind it.
  lemma FirstElement(s: seq<byte>)
    requires Tiled(s) && |s| >= 4
    ensures 4 + ReadNetwork32(s) <= |s| && Tiled(s[4 + ReadNetwork32(s)..])
  {
  }

  function Append(done: seq<Item>, rest: Reading): Reading {
    Reading(done + rest.items, rest.error)
  }

  // One more element read.
  lemma ReadStep(s: seq<byte>, n: nat, done: seq<Item>)
    requires 4 + n <= |s| && n == ReadNetwork32(s) && Tiled(s) && Tiled(s[4 + n..])
    ensures match Decode(s[4..4 + n])
      case Refused(e) => Append(done, ReadElements(s)) == Reading(done, e)
      case Content(path, args) =>
        Append(done, ReadElements(s)) == Append(done + [Item(path, args)], ReadElements(s[4 + n..]))
  {
    hide Decode, ReadNetwork32;
    match Decode(s[4..4 + n])
    case Content(path, args) => Assoc(done, [Item(path, args)], ReadElements(s[4 + n..]).items);
    case Refused(_) => assert done + [] == done;
  }

  // One element of a bundle: decoded, then dispatched at once or queued.
  method DeliverElement(q: Queue<Message>, element: seq<byte>, ts: Timetag, now: Timetag)
    returns (msg: Message?, ran: seq<Dispatched>, error: int)
    requires q.Valid()
    modifies q, q.Footprint()
    ensures q.Valid() && fresh(q.Footprint() - old(q.Footprint()))
    ensures match Decode(element)
      case Refused(e) => msg == null && ran == [] && error == e && q.Entries() == old(q.Entries())
      case Content(path, args) =>
        && msg != null && fresh(msg) && fresh(msg.types) && fresh(msg.data) && msg.Valid() && msg.args == args
        && ran == (if Immediate(ts, now) then [Dispatched(path, msg)] else [])
        && q.Entries() == if Immediate(ts, now) then old(q.Entries()) else Insert(old(q.Entries()), Entry(ts, path, msg))
  {
    hide Decode, Insert, Diff, Message.Valid;
    ran := [];
    msg, error := Deserialise(element);
    if msg == null {
      return;
    }
    DecodedPath(element);
    var path := element[..Strlen(element)];
    if Immediate(ts, now) {
      ran := [Dispatched(path, msg)];
    } else {
      q.QueueData(ts, path, msg);
    }
  }

  // Until when the messages of a packet wait.
  function Until(ts: Timetag, now: Timetag): Option<Timetag> {
    if Immediate(ts, now) then None else Some(ts)
  }

  // The elements of a valid bundle: each one is decoded, and dispatched or queued, before the next is read.
  method DispatchElements(q: Queue<Message>, elements: seq<byte>, ts: Timetag, now: Timetag)
    returns (msgs: seq<Message>, ran: seq<Dispatched>, error: int)
    requires q.Valid() && Tiled(elements)
    modifies q, q.Footprint()
    ensures q.Valid() && fresh(q.Footprint() - old(q.Footprint()))
    ensures forall m | m in msgs :: m.Valid() && fresh(m.types) && fresh(m.data)
    ensures var reading := ReadElements(elements);
      && error == reading.error && Carry(msgs, reading.items) && fresh(msgs)
      && Delivered(reading.items, msgs, ran, Until(ts, now), old(q.Entries()), q.Entries())
  {
    hide Decode, Immediate, Insert, ReadElements, QueueAll, Tiled, Message.Valid, Delivered, Queue.Valid, Queue.Entries,
         ReadNetwork32, Carry;
    var s := elements;
    msgs, ran := [], [];
    ghost var items, before := [], q.Entries();
    CarryNothing();
    DeliveredNothing(Until(ts, now), before);
    assert ReadElements(elements) == Append([], ReadElements(s));
    while |s| >= 4
      invariant Tiled(s)
      invariant ReadElements(elements) == Append(items, ReadElements(s))
      invariant Carry(msgs, items) && fresh(msgs)
      invariant forall m | m in msgs :: m.Valid() && fresh(m.types) && fresh(m.data)
      invariant q.Valid() && fresh(q.Footprint() - old(q.Footprint()))
      invariant Delivered(items, msgs, ran, Until(ts, now), before, q.Entries())
      decreases |s|
    {
      FirstElement(s);
      var elemLen := ReadNetwork32(s);
      ReadStep(s, elemLen, items);
      ghost var was := q.Entries();
      var msg, call, e := DeliverElement(q, s[4..4 + elemLen], ts, now);
      if msg == null {
        return msgs, ran, e;
      }
      ghost var item := Item(Decode(s[4..4 + elemLen]).path, Decode(s[4..4 + elemLen]).args);
      DeliveredOneMore(items, msgs, ran, Until(ts, now), before, was, item, msg);
      CarryOneMore(msgs, items, msg, item);
      items, msgs, ran := items + [item], msgs + [msg], ran + call;
      s := s[4 + elemLen..];
    }
    TooShortToRead(s);
    assert items + [] == items;
    error := 0;
  }

  lemma NothingRead(now: Timetag)
    ensures Receive([], now).items == []
  {
  }

  lemma TooShortToRead(s: seq<byte>)
    requires Tiled(s) && |s| < 4
    ensures ReadElements(s) == Reading([], 0)
  {
  }

  // lo_server_dispatch_data
  method DispatchData(q: Queue<Message>, data: seq<byte>, now: Timetag)
    returns (msgs: seq<Message>, ran: seq<Dispatched>, result: int)
    requires q.Valid()
    modifies q, q.Footprint()
    ensures q.Valid() && fresh(q.Footprint() - old(q.Footprint()))
    ensures forall m | m in msgs :: m.Valid() && fresh(m.types) && fresh(m.data)
    ensures var o := Receive(data, now);
      && result == o.result && Carry(msgs, o.items) && fresh(msgs)
      && Delivered(o.items, msgs, ran, o.until, old(q.Entries()), q.Entries())
  {
    hide Decode, Immediate, StringSpan, ReadElements, Delivered, Queue.Valid, Queue.Entries, Message.Valid, Tiled;
    DeliveredNothing(None, q.Entries());
    var size := |data|;
    assert data[..size] == data;
    var len := Validators.ValidateString(data, size);
    if len < 0 {
      return [], [], len;
    }
    StringSpanPadded(data);
    if data[..Strlen(data)] == MARKER {
      var bundleResult := Validators.ValidateBundle(data, size);
      if bundleResult < 0 {
        return [], [], bundleResult;
      }
      var ts := ReadTimetag(data[len..]);
      var error;
      msgs, ran, error := DispatchElements(q, data[len + 8..], ts, now);
      return msgs, ran, if error == 0 then size else -error;
    }
    msgs, ran, result := DispatchMessage(data, q.Entries());
  }

  // A packet that is a plain message is dispatched at once.
  method DispatchMessage(data: seq<byte>, ghost q: seq<Entry<Message>>)
    returns (msgs: seq<Message>, ran: seq<Dispatched>, result: int)
    ensures fresh(msgs)
    ensures forall m | m in msgs :: m.Valid() && fresh(m.types) && fresh(m.data)
    ensures match Decode(data)
      case Content(path, args) =>
        result == |data| && Carry(msgs, [Item(path, args)]) && Delivered([Item(path, args)], msgs, ran, None, q, q)
      case Refused(e) => result == -e && msgs == [] && ran == []
  {
    hide Decode, Message.Valid, Delivered;
    var msg, error := Deserialise(data);
    if msg == null {
      return [], [], -error;
    }
    DecodedPath(data);
    var path := data[..Strlen(data)];
    DeliveredNothing(None, q);
    DeliveredOneMore([], [], [], None, q, q, Item(path, Decode(data).args), msg);
    ghost var items, calls := [Item(path, Decode(data).args)], [Dispatched(path, msg)];
    assert [] + items == items && [] + [msg] == [msg] && [] + calls == calls;
    return [msg], [Dispatched(path, msg)], |data|;
  }

  // lo_server_next_event_delay on the list
  method QueueDelay(q: Queue<Message>, now: Timetag) returns (delay: real)
    requires q.Valid()
    ensures delay == NextEventDelay(q.Entries(), now)
  {
    if q.queued == null {
      return 100.0;
    }
    delay := Diff(q.queued.entry.ts, now);
    delay := if delay > 100.0 then 100.0 else delay;
    delay := if delay < 0.0 then 0.0 else delay;
  }

  // The messages read by a call of lo_server_recv that finds the given queue.
  function ReadBy<M>(q: seq<Entry<M>>, rounds: seq<Round<seq<byte>>>): seq<Item> {
    match Decide(q, rounds)
    case Received(data, at) => Receive(data, at).items
    case _ => []
  }

  // What one call of lo_server_recv does to the queue: fired are the queued messages it ran, msgs the messages it
  // read, ran those it dispatched at once.
  ghost predicate Handled(before: seq<Entry<Message>>, after: seq<Entry<Message>>, rounds: seq<Round<seq<byte>>>,
                          fired: seq<Entry<Message>>, msgs: seq<Message>, ran: seq<Dispatched>)
  {
    match Decide(before, rounds)
    case Waiting => after == before && fired == [] && msgs == [] && ran == []
    case Failed => after == before && fired == [] && msgs == [] && ran == []
    case Received(data, at) =>
      && fired == []
      && if data == [] then after == before && msgs == [] && ran == []
         else var o := Receive(data, at); Delivered(o.items, msgs, ran, o.until, before, after)
    case Due(now) =>
      && before != [] && Diff(before[0].ts, now) <= 0.01
      && fired == before[..Batch(before)] && after == before[Batch(before)..] && msgs == [] && ran == []
  }

  // lo_server_recv, given the clock and the polls it will see; a script that ends leaves it waiting.
  // dispatch_queued is only reached with a message that is due.
  method Recv(q: Queue<Message>, rounds: seq<Round<seq<byte>>>)
    returns (fired: seq<Entry<Message>>, msgs: seq<Message>, ran: seq<Dispatched>, result: int)
    requires q.Valid()
    modifies q, q.Footprint()
    ensures q.Valid() && fresh(q.Footprint() - old(q.Footprint()))
    ensures fresh(msgs) && Carry(msgs, ReadBy(old(q.Entries()), rounds))
    ensures forall m | m in msgs :: m.Valid() && fresh(m.types) && fresh(m.data)
    ensures Handled(old(q.Entries()), q.Entries(), rounds, fired, msgs, ran)
    ensures match Decide(old(q.Entries()), rounds)
      case Received(data, at) =>
        result == if data == [] then 0 else if Receive(data, at).result < 0 then -1 else |data|
      case _ => result == 0
  {
    hide Queue.Valid, Queue.Entries, Receive, Delivered, Batch, NextEventDelay, Diff;
    ghost var before := q.Entries();
    fired, msgs, ran, result := [], [], [], 0;
    var left := rounds;
    while left != []
      invariant q.Valid() && q.Entries() == before && q.Footprint() == old(q.Footprint())
      invariant Decide(before, left) == Decide(before, rounds)
      decreases |left|
    {
      var round := left[0];
      var schedTime := QueueDelay(q, round.now);
      if schedTime > 0.01 {
        match round.poll {
          case Error =>
            return;
          case Data(data, at) =>
            if data == [] {
              NothingRead(at);
              return;
            }
            msgs, ran, result := DispatchData(q, data, at);
            return [], msgs, ran, if result < 0 then -1 else |data|;
          case Idle =>
            left := left[1..];
        }
      } else {
        DueMeansDue(before, rounds);
        fired, result := Fire(q);
        return;
      }
    }
  }

  // dispatch_queued, called with something to dispatch.
  method Fire(q: Queue<Message>) returns (fired: seq<Entry<Message>>, result: int)
    requires q.Valid() && q.Entries() != []
    modifies q, q.Footprint()
    ensures q.Valid() && result == 0 && q.Footprint() <= old(q.Footprint())
    ensures var before := old(q.Entries()); fired == before[..Batch(before)] && q.Entries() == before[Batch(before)..]
  {
    fired, result := q.DispatchQueued();
  }
}
