/** Bundles on the wire: what lo_bundle_serialise writes and what the server reads back. */
module BundleFormat {
  import opened Bytes
  import opened Osc
  import opened Codec
  import opened Timetags

  // "#bundle"
  const MARKER: seq<byte> := [0x23, 0x62, 0x75, 0x6E, 0x64, 0x6C, 0x65]

  datatype Item = Item(path: seq<byte>, args: seq<Arg>) {
    function Wire(): seq<byte> {
      Osc.Wire(path, args)
    }
  }

  function Elements(items: seq<Item>): seq<byte> {
    if items == [] then [] else Network32(|items[0].Wire()|) + items[0].Wire() + Elements(items[1..])
  }

  function Header(ts: Timetag): (h: seq<byte>)
    ensures |h| == 16
  {
    Pad(MARKER) + Network32(ts.sec) + Network32(ts.frac)
  }

  function BundleWire(ts: Timetag, items: seq<Item>): seq<byte> {
    Header(ts) + Elements(items)
  }

  // lo_bundle_length
  function BundleLength(items: seq<Item>): nat {
    16 + 4 * |items| + WireTotal(items)
  }

  function WireTotal(items: seq<Item>): nat {
    if items == [] then 0 else WireTotal(items[..|items| - 1]) + |items[|items| - 1].Wire()|
  }

  // Paths are C strings, and no element is so long that its size word would wrap around.
  predicate Writable(items: seq<Item>) {
    forall i | 0 <= i < |items| :: NulFree(items[i].path) && |items[i].Wire()| < TWO_TO_THE_32
  }

  // Size words and elements cover s exactly.
  predicate Tiled(s: seq<byte>) {
    if |s| < 4 then s == []
    else 4 + ReadNetwork32(s) <= |s| && Tiled(s[4 + ReadNetwork32(s)..])
  }

  // The answer of lo_validate_bundle.
  function BundleSpan(s: seq<byte>): int {
    if StringSpan(s) < 0 then -ESIZE
    else if s[..Strlen(s)] != MARKER then -EINVALIDBUND
    else if |s| - StringSpan(s) < 8 then -ESIZE
    else if !Tiled(s[StringSpan(s) + 8..]) then -ESIZE
    else |s|
  }

  function ReadTimetag(s: seq<byte>): Timetag
    requires |s| >= 8
  {
    Timetag(ReadNetwork32(s), ReadNetwork32(s[4..]))
  }

  // The messages read before the end, or before the first element that does not decode; error 0 is success.
  datatype Reading = Reading(items: seq<Item>, error: int)

  function ReadElements(s: seq<byte>): Reading
    requires Tiled(s)
  {
    if s == [] then Reading([], 0)
    else
      var n := ReadNetwork32(s);
      match Decode(s[4..4 + n])
      case Refused(e) => Reading([], e)
      case Content(path, args) =>
        var rest := ReadElements(s[4 + n..]);
        Reading([Item(path, args)] + rest.items, rest.error)
  }

  // How many messages come before the first one with a blob over the limit.
  function FirstMisfit(items: seq<Item>): (k: nat)
    ensures k <= |items| && (k < |items| ==> !AllFit(items[k].args))
    ensures forall i | 0 <= i < k :: AllFit(items[i].args)
  {
    if items == [] || !AllFit(items[0].args) then 0 else 1 + FirstMisfit(items[1..])
  }

  lemma FirstMisfitStep(items: seq<Item>)
    requires items != []
    ensures var k, j := FirstMisfit(items), FirstMisfit(items[1..]);
      if AllFit(items[0].args) then k == 1 + j && items[..k] == [items[0]] + items[1..][..j] else k == 0
  {
  }

  lemma ElementSplits(item: Item, tail: seq<byte>)
    requires |item.Wire()| < TWO_TO_THE_32
    ensures var s := Network32(|item.Wire()|) + item.Wire() + tail; var n := |item.Wire()|;
      ReadNetwork32(s) == n && s[4..4 + n] == item.Wire() && s[4 + n..] == tail
  {
    var w := item.Wire();
    assert Network32(|w|) + w + tail == Network32(|w|) + (w + tail);
    Network32RoundTrip(|w|, w + tail);
    SplitAt(w, tail);
  }

  lemma ElementReads(item: Item, tail: seq<byte>)
    requires |item.Wire()| < TWO_TO_THE_32 && NulFree(item.path) && Tiled(tail)
    ensures var s := Network32(|item.Wire()|) + item.Wire() + tail; var rest := ReadElements(tail);
      && Tiled(s)
      && ReadElements(s) ==
         if AllFit(item.args) then Reading([item] + rest.items, rest.error) else Reading([], EINVALIDARG)
  {
    ElementSplits(item, tail);
    RoundTrip(item.path, item.args);
    assert item == Item(item.path, item.args);
  }

  /** Reading the elements of a bundle gives its messages in order, up to the first that the decoder
      refuses; the messages before that one have been delivered all the same. */
  lemma {:induction false} ElementsRoundTrip(items: seq<Item>)
    requires Writable(items)
    ensures Tiled(Elements(items))
    ensures var k := FirstMisfit(items);
      ReadElements(Elements(items)) == Reading(items[..k], if k == |items| then 0 else EINVALIDARG)
  {
    if items != [] {
      ElementsRoundTrip(items[1..]);
      ElementReads(items[0], Elements(items[1..]));
      FirstMisfitStep(items);
    }
  }

  lemma {:induction false} ElementsConcat(a: seq<Item>, b: seq<Item>)
    ensures Elements(a + b) == Elements(a) + Elements(b)
  {
    if a == [] {
      assert a + b == b;
    } else {
      assert (a + b)[1..] == a[1..] + b;
      ElementsConcat(a[1..], b);
    }
  }

  lemma ElementsSnoc(items: seq<Item>, item: Item)
    ensures Elements(items + [item]) == Elements(items) + Network32(|item.Wire()|) + item.Wire()
  {
    hide Item.Wire, Network32;
    ElementsConcat(items, [item]);
    var head := Network32(|item.Wire()|) + item.Wire();
    assert [item][1..] == [] && Elements([item]) == head + [] == head;
    Assoc(Elements(items), Network32(|item.Wire()|), item.Wire());
  }

  lemma {:induction false} LengthOfWire(ts: Timetag, items: seq<Item>)
    ensures |BundleWire(ts, items)| == BundleLength(items)
  {
    if items != [] {
      var front, last := items[..|items| - 1], items[|items| - 1];
      assert items == front + [last];
      LengthOfWire(ts, front);
      ElementsSnoc(front, last);
    }
  }

  lemma HeaderReads(ts: Timetag, rest: seq<byte>)
    ensures var s := Header(ts) + rest;
      && Strlen(s) == 7 && s[..7] == MARKER && StringSpan(s) == 8
      && ReadTimetag(s[8..]) == ts && s[16..] == rest
  {
    var tags := Network32(ts.sec) + (Network32(ts.frac) + rest);
    assert Header(ts) + rest == Pad(MARKER) + tags;
    PaddedStringSpan(MARKER, tags);
    Network32RoundTrip(ts.sec, Network32(ts.frac) + rest);
    assert tags[4..] == Network32(ts.frac) + rest;
    Network32RoundTrip(ts.frac, rest);
  }

  /** lo_validate_bundle takes every serialised bundle whole, and what the server then reads is the
      timetag and the messages that were put in. */
  lemma BundleRoundTrip(ts: Timetag, items: seq<Item>)
    requires Writable(items)
    ensures var w := BundleWire(ts, items); var k := FirstMisfit(items);
      && BundleSpan(w) == |w| && ReadTimetag(w[8..]) == ts
      && ReadElements(w[16..]) == Reading(items[..k], if k == |items| then 0 else EINVALIDARG)
  {
    hide Elements, FirstMisfit;
    HeaderReads(ts, Elements(items));
    ElementsRoundTrip(items);
  }
}
