/** The packet format by itself: where each byte of a message or bundle stands and what it means, without the
    functions that write and read it. */
module WireFormat {
  import opened Bytes
  import opened Osc
  import opened Codec
  import opened Timetags
  import opened BundleFormat

  // ---- Arguments ----

  // A string or block with its one to four NULs, in whole words.
  predicate Padded(s: seq<byte>, chars: seq<byte>) {
    && |s| % 4 == 0 && |chars| < |s| <= |chars| + 4
    && s[..|chars|] == chars && Cleared(s, |chars|, |s|)
  }

  // The bytes that stand for an argument: numbers are big-endian, a 'm' argument is left as it is.
  predicate OnWire(a: Arg, s: seq<byte>) {
    match a
    case Unit(_) => s == []
    case Word(t, w) => |s| == 4 && if t as char == 'm' then s == w else BigEndian(s) == LittleEndian(w)
    case Wide(_, w) => |s| == 8 && BigEndian(s) == LittleEndian(w)
    case Text(_, chars) => Padded(s, chars)
    case Blob(d) => |s| >= 4 && BigEndian(s[..4]) == |d| && Padded(s, s[..4] + d)
  }

  lemma PaddedIsPad(s: seq<byte>, chars: seq<byte>)
    ensures Padded(s, chars) <==> s == Pad(chars)
  {
    PaddedWhole(|chars|);
    if Padded(s, chars) {
      WholeAbove(|s|, |chars|);
      assert s[|chars|..] == Zeros(|s| - |chars|);
      assert s == s[..|chars|] + s[|chars|..];
    }
  }

  lemma WholeAbove(size: nat, n: nat)
    requires size % 4 == 0 && n < size <= n + 4
    ensures size == PaddedSize(n)
  {
  }

  lemma NumberOnWire(w: seq<byte>, swapped: seq<byte>, s: seq<byte>)
    requires |s| == |w| == |swapped| && BigEndian(swapped) == LittleEndian(w)
    ensures BigEndian(s) == LittleEndian(w) <==> s == swapped
  {
    if BigEndian(s) == LittleEndian(w) {
      BigEndianInjective(s, swapped);
    }
  }

  lemma BlobOnWire(a: Arg, s: seq<byte>)
    requires a.Blob?
    ensures OnWire(a, s) <==> s == a.Form(Network)
  {
    hide BigEndian, Network32, Padded, PaddedSize;
    var n, head := |a.data|, Network32(|a.data|);
    NetworkIsBigEndian(n, []);
    PaddedIsPad(s, head + a.data);
    assert a.Form(Network) == Pad(head + a.data);
    SplitAt(head, a.data + Zeros(PaddedSize(4 + n) - (4 + n)));
    Assoc(head, a.data, Zeros(PaddedSize(4 + n) - (4 + n)));
    if OnWire(a, s) {
      BigEndianInjective(s[..4], head);
    }
  }

  /** The network form of an argument is exactly what the format says, and nothing else is. */
  lemma FormIsOnWire(a: Arg, s: seq<byte>)
    ensures OnWire(a, s) <==> s == a.Form(Network)
  {
    hide BigEndian, LittleEndian, Padded, Pad, Swap32, Swap64;
    match a
    case Unit(_) =>
    case Word(_, w) =>
      SwapsReverse(w);
      if |s| == 4 {
        NumberOnWire(w, Swap32(w), s);
      }
    case Wide(_, w) =>
      SwapsReverse(w);
      if |s| == 8 {
        NumberOnWire(w, Swap64(w), s);
      }
    case Text(_, chars) => PaddedIsPad(s, chars);
    case Blob(_) => BlobOnWire(a, s);
  }

  /** The type characters, how many bytes an argument of each type has, and which can be received. */
  lemma TypeCharacters(a: Arg)
    ensures var t := a.Tag() as char;
      && t in "ifsbhtdScmTFNI"
      && (t in "TFNI" <==> a.Unit?) && (t in "ifcm" <==> a.Word?) && (t in "htd" <==> a.Wide?)
      && (t in "sS" <==> a.Text?) && (t == 'b' <==> a.Blob?)
      && (t in "TFNI" ==> a.Size() == 0) && (t in "ifcm" ==> a.Size() == 4) && (t in "htd" ==> a.Size() == 8)
      && (a.Fits() <==> !(a.Blob? && |a.data| > 32768))
  {
  }

  // Every one of them has arguments, and a character without any is refused.
  lemma KnownTypes(t: byte, s: seq<byte>)
    ensures t as char in "ifsbhtdScmTFNI" <==> exists a: Arg :: a.Tag() == t
    ensures t as char !in "ifsbhtdScmTFNI" <==> ArgSpan(t, s) == -EINVALIDTYPE
  {
    hide StringSpan, BlobSpan;
    if t as char in "ifsbhtdScmTFNI" {
      var a := ArgumentOf(t);
    }
    forall a: Arg ensures a.Tag() as char in "ifsbhtdScmTFNI" {
      TypeCharacters(a);
    }
    SpanErrors(s);
  }

  lemma ArgumentOf(t: byte) returns (a: Arg)
    requires t as char in "ifsbhtdScmTFNI"
    ensures a.Tag() == t
  {
    a := if t as char in "TFNI" then Unit(t) else if t as char in "ifcm" then Word(t, Zeros(4))
         else if t as char in "htd" then Wide(t, Zeros(8)) else if t as char in "sS" then Text(t, []) else Blob([]);
  }

  lemma SpanErrors(s: seq<byte>)
    ensures StringSpan(s) != -EINVALIDTYPE && BlobSpan(s) != -EINVALIDTYPE
  {
  }

  // ---- Messages ----

  function Joined(parts: seq<seq<byte>>): seq<byte> {
    if parts == [] then [] else parts[0] + Joined(parts[1..])
  }

  ghost predicate AllOnWire(args: seq<Arg>, parts: seq<seq<byte>>) {
    |parts| == |args| && forall i | 0 <= i < |args| :: OnWire(args[i], parts[i])
  }

  // A packet: path, type string and arguments one behind the other.
  ghost predicate IsPacket(path: seq<byte>, args: seq<Arg>, w: seq<byte>) {
    exists p, t, parts ::
      && Padded(p, path) && Padded(t, [',' as byte] + Tags(args)) && AllOnWire(args, parts)
      && w == p + t + Joined(parts)
  }

  lemma {:induction false} PartsAreForms(args: seq<Arg>, parts: seq<seq<byte>>)
    requires AllOnWire(args, parts)
    ensures Joined(parts) == Forms(args, Network)
  {
    hide OnWire, Argument.Form;
    if args != [] {
      assert OnWire(args[0], parts[0]);
      FormIsOnWire(args[0], parts[0]);
      assert forall i | 0 <= i < |args[1..]| :: args[1..][i] == args[i + 1] && parts[1..][i] == parts[i + 1];
      PartsAreForms(args[1..], parts[1..]);
    }
  }

  lemma PartsOf(args: seq<Arg>) returns (parts: seq<seq<byte>>)
    ensures AllOnWire(args, parts)
  {
    hide OnWire, Argument.Form;
    parts := seq(|args|, i requires 0 <= i < |args| => args[i].Form(Network));
    forall i | 0 <= i < |args| ensures OnWire(args[i], parts[i]) {
      FormIsOnWire(args[i], parts[i]);
    }
  }

  /** What lo_message_serialise sends is exactly a packet of that path and those arguments. */
  lemma WireIsPacket(path: seq<byte>, args: seq<Arg>, w: seq<byte>)
    ensures IsPacket(path, args, w) <==> w == Osc.Wire(path, args)
  {
    hide Padded, AllOnWire, Pad, Forms, Joined, Tags;
    if w == Osc.Wire(path, args) {
      var parts := PartsOf(args);
      PartsAreForms(args, parts);
      PaddedIsPad(Pad(path), path);
      PaddedIsPad(Pad(TypeString(args)), TypeString(args));
      assert w == Pad(path) + Pad(TypeString(args)) + Joined(parts);
    }
    if IsPacket(path, args, w) {
      var p, t, parts :|
        && Padded(p, path) && Padded(t, [',' as byte] + Tags(args)) && AllOnWire(args, parts)
        && w == p + t + Joined(parts);
      PartsAreForms(args, parts);
      PaddedIsPad(p, path);
      PaddedIsPad(t, TypeString(args));
    }
  }

  // ---- Bundles ----

  // An element: the size of the packet that follows, and the packet.
  ghost predicate IsElement(item: Item, e: seq<byte>) {
    |e| >= 4 && BigEndian(e[..4]) == |e| - 4 && IsPacket(item.path, item.args, e[4..])
  }

  ghost predicate AllElements(items: seq<Item>, parts: seq<seq<byte>>) {
    |parts| == |items| && forall i | 0 <= i < |items| :: IsElement(items[i], parts[i])
  }

  // The characters of a text, as bytes.
  predicate Spells(s: seq<byte>, text: string) {
    |s| == |text| && forall i | 0 <= i < |s| :: s[i] == text[i] as int
  }

  lemma MarkerSpelled(s: seq<byte>)
    ensures Spells(s, "#bundle") <==> s == MARKER
  {
    if Spells(s, "#bundle") {
      assert s[0] == '#' as int && s[1] == 'b' as int && s[2] == 'u' as int && s[3] == 'n' as int;
      assert s[4] == 'd' as int && s[5] == 'l' as int && s[6] == 'e' as int;
    }
  }

  // "#bundle" with its NUL, seconds, fraction, and the elements one behind the other.
  ghost predicate IsBundle(ts: Timetag, items: seq<Item>, w: seq<byte>) {
    && |w| >= 16 && Spells(w[..7], "#bundle") && w[7] == 0
    && BigEndian(w[8..12]) == ts.sec && BigEndian(w[12..16]) == ts.frac
    && exists parts :: AllElements(items, parts) && w[16..] == Joined(parts)
  }

  lemma ElementIsWire(item: Item, e: seq<byte>)
    requires |item.Wire()| < TWO_TO_THE_32
    ensures IsElement(item, e) <==> e == Network32(|item.Wire()|) + item.Wire()
  {
    hide BigEndian, Network32, IsPacket, Osc.Wire;
    var w := item.Wire();
    NetworkIsBigEndian(|w|, []);
    SplitAt(Network32(|w|), w);
    if |e| >= 4 {
      WireIsPacket(item.path, item.args, e[4..]);
      assert e == e[..4] + e[4..];
      if IsElement(item, e) {
        BigEndianInjective(e[..4], Network32(|w|));
      }
    }
    WireIsPacket(item.path, item.args, w);
  }

  lemma {:induction false} PartsAreElements(items: seq<Item>, parts: seq<seq<byte>>)
    requires Writable(items) && AllElements(items, parts)
    ensures Joined(parts) == Elements(items)
  {
    hide IsElement, Item.Wire, Network32;
    if items != [] {
      assert IsElement(items[0], parts[0]);
      ElementIsWire(items[0], parts[0]);
      assert forall i | 0 <= i < |items[1..]| :: items[1..][i] == items[i + 1] && parts[1..][i] == parts[i + 1];
      PartsAreElements(items[1..], parts[1..]);
    }
  }

  lemma ElementsOf(items: seq<Item>) returns (parts: seq<seq<byte>>)
    requires Writable(items)
    ensures AllElements(items, parts)
  {
    hide IsElement, Item.Wire, Network32;
    parts := seq(|items|, i requires 0 <= i < |items| => Network32(|items[i].Wire()|) + items[i].Wire());
    forall i | 0 <= i < |items| ensures IsElement(items[i], parts[i]) {
      ElementIsWire(items[i], parts[i]);
    }
  }

  lemma HeaderIs(ts: Timetag, h: seq<byte>)
    requires |h| == 16
    ensures h == Header(ts) <==>
      Spells(h[..7], "#bundle") && h[7] == 0 && BigEndian(h[8..12]) == ts.sec && BigEndian(h[12..16]) == ts.frac
  {
    hide BigEndian, Network32, Spells;
    MarkerSpelled(h[..7]);
    assert h[..8] == h[..7] + [h[7]];
    var sec, frac := Network32(ts.sec), Network32(ts.frac);
    NetworkIsBigEndian(ts.sec, []);
    NetworkIsBigEndian(ts.frac, []);
    assert Pad(MARKER) == MARKER + [0];
    var g := Header(ts);
    assert g[..8] == MARKER + [0] && g[8..12] == sec && g[12..16] == frac;
    if h[..8] == MARKER + [0] && BigEndian(h[8..12]) == ts.sec && BigEndian(h[12..16]) == ts.frac {
      BigEndianInjective(h[8..12], sec);
      BigEndianInjective(h[12..16], frac);
      assert h == h[..8] + h[8..12] + h[12..16];
    }
  }

  /** What lo_bundle_serialise sends is exactly a bundle of that timetag and those messages. */
  lemma WireIsBundle(ts: Timetag, items: seq<Item>, w: seq<byte>)
    requires Writable(items)
    ensures IsBundle(ts, items, w) <==> w == BundleWire(ts, items)
  {
    hide Header, Elements, AllElements, Joined, BigEndian, Spells;
    if |w| >= 16 {
      HeaderIs(ts, w[..16]);
      assert w[..16][..7] == w[..7] && w[..16][8..12] == w[8..12] && w[..16][12..16] == w[12..16];
      assert w == w[..16] + w[16..];
    }
    if w == BundleWire(ts, items) {
      SplitAt(Header(ts), Elements(items));
      var parts := ElementsOf(items);
      PartsAreElements(items, parts);
    }
    if IsBundle(ts, items, w) {
      var parts :| AllElements(items, parts) && w[16..] == Joined(parts);
      PartsAreElements(items, parts);
    }
  }
}
