/** The bundle object of bundle.c: a growing list of messages with their paths, and its serialisation. */
module Bundles {
  import opened Bytes
  import opened Osc
  import opened Timetags
  import opened BundleFormat
  import opened Messages

  // What a list of message objects would put into a bundle now.
  ghost function ItemsOf(ms: seq<Message>, paths: seq<seq<byte>>): (items: seq<Item>)
    requires |ms| == |paths|
    reads ms
    ensures |items| == |ms|
  {
    seq(|ms|, i requires 0 <= i < |ms| reads ms => Item(paths[i], ms[i].args))
  }

  lemma ElementFits(ts: Timetag, items: seq<Item>, i: nat)
    requires i < |items|
    ensures |Header(ts) + Elements(items[..i])| + 4 + |items[i].Wire()| <= |BundleWire(ts, items)|
    ensures Elements(items[..i + 1]) == Elements(items[..i]) + Network32(|items[i].Wire()|) + items[i].Wire()
  {
    hide Elements, Header, Item.Wire, Network32;
    assert items == items[..i + 1] + items[i + 1..];
    ElementsConcat(items[..i + 1], items[i + 1..]);
    assert items[..i + 1] == items[..i] + [items[i]];
    ElementsSnoc(items[..i], items[i]);
  }

  // A message serialised behind a gap of four bytes, and its length put into the gap.
  lemma ElementWritten(s0: seq<byte>, s1: seq<byte>, s2: seq<byte>, pos: nat, wire: seq<byte>)
    requires pos + 4 + |wire| <= |s0| && Cleared(s0, pos, |s0|)
    requires s1 == Over(s0, pos + 4, wire) && s2 == Over(s1, pos, Network32(|wire|))
    ensures s2[..pos + 4 + |wire|] == s0[..pos] + Network32(|wire|) + wire
    ensures Cleared(s2, pos + 4 + |wire|, |s2|)
  {
  }

  // One round of the loop of lo_bundle_serialise.
  method WriteElement(to: array<byte>, pos: nat, m: Message, path: seq<byte>) returns (skip: nat)
    requires m.Valid() && m.types != to && m.data != to
    requires pos + 4 + |Wire(path, m.args)| <= to.Length && Cleared(to[..], pos, to.Length)
    modifies to
    ensures skip == |Wire(path, m.args)|
    ensures to[..pos + 4 + skip] == old(to[..pos]) + Network32(skip) + Wire(path, m.args)
    ensures Cleared(to[..], pos + 4 + skip, to.Length)
  {
    hide Over, Osc.Wire;
    ghost var s0, wire := to[..], Wire(path, m.args);
    skip := m.SerialiseInto(path, to, pos + 4);
    ghost var s1 := to[..];
    Copy(to, pos, Network32(skip));
    ElementWritten(s0, s1, to[..], pos, wire);
  }

  // The loop of lo_bundle_serialise, with its integrity check.
  method WriteElements(to: array<byte>, msgs: seq<Message>, paths: seq<seq<byte>>, ghost ts: Timetag) returns (pos: nat)
    requires |msgs| == |paths| && forall m | m in msgs :: m.Valid() && m.types != to && m.data != to
    requires to.Length == |BundleWire(ts, ItemsOf(msgs, paths))|
    requires to[..16] == Header(ts) && Cleared(to[..], 16, to.Length)
    modifies to
    ensures pos == to.Length && to[..] == BundleWire(ts, ItemsOf(msgs, paths))
  {
    hide Header, Elements, Argument.Form, Osc.Wire, Network32, Cleared, Message.Valid;
    ghost var items := ItemsOf(msgs, paths);
    pos := 16;
    assert items[..0] == [];
    NoElements();
    for i := 0 to |msgs|
      invariant forall m | m in msgs :: m.Valid()
      invariant ItemsOf(msgs, paths) == items
      invariant 16 <= pos <= to.Length && to[..pos] == Header(ts) + Elements(items[..i])
      invariant Cleared(to[..], pos, to.Length)
    {
      assert msgs[i] in msgs;
      ElementFits(ts, items, i);
      var skip := WriteElement(to, pos, msgs[i], paths[i]);
      Assoc(Header(ts), Elements(items[..i]), Network32(skip));
      Assoc(Header(ts), Elements(items[..i]) + Network32(skip), items[i].Wire());
      pos := pos + skip + 4;
      if pos > to.Length {
        assert false;
        return;
      }
    }
    assert items[..|msgs|] == items;
    assert to[..pos] == BundleWire(ts, items);
    assert to[..] == to[..pos];
  }

  class Bundle {
    var size: nat
    var ts: Timetag
    var msgs: seq<Message>
    var paths: seq<seq<byte>>

    ghost predicate Valid()
      reads this
    {
      |msgs| == |paths| <= size && size > 0
    }

    // lo_bundle_new
    constructor New(tt: Timetag)
      ensures Valid() && ts == tt && msgs == [] && paths == []
    {
      size, ts, msgs, paths := 4, tt, [], [];
    }

    // lo_bundle_add_message
    method Add(path: seq<byte>, m: Message?)
      requires Valid()
      modifies this
      ensures Valid() && ts == old(ts) && old(size) <= size
      ensures msgs == old(msgs) + if m == null then [] else [m]
      ensures paths == old(paths) + if m == null then [] else [path]
    {
      if m == null {
        return;
      }
      if |msgs| >= size {
        size := size * 2;
      }
      msgs, paths := msgs + [m], paths + [path];
    }

    // lo_bundle_length
    method Length() returns (s: nat)
      requires Valid() && forall m | m in msgs :: m.Valid()
      ensures s == BundleLength(ItemsOf(msgs, paths)) == |BundleWire(ts, ItemsOf(msgs, paths))|
    {
      ghost var items := ItemsOf(msgs, paths);
      s := 16 + |msgs| * 4;
      for i := 0 to |msgs|
        invariant s == 16 + |msgs| * 4 + WireTotal(items[..i])
      {
        assert msgs[i] in msgs && items[..i + 1][..i] == items[..i];
        var n := msgs[i].Length(paths[i]);
        s := s + n;
      }
      assert items[..|msgs|] == items;
      LengthOfWire(ts, items);
    }

    // lo_bundle_serialise: both integrity checks are kept, and neither ever fails.
    method Serialise() returns (w: array?<byte>)
      requires Valid() && forall m | m in msgs :: m.Valid()
      ensures w != null && fresh(w) && w[..] == BundleWire(ts, ItemsOf(msgs, paths))
    {
      hide BundleWire, ItemsOf, Cleared;
      var s := Length();
      var to := ClearedBlock(s);
      WriteHeader(to, ts);
      var pos := WriteElements(to, msgs, paths, ts);
      if pos != s {
        assert false;
        return null;
      }
      return to;
    }
  }

  // calloc
  method ClearedBlock(n: nat) returns (to: array<byte>)
    ensures fresh(to) && to.Length == n && Cleared(to[..], 0, n)
  {
    to := new byte[n](_ => 0);
  }

  lemma NoElements()
    ensures Elements([]) == []
  {
  }

  method WriteHeader(to: array<byte>, ts: Timetag)
    requires to.Length >= 16 && Cleared(to[..], 0, to.Length)
    modifies to
    ensures to[..16] == Header(ts) && Cleared(to[..], 16, to.Length)
  {
    ghost var s0 := to[..];
    Copy(to, 0, MARKER);
    ghost var s1 := to[..];
    Copy(to, 8, Network32(ts.sec));
    ghost var s2 := to[..];
    Copy(to, 12, Network32(ts.frac));
    HeaderWritten(s0, s1, s2, to[..], Network32(ts.sec), Network32(ts.frac));
    assert to[..16] == to[..][..16];
  }

  lemma HeaderWritten(s0: seq<byte>, s1: seq<byte>, s2: seq<byte>, s3: seq<byte>, sec: seq<byte>, frac: seq<byte>)
    requires |s0| >= 16 && |sec| == |frac| == 4 && Cleared(s0, 0, |s0|)
    requires s1 == Over(s0, 0, MARKER) && s2 == Over(s1, 8, sec) && s3 == Over(s2, 12, frac)
    ensures s3[..16] == Pad(MARKER) + sec + frac && Cleared(s3, 16, |s3|)
  {
    assert s1[..8] == MARKER + [0];
    assert s2[..8] == s1[..8] && s2[8..12] == sec;
    assert s3[..12] == s2[..12] && s3[12..16] == frac;
    assert s3[..16] == s3[..8] + s3[8..12] + s3[12..16];
    forall k | 16 <= k < |s3| ensures s3[k] == 0 {
      assert s3[k] == s2[k] == s1[k] == s0[k];
    }
  }
}
