/** The growable message object of message.c: appending, argument vector, serialising, deserialising. */
module Messages {
  import opened Options
  import opened Bytes
  import opened Osc
  import opened Codec
  import Validators

  const DEF_TYPE_SIZE: nat := 8
  const DEF_DATA_SIZE: nat := 8

  // Where each argument starts in the data; an argument without data has no place (NULL).
  function Slot(a: Arg, offset: nat): Option<nat> {
    if a.Size() == 0 then None else Some(offset)
  }

  function Slots(args: seq<Arg>): (v: seq<Option<nat>>)
    ensures |v| == |args|
  {
    seq(|args|, i requires 0 <= i < |args| => Slot(args[i], TotalSize(args[..i])))
  }

  lemma SlotsSnoc(args: seq<Arg>, a: Arg)
    ensures Slots(args + [a]) == Slots(args) + [Slot(a, TotalSize(args))]
  {
    var more := args + [a];
    assert forall i | 0 <= i <= |args| :: more[..i] == args[..i];
    assert args[..|args|] == args;
  }

  // At the place of an argument the data holds that argument, in the host's byte order.
  lemma SlotHoldsArgument(args: seq<Arg>, i: nat)
    requires i < |args|
    ensures var at, size := TotalSize(args[..i]), args[i].Size();
      && at + size <= |Forms(args, Host)| && Forms(args, Host)[at..at + size] == args[i].Form(Host)
      && Slots(args)[i] == if size == 0 then None else Some(at)
  {
    hide Argument.Form, Forms, TotalSize;
    FormsAt(args, i, Host);
    FormsSize(args[..i], Host);
    assert args == args[..i] + args[i..];
    FormsConcat(args[..i], args[i..], Host);
    Between(Forms(args[..i], Host), args[i].Form(Host), Forms(args[i + 1..], Host));
    assert args[i].Size() == |args[i].Form(Host)|;
  }

  lemma Between<T>(a: seq<T>, b: seq<T>, c: seq<T>)
    ensures (a + (b + c))[|a|..|a| + |b|] == b
  {
  }

  lemma FormsAt(args: seq<Arg>, i: nat, order: Order)
    requires i < |args|
    ensures Forms(args[i..], order) == args[i].Form(order) + Forms(args[i + 1..], order)
    ensures Forms(args[..i + 1], order) == Forms(args[..i], order) + args[i].Form(order)
    ensures TotalSize(args[..i + 1]) == TotalSize(args[..i]) + args[i].Size()
  {
    assert args[i..][1..] == args[i + 1..];
    assert args[..i + 1] == args[..i] + [args[i]];
    FormsSnoc(args[..i], args[i], order);
    FormsSize(args[..i + 1], order);
    FormsSize(args[..i], order);
    assert args[i].Size() == |args[i].Form(order)|;
  }

  lemma TypeStringSnoc(args: seq<Arg>, a: Arg)
    ensures TypeString(args + [a]) == TypeString(args) + [a.Tag()]
  {
  }

  // One step along host data: the size read there is the argument's, and the next one follows.
  lemma ArgumentAt(args: seq<Arg>, i: nat, d: seq<byte>)
    requires i < |args| && d == Forms(args[i..], Host)
    ensures args[i].Size() <= |d| && (args[i].Tag() == BLOB ==> |d| >= 4)
    ensures ArgSize(args[i].Tag(), d) == args[i].Size()
    ensures d[args[i].Size()..] == Forms(args[i + 1..], Host)
    ensures TotalSize(args[..i + 1]) == TotalSize(args[..i]) + args[i].Size()
    ensures Slots(args[..i + 1]) == Slots(args[..i]) + [Slot(args[i], TotalSize(args[..i]))]
  {
    FormsAt(args, i, Host);
    HostSize(args[i], Forms(args[i + 1..], Host));
    SplitAt(args[i].Form(Host), Forms(args[i + 1..], Host));
    SlotsSnoc(args[..i], args[i]);
    assert args[..i + 1] == args[..i] + [args[i]];
  }

  // lo_arg_host_endian and lo_arg_network_endian: the same exchange of bytes.
  function Swapped(t: byte, s: seq<byte>): seq<byte>
    requires t in [INT32, FLOAT, CHAR, BLOB] ==> |s| >= 4
    requires IsWide(t) ==> |s| >= 8
  {
    if t in [INT32, FLOAT, CHAR, BLOB] then Swap32(s[..4]) + s[4..]
    else if IsWide(t) then Swap64(s[..8]) + s[8..]
    else s
  }

  lemma SwappedBlob(a: Arg, order: Order, rest: seq<byte>)
    requires a.Blob?
    ensures var other := if order.Host? then Network else Host;
      Swapped(BLOB, a.Form(order) + rest) == a.Form(other) + rest
  {
    var n := |a.data|;
    var tail := a.data + Zeros(PaddedSize(4 + n) - (4 + n)) + rest;
    assert a.Form(Host) + rest == Image32(n) + tail && a.Form(Network) + rest == Network32(n) + tail;
    SplitAt(Length32(n, order), tail);
    SwapsAreInvolutions(Image32(n));
  }

  lemma SwappedForm(a: Arg, order: Order, rest: seq<byte>)
    ensures var other := if order.Host? then Network else Host;
      Swapped(a.Tag(), a.Form(order) + rest) == a.Form(other) + rest
  {
    hide Swap32, Swap64, Pad, Length32, PaddedSize;
    SplitAt(a.Form(order), rest);
    match a
    case Unit(_) =>
    case Word(_, w) => SwapsAreInvolutions(w);
    case Wide(_, w) => SwapsAreInvolutions(w);
    case Text(_, _) =>
    case Blob(_) => SwappedBlob(a, order, rest);
  }

  // Writing s over what is at a place.
  function Over(buf: seq<byte>, at: nat, s: seq<byte>): (r: seq<byte>)
    requires at + |s| <= |buf|
    ensures |r| == |buf|
  {
    buf[..at] + s + buf[at + |s|..]
  }

  // memcpy
  method Copy(buf: array<byte>, at: nat, s: seq<byte>)
    requires at + |s| <= buf.Length
    modifies buf
    ensures buf[..] == Over(old(buf[..]), at, s)
  {
    forall i | 0 <= i < |s| {
      buf[at + i] := s[i];
    }
  }

  // Clearing the last word of a block and then filling it from the start leaves zeros behind the filling.
  lemma ClearedThenFilled(s0: seq<byte>, s1: seq<byte>, s2: seq<byte>, s3: seq<byte>,
                          at: nat, size: nat, head: seq<byte>, d: seq<byte>)
    requires at + size <= |s0| && |head| == 4 && 4 + |d| <= size <= 8 + |d|
    requires s1 == Over(s0, at + size - 4, Zeros(4)) && s2 == Over(s1, at, head) && s3 == Over(s2, at + 4, d)
    ensures s3 == s0[..at] + (head + d + Zeros(size - (4 + |d|))) + s0[at + size..]
  {
    assert s3[..at + 4 + |d|] == s0[..at] + head + d;
    assert s3[at + 4 + |d|..] == s1[at + 4 + |d|..] == Zeros(size - (4 + |d|)) + s0[at + size..];
  }

  // The three writes of lo_message_add_blob: the last word is cleared, then length and contents go over it.
  method WriteBlob(buf: array<byte>, at: nat, d: seq<byte>)
    requires Blob(d).Valid() && at + PaddedSize(4 + |d|) <= buf.Length
    modifies buf
    ensures buf[..] == old(buf[..at]) + Blob(d).Form(Host) + old(buf[at + PaddedSize(4 + |d|)..])
  {
    hide Over;
    var size := PaddedSize(4 + |d|);
    ghost var s0 := buf[..];
    Copy(buf, at + size - 4, Zeros(4));
    ghost var s1 := buf[..];
    Copy(buf, at, Image32(|d|));
    ghost var s2 := buf[..];
    Copy(buf, at + 4, d);
    ClearedThenFilled(s0, s1, s2, buf[..], at, size, Image32(|d|), d);
  }

  method SwapInPlace(t: byte, buf: array<byte>, at: nat)
    requires at + (if t in [INT32, FLOAT, CHAR, BLOB] then 4 else if IsWide(t) then 8 else 0) <= buf.Length
    modifies buf
    ensures buf[..] == old(buf[..at]) + Swapped(t, old(buf[at..]))
  {
    ghost var s := buf[at..];
    if t in [INT32, FLOAT, CHAR, BLOB] {
      assert s[..4] == buf[at..at + 4];
      Copy(buf, at, Swap32(buf[at..at + 4]));
    } else if IsWide(t) {
      assert s[..8] == buf[at..at + 8];
      Copy(buf, at, Swap64(buf[at..at + 8]));
    }
  }

  // strcpy of a path and of a type string, and memcpy of the data, each to its place in a buffer.
  function Written(buf: seq<byte>, at: nat, path: seq<byte>, types: seq<byte>, data: seq<byte>): (r: seq<byte>)
    requires at + PaddedSize(|path|) + PaddedSize(|types|) + |data| <= |buf|
    ensures |r| == |buf|
  {
    var mid := at + PaddedSize(|path|);
    Over(Over(Over(buf, at, path + [0]), mid, types + [0]), mid + PaddedSize(|types|), data)
  }

  // The bytes behind the terminators of path and types, which no copy writes, are zero.
  predicate PaddingClear(buf: seq<byte>, at: nat, path: seq<byte>, types: seq<byte>)
    requires at + PaddedSize(|path|) + PaddedSize(|types|) <= |buf|
  {
    var mid := at + PaddedSize(|path|);
    Cleared(buf, at + |path| + 1, mid) && Cleared(buf, mid + |types| + 1, mid + PaddedSize(|types|))
  }

  lemma PadInParts(s: seq<byte>)
    ensures Pad(s) == s + [0] + Zeros(PaddedSize(|s|) - |s| - 1)
  {
  }

  // A string with its terminator is a padded string exactly where the padding is already there.
  lemma StringOver(buf: seq<byte>, at: nat, s: seq<byte>)
    requires at + PaddedSize(|s|) <= |buf|
    ensures Over(buf, at, s + [0]) == Over(buf, at, Pad(s)) <==> Cleared(buf, at + |s| + 1, at + PaddedSize(|s|))
  {
    hide Pad, PaddedSize, Over, Zeros;
    var end, mid := at + |s| + 1, at + PaddedSize(|s|);
    var z := Zeros(mid - end);
    PadInParts(s);
    OverJoins(buf, at, s + [0], z);
    var r := Over(buf, at, s + [0]);
    OverAround(buf, at, s + [0]);
    ClearedBehind(r, buf, end, end, mid);
    OverSelf(r, end, z);
  }

  // Writing what is there already changes nothing.
  lemma OverSelf(buf: seq<byte>, at: nat, z: seq<byte>)
    requires at + |z| <= |buf| && forall i | 0 <= i < |z| :: z[i] == 0
    ensures Over(buf, at, z) == buf <==> Cleared(buf, at, at + |z|)
  {
    OverAt(buf, at, z);
    if Over(buf, at, z) == buf {
      assert forall i | at <= i < at + |z| :: buf[i] == buf[at..at + |z|][i - at];
    }
  }

  // A cleared place has its padding.
  lemma ClearedPadding(buf: seq<byte>, at: nat, path: seq<byte>, types: seq<byte>, end: nat)
    requires at + PaddedSize(|path|) + PaddedSize(|types|) <= end <= |buf| && Cleared(buf, at, end)
    ensures PaddingClear(buf, at, path, types)
  {
  }

  lemma OverAll(buf: seq<byte>, w: seq<byte>)
    requires |buf| == |w|
    ensures Over(buf, 0, w) == w
  {
  }

  lemma OverJoins(buf: seq<byte>, at: nat, s: seq<byte>, t: seq<byte>)
    requires at + |s| + |t| <= |buf|
    ensures Over(Over(buf, at, s), at + |s|, t) == Over(buf, at, s + t)
  {
  }

  // The data of a written message changed in place.
  lemma WrittenAgain(buf: seq<byte>, at: nat, path: seq<byte>, types: seq<byte>, data: seq<byte>, other: seq<byte>)
    requires at + PaddedSize(|path|) + PaddedSize(|types|) + |data| <= |buf| && |data| == |other|
    ensures var ptr := at + PaddedSize(|path|) + PaddedSize(|types|);
      Over(Written(buf, at, path, types, data), ptr, other) == Written(buf, at, path, types, other)
  {
    hide Over, PaddedSize;
    var mid := at + PaddedSize(|path|);
    OverAgain(Over(Over(buf, at, path + [0]), mid, types + [0]), mid + PaddedSize(|types|), data, other);
  }

  lemma OverAgain(buf: seq<byte>, at: nat, s: seq<byte>, t: seq<byte>)
    requires |s| == |t| && at + |s| <= |buf|
    ensures Over(Over(buf, at, s), at, t) == Over(buf, at, t)
  {
  }

  lemma OverAt(buf: seq<byte>, at: nat, s: seq<byte>)
    requires at + |s| <= |buf|
    ensures Over(buf, at, s)[at..at + |s|] == s
  {
  }

  // What a write leaves before and behind its place.
  lemma OverAround(buf: seq<byte>, at: nat, s: seq<byte>)
    requires at + |s| <= |buf|
    ensures Over(buf, at, s)[..at] == buf[..at] && Over(buf, at, s)[at + |s|..] == buf[at + |s|..]
  {
  }

  // Buffers that differ at most before a place are the same exactly when they are after a write there.
  lemma OverSame(r: seq<byte>, p: seq<byte>, at: nat, t: seq<byte>)
    requires |r| == |p| && at + |t| <= |r| && r[at..] == p[at..]
    ensures Over(r, at, t) == Over(p, at, t) <==> r == p
  {
    OverAround(r, at, t);
    OverAround(p, at, t);
    if r[..at] == p[..at] {
      assert r == r[..at] + r[at..] && p == p[..at] + p[at..];
    }
  }

  // The second string, on top of a first one that is padded (p) or only terminated (r).
  lemma TwoStrings(r: seq<byte>, p: seq<byte>, mid: nat, types: seq<byte>)
    requires |r| == |p| && mid + PaddedSize(|types|) <= |r| && r[mid..] == p[mid..]
    ensures Over(r, mid, types + [0]) == Over(p, mid, Pad(types)) <==>
            r == p && Cleared(p, mid + |types| + 1, mid + PaddedSize(|types|))
  {
    hide Over, Pad, Cleared;
    OverAround(r, mid, types + [0]);
    OverAround(p, mid, Pad(types));
    StringOver(p, mid, types);
    if Over(r, mid, types + [0]) == Over(p, mid, Pad(types)) {
      assert r == r[..mid] + r[mid..] && p == p[..mid] + p[mid..];
    }
  }

  lemma ClearedBehind(s: seq<byte>, t: seq<byte>, at: nat, lo: nat, hi: nat)
    requires |s| == |t| && at <= lo <= hi <= |s| && s[at..] == t[at..]
    ensures Cleared(s, lo, hi) <==> Cleared(t, lo, hi)
  {
    assert forall k | lo <= k < hi :: s[k] == s[at..][k - at] == t[at..][k - at] == t[k];
  }

  lemma SameFrom<T>(s: seq<T>, t: seq<T>, at: nat, later: nat)
    requires |s| == |t| && at <= later <= |s| && s[at..] == t[at..]
    ensures s[later..] == t[later..]
  {
    assert s[later..] == s[at..][later - at..] && t[later..] == t[at..][later - at..];
  }

  /** The three copies leave the padded path, the padded types and the data, exactly when the bytes of the padding were
      zero before: the code clears a buffer of its own, and leaves the padding of a caller's as it is. */
  lemma WrittenIsWire(buf: seq<byte>, at: nat, path: seq<byte>, types: seq<byte>, data: seq<byte>)
    requires at + PaddedSize(|path|) + PaddedSize(|types|) + |data| <= |buf|
    ensures Written(buf, at, path, types, data) == Over(buf, at, Pad(path) + Pad(types) + data) <==>
            PaddingClear(buf, at, path, types)
  {
    hide Over, Pad, PaddedSize, Cleared;
    var mid := at + PaddedSize(|path|);
    var ptr := mid + PaddedSize(|types|);
    var r1, p1 := Over(buf, at, path + [0]), Over(buf, at, Pad(path));
    var r2, p2 := Over(r1, mid, types + [0]), Over(p1, mid, Pad(types));
    OverJoins(buf, at, Pad(path), Pad(types));
    OverJoins(buf, at, Pad(path) + Pad(types), data);
    OverAround(buf, at, path + [0]);
    SameFrom(r1, buf, at + |path| + 1, mid);
    OverAround(buf, at, Pad(path));
    StringOver(buf, at, path);
    TwoStrings(r1, p1, mid, types);
    ClearedBehind(p1, buf, mid, mid + |types| + 1, ptr);
    OverAround(r1, mid, types + [0]);
    OverAround(p1, mid, Pad(types));
    SameFrom(r2, r1, mid + |types| + 1, ptr);
    SameFrom(r1, p1, mid, ptr);
    OverSame(r2, p2, ptr, data);
  }

  // What the three copies leave, place by place.
  lemma WrittenParts(buf: seq<byte>, path: seq<byte>, types: seq<byte>, data: seq<byte>)
    requires |buf| == PaddedSize(|path|) + PaddedSize(|types|) + |data|
    ensures var w, mid := Written(buf, 0, path, types, data), PaddedSize(|path|); var ptr := mid + PaddedSize(|types|);
      && w[..|path| + 1] == path + [0] && w[mid..mid + |types| + 1] == types + [0] && w[ptr..] == data
      && w[|path| + 1..mid] == buf[|path| + 1..mid] && w[mid + |types| + 1..ptr] == buf[mid + |types| + 1..ptr]
  {
    hide PaddedSize, Written;
    WrittenFirst(buf, path, types, data);
    WrittenSecond(buf, path, types, data);
  }

  lemma TwoSlices<T>(s: seq<T>, lo: nat, a: seq<T>, b: seq<T>)
    requires lo + |a| + |b| <= |s| && s[lo..lo + |a| + |b|] == a + b
    ensures s[lo..lo + |a|] == a && s[lo + |a|..lo + |a| + |b|] == b
  {
    var m := s[lo..lo + |a| + |b|];
    assert s[lo..lo + |a|] == m[..|a|] && s[lo + |a|..lo + |a| + |b|] == m[|a|..];
  }

  // A write inside a stretch whose end it does not reach, and one behind the stretch.
  lemma StretchWritten(buf: seq<byte>, at: nat, s: seq<byte>, ptr: nat, t: seq<byte>)
    requires at + |s| <= ptr && ptr + |t| <= |buf|
    ensures Over(Over(buf, at, s), ptr, t)[at..ptr] == s + buf[at + |s|..ptr]
  {
    hide Over;
    var r, end := Over(buf, at, s), at + |s|;
    var x := Over(r, ptr, t);
    OverAround(r, ptr, t);
    OverAround(buf, at, s);
    OverAt(buf, at, s);
    assert x[at..ptr] == x[..ptr][at..] == r[..ptr][at..] == r[at..end] + r[end..ptr];
    assert r[end..ptr] == r[end..][..ptr - end] == buf[end..][..ptr - end] == buf[end..ptr];
  }

  lemma WrittenFirst(buf: seq<byte>, path: seq<byte>, types: seq<byte>, data: seq<byte>)
    requires |buf| == PaddedSize(|path|) + PaddedSize(|types|) + |data|
    ensures var w, mid := Written(buf, 0, path, types, data), PaddedSize(|path|);
      w[..|path| + 1] == path + [0] && w[|path| + 1..mid] == buf[|path| + 1..mid]
  {
    hide PaddedSize, Over;
    var w, mid := Written(buf, 0, path, types, data), PaddedSize(|path|);
    var ptr := mid + PaddedSize(|types|);
    var r2 := Over(Over(buf, 0, path + [0]), mid, types + [0]);
    StretchWritten(buf, 0, path + [0], mid, types + [0]);
    OverAround(r2, ptr, data);
    assert w[0..mid] == w[..ptr][0..mid] == r2[..ptr][0..mid] == r2[0..mid];
    TwoSlices(w, 0, path + [0], buf[|path| + 1..mid]);
  }

  lemma WrittenSecond(buf: seq<byte>, path: seq<byte>, types: seq<byte>, data: seq<byte>)
    requires |buf| == PaddedSize(|path|) + PaddedSize(|types|) + |data|
    ensures var w, mid := Written(buf, 0, path, types, data), PaddedSize(|path|); var ptr := mid + PaddedSize(|types|);
      && w[mid..mid + |types| + 1] == types + [0] && w[ptr..] == data
      && w[mid + |types| + 1..ptr] == buf[mid + |types| + 1..ptr]
  {
    hide PaddedSize, Over;
    var w, mid := Written(buf, 0, path, types, data), PaddedSize(|path|);
    var ptr, end := mid + PaddedSize(|types|), mid + |types| + 1;
    var r1 := Over(buf, 0, path + [0]);
    StretchWritten(r1, mid, types + [0], ptr, data);
    OverAt(Over(r1, mid, types + [0]), ptr, data);
    OverAround(buf, 0, path + [0]);
    SameFrom(r1, buf, |path| + 1, end);
    assert r1[end..ptr] == r1[end..][..ptr - end] == buf[end..][..ptr - end] == buf[end..ptr];
    TwoSlices(w, mid, types + [0], buf[end..ptr]);
  }

  // A terminated string with room behind it is accepted exactly when that room is zero.
  lemma TerminatedSpan(s: seq<byte>, chars: seq<byte>)
    requires NulFree(chars) && PaddedSize(|chars|) <= |s| && s[..|chars| + 1] == chars + [0]
    ensures Strlen(s) == |chars| && s[..|chars|] == chars
    ensures StringSpan(s) == if Cleared(s, |chars| + 1, PaddedSize(|chars|)) then PaddedSize(|chars|) else -EPAD
  {
    hide PaddedSize, Strlen, Zeros, Cleared;
    var n := |chars|;
    TwoSlices(s, 0, chars, [0]);
    assert s[n..n + 1][0] == 0;
    StrlenUnique(s, n);
    ClearedIsZeros(s, n, PaddedSize(n));
    ClearedOneMore(s, n, PaddedSize(n));
  }

  lemma ClearedOneMore(s: seq<byte>, lo: nat, hi: nat)
    requires lo < hi <= |s| && s[lo] == 0
    ensures Cleared(s, lo, hi) <==> Cleared(s, lo + 1, hi)
  {
  }

  lemma ClearedIsZeros(s: seq<byte>, lo: nat, hi: nat)
    requires lo <= hi <= |s|
    ensures Cleared(s, lo, hi) <==> s[lo..hi] == Zeros(hi - lo)
  {
    if s[lo..hi] == Zeros(hi - lo) {
      assert forall k | lo <= k < hi :: s[k] == s[lo..hi][k - lo] == Zeros(hi - lo)[k - lo];
    }
  }

  lemma SliceCleared(s: seq<byte>, t: seq<byte>, lo: nat, hi: nat)
    requires lo <= hi <= |s| && hi <= |t| && s[lo..hi] == t[lo..hi]
    ensures Cleared(s, lo, hi) <==> Cleared(t, lo, hi)
  {
    assert forall k | lo <= k < hi :: s[k] == s[lo..hi][k - lo] == t[lo..hi][k - lo] == t[k];
  }

  lemma TailCleared(s: seq<byte>, at: nat, lo: nat, hi: nat)
    requires at <= |s| && lo <= hi <= |s| - at
    ensures Cleared(s[at..], lo, hi) <==> Cleared(s, at + lo, at + hi)
  {
    assert forall k | lo <= k < hi :: s[at..][k] == s[at + k];
    if Cleared(s[at..], lo, hi) {
      assert forall k | at + lo <= k < at + hi :: s[k] == s[at..][k - at];
    }
  }

  /** What a receiver makes of a message serialised into a caller's buffer: with dirt behind the path or behind the type
      string it refuses it, and otherwise it is the round trip. */
  lemma DirtyBufferIsRefused(buf: seq<byte>, path: seq<byte>, args: seq<Arg>)
    requires NulFree(path) && |buf| == PaddedSize(|path|) + PaddedSize(1 + |args|) + |Forms(args, Network)|
    ensures var mid := PaddedSize(|path|);
      Decode(Written(buf, 0, path, TypeString(args), Forms(args, Network))) ==
        if !Cleared(buf, |path| + 1, mid) then Refused(EINVALIDPATH)
        else if !Cleared(buf, mid + |args| + 2, mid + PaddedSize(1 + |args|)) then Refused(EINVALIDTYPE)
        else if AllFit(args) then Content(path, args) else Refused(EINVALIDARG)
  {
    hide Written, Forms, TypeString, PaddedSize, Strlen, StringSpan, Cleared, DecodeArgs, AllFit, Osc.Wire;
    var types, data, mid := TypeString(args), Forms(args, Network), PaddedSize(|path|);
    var w, ptr := Written(buf, 0, path, types, data), mid + PaddedSize(|types|);
    WrittenParts(buf, path, types, data);
    TerminatedSpan(w, path);
    SliceCleared(w, buf, |path| + 1, mid);
    TypeStringNulFree(args);
    var rest := w[mid..];
    assert rest[..|types| + 1] == w[mid..mid + |types| + 1];
    TerminatedSpan(rest, types);
    SliceCleared(w, buf, mid + |types| + 1, ptr);
    TailCleared(w, mid, |types| + 1, PaddedSize(|types|));
    if Cleared(buf, |path| + 1, mid) && Cleared(buf, mid + |types| + 1, ptr) {
      CleanIsWire(buf, path, args);
      RoundTrip(path, args);
    }
    assert rest[0] == rest[..|types|][0] == types[0] == COMMA by { TypeStringStarts(args); }
  }

  lemma TypeStringStarts(args: seq<Arg>)
    ensures TypeString(args)[0] == COMMA
  {
  }

  lemma CleanIsWire(buf: seq<byte>, path: seq<byte>, args: seq<Arg>)
    requires |buf| == PaddedSize(|path|) + PaddedSize(1 + |args|) + |Forms(args, Network)|
    requires PaddingClear(buf, 0, path, TypeString(args))
    ensures Written(buf, 0, path, TypeString(args), Forms(args, Network)) == Wire(path, args)
  {
    hide Written, Over, PaddingClear;
    WrittenIsWire(buf, 0, path, TypeString(args), Forms(args, Network));
    OverAll(buf, Wire(path, args));
  }

  method WriteParts(to: array<byte>, at: nat, path: seq<byte>, types: seq<byte>, data: seq<byte>)
    requires at + PaddedSize(|path|) + PaddedSize(|types|) + |data| <= to.Length
    modifies to
    ensures to[..] == Written(old(to[..]), at, path, types, data)
    ensures var ptr := at + PaddedSize(|path|) + PaddedSize(|types|); to[ptr..ptr + |data|] == data
  {
    hide Over, PaddedSize;
    var mid := at + PaddedSize(|path|);
    var ptr := mid + PaddedSize(|types|);
    Copy(to, at, path + [0]);
    Copy(to, mid, types + [0]);
    ghost var s2 := to[..];
    Copy(to, ptr, data);
    OverAt(s2, ptr, data);
  }

  // One round of the last loop of lo_message_serialise.
  method ArgToNetwork(t: byte, buf: array<byte>, ptr: nat, ghost a: Arg, ghost front: seq<byte>, ghost rest: seq<byte>)
    returns (len: nat)
    requires t == a.Tag() && |front| == ptr && buf[..] == front + (a.Form(Host) + rest)
    modifies buf
    ensures len == a.Size() && buf[..] == front + (a.Form(Network) + rest)
  {
    SplitAt(front, a.Form(Host) + rest);
    assert buf[ptr..] == a.Form(Host) + rest;
    HostSize(a, rest);
    SwappedForm(a, Host, rest);
    len := ArgSize(t, buf[ptr..]);
    SwapInPlace(t, buf, ptr);
  }

  // The empty argument list, for proofs that hide how arguments are laid out.
  lemma NoArguments(order: Order)
    ensures Forms([], order) == [] && TotalSize([]) == 0 && Slots([]) == []
    ensures forall s :: DecodeArgs([], s) == if s == [] then Arguments([]) else BadArguments(ESIZE)
  {
  }

  lemma ThreeParts<T>(s: seq<T>, lo: nat, hi: nat)
    requires lo <= hi <= |s|
    ensures s == s[..lo] + (s[lo..hi] + s[hi..])
  {
  }

  lemma OverInParts(buf: seq<byte>, at: nat, s: seq<byte>, back: seq<byte>)
    requires at + |s| <= |buf| && back == buf[at + |s|..]
    ensures buf[..at] + s + ([] + back) == Over(buf, at, s)
  {
  }

  // Where the border between network and host forms is moved by one argument.
  lemma OneSwapped(args: seq<Arg>, i: nat, before: seq<byte>, back: seq<byte>)
    requires i < |args|
    ensures Forms(args[i..], Host) + back == args[i].Form(Host) + (Forms(args[i + 1..], Host) + back)
    ensures before + Forms(args[..i + 1], Network) == before + Forms(args[..i], Network) + args[i].Form(Network)
    ensures |args[i].Form(Network)| == args[i].Size()
  {
    hide Argument.Form, Forms, TotalSize;
    FormsAt(args, i, Host);
    FormsAt(args, i, Network);
    Assoc(args[i].Form(Host), Forms(args[i + 1..], Host), back);
    Assoc(before, Forms(args[..i], Network), args[i].Form(Network));
    assert args[i].Size() == |args[i].Form(Network)|;
  }

  // The last loop of lo_message_serialise: each argument in turn from host to network byte order.
  method ToNetwork(tags: seq<byte>, buf: array<byte>, start: nat, ghost args: seq<Arg>)
    requires tags == Tags(args) && start + TotalSize(args) <= buf.Length
    requires buf[start..start + TotalSize(args)] == Forms(args, Host)
    modifies buf
    ensures |Forms(args, Network)| == TotalSize(args)
    ensures buf[..] == Over(old(buf[..]), start, Forms(args, Network))
  {
    FormsSize(args, Network);
    NoArguments(Host);
    NoArguments(Network);
    hide Argument.Form, Forms, Argument.Size, TotalSize, Argument.Tag, Over, Tags;
    ghost var was, end := buf[..], start + TotalSize(args);
    ghost var head, back := was[..start], was[end..];
    ThreeParts(was, start, end);
    assert was[start..end] == Forms(args, Host);
    var ptr := start;
    ghost var front := head;
    assert args[0..] == args && args[..0] == [] && head + [] == head;
    for i := 0 to |tags|
      invariant |front| == ptr && front == head + Forms(args[..i], Network)
      invariant buf[..] == front + (Forms(args[i..], Host) + back)
    {
      ghost var a, form, rest := args[i], args[i].Form(Network), Forms(args[i + 1..], Host) + back;
      OneSwapped(args, i, head, back);
      var len := ArgToNetwork(tags[i], buf, ptr, a, front, rest);
      Assoc(front, form, rest);
      front := front + form;
      ptr := ptr + len;
    }
    assert args[..|args|] == args && args[|args|..] == [];
    assert buf[..] == head + Forms(args, Network) + ([] + back);
    OverInParts(was, start, Forms(args, Network), back);
  }

  // The loop of lo_message_get_argv.
  method PlaceArguments(tags: seq<byte>, d: seq<byte>, ghost args: seq<Arg>) returns (v: seq<Option<nat>>)
    requires tags == Tags(args) && d == Forms(args, Host)
    ensures v == Slots(args)
  {
    NoArguments(Host);
    hide Argument.Form, Argument.Size, Forms, TotalSize, Slots, ArgSize;
    v := [];
    var ptr := 0;
    assert args[0..] == args && d[0..] == d;
    for i := 0 to |tags|
      invariant ptr == TotalSize(args[..i]) && v == Slots(args[..i])
      invariant ptr <= |d| && d[ptr..] == Forms(args[i..], Host)
    {
      ArgumentAt(args, i, d[ptr..]);
      var len := ArgSize(tags[i], d[ptr..]);
      v := v + [if len != 0 then Some(ptr) else None];
      assert d[ptr..][len..] == d[ptr + len..];
      ptr := ptr + len;
    }
    assert args[..|args|] == args;
  }

  // The capacity lo_message_add_data ends with: doubled until the need is met.
  function Grown(size: nat, need: nat): (g: nat)
    requires size > 0
    ensures g >= need && g >= size
    decreases need - size
  {
    if need > size then Grown(2 * size, need) else size
  }

  lemma {:induction false} GrownWhole(size: nat, need: nat)
    requires size > 0 && size % 4 == 0
    ensures Grown(size, need) % 4 == 0
    decreases need - size
  {
    if need > size {
      assert 2 * size == 4 * (2 * (size / 4));
      GrownWhole(2 * size, need);
    }
  }

  function Room(size: nat): (r: nat)
    ensures r > 0
  {
    if size == 0 then DEF_DATA_SIZE else size
  }

  // The capacity of data that started with a size and has come to hold len bytes.
  function Capacity(size: nat, len: nat): nat {
    if len == 0 then size else Grown(Room(size), len)
  }

  lemma {:induction false} GrownTwice(size: nat, need: nat, more: nat)
    requires size > 0 && need <= more
    ensures Grown(Grown(size, need), more) == Grown(size, more)
    decreases need - size
  {
    if need > size {
      GrownTwice(2 * size, need, more);
    }
  }

  // Growing in steps is growing at once.
  lemma CapacityInSteps(size: nat, len: nat, more: nat)
    requires len <= more
    ensures Capacity(Capacity(size, len), more) == Capacity(size, more)
    ensures len <= size ==> Capacity(size, len) == size
  {
    GrownTwice(Room(size), len, more);
  }

  // lo_message_add_midi makes room for four bytes, and copies as many as a pointer has.
  predicate MidiFits(datalen: nat, size: nat, width: nat) {
    datalen + width <= Grown(Room(size), datalen + 4)
  }

  function Pow2(k: nat): (n: nat)
    ensures n > 0
  {
    if k == 0 then 1 else 2 * Pow2(k - 1)
  }

  // n is a size, or 8 for no data, doubled some number of times: data of n bytes that leaves no room.
  ghost predicate Doubling(size: nat, n: nat) {
    exists k: nat :: n == Room(size) * Pow2(k)
  }

  // 8, 16, 32 and so on.
  ghost predicate EightDoubled(n: nat) {
    exists k: nat :: n == 8 * Pow2(k)
  }

  lemma DoublingOfNone(n: nat)
    ensures Doubling(0, n) <==> EightDoubled(n)
  {
  }

  lemma DoubledOnce(size: nat, k: nat)
    ensures 2 * size * Pow2(k) == size * Pow2(k + 1)
  {
    var p := Pow2(k);
    assert Pow2(k + 1) == 2 * p;
    assert 2 * size * p == size * (2 * p);
  }

  lemma {:induction false} GrownToDoubling(size: nat, n: nat) returns (k: nat)
    requires size > 0
    ensures Grown(size, n) == size * Pow2(k)
    decreases n - size
  {
    k := 0;
    if n > size {
      var j := GrownToDoubling(2 * size, n);
      DoubledOnce(size, j);
      k := j + 1;
    }
  }

  lemma {:induction false} DoublingIsFull(size: nat, k: nat)
    requires size > 0
    ensures size <= size * Pow2(k)
    ensures Grown(size, size * Pow2(k)) == size * Pow2(k)
    decreases k
  {
    if k > 0 {
      DoubledOnce(size, k - 1);
      DoublingIsFull(2 * size, k - 1);
    }
  }

  lemma FullIsDoubling(size: nat, n: nat)
    ensures Grown(Room(size), n) == n <==> Doubling(size, n)
  {
    hide Pow2, Grown;
    var k := GrownToDoubling(Room(size), n);
    if Doubling(size, n) {
      var j: nat :| n == Room(size) * Pow2(j);
      DoublingIsFull(Room(size), j);
    }
  }

  /** With pointers of four bytes the copy always stays inside the data. With pointers of eight it leaves the data
      exactly when the data with the argument is of a size the capacity takes: the one the message began with (8 for
      none), doubled any number of times. */
  lemma MidiRoom(datalen: nat, size: nat)
    requires datalen % 4 == 0 && size % 4 == 0
    ensures MidiFits(datalen, size, 4)
    ensures MidiFits(datalen, size, 8) <==> !Doubling(size, datalen + 4)
  {
    hide Doubling, Grown;
    FullIsDoubling(size, datalen + 4);
    GrownWhole(Room(size), datalen + 4);
  }

  // A copy fits by the capacity a message began with when it fits by the capacity it has.
  lemma MidiFitsFromStart(datalen: nat, size: nat, width: nat)
    ensures MidiFits(datalen, Capacity(size, datalen), width) == MidiFits(datalen, size, width)
  {
    GrownTwice(Room(size), datalen, datalen + 4);
  }

  // An element of the type string of lo_message_add_varargs with its value, or an unknown character.
  datatype Vararg = Known(arg: Arg) | Unknown

  function KnownArgs(list: seq<Vararg>): (args: seq<Arg>) {
    if list == [] then []
    else
      var n := |list| - 1;
      KnownArgs(list[..n]) + if list[n].Known? then [list[n].arg] else []
  }

  lemma KnownSnoc(list: seq<Vararg>, i: nat)
    requires i < |list|
    ensures KnownArgs(list[..i + 1]) == KnownArgs(list[..i]) + if list[i].Known? then [list[i].arg] else []
  {
    var more := list[..i + 1];
    assert |more| - 1 == i && more[..i] == list[..i] && more[i] == list[i];
  }

  // Whether the copies for the 'm' arguments among the first n of a list stay inside data that held len bytes of a
  // capacity when the list began.
  predicate CopiesFit(list: seq<Vararg>, n: nat, len: nat, size: nat, width: nat)
    requires n <= |list|
  {
    forall i | 0 <= i < n && list[i].Known? && list[i].arg.Tag() == MIDI ::
      MidiFits(len + TotalSize(KnownArgs(list[..i])), size, width)
  }

  lemma NothingAdded(list: seq<Vararg>, len: nat, size: nat, width: nat)
    ensures CopiesFit(list, 0, len, size, width) && KnownArgs(list[..0]) == [] && TotalSize([]) == 0
  {
  }

  lemma CopiesFitStep(list: seq<Vararg>, i: nat, len: nat, size: nat, width: nat)
    requires i < |list| && CopiesFit(list, i, len, size, width)
    ensures var total := len + TotalSize(KnownArgs(list[..i]));
      var fits := list[i].Known? && list[i].arg.Tag() == MIDI ==> MidiFits(total, Capacity(size, total), width);
      CopiesFit(list, i + 1, len, size, width) == fits && (!fits ==> !CopiesFit(list, |list|, len, size, width))
  {
    hide MidiFits, Capacity, Argument.Tag, KnownArgs, TotalSize;
    MidiFitsFromStart(len + TotalSize(KnownArgs(list[..i])), size, width);
  }

  lemma KnownTotal(list: seq<Vararg>, i: nat)
    requires i < |list|
    ensures TotalSize(KnownArgs(list[..i + 1])) ==
            TotalSize(KnownArgs(list[..i])) + if list[i].Known? then list[i].arg.Size() else 0
  {
    hide Argument.Size, KnownArgs, TotalSize;
    var args := KnownArgs(list[..i]);
    KnownSnoc(list, i);
    if list[i].Known? {
      TotalSizeSnoc(args, list[i].arg);
    } else {
      assert args + [] == args;
    }
  }

  /** What a caller can check: with pointers of four bytes no copy leaves the data, and with pointers of eight none does
      exactly when no 'm' argument brings the data to the capacity it began with (8 for none), doubled any number of
      times. A new message begins with none, a received one with the size of its data. */
  lemma CopiesFitExactly(list: seq<Vararg>, len: nat, size: nat)
    requires len % 4 == 0 && size % 4 == 0
    ensures CopiesFit(list, |list|, len, size, 4)
    ensures CopiesFit(list, |list|, len, size, 8) <==>
      forall i | 0 <= i < |list| && list[i].Known? && list[i].arg.Tag() == MIDI ::
        !Doubling(size, len + TotalSize(KnownArgs(list[..i])) + 4)
  {
    hide MidiFits, Doubling, Argument.Tag, KnownArgs, TotalSize;
    forall i | 0 <= i < |list|
      ensures var n := len + TotalSize(KnownArgs(list[..i]));
        MidiFits(n, size, 4) && (MidiFits(n, size, 8) <==> !Doubling(size, n + 4))
    {
      TotalSizeWhole(KnownArgs(list[..i]));
      MidiRoom(len + TotalSize(KnownArgs(list[..i])), size);
    }
  }

  // The smallest messages that go wrong: an integer and then a 'm' in a new message, and a 'm' behind four received
  // bytes.
  lemma MidiOverruns(w: seq<byte>, v: seq<byte>)
    requires |w| == |v| == 4
    ensures var int32, midi := Known(Word(INT32, w)), Known(Word(MIDI, v));
      && !CopiesFit([int32, midi], 2, 0, 0, 8)
      && !CopiesFit([midi], 1, 4, 4, 8)
  {
    var int32, midi := Known(Word(INT32, w)), Known(Word(MIDI, v));
    var list, one := [int32, midi], [midi];
    assert list[..0] == [] && one[..0] == [];
    KnownSnoc(list, 0);
    TotalSizeSnoc([], int32.arg);
    assert [] + [int32.arg] == KnownArgs(list[..1]);
    assert list[1].arg.Tag() == MIDI && !MidiFits(0 + TotalSize(KnownArgs(list[..1])), 0, 8);
    assert one[0].arg.Tag() == MIDI && !MidiFits(4 + TotalSize(KnownArgs(one[..0])), 4, 8);
  }

  lemma TotalSizeSnoc(args: seq<Arg>, a: Arg)
    ensures TotalSize(args + [a]) == TotalSize(args) + a.Size()
  {
    FormsSize(args, Host);
    FormsSize(args + [a], Host);
    FormsSnoc(args, a, Host);
  }

  lemma PrefixMember<T>(front: seq<T>, x: T, s: seq<T>)
    requires front + [x] <= s
    ensures x in s
  {
    assert s[|front|] == (front + [x])[|front|];
  }

  lemma SliceMember<T>(s: seq<T>, i: nat, x: T)
    requires i < |s|
    ensures x in s[..i + 1] <==> x in s[..i] || s[i] == x
  {
    assert s[..i + 1] == s[..i] + [s[i]];
  }

  lemma KnownStep(list: seq<Vararg>, i: nat)
    requires i < |list|
    ensures KnownArgs(list[..i + 1]) == KnownArgs(list[..i]) + if list[i].Known? then [list[i].arg] else []
    ensures Unknown in list[..i + 1] <==> Unknown in list[..i] || list[i] == Unknown
    ensures list[i].Known? ==> list[i].arg in KnownArgs(list)
  {
    hide *;
    KnownSnoc(list, i);
    SliceMember(list, i, Unknown);
    KnownPrefix(list, i + 1);
    if list[i].Known? {
      PrefixMember(KnownArgs(list[..i]), list[i].arg, KnownArgs(list));
    }
  }

  lemma {:induction false} KnownPrefix(list: seq<Vararg>, i: nat)
    requires i <= |list|
    ensures KnownArgs(list[..i]) <= KnownArgs(list)
    decreases |list|
  {
    if i == |list| {
      assert list[..i] == list;
    } else {
      assert list[..|list| - 1][..i] == list[..i];
      KnownPrefix(list[..|list| - 1], i);
    }
  }

  // The data after an argument was written to its end: with room left, or with a copy that took more than the argument.
  lemma FilledTo(s0: seq<byte>, s1: seq<byte>, at: nat, form: seq<byte>, rest: seq<byte>)
    requires at <= |s0| && s1 == s0[..at] + form + rest
    ensures s1[..at + |form|] == s0[..at] + form
  {
  }

  lemma FilledUp(s0: seq<byte>, s1: seq<byte>, at: nat, form: seq<byte>)
    requires at + |form| <= |s0| && s1 == Over(s0, at, form)
    ensures s1[..at + |form|] == s0[..at] + form
  {
  }

  lemma FilledBeyond(s0: seq<byte>, s1: seq<byte>, at: nat, w: seq<byte>, beyond: seq<byte>)
    requires at + |w| + |beyond| <= |s0| && s1 == Over(s0, at, w + beyond)
    ensures s1[..at + |w|] == s0[..at] + w
  {
    Assoc(s0[..at], w, beyond);
    Assoc(s0[..at] + w, beyond, s0[at + |w| + |beyond|..]);
  }

  // realloc to the capacity that doubling finds: a block with the first bytes of the old one.
  method Moved(data: array<byte>, used: nat, need: nat) returns (moved: array<byte>)
    requires used <= data.Length && used <= need
    ensures fresh(moved) && moved.Length == Grown(Room(data.Length), need)
    ensures data.Length % 4 == 0 ==> moved.Length % 4 == 0
    ensures moved[..used] == data[..used]
  {
    if data.Length % 4 == 0 {
      GrownWhole(Room(data.Length), need);
    }
    var datasize := if data.Length == 0 then DEF_DATA_SIZE else data.Length;
    while need > datasize
      invariant datasize >= 1 && Grown(datasize, need) == Grown(Room(data.Length), need)
      decreases need - datasize
    {
      datasize := datasize * 2;
    }
    moved := new byte[datasize];
    forall i | 0 <= i < used {
      moved[i] := data[i];
    }
  }

  class Message {
    var types: array<byte>
    var typelen: nat
    var data: array<byte>
    var datalen: nat
    var argv: Option<seq<Option<nat>>>

    // What the message carries.
    ghost var args: seq<Arg>

    ghost predicate Valid()
      reads this, types, data
    {
      && types != data
      && typelen < types.Length && datalen <= data.Length && data.Length % 4 == 0
      && types[..typelen] == TypeString(args) && types[typelen] == 0
      && data[..datalen] == Forms(args, Host)
      && (argv.Some? ==> argv.value == Slots(args))
    }

    // lo_message_new
    constructor New()
      ensures Valid() && args == [] && fresh(types) && fresh(data)
      ensures datalen == data.Length == 0
    {
      var t := new byte[DEF_TYPE_SIZE](_ => 0);
      t[0] := COMMA;
      types, typelen := t, 1;
      data, datalen, argv := new byte[0], 0, None;
      args := [];
      new;
      assert types[..typelen] == TypeString([]);
    }

    // The allocation at the start of lo_message_deserialise.
    constructor Blank()
      ensures typelen == 0 && datalen == 0 && argv == None && args == []
      ensures fresh(types) && fresh(data)
    {
      types, typelen := new byte[0], 0;
      data, datalen, argv := new byte[0], 0, None;
      args := [];
    }

    // A message whose data is all used.
    lemma HoldsAll()
      requires types != data && typelen < types.Length && datalen == data.Length
      requires types[..typelen] == TypeString(args) && types[typelen] == 0 && data[..] == Forms(args, Host)
      requires argv.Some? ==> argv.value == Slots(args)
      ensures Valid()
    {
      hide TypeString, Forms, Slots, TotalSize;
      FormsSize(args, Host);
      TotalSizeWhole(args);
      assert data[..datalen] == data[..];
      assert |data[..]| == data.Length;
    }

    method AddTypechar(t: byte)
      requires 1 <= typelen < types.Length && types != data
      modifies this`types, this`typelen, this`argv, types
      ensures types == old(types) || fresh(types)
      ensures types != data && typelen == old(typelen) + 1 < types.Length
      ensures types[..typelen] == old(types[..typelen]) + [t] && types[typelen] == 0
      ensures argv == None
    {
      if typelen + 1 >= types.Length {
        var bigger := new byte[types.Length * 2];
        forall i | 0 <= i < types.Length {
          bigger[i] := types[i];
        }
        types := bigger;
      }
      types[typelen] := t;
      typelen := typelen + 1;
      types[typelen] := 0;
      argv := None;
    }

    // Makes room for s more bytes and says where they start.
    method AddData(s: nat) returns (start: nat)
      requires datalen <= data.Length
      modifies this`data, this`datalen, this`argv
      ensures fresh(data) && start == old(datalen) && datalen == start + s <= data.Length
      ensures data[..start] == old(data[..datalen])
      ensures data.Length == Grown(Room(old(data.Length)), datalen)
      ensures old(data.Length) % 4 == 0 ==> data.Length % 4 == 0
      ensures argv == None
    {
      start := datalen;
      datalen := datalen + s;
      var moved := Moved(data, start, datalen);
      assert data[..start] == moved[..start];
      data := moved;
      argv := None;
    }

    // Room, type character and bytes of an argument in place: the message carries one more.
    lemma CarriesOneMore(was: seq<Arg>, a: Arg)
      requires types != data && typelen < types.Length && datalen <= data.Length && data.Length % 4 == 0
      requires types[..typelen] == TypeString(was) + [a.Tag()] && types[typelen] == 0
      requires data[..datalen] == Forms(was, Host) + a.Form(Host)
      requires args == was + [a] && argv == None
      ensures Valid()
    {
      hide Forms, TypeString, Argument.Form, Argument.Tag, Slots;
      FormsSnoc(was, a, Host);
      TypeStringSnoc(was, a);
    }

    // The shape of the lo_message_add_* calls for an argument with data.
    method Append(t: byte, form: seq<byte>, ghost a: Arg)
      requires Valid() && t == a.Tag() != MIDI && form == a.Form(Host) != []
      modifies this, types
      ensures Valid() && args == old(args) + [a] && argv == None
      ensures datalen == old(datalen) + |form| && data.Length == Capacity(old(data.Length), datalen)
      ensures (types == old(types) || fresh(types)) && (data == old(data) || fresh(data))
    {
      hide Argument.Form, Argument.Tag, Forms, TypeString, Slots, Grown, Over;
      var at := AddData(|form|);
      AddTypechar(t);
      ghost var before := data[..];
      Copy(data, at, form);
      FilledUp(before, data[..], at, form);
      args := args + [a];
      CarriesOneMore(old(args), a);
    }

    // lo_message_add_true and its like only add a type character.
    method AddUnit(t: byte)
      requires Valid() && IsUnit(t)
      modifies this, types
      ensures Valid() && args == old(args) + [Unit(t)] && argv == None
      ensures datalen == old(datalen)
      ensures (types == old(types) || fresh(types)) && data == old(data)
    {
      hide Forms, Slots, TypeString;
      AddTypechar(t);
      args := args + [Unit(t)];
      CarriesOneMore(old(args), Unit(t));
    }

    method AddBlob(d: seq<byte>)
      requires Valid() && Blob(d).Valid()
      modifies this, types
      ensures Valid() && args == old(args) + [Blob(d)] && argv == None
      ensures datalen == old(datalen) + PaddedSize(4 + |d|) && data.Length == Capacity(old(data.Length), datalen)
      ensures (types == old(types) || fresh(types)) && (data == old(data) || fresh(data))
    {
      hide Forms, TypeString, Slots, Argument.Form, Grown;
      var at := AddData(PaddedSize(4 + |d|));
      AddTypechar(BLOB);
      ghost var before := data[..];
      WriteBlob(data, at, d);
      FilledTo(before, data[..], at, Blob(d).Form(Host), before[datalen..]);
      args := args + [Blob(d)];
      CarriesOneMore(old(args), Blob(d));
    }

    // lo_message_add_midi: behind the four bytes the copy takes what follows them in the caller's memory, as far as a
    // pointer is longer. It is not ok when the copy leaves the data, and then nothing is promised.
    method AddMidi(w: seq<byte>, beyond: seq<byte>) returns (ok: bool)
      requires Valid() && |w| == 4
      modifies this, types
      ensures ok == MidiFits(old(datalen), old(data.Length), 4 + |beyond|)
      ensures ok ==> Valid() && args == old(args) + [Word(MIDI, w)] && argv == None
      ensures datalen == old(datalen) + 4 && data.Length == Capacity(old(data.Length), datalen)
      ensures (types == old(types) || fresh(types)) && (data == old(data) || fresh(data))
    {
      hide Forms, TypeString, Slots, Grown, Over;
      var at := AddData(4);
      AddTypechar(MIDI);
      if at + |w + beyond| > data.Length {
        return false;
      }
      ghost var before := data[..];
      Copy(data, at, w + beyond);
      FilledBeyond(before, data[..], at, w, beyond);
      args := args + [Word(MIDI, w)];
      CarriesOneMore(old(args), Word(MIDI, w));
      return true;
    }

    // The lo_message_add_* call for one argument; beyond concerns a 'm' argument only.
    method Add(a: Arg, beyond: seq<byte>) returns (ok: bool)
      requires Valid()
      modifies this, types
      ensures ok == (a.Tag() == MIDI ==> MidiFits(old(datalen), old(data.Length), 4 + |beyond|))
      ensures ok ==> Valid() && args == old(args) + [a] && argv == None
      ensures datalen == old(datalen) + a.Size() && data.Length == Capacity(old(data.Length), datalen)
      ensures (types == old(types) || fresh(types)) && (data == old(data) || fresh(data))
    {
      hide MidiFits, Capacity;
      ok := true;
      CapacityInSteps(data.Length, datalen, datalen);
      match a {
        case Unit(t) => AddUnit(t);
        case Word(t, w) =>
          if t == MIDI {
            ok := AddMidi(w, beyond);
          } else {
            Append(t, w, a);
          }
        case Wide(t, w) => Append(t, w, a);
        case Text(t, s) => Append(t, Pad(s), a);
        case Blob(d) => AddBlob(d);
      }
    }

    // lo_message_add_varargs: one call per known type character, an unknown one makes the result -1.
    method AddVarargs(list: seq<Vararg>, beyond: seq<byte>) returns (ret: int, ok: bool)
      requires Valid()
      modifies this, types
      ensures ok == CopiesFit(list, |list|, old(datalen), old(data.Length), 4 + |beyond|)
      ensures ok ==> Valid() && args == old(args) + KnownArgs(list)
      ensures ok ==> ret == if Unknown in list then -1 else 0
      ensures (types == old(types) || fresh(types)) && (data == old(data) || fresh(data))
    {
      hide Valid, TypeString, Argument.Form, Argument.Size, Argument.Tag, Forms, Slots, MidiFits, Capacity, KnownArgs,
           TotalSize, CopiesFit;
      ghost var start, size, width := datalen, data.Length, 4 + |beyond|;
      ret, ok := 0, true;
      NothingAdded(list, start, size, width);
      Starts();
      for i := 0 to |list|
        invariant ok && Valid() && args == old(args) + KnownArgs(list[..i])
        invariant datalen == start + TotalSize(KnownArgs(list[..i])) && data.Length == Capacity(size, datalen)
        invariant CopiesFit(list, i, start, size, width)
        invariant ret == if Unknown in list[..i] then -1 else 0
        invariant (types == old(types) || fresh(types)) && (data == old(data) || fresh(data))
      {
        KnownStep(list, i);
        KnownTotal(list, i);
        CopiesFitStep(list, i, start, size, width);
        if list[i].Known? {
          ghost var was := datalen;
          ok := Add(list[i].arg, beyond);
          CapacityInSteps(size, was, datalen);
          if !ok {
            return;
          }
        } else {
          ret := -1;
        }
      }
      assert list[..|list|] == list;
    }

    // The data fits its capacity.
    lemma Starts()
      requires Valid()
      ensures Capacity(data.Length, datalen) == data.Length
    {
      CapacityInSteps(data.Length, datalen, datalen);
    }

    // lo_message_length
    method Length(path: seq<byte>) returns (n: nat)
      requires Valid()
      ensures n == |Wire(path, args)| && n % 4 == 0
    {
      WireLength(path, args);
      assert |types[..typelen]| == 1 + |args|;
      n := PaddedSize(|path|) + PaddedSize(typelen) + datalen;
    }

    // lo_message_get_argv: a vector already there is the one that would be computed.
    method GetArgv() returns (v: seq<Option<nat>>)
      requires Valid()
      modifies this`argv
      ensures Valid() && argv == Some(v) && v == Slots(args)
    {
      if argv.Some? {
        return argv.value;
      }
      assert types[1..typelen] == types[..typelen][1..] == Tags(args);
      v := PlaceArguments(types[1..typelen], data[..datalen], args);
      argv := Some(v);
    }

    // lo_message_serialise into a buffer of the caller's.
    method SerialiseInto(path: seq<byte>, to: array<byte>, at: nat) returns (size: nat)
      requires Valid() && to != types && to != data
      requires at + |Wire(path, args)| <= to.Length
      modifies to
      ensures size == |Wire(path, args)| == PaddedSize(|path|) + PaddedSize(1 + |args|) + |Forms(args, Network)|
      ensures to[..] == Written(old(to[..]), at, path, TypeString(args), Forms(args, Network))
      ensures to[..] == Over(old(to[..]), at, Wire(path, args)) <==>
              PaddingClear(old(to[..]), at, path, TypeString(args))
    {
      hide Over, Argument.Form, Argument.Size, Forms, TotalSize, PaddingClear, PaddedSize;
      size := Length(path);
      WireLength(path, args);
      FormsSize(args, Host);
      FormsSize(args, Network);
      WriteParts(to, at, path, types[..typelen], data[..datalen]);
      var ptr := at + PaddedSize(|path|) + PaddedSize(typelen);
      ToNetwork(types[1..typelen], to, ptr, args);
      WrittenAgain(old(to[..]), at, path, TypeString(args), Forms(args, Host), Forms(args, Network));
      WrittenIsWire(old(to[..]), at, path, TypeString(args), Forms(args, Network));
    }
  }

  // lo_send_internal, up to the sending: a new message and its arguments.
  method Compose(list: seq<Vararg>, beyond: seq<byte>) returns (m: Message, ret: int, ok: bool)
    ensures fresh(m) && fresh(m.types) && fresh(m.data)
    ensures |beyond| == 0 ==> ok
    ensures |beyond| == 4 ==>
      (ok <==> forall i | 0 <= i < |list| && list[i].Known? && list[i].arg.Tag() == MIDI ::
         !EightDoubled(TotalSize(KnownArgs(list[..i])) + 4))
    ensures ok ==> m.Valid() && m.args == KnownArgs(list) && ret == if Unknown in list then -1 else 0
  {
    hide CopiesFit, Doubling, EightDoubled, Argument.Tag, KnownArgs, TotalSize, Message.Valid;
    forall n ensures Doubling(0, n) <==> EightDoubled(n) {
      DoublingOfNone(n);
    }
    m := new Message.New();
    ret, ok := m.AddVarargs(list, beyond);
    CopiesFitExactly(list, 0, 0);
    assert [] + KnownArgs(list) == KnownArgs(list);
  }

  // lo_message_serialise with a buffer of its own, cleared by calloc.
  method Serialise(m: Message, path: seq<byte>) returns (w: array<byte>)
    requires m.Valid()
    ensures fresh(w) && w[..] == Wire(path, m.args)
  {
    hide Over, PaddingClear, Osc.Wire, Written, Forms, TypeString, Message.Valid;
    var size := m.Length(path);
    w := new byte[size](_ => 0);
    ghost var blank := w[..];
    size := m.SerialiseInto(path, w, 0);
    ClearedPadding(blank, 0, path, TypeString(m.args), size);
    OverAll(blank, Wire(path, m.args));
  }

  function Prepend(done: seq<Arg>, r: Arguments): Arguments {
    match r
    case Arguments(rest) => Arguments(done + rest)
    case BadArguments(e) => BadArguments(e)
  }

  // One more argument read: what is decoded of the whole is what has been read and what is decoded of the rest.
  lemma DecodeStep(done: seq<Arg>, tags: seq<byte>, s: seq<byte>)
    requires tags != []
    ensures ArgSpan(tags[0], s) < 0 ==> DecodeArgs(tags, s) == BadArguments(EINVALIDARG)
    ensures ArgSpan(tags[0], s) >= 0 ==>
      && ArgSpan(tags[0], s) <= |s|
      && Prepend(done, DecodeArgs(tags, s)) ==
         Prepend(done + [ArgAt(tags[0], s)], DecodeArgs(tags[1..], s[ArgSpan(tags[0], s)..]))
  {
    if ArgSpan(tags[0], s) >= 0 {
      ParsedForm(tags[0], s);
      var rest := DecodeArgs(tags[1..], s[ArgSpan(tags[0], s)..]);
      if rest.Arguments? {
        Assoc(done, [ArgAt(tags[0], s)], rest.args);
      }
    }
  }

  // The argument at the read position is turned to host byte order in place.
  method ArgToHost(t: byte, buf: array<byte>, ptr: nat, ghost front: seq<byte>, ghost s: seq<byte>)
    requires ArgSpan(t, s) >= 0 && |front| == ptr && buf[..] == front + s
    modifies buf
    ensures ArgSpan(t, s) <= |s|
    ensures buf[..] == (front + ArgAt(t, s).Form(Host)) + s[ArgSpan(t, s)..]
  {
    hide ArgSpan, ArgAt, Argument.Form, Argument.Size;
    ParsedForm(t, s);
    ghost var a, rest := ArgAt(t, s), s[ArgSpan(t, s)..];
    assert s == a.Form(Network) + rest;
    assert buf[ptr..] == s;
    SwappedForm(a, Network, rest);
    SwapInPlace(t, buf, ptr);
    Assoc(front, a.Form(Host), rest);
  }

  // The argument loop of lo_message_deserialise, over the copy of the data in the message.
  method ReadArguments(tags: seq<byte>, buf: array<byte>)
    returns (res: int, argv: seq<Option<nat>>, ghost args: seq<Arg>)
    modifies buf
    ensures match DecodeArgs(tags, old(buf[..]))
      case Arguments(decoded) => res == 0 && args == decoded && buf[..] == Forms(args, Host) && argv == Slots(args)
      case BadArguments(e) => res == e != 0
  {
    NoArguments(Host);
    hide ArgSpan, ArgAt, DecodeArgs, Argument.Form, Argument.Size, Forms, TotalSize, Slots;
    ghost var net, front, s := buf[..], [], buf[..];
    var argc := |tags|;
    var i, ptr, remain := 0, 0, buf.Length;
    argv, args := [], [];
    assert tags[0..] == tags;
    while remain >= 0 && i < argc
      invariant 0 <= i <= argc && 0 <= remain == |s| && ptr == |front|
      invariant buf[..] == front + s
      invariant front == Forms(args, Host) && ptr == TotalSize(args)
      invariant argv == Slots(args)
      invariant DecodeArgs(tags, net) == Prepend(args, DecodeArgs(tags[i..], s))
      decreases argc - i
    {
      assert buf[ptr..] == s && s[..remain] == s && tags[i..][1..] == tags[i + 1..];
      var len := Validators.ValidateArg(tags[i], buf[ptr..], remain);
      DecodeStep(args, tags[i..], s);
      if len < 0 {
        return EINVALIDARG, argv, args;
      }
      ArgToHost(tags[i], buf, ptr, front, s);
      ReadOne(args, tags[i], s);
      ghost var a := ArgAt(tags[i], s);
      front, s, args := front + a.Form(Host), s[len..], args + [a];
      argv := argv + [if len != 0 then Some(ptr) else None];
      remain := remain - len;
      ptr := ptr + len;
      i := i + 1;
    }
    assert tags[i..] == [];
    if remain != 0 || i != argc {
      return ESIZE, argv, args;
    }
    assert args + [] == args;
    res := 0;
  }

  lemma ReadOne(done: seq<Arg>, t: byte, s: seq<byte>)
    requires ArgSpan(t, s) >= 0
    ensures var a := ArgAt(t, s);
      && Forms(done + [a], Host) == Forms(done, Host) + a.Form(Host)
      && TotalSize(done + [a]) == TotalSize(done) + ArgSpan(t, s)
      && |Forms(done + [a], Host)| == TotalSize(done + [a])
      && Slots(done + [a]) == Slots(done) + [Slot(a, TotalSize(done))]
      && a.Size() == ArgSpan(t, s)
  {
    var a := ArgAt(t, s);
    ParsedForm(t, s);
    FormsSnoc(done, a, Host);
    SlotsSnoc(done, a);
    FormsSize(done + [a], Host);
    FormsSize(done, Host);
  }

  // lo_message_deserialise from the type string on: copies of types and data, then the arguments.
  method ReadBody(m: Message, types: seq<byte>, len: nat) returns (res: int)
    requires m.args == [] && m.argv == None
    requires StringSpan(types) == len <= |types| && Strlen(types) >= 1 && types[0] == COMMA
    modifies m
    ensures match DecodeArgs(types[1..Strlen(types)], types[len..])
      case Arguments(args) =>
        && m.Valid() && m.args == args && fresh(m.types) && fresh(m.data) && res == 0
        && m.datalen == m.data.Length && m.argv == if args == [] then None else Some(Slots(args))
      case BadArguments(e) => res == e != 0
  {
    hide StringSpan, Strlen, DecodeArgs, Argument.Form, Forms, Slots, TypeString, PaddedSize, AllFit, Tags, Message.Valid;
    var n := Strlen(types);
    TypesFound(types);
    m.typelen := n;
    m.types := Copied(types[..len]);
    m.data := Copied(types[len..]);
    m.datalen := |types| - len;
    assert m.types[..n] == types[..n] && m.types[n] == types[n];
    var argv;
    ghost var args;
    res, argv, args := ReadArguments(types[1..n], m.data);
    if res == 0 {
      m.args := args;
      if m.typelen != 1 {
        m.argv := Some(argv);
      }
      DecodeArgsSound(types[1..n], types[len..]);
      TypesOf(types, args);
      m.HoldsAll();
    }
  }

  method Copied(s: seq<byte>) returns (a: array<byte>)
    ensures fresh(a) && a[..] == s
  {
    a := new byte[|s|](i requires 0 <= i < |s| => s[i]);
  }

  lemma TypesFound(types: seq<byte>)
    requires StringSpan(types) >= 0
    ensures Strlen(types) < StringSpan(types) <= |types| && types[Strlen(types)] == 0
  {
    StringSpanPadded(types);
  }

  lemma TypesOf(types: seq<byte>, args: seq<Arg>)
    requires 1 <= Strlen(types) && types[0] == COMMA && Tags(args) == types[1..Strlen(types)]
    ensures types[..Strlen(types)] == TypeString(args) && |args| == Strlen(types) - 1
  {
  }

  // lo_message_deserialise
  method Deserialise(data: seq<byte>) returns (m: Message?, res: int)
    ensures match Decode(data)
      case Content(_, args) =>
        && m != null && fresh(m) && fresh(m.types) && fresh(m.data) && m.Valid() && m.args == args && res == 0
        && m.datalen == m.data.Length && m.argv == if args == [] then None else Some(Slots(args))
      case Refused(e) => m == null && res == e
  {
    var remain: int := |data|;
    if remain <= 0 {
      return null, ESIZE;
    }
    var msg := new Message.Blank();
    var len := Validators.ValidateString(data, remain);
    assert data[..remain] == data;
    if len < 0 {
      return null, EINVALIDPATH;
    }
    StringSpanPadded(data);
    remain := remain - len;
    if remain <= 0 {
      return null, ENOTYPE;
    }
    var types := data[len..];
    assert types[..remain] == types;
    len := Validators.ValidateString(types, remain);
    if len < 0 {
      return null, EINVALIDTYPE;
    }
    StringSpanPadded(types);
    if types[0] != COMMA {
      return null, EBADTYPE;
    }
    var ok := ReadBody(msg, types, len);
    if ok != 0 {
      return null, ok;
    }
    m, res := msg, 0;
  }
}
