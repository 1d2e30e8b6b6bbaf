/** The packet format: sizes read from memory, the validators' answers, and decoding. */
module Codec {
  import opened Bytes
  import opened Osc

  // strlen of the string at the start of s, or |s| when nothing terminates it.
  function Strlen(s: seq<byte>): (n: nat)
    ensures n <= |s| && NulFree(s[..n])
    ensures n < |s| ==> s[n] == 0
  {
    if s == [] || s[0] == 0 then 0
    else
      var n := Strlen(s[1..]);
      assert s[..1 + n] == [s[0]] + s[1..][..n];
      1 + n
  }

  lemma {:induction false} StrlenUnique(s: seq<byte>, n: nat)
    requires n <= |s| && NulFree(s[..n])
    requires n < |s| ==> s[n] == 0
    ensures Strlen(s) == n
  {
    if n > 0 {
      assert s[..n][0] == s[0];
      assert s[1..][..n - 1] == s[..n][1..];
      StrlenUnique(s[1..], n - 1);
    }
  }

  // The answer of lo_validate_string.
  function StringSpan(s: seq<byte>): int {
    var n := Strlen(s);
    if n == |s| then -ETERM
    else if PaddedSize(n) > |s| then -ESIZE
    else if s[n..PaddedSize(n)] != Zeros(PaddedSize(n) - n) then -EPAD
    else PaddedSize(n)
  }

  // The answer of lo_validate_blob.
  function BlobSpan(s: seq<byte>): int {
    if |s| < 4 then -ESIZE
    else
      var size := ReadNetwork32(s);
      if size > MAX_MSG_SIZE then -ESIZE
      else
        var end, len := 4 + size, PaddedSize(4 + size);
        if len > |s| then -ESIZE
        else if s[end..len] != Zeros(len - end) then -EPAD
        else len
  }

  // The answer of lo_validate_arg for an argument of type t at the start of s.
  function ArgSpan(t: byte, s: seq<byte>): int {
    if IsUnit(t) then 0
    else if IsWord(t) then (if |s| >= 4 then 4 else -ESIZE)
    else if IsWide(t) then (if |s| >= 8 then 8 else -ESIZE)
    else if IsText(t) then StringSpan(s)
    else if t == BLOB then BlobSpan(s)
    else -EINVALIDTYPE
  }

  // The argument a successful lo_validate_arg has found.
  function ArgAt(t: byte, s: seq<byte>): (a: Arg)
    requires ArgSpan(t, s) >= 0
  {
    if IsUnit(t) then Unit(t)
    else if IsWord(t) then Word(t, if t == MIDI then s[..4] else Swap32(s[..4]))
    else if IsWide(t) then Wide(t, Swap64(s[..8]))
    else if IsText(t) then Text(t, s[..Strlen(s)])
    else Blob(s[4..4 + ReadNetwork32(s)])
  }

  // lo_arg_size of an argument of type t in host memory.
  function ArgSize(t: byte, s: seq<byte>): nat
    requires t == BLOB ==> |s| >= 4
  {
    if IsWord(t) then 4
    else if IsWide(t) then 8
    else if IsText(t) then PaddedSize(Strlen(s))
    else if t == BLOB then PaddedSize(4 + Value32(s[..4]))
    else 0
  }

  lemma PaddedStringSpan(s: seq<byte>, rest: seq<byte>)
    requires NulFree(s)
    ensures var d := Pad(s) + rest;
      Strlen(d) == |s| && d[..|s|] == s && StringSpan(d) == PaddedSize(|s|) && d[PaddedSize(|s|)..] == rest
  {
    var d := Pad(s) + rest;
    assert d[..|s|] == s;
    StrlenUnique(d, |s|);
    assert d[|s|..PaddedSize(|s|)] == Zeros(PaddedSize(|s|) - |s|);
  }

  lemma PrefixPadded(d: seq<byte>, n: nat, len: nat)
    requires len == PaddedSize(n) <= |d| && d[n..len] == Zeros(len - n)
    ensures d == Pad(d[..n]) + d[len..]
  {
    var z := Zeros(len - n);
    assert Pad(d[..n]) == d[..n] + z;
    assert d == d[..n] + d[n..len] + d[len..];
  }

  lemma StringSpanPadded(d: seq<byte>)
    requires StringSpan(d) >= 0
    ensures StringSpan(d) == PaddedSize(Strlen(d)) <= |d|
    ensures d == Pad(d[..Strlen(d)]) + d[StringSpan(d)..]
  {
    PrefixPadded(d, Strlen(d), PaddedSize(Strlen(d)));
  }

  lemma FourParts<T>(a: seq<T>, b: seq<T>, c: seq<T>, d: seq<T>)
    ensures var s := (a + b + c) + d;
      && s == a + (b + c + d) && s[..|a|] == a
      && s[|a|..|a| + |b|] == b && s[|a| + |b|..|a| + |b| + |c|] == c
  {
  }

  // What stands behind the length word of a blob.
  lemma BlobInParts(a: Arg, order: Order, rest: seq<byte>)
    requires a.Blob?
    ensures var d, n := a.Form(order) + rest, |a.data|; var len := PaddedSize(4 + n);
      && d == Length32(n, order) + (a.data + Zeros(len - (4 + n)) + rest) && a.Size() == len <= |d|
      && d[4..4 + n] == a.data && d[4 + n..len] == Zeros(len - (4 + n)) && d[..4] == Length32(n, order)
  {
    hide PaddedSize, Length32, Zeros;
    var n := |a.data|;
    FourParts(Length32(n, order), a.data, Zeros(PaddedSize(4 + n) - (4 + n)), rest);
  }

  lemma BlobFormSpan(a: Arg, rest: seq<byte>)
    requires a.Blob?
    ensures BlobSpan(a.Form(Network) + rest) == if a.Fits() then a.Size() else -ESIZE
    ensures a.Fits() ==> ArgAt(BLOB, a.Form(Network) + rest) == a
  {
    hide PaddedSize, ReadNetwork32, Network32, Argument.Form;
    var n := |a.data|;
    BlobInParts(a, Network, rest);
    Network32RoundTrip(n, a.data + Zeros(PaddedSize(4 + n) - (4 + n)) + rest);
  }

  // Printing then parsing one argument: it is accepted exactly when it fits, and comes back.
  lemma FormParses(a: Arg, rest: seq<byte>)
    ensures ArgSpan(a.Tag(), a.Form(Network) + rest) >= 0 <==> a.Fits()
    ensures a.Fits() ==> ArgSpan(a.Tag(), a.Form(Network) + rest) == a.Size()
    ensures a.Fits() ==> ArgAt(a.Tag(), a.Form(Network) + rest) == a
  {
    hide StringSpan, Strlen, BlobSpan, PaddedSize, Pad, Swap32, Swap64, ReadNetwork32, Length32;
    SplitAt(a.Form(Network), rest);
    match a
    case Unit(_) =>
    case Word(_, w) =>
      SwapsAreInvolutions(w);
    case Wide(_, w) =>
      SwapsAreInvolutions(w);
    case Text(_, s) =>
      PaddedStringSpan(s, rest);
    case Blob(_) =>
      BlobFormSpan(a, rest);
  }

  lemma BlobSpanForm(s: seq<byte>)
    requires BlobSpan(s) >= 0
    ensures BlobSpan(s) <= |s|
    ensures var a := ArgAt(BLOB, s); a.Fits() && a.Form(Network) == s[..BlobSpan(s)] && a.Size() == BlobSpan(s)
  {
    var size := ReadNetwork32(s);
    var end, len := 4 + size, PaddedSize(4 + size);
    Network32Canonical(s);
    assert s[..len] == s[..4] + s[4..end] + s[end..len];
  }

  // Parsing then printing one argument gives back the bytes that were read.
  lemma ParsedForm(t: byte, s: seq<byte>)
    requires ArgSpan(t, s) >= 0
    ensures ArgSpan(t, s) <= |s|
    ensures var a := ArgAt(t, s);
      a.Fits() && a.Tag() == t && a.Size() == ArgSpan(t, s) && a.Form(Network) == s[..ArgSpan(t, s)]
  {
    if IsWord(t) {
      SwapsAreInvolutions(s[..4]);
    } else if IsWide(t) {
      SwapsAreInvolutions(s[..8]);
    } else if IsText(t) {
      StringSpanPadded(s);
      assert s[..StringSpan(s)] == Pad(s[..Strlen(s)]);
    } else if t == BLOB {
      BlobSpanForm(s);
    }
  }

  lemma TextForm(a: Arg)
    requires a.Text?
    ensures a.Form(Host) == a.Form(Network) == Pad(a.chars)
  {
  }

  // lo_arg_size on host data agrees with what the validator answers on the packet.
  lemma HostSize(a: Arg, rest: seq<byte>)
    ensures ArgSize(a.Tag(), a.Form(Host) + rest) == a.Size()
  {
    hide Strlen, PaddedSize, Pad, Value32, Image32, Argument.Form;
    match a
    case Unit(_) =>
    case Word(_, _) =>
    case Wide(_, _) =>
    case Text(_, s) =>
      TextForm(a);
      PaddedStringSpan(s, rest);
    case Blob(data) =>
      BlobInParts(a, Host, rest);
      ValueOfImage(|data|);
  }

  datatype Arguments = Arguments(args: seq<Arg>) | BadArguments(error: int)

  // The argument loop of lo_message_deserialise.
  function DecodeArgs(tags: seq<byte>, s: seq<byte>): Arguments {
    if tags == [] then
      if s == [] then Arguments([]) else BadArguments(ESIZE)
    else
      var span := ArgSpan(tags[0], s);
      if span < 0 then BadArguments(EINVALIDARG)
      else
        ParsedForm(tags[0], s);
        match DecodeArgs(tags[1..], s[span..])
        case Arguments(rest) => Arguments([ArgAt(tags[0], s)] + rest)
        case BadArguments(e) => BadArguments(e)
  }

  lemma NoForms()
    ensures Tags([]) == [] && AllFit([]) && Forms([], Network) == []
  {
  }

  // An argument in front of others.
  lemma OneMoreForm(a: Arg, rest: seq<Arg>)
    ensures Tags([a] + rest) == [a.Tag()] + Tags(rest)
    ensures AllFit([a] + rest) <==> a.Fits() && AllFit(rest)
    ensures Forms([a] + rest, Network) == a.Form(Network) + Forms(rest, Network)
  {
    hide *;
    OneMoreTag(a, rest);
    OneMoreFits(a, rest);
    assert ([a] + rest)[1..] == rest;
    FormsStep([a] + rest);
  }

  lemma OneMoreTag(a: Arg, rest: seq<Arg>)
    ensures Tags([a] + rest) == [a.Tag()] + Tags(rest)
  {
    hide Argument.Tag;
  }

  lemma OneMoreFits(a: Arg, rest: seq<Arg>)
    ensures AllFit([a] + rest) <==> a.Fits() && AllFit(rest)
  {
    hide Argument.Fits;
    var all := [a] + rest;
    assert all[0] == a && forall i | 0 <= i < |rest| :: all[i + 1] == rest[i];
  }

  lemma FormsStep(args: seq<Arg>)
    requires args != []
    ensures Forms(args, Network) == args[0].Form(Network) + Forms(args[1..], Network)
  {
    hide Argument.Form;
  }

  lemma {:induction false} DecodeArgsSound(tags: seq<byte>, s: seq<byte>)
    requires DecodeArgs(tags, s).Arguments?
    ensures var args := DecodeArgs(tags, s).args;
      Tags(args) == tags && AllFit(args) && Forms(args, Network) == s
  {
    hide ArgSpan, ArgAt, Argument.Form, Argument.Size, Argument.Tag, Argument.Fits, Forms, Tags, AllFit;
    if tags == [] {
      NoForms();
    } else {
      ParsedForm(tags[0], s);
      var a, span := ArgAt(tags[0], s), ArgSpan(tags[0], s);
      DecodeArgsSound(tags[1..], s[span..]);
      OneMoreForm(a, DecodeArgs(tags[1..], s[span..]).args);
      assert tags == [tags[0]] + tags[1..] && s == s[..span] + s[span..];
    }
  }

  lemma {:induction false} DecodeArgsComplete(args: seq<Arg>)
    ensures DecodeArgs(Tags(args), Forms(args, Network)) ==
      if AllFit(args) then Arguments(args) else BadArguments(EINVALIDARG)
  {
    hide ArgSpan, ArgAt, Argument.Form, Argument.Size, Argument.Tag, Argument.Fits, Forms, Tags, AllFit;
    if args == [] {
      NoForms();
    } else {
      var a, rest := args[0], args[1..];
      FormParses(a, Forms(rest, Network));
      DecodeArgsComplete(rest);
      assert args == [a] + rest;
      OneMoreForm(a, rest);
      assert ([a.Tag()] + Tags(rest))[1..] == Tags(rest);
      SplitAt(a.Form(Network), Forms(rest, Network));
    }
  }

  datatype Decoded = Content(path: seq<byte>, args: seq<Arg>) | Refused(error: int)

  // lo_message_deserialise, on values.
  function Decode(w: seq<byte>): Decoded {
    if w == [] then Refused(ESIZE)
    else
      var n := StringSpan(w);
      if n < 0 then Refused(EINVALIDPATH)
      else
        StringSpanPadded(w);
        var rest := w[n..];
        if rest == [] then Refused(ENOTYPE)
        else
          var m := StringSpan(rest);
          if m < 0 then Refused(EINVALIDTYPE)
          else if rest[0] != COMMA then Refused(EBADTYPE)
          else
            StringSpanPadded(rest);
            match DecodeArgs(rest[1..Strlen(rest)], rest[m..])
            case Arguments(args) => Content(w[..Strlen(w)], args)
            case BadArguments(e) => Refused(e)
  }

  /** Message round trip, on every path and argument list: decoding the wire form gives back the
      message exactly when no blob is longer than the decoder's limit. */
  lemma RoundTrip(path: seq<byte>, args: seq<Arg>)
    requires NulFree(path)
    ensures Decode(Wire(path, args)) == if AllFit(args) then Content(path, args) else Refused(EINVALIDARG)
  {
    var types, data := TypeString(args), Forms(args, Network);
    var rest := Pad(types) + data;
    assert Wire(path, args) == Pad(path) + rest;
    PaddedStringSpan(path, rest);
    TypeStringNulFree(args);
    PaddedStringSpan(types, data);
    assert rest[1..|types|] == rest[..|types|][1..] == Tags(args);
    DecodeArgsComplete(args);
  }

  /** Canonical form: an accepted packet is the wire form of what was decoded, so all padding is forced. */
  lemma Canonical(w: seq<byte>)
    requires Decode(w).Content?
    ensures var m := Decode(w); NulFree(m.path) && AllFit(m.args) && Wire(m.path, m.args) == w
  {
    hide StringSpan, Strlen, DecodeArgs, Pad, Forms, Tags, AllFit, PaddedSize;
    StringSpanPadded(w);
    var rest := w[StringSpan(w)..];
    StringSpanPadded(rest);
    var tags := rest[1..Strlen(rest)];
    DecodeArgsSound(tags, rest[StringSpan(rest)..]);
    assert rest[..Strlen(rest)] == [COMMA] + tags;
    Assoc(Pad(w[..Strlen(w)]), Pad([COMMA] + tags), rest[StringSpan(rest)..]);
  }

  // The decoder accepts exactly the wire forms of messages that fit, and no packet has two readings.
  lemma AcceptsExactlyWireForms(w: seq<byte>)
    ensures Decode(w).Content? <==> exists path, args :: NulFree(path) && AllFit(args) && Wire(path, args) == w
  {
    if Decode(w).Content? {
      Canonical(w);
    } else if path, args :| NulFree(path) && AllFit(args) && Wire(path, args) == w {
      RoundTrip(path, args);
    }
  }

  lemma DecodeInjective(w: seq<byte>, v: seq<byte>)
    requires Decode(w).Content? && Decode(w) == Decode(v)
    ensures w == v
  {
    Canonical(w);
    Canonical(v);
  }

  /** A 't' argument leaves a little-endian host fraction first, unlike the timetag of a bundle; the two
      agree exactly when seconds and fraction are the same number. */
  lemma TimetagArgumentOrder(sec: nat, frac: nat)
    requires sec < TWO_TO_THE_32 && frac < TWO_TO_THE_32
    ensures var a := Wide(TIMETAG, Image32(sec) + Image32(frac));
      && a.Form(Network) == Network32(frac) + Network32(sec)
      && (a.Form(Network) == Network32(sec) + Network32(frac) <==> sec == frac)
  {
    var w := Image32(sec) + Image32(frac);
    assert w[4..] == Image32(frac) && w[..4] == Image32(sec);
    Network32RoundTrip(sec, Network32(frac));
    Network32RoundTrip(frac, Network32(sec));
  }
}
