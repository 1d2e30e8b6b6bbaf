/** What the validators and the decoder refuse, and why: each error by the shape of the bytes, without the functions that
    find it. */
module Refusals {
  import opened Bytes
  import opened Osc
  import opened Codec
  import opened BundleFormat

  // ---- Strings ----

  // A padded string and what follows it.
  ghost predicate Begins(w: seq<byte>, chars: seq<byte>, rest: seq<byte>) {
    NulFree(chars) && w == Pad(chars) + rest
  }

  ghost predicate HasString(w: seq<byte>) {
    exists chars, rest :: Begins(w, chars, rest)
  }

  lemma BeginsMeans(w: seq<byte>, chars: seq<byte>, rest: seq<byte>)
    requires Begins(w, chars, rest)
    ensures StringSpan(w) == PaddedSize(|chars|) && w[..Strlen(w)] == chars && w[StringSpan(w)..] == rest
  {
    PaddedStringSpan(chars, rest);
  }

  // lo_validate_string accepts exactly what begins with a padded string.
  lemma AcceptsStrings(w: seq<byte>)
    ensures StringSpan(w) >= 0 <==> HasString(w)
    ensures StringSpan(w) >= 0 ==> Begins(w, w[..Strlen(w)], w[StringSpan(w)..])
  {
    hide Strlen, StringSpan, Pad;
    if StringSpan(w) >= 0 {
      StringSpanPadded(w);
      assert Begins(w, w[..Strlen(w)], w[StringSpan(w)..]);
    } else if chars, rest :| Begins(w, chars, rest) {
      BeginsMeans(w, chars, rest);
    }
  }

  /** Its errors: no terminator, a padding that reaches past the end, and a padding that is not all zero. */
  lemma StringErrors(w: seq<byte>)
    ensures StringSpan(w) == -ETERM <==> NulFree(w)
    ensures StringSpan(w) == -ESIZE <==>
      exists n: nat :: n < |w| && NulFree(w[..n]) && w[n] == 0 && PaddedSize(n) > |w|
    ensures StringSpan(w) == -EPAD <==>
      exists n: nat :: n < |w| && NulFree(w[..n]) && w[n] == 0 && PaddedSize(n) <= |w| && !Cleared(w, n, PaddedSize(n))
  {
    hide Strlen, PaddedSize, Zeros, Cleared;
    var n := Strlen(w);
    if n < |w| {
      assert !NulFree(w);
      if PaddedSize(n) <= |w| {
        PaddingIsZeros(w, n, PaddedSize(n));
      }
      assert n < |w| && NulFree(w[..n]) && w[n] == 0;
    } else {
      assert w[..n] == w;
    }
    forall m: nat | m < |w| && NulFree(w[..m]) && w[m] == 0 ensures m == n {
      StrlenUnique(w, m);
    }
  }

  lemma PaddingIsZeros(s: seq<byte>, lo: nat, hi: nat)
    requires lo <= hi <= |s|
    ensures Cleared(s, lo, hi) <==> s[lo..hi] == Zeros(hi - lo)
  {
    if s[lo..hi] == Zeros(hi - lo) {
      assert forall k | lo <= k < hi :: s[k] == s[lo..hi][k - lo] == Zeros(hi - lo)[k - lo];
    }
  }

  /** The errors for a blob: no room for it, or more than 32768 bytes, and a padding that is not all zero. */
  lemma BlobErrors(s: seq<byte>)
    ensures BlobSpan(s) == -ESIZE <==>
      |s| < 4 || BigEndian(s[..4]) > 32768 || PaddedSize(4 + BigEndian(s[..4])) > |s|
    ensures BlobSpan(s) == -EPAD <==>
      && |s| >= 4 && BigEndian(s[..4]) <= 32768 && PaddedSize(4 + BigEndian(s[..4])) <= |s|
      && !Cleared(s, 4 + BigEndian(s[..4]), PaddedSize(4 + BigEndian(s[..4])))
  {
    hide BigEndian, ReadNetwork32, PaddedSize, Cleared, Zeros;
    NetworkIsBigEndian(0, s);
    if |s| >= 4 && PaddedSize(4 + BigEndian(s[..4])) <= |s| {
      var end := 4 + BigEndian(s[..4]);
      PaddingIsZeros(s, end, PaddedSize(end));
    }
  }

  // A number is refused only when there is no room for it.
  lemma NumberErrors(t: byte, s: seq<byte>)
    ensures t as char in "ifcm" ==> ArgSpan(t, s) == if |s| >= 4 then 4 else -ESIZE
    ensures t as char in "htd" ==> ArgSpan(t, s) == if |s| >= 8 then 8 else -ESIZE
    ensures t as char in "TFNI" ==> ArgSpan(t, s) == 0
    ensures t as char in "sS" ==> ArgSpan(t, s) == StringSpan(s)
    ensures t as char == 'b' ==> ArgSpan(t, s) == BlobSpan(s)
  {
  }

  // ---- Arguments ----

  // Arguments of the given types that fit, at the start of the data.
  ghost predicate Starts(tags: seq<byte>, s: seq<byte>, args: seq<Arg>, extra: seq<byte>) {
    Tags(args) == tags && AllFit(args) && s == Forms(args, Network) + extra
  }

  lemma ArgumentStarts(t: byte, s: seq<byte>)
    ensures ArgSpan(t, s) >= 0 <==> exists a: Arg, rest :: a.Tag() == t && a.Fits() && s == a.Form(Network) + rest
    ensures ArgSpan(t, s) >= 0 ==> forall a: Arg, rest ::
      a.Tag() == t && a.Fits() && s == a.Form(Network) + rest ==> a == ArgAt(t, s) && rest == s[ArgSpan(t, s)..]
  {
    hide ArgSpan, ArgAt, Argument.Form, Argument.Fits, Argument.Tag, Argument.Size;
    if ArgSpan(t, s) >= 0 {
      ParsedForm(t, s);
      var a, n := ArgAt(t, s), ArgSpan(t, s);
      assert s == a.Form(Network) + s[n..] && a.Tag() == t && a.Fits();
    }
    forall a: Arg, rest | a.Tag() == t && a.Fits() && s == a.Form(Network) + rest
      ensures ArgSpan(t, s) >= 0 && a == ArgAt(t, s) && rest == s[ArgSpan(t, s)..]
    {
      FormParses(a, rest);
      FormFits(a);
      SplitAt(a.Form(Network), rest);
    }
  }

  lemma FormFits(a: Arg)
    ensures a.Size() == |a.Form(Network)|
  {
  }

  // One argument more in front.
  lemma StartsMore(a: Arg, tags: seq<byte>, s: seq<byte>, args: seq<Arg>, extra: seq<byte>)
    requires Starts(tags, s, args, extra) && a.Fits()
    ensures Starts([a.Tag()] + tags, a.Form(Network) + s, [a] + args, extra)
  {
    hide Argument.Form, Argument.Fits, Argument.Tag, Forms, Tags, AllFit;
    OneMoreForm(a, args);
    Assoc(a.Form(Network), Forms(args, Network), extra);
  }

  lemma StartsLess(tags: seq<byte>, s: seq<byte>, args: seq<Arg>, extra: seq<byte>)
    requires tags != [] && Starts(tags, s, args, extra)
    ensures args != [] && args[0].Tag() == tags[0] && args[0].Fits()
    ensures var rest := Forms(args[1..], Network) + extra;
      s == args[0].Form(Network) + rest && Starts(tags[1..], rest, args[1..], extra)
  {
    hide Argument.Form, Argument.Fits, Argument.Tag, Forms, Tags, AllFit;
    assert |args| == |tags|;
    var a, rest := args[0], args[1..];
    assert args == [a] + rest;
    OneMoreForm(a, rest);
    assert ([a.Tag()] + Tags(rest))[1..] == Tags(rest);
    Assoc(a.Form(Network), Forms(rest, Network), extra);
  }

  lemma StartsNothing(s: seq<byte>, args: seq<Arg>, extra: seq<byte>)
    ensures Starts([], s, args, extra) <==> args == [] && extra == s
  {
    assert Forms([], Network) == [];
    assert [] + extra == extra;
    assert |Tags(args)| == |args|;
  }

  // The reading of arguments and of what is behind them: unique, if there is one.
  lemma {:induction false} ReadingOf(tags: seq<byte>, s: seq<byte>, args: seq<Arg>, extra: seq<byte>)
    requires Starts(tags, s, args, extra)
    ensures DecodeArgs(tags, s) == if extra == [] then Arguments(args) else BadArguments(ESIZE)
    decreases |tags|
  {
    hide ArgSpan, ArgAt, Argument.Form, Argument.Fits, Argument.Tag, Forms, Tags, AllFit, Starts;
    if tags == [] {
      StartsNothing(s, args, extra);
    } else {
      StartsLess(tags, s, args, extra);
      var a := args[0];
      ArgumentStarts(tags[0], s);
      ParsedForm(tags[0], s);
      var rest := s[ArgSpan(tags[0], s)..];
      ReadingOf(tags[1..], rest, args[1..], extra);
      assert args == [a] + args[1..];
    }
  }

  lemma {:induction false} NoReading(tags: seq<byte>, s: seq<byte>)
    ensures DecodeArgs(tags, s) == BadArguments(EINVALIDARG) || exists args, extra :: Starts(tags, s, args, extra)
    decreases |tags|
  {
    hide ArgSpan, ArgAt, Argument.Form, Argument.Fits, Argument.Tag, Argument.Size, Forms, Tags, AllFit, Starts;
    if tags == [] {
      StartsNothing(s, [], s);
    } else if ArgSpan(tags[0], s) >= 0 {
      ParsedForm(tags[0], s);
      var a, rest := ArgAt(tags[0], s), s[ArgSpan(tags[0], s)..];
      NoReading(tags[1..], rest);
      if args, extra :| Starts(tags[1..], rest, args, extra) {
        StartsMore(a, tags[1..], rest, args, extra);
        assert s == a.Form(Network) + rest && tags == [tags[0]] + tags[1..];
        assert Starts(tags, s, [a] + args, extra);
      }
    }
  }

  /** Arguments are read exactly when the data is that of arguments of the given types; with more data behind them the
      size is wrong, and with no such arguments one of them is. */
  lemma WhyArgumentsRefused(tags: seq<byte>, s: seq<byte>)
    ensures DecodeArgs(tags, s).Arguments? <==> exists args :: Starts(tags, s, args, [])
    ensures DecodeArgs(tags, s) == BadArguments(ESIZE) <==> exists args, extra :: extra != [] && Starts(tags, s, args, extra)
    ensures DecodeArgs(tags, s) == BadArguments(EINVALIDARG) <==> !exists args, extra :: Starts(tags, s, args, extra)
  {
    hide Starts, DecodeArgs;
    NoReading(tags, s);
    if args, extra :| Starts(tags, s, args, extra) {
      ReadingOf(tags, s, args, extra);
    }
    if args :| Starts(tags, s, args, []) {
      ReadingOf(tags, s, args, []);
    }
    forall args, extra | Starts(tags, s, args, extra)
      ensures DecodeArgs(tags, s) == if extra == [] then Arguments(args) else BadArguments(ESIZE)
    {
      ReadingOf(tags, s, args, extra);
    }
  }

  // ---- Messages ----

  // A path, a type string with its comma, and data.
  ghost predicate Framed(w: seq<byte>, path: seq<byte>, tags: seq<byte>, data: seq<byte>) {
    NulFree(path) && NulFree(tags) && w == Pad(path) + (Pad([COMMA] + tags) + data)
  }

  // A path and a string that is no type string.
  ghost predicate Mistyped(w: seq<byte>, path: seq<byte>, types: seq<byte>, data: seq<byte>) {
    && NulFree(path) && NulFree(types) && (types == [] || types[0] != COMMA)
    && w == Pad(path) + (Pad(types) + data)
  }

  lemma DecodeFramed(w: seq<byte>, path: seq<byte>, tags: seq<byte>, data: seq<byte>)
    requires Framed(w, path, tags, data)
    ensures Decode(w) == match DecodeArgs(tags, data)
      case Arguments(args) => Content(path, args)
      case BadArguments(e) => Refused(e)
  {
    hide Strlen, StringSpan, DecodeArgs, PaddedSize;
    var types := [COMMA] + tags;
    var rest := Pad(types) + data;
    PaddedStringSpan(path, rest);
    PaddedStringSpan(types, data);
    assert rest[..|types|][1..] == tags && rest[0] == rest[..|types|][0];
    assert rest[1..|types|] == rest[..|types|][1..];
  }

  lemma DecodeMistyped(w: seq<byte>, path: seq<byte>, types: seq<byte>, data: seq<byte>)
    requires Mistyped(w, path, types, data)
    ensures Decode(w) == Refused(EBADTYPE)
  {
    hide Strlen, StringSpan, DecodeArgs, PaddedSize;
    var rest := Pad(types) + data;
    PaddedStringSpan(path, rest);
    PaddedStringSpan(types, data);
    assert rest[0] == Pad(types)[0];
    assert types != [] ==> rest[0] == types[0];
    assert types == [] ==> rest[0] == 0;
  }

  lemma DecodeUntyped(w: seq<byte>, path: seq<byte>, rest: seq<byte>)
    requires Begins(w, path, rest) && !HasString(rest)
    ensures Decode(w) == Refused(if rest == [] then ENOTYPE else EINVALIDTYPE)
  {
    hide Strlen, StringSpan, DecodeArgs;
    BeginsMeans(w, path, rest);
    AcceptsStrings(rest);
  }

  // Every packet is one of these.
  datatype Shape =
    | Empty
    | NoPath
    | NoTypes(path: seq<byte>, rest: seq<byte>)
    | BadTypes(path: seq<byte>, types: seq<byte>, data: seq<byte>)
    | Typed(path: seq<byte>, tags: seq<byte>, data: seq<byte>)

  ghost predicate HasShape(w: seq<byte>, sh: Shape) {
    match sh
    case Empty => w == []
    case NoPath => w != [] && !HasString(w)
    case NoTypes(path, rest) => Begins(w, path, rest) && !HasString(rest)
    case BadTypes(path, types, data) => Mistyped(w, path, types, data)
    case Typed(path, tags, data) => Framed(w, path, tags, data)
  }

  lemma ShapeOf(w: seq<byte>) returns (sh: Shape)
    ensures HasShape(w, sh)
  {
    hide Strlen, StringSpan, Pad, HasString;
    AcceptsStrings(w);
    if w == [] {
      sh := Empty;
    } else if StringSpan(w) < 0 {
      sh := NoPath;
    } else {
      StringSpanPadded(w);
      var path, rest := w[..Strlen(w)], w[StringSpan(w)..];
      AcceptsStrings(rest);
      if StringSpan(rest) < 0 {
        sh := NoTypes(path, rest);
      } else {
        StringSpanPadded(rest);
        var types, data := rest[..Strlen(rest)], rest[StringSpan(rest)..];
        if types == [] || types[0] != COMMA {
          sh := BadTypes(path, types, data);
        } else {
          assert types == [COMMA] + types[1..];
          sh := Typed(path, types[1..], data);
        }
      }
    }
  }

  /** What lo_message_deserialise answers is settled by the shape of the packet, and every packet has a shape
      (ShapeOf): so a message is refused for exactly one reason. */
  lemma WhyRefused(w: seq<byte>, sh: Shape)
    requires HasShape(w, sh)
    ensures match sh
      case Empty => Decode(w) == Refused(ESIZE)
      case NoPath => Decode(w) == Refused(EINVALIDPATH)
      case NoTypes(_, rest) => Decode(w) == Refused(if rest == [] then ENOTYPE else EINVALIDTYPE)
      case BadTypes(_, _, _) => Decode(w) == Refused(EBADTYPE)
      case Typed(path, tags, data) =>
        && (forall args :: Decode(w) == Content(path, args) <==> Starts(tags, data, args, []))
        && (Decode(w) == Refused(ESIZE) <==> exists args, extra :: extra != [] && Starts(tags, data, args, extra))
        && (Decode(w) == Refused(EINVALIDARG) <==> !exists args, extra :: Starts(tags, data, args, extra))
  {
    hide StringSpan, Strlen, DecodeArgs, Starts, Pad, HasString;
    match sh
    case Empty =>
    case NoPath => AcceptsStrings(w);
    case NoTypes(path, rest) => DecodeUntyped(w, path, rest);
    case BadTypes(path, types, data) => DecodeMistyped(w, path, types, data);
    case Typed(path, tags, data) =>
      DecodeFramed(w, path, tags, data);
      WhyArgumentsRefused(tags, data);
      forall args ensures Decode(w) == Content(path, args) <==> Starts(tags, data, args, []) {
        OneReading(tags, data, args);
      }
  }

  lemma OneReading(tags: seq<byte>, s: seq<byte>, args: seq<Arg>)
    ensures DecodeArgs(tags, s) == Arguments(args) <==> Starts(tags, s, args, [])
  {
    hide DecodeArgs, Forms, Tags, AllFit;
    if Starts(tags, s, args, []) {
      ReadingOf(tags, s, args, []);
    }
    if DecodeArgs(tags, s) == Arguments(args) {
      DecodeArgsSound(tags, s);
      assert Forms(args, Network) + [] == s;
    }
  }

  // ---- Bundles ----

  /** The errors of lo_validate_bundle: the wrong marker when there is a string but another one, and otherwise the size,
      for no string at all, no room for the timetag, or elements that do not cover the rest. */
  lemma BundleErrors(s: seq<byte>)
    ensures BundleSpan(s) == -EINVALIDBUND <==> exists chars, rest :: Begins(s, chars, rest) && chars != MARKER
    ensures BundleSpan(s) >= 0 <==> exists rest :: Begins(s, MARKER, rest) && |rest| >= 8 && Tiled(rest[8..])
    ensures BundleSpan(s) in [-EINVALIDBUND, -ESIZE, |s|]
  {
    hide Strlen, StringSpan, Tiled, Begins, HasString;
    AcceptsStrings(s);
    if StringSpan(s) >= 0 {
      StringSpanPadded(s);
    }
    forall chars, rest | Begins(s, chars, rest)
      ensures 0 <= StringSpan(s) <= |s| && s[..Strlen(s)] == chars && s[StringSpan(s)..] == rest
    {
      BeginsMeans(s, chars, rest);
    }
    if StringSpan(s) >= 0 {
      StringSpanPadded(s);
      var rest := s[StringSpan(s)..];
      assert Begins(s, s[..Strlen(s)], rest);
      assert |rest| >= 8 ==> rest[8..] == s[StringSpan(s) + 8..];
    }
  }
}
