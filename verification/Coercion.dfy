/** Handing a message to a method with another, compatible type string: lo_can_coerce_spec, lo_coerce and
    the two passes of dispatch_method over the arguments. */
module Coercion {
  import opened Bytes
  import opened Osc
  import opened Codec
  import opened Messages

  predicate CanCoerce(a: byte, b: byte) {
    a == b || (IsNumerical(a) && IsNumerical(b)) || (IsText(a) && IsText(b))
  }

  // lo_can_coerce_spec
  predicate CanCoerceSpec(types: seq<byte>, spec: seq<byte>) {
    |types| == |spec| && forall i | 0 <= i < |types| :: CanCoerce(types[i], spec[i])
  }

  /** Who can stand in for whom: the four number types for each other, the two string types for each other, and every
      other type for itself alone. */
  lemma CoercionClasses(types: seq<byte>, spec: seq<byte>)
    ensures CanCoerceSpec(types, spec) <==> |types| == |spec| && forall i | 0 <= i < |types| ::
      var a, b := types[i] as char, spec[i] as char; a == b || (a in "ihfd" && b in "ihfd") || (a in "sS" && b in "sS")
  {
    hide CanCoerce;
    forall a: byte, b: byte
      ensures CanCoerce(a, b) <==> a == b || (a as char in "ihfd" && b as char in "ihfd") || (a as char in "sS" && b as char in "sS")
    {
      Coerces(a, b);
    }
  }

  lemma Coerces(a: byte, b: byte)
    ensures CanCoerce(a, b) <==> a == b || (a as char in "ihfd" && b as char in "ihfd") || (a as char in "sS" && b as char in "sS")
  {
    Letters(a);
    Letters(b);
  }

  lemma Letters(t: byte)
    ensures IsNumerical(t) <==> t as char in "ihfd"
    ensures IsText(t) <==> t as char in "sS"
  {
  }

  // The bytes of a converted number; how numbers are converted is left open.
  type Bits = s: seq<byte> | |s| == 8 witness [0, 0, 0, 0, 0, 0, 0, 0]

  type Convert = (byte, byte, seq<byte>) -> Bits

  // The room a value of type t takes when it comes from argument a.
  function TargetSize(t: byte, a: Arg): nat {
    if IsWord(t) then 4 else if IsWide(t) then 8 else a.Size()
  }

  // A place in the converted data holds argument a as a value of type t.
  predicate Holds(t: byte, a: Arg, slot: seq<byte>, convert: Convert) {
    && |slot| == TargetSize(t, a)
    && if t == a.Tag() then slot == a.Form(Host)
       else if IsText(t) then a.Text? && a.chars + [0] <= slot
       else slot <= convert(a.Tag(), t, a.Form(Host))
  }

  // The places lie side by side from the start, argv says where each begins, and nothing is left over.
  predicate Laid(spec: seq<byte>, args: seq<Arg>, d: seq<byte>, argv: seq<nat>, convert: Convert)
    decreases |spec|
  {
    && |spec| == |args| == |argv|
    && if spec == [] then d == []
       else
         var n := |spec| - 1;
         && argv[n] <= |d| && Holds(spec[n], args[n], d[argv[n]..], convert)
         && Laid(spec[..n], args[..n], d[..argv[n]], argv[..n], convert)
  }

  /** Every argument vector entry starts a value of the type the method asked for, inside the data. */
  lemma {:induction false} EntriesStartValues(spec: seq<byte>, args: seq<Arg>, d: seq<byte>, argv: seq<nat>,
                                              convert: Convert, i: nat)
    requires Laid(spec, args, d, argv, convert) && i < |spec|
    ensures argv[i] + TargetSize(spec[i], args[i]) <= |d|
    ensures Holds(spec[i], args[i], d[argv[i]..argv[i] + TargetSize(spec[i], args[i])], convert)
    ensures i + 1 < |spec| ==> argv[i + 1] == argv[i] + TargetSize(spec[i], args[i])
    decreases |spec|
  {
    hide Holds, TargetSize;
    var n := |spec| - 1;
    LaidLength(spec, args, d, argv, convert);
    if i == n {
      assert d[argv[n]..] == d[argv[n]..|d|];
    } else {
      EntriesStartValues(spec[..n], args[..n], d[..argv[n]], argv[..n], convert, i);
      SlicePrefix(d, argv[i], argv[i] + TargetSize(spec[i], args[i]), argv[n]);
      if i + 1 == n {
        LaidLength(spec[..n], args[..n], d[..argv[n]], argv[..n], convert);
      }
    }
  }

  lemma LaidLength(spec: seq<byte>, args: seq<Arg>, d: seq<byte>, argv: seq<nat>, convert: Convert)
    requires Laid(spec, args, d, argv, convert) && spec != []
    ensures var n := |spec| - 1;
      && argv[n] <= |d| == argv[n] + TargetSize(spec[n], args[n]) && Holds(spec[n], args[n], d[argv[n]..], convert)
      && Laid(spec[..n], args[..n], d[..argv[n]], argv[..n], convert)
  {
    hide TargetSize;
  }

  lemma SlicePrefix<T>(s: seq<T>, lo: nat, hi: nat, end: nat)
    requires lo <= hi <= end <= |s|
    ensures s[..end][lo..hi] == s[lo..hi]
  {
  }

  lemma SliceStart<T>(s: seq<T>, at: nat, n: nat, k: nat)
    requires k <= n && at + n <= |s|
    ensures s[at..at + n][..k] == s[at..at + k]
  {
  }

  // What lo_arg_size answers for the method's type on the message's data, and on the converted value.
  lemma TargetSizeRead(t: byte, a: Arg, rest: seq<byte>)
    requires CanCoerce(a.Tag(), t)
    ensures t == BLOB ==> |a.Form(Host) + rest| >= 4
    ensures ArgSize(t, a.Form(Host) + rest) == TargetSize(t, a)
  {
    HostSize(a, rest);
  }

  lemma TargetSizeOfValue(t: byte, a: Arg, slot: seq<byte>, rest: seq<byte>, convert: Convert)
    requires CanCoerce(a.Tag(), t) && Holds(t, a, slot, convert)
    ensures t == BLOB ==> |slot + rest| >= 4
    ensures ArgSize(t, slot + rest) == TargetSize(t, a)
  {
    if t == a.Tag() {
      HostSize(a, rest);
    } else if IsText(t) {
      var s := slot + rest;
      assert s[..|a.chars|] == a.chars && s[|a.chars|] == 0;
      StrlenUnique(s, |a.chars|);
    }
  }

  function TotalTarget(spec: seq<byte>, args: seq<Arg>): nat
    requires |spec| == |args|
  {
    if spec == [] then 0
    else
      var n := |spec| - 1;
      TotalTarget(spec[..n], args[..n]) + TargetSize(spec[n], args[n])
  }

  // strcpy
  method CopyString(to: array<byte>, at: nat, src: seq<byte>)
    requires Strlen(src) < |src| && at + Strlen(src) + 1 <= to.Length
    modifies to
    ensures to[..at] == old(to[..at])
    ensures to[at..at + Strlen(src) + 1] == src[..Strlen(src)] + [0]
  {
    hide Over;
    var n := Strlen(src);
    OverReads(to[..], at, src[..n] + [0]);
    Copy(to, at, src[..n] + [0]);
  }

  lemma OverReads(buf: seq<byte>, at: nat, s: seq<byte>)
    requires at + |s| <= |buf|
    ensures Over(buf, at, s)[..at] == buf[..at] && Over(buf, at, s)[at..at + |s|] == s
  {
  }

  method CoerceText(t: byte, to: array<byte>, at: nat, src: seq<byte>, convert: Convert, ghost a: Arg, ghost rest: seq<byte>)
    requires src == a.Form(Host) + rest && a.Text? && IsText(t) && t != a.tag
    requires at + a.Size() <= to.Length
    modifies to
    ensures to[..at] == old(to[..at])
    ensures Holds(t, a, to[at..at + a.Size()], convert)
  {
    PaddedStringSpan(a.chars, rest);
    CopyString(to, at, src);
    var size := a.Size();
    SliceStart(to[..], at, size, |a.chars| + 1);
    assert to[..][at..at + size] == to[at..at + size];
    StringPrefix(a.chars, to[at..at + size]);
  }

  // lo_coerce; src is the message's data from the argument on.
  method Coerce(t: byte, to: array<byte>, at: nat, from: byte, src: seq<byte>, convert: Convert,
                ghost a: Arg, ghost rest: seq<byte>)
    returns (ok: bool)
    requires from == a.Tag() && src == a.Form(Host) + rest && CanCoerce(from, t)
    requires at + TargetSize(t, a) <= to.Length
    modifies to
    ensures ok
    ensures to[..at] == old(to[..at])
    ensures Holds(t, a, to[at..at + TargetSize(t, a)], convert)
  {
    hide Over;
    HostSize(a, rest);
    SplitAt(a.Form(Host), rest);
    var size := ArgSize(from, src);
    if t == from {
      OverReads(to[..], at, src[..size]);
      Copy(to, at, src[..size]);
      return true;
    }
    if IsText(t) && IsText(from) {
      CoerceText(t, to, at, src, convert, a, rest);
      return true;
    }
    if IsNumerical(t) && IsNumerical(from) {
      var bits := convert(from, t, src[..size]);
      var value: seq<byte> := if IsWide(t) then bits else bits[..4];
      OverReads(to[..], at, value);
      Copy(to, at, value);
      return true;
    }
    assert false;
    return false;
  }

  lemma StringPrefix(chars: seq<byte>, slot: seq<byte>)
    requires |chars| < |slot| && slot[..|chars| + 1] == chars + [0]
    ensures chars + [0] <= slot
  {
  }

  // The first pass of dispatch_method: how much room the converted arguments take.
  method Measure(types: seq<byte>, spec: seq<byte>, data: seq<byte>, ghost args: seq<Arg>) returns (opsize: nat)
    requires types == Tags(args) && data == Forms(args, Host) && CanCoerceSpec(types, spec)
    ensures opsize == TotalTarget(spec, args)
  {
    hide Argument.Form, Forms, ArgSize, TargetSize;
    opsize := 0;
    var rest := data;
    for i := 0 to |types|
      invariant opsize == TotalTarget(spec[..i], args[..i])
      invariant rest == Forms(args[i..], Host)
    {
      FormsAt(args, i, Host);
      ArgumentAt(args, i, rest);
      TargetSizeRead(spec[i], args[i], Forms(args[i + 1..], Host));
      assert spec[..i + 1][..i] == spec[..i] && args[..i + 1][..i] == args[..i];
      opsize := opsize + ArgSize(spec[i], rest);
      rest := rest[ArgSize(types[i], rest)..];
    }
    assert spec[..|spec|] == spec && args[..|args|] == args;
  }

  /** Both passes: the second one advances by exactly what the first one measured, every write stays
      inside the new block, no coercion fails, and each entry of argv starts a value of the method's type. */
  method CoerceArguments(types: seq<byte>, spec: seq<byte>, data: seq<byte>, convert: Convert, ghost args: seq<Arg>)
    returns (argv: seq<nat>, dataCo: array<byte>)
    requires types == Tags(args) && data == Forms(args, Host) && CanCoerceSpec(types, spec)
    ensures fresh(dataCo) && dataCo.Length == TotalTarget(spec, args)
    ensures Laid(spec, args, dataCo[..], argv, convert)
  {
    hide Argument.Form, Forms, ArgSize, TargetSize, TotalTarget, Holds, Laid;
    var opsize := Measure(types, spec, data, args);
    dataCo := new byte[opsize];
    argv := [];
    var rest, ptr := data, 0;
    NothingLaid(convert);
    assert dataCo[..0] == [];
    for i := 0 to |types|
      invariant ptr == TotalTarget(spec[..i], args[..i]) <= dataCo.Length
      invariant |argv| == i && Laid(spec[..i], args[..i], dataCo[..ptr], argv, convert)
      invariant rest == Forms(args[i..], Host)
    {
      ghost var tail := Forms(args[i + 1..], Host);
      FormsAt(args, i, Host);
      ArgumentAt(args, i, rest);
      RoomFor(spec, args, i);
      ghost var before, size := dataCo[..ptr], TargetSize(spec[i], args[i]);
      var len := CoerceOne(spec[i], dataCo, ptr, types[i], rest, convert, args[i], tail);
      LaidOneMore(spec, args, i, before, dataCo[ptr..ptr + size], argv, convert);
      JoinedSlices(dataCo[..], before, ptr, size);
      argv := argv + [ptr];
      ptr := ptr + len;
      rest := rest[ArgSize(types[i], rest)..];
    }
    assert spec[..|spec|] == spec && args[..|args|] == args && dataCo[..ptr] == dataCo[..];
  }

  lemma JoinedSlices<T>(s: seq<T>, before: seq<T>, at: nat, n: nat)
    requires at + n <= |s| && s[..at] == before
    ensures s[..at + n] == before + s[at..at + n]
  {
  }

  // One round of the second pass: the value is put in place, and its size there read back.
  method CoerceOne(t: byte, to: array<byte>, at: nat, from: byte, src: seq<byte>, convert: Convert,
                   ghost a: Arg, ghost rest: seq<byte>)
    returns (len: nat)
    requires from == a.Tag() && src == a.Form(Host) + rest && CanCoerce(from, t)
    requires at + TargetSize(t, a) <= to.Length
    modifies to
    ensures len == TargetSize(t, a) && to[..at] == old(to[..at])
    ensures Holds(t, a, to[at..at + TargetSize(t, a)], convert)
  {
    hide Argument.Form, ArgSize, TargetSize, Holds, CanCoerce;
    var ok := Coerce(t, to, at, from, src, convert, a, rest);
    assert ok;
    ghost var size := TargetSize(t, a);
    TargetSizeOfValue(t, a, to[at..at + size], to[at + size..], convert);
    assert to[at..] == to[at..at + size] + to[at + size..];
    len := ArgSize(t, to[at..]);
  }

  lemma NothingLaid(convert: Convert)
    ensures Laid([], [], [], [], convert) && TotalTarget([], []) == 0
  {
  }

  lemma LaidOneMore(spec: seq<byte>, args: seq<Arg>, i: nat, d: seq<byte>, slot: seq<byte>, argv: seq<nat>, convert: Convert)
    requires i < |spec| == |args| && Laid(spec[..i], args[..i], d, argv, convert) && Holds(spec[i], args[i], slot, convert)
    ensures Laid(spec[..i + 1], args[..i + 1], d + slot, argv + [|d|], convert)
  {
    hide Holds;
    assert spec[..i + 1][..i] == spec[..i] && args[..i + 1][..i] == args[..i];
    assert (argv + [|d|])[..i] == argv;
    SplitAt(d, slot);
  }

  lemma {:induction false} RoomFor(spec: seq<byte>, args: seq<Arg>, i: nat)
    requires i < |spec| == |args|
    ensures TotalTarget(spec[..i + 1], args[..i + 1]) == TotalTarget(spec[..i], args[..i]) + TargetSize(spec[i], args[i])
    ensures TotalTarget(spec[..i + 1], args[..i + 1]) <= TotalTarget(spec, args)
    decreases |spec|
  {
    hide TargetSize;
    assert spec[..i + 1][..i] == spec[..i] && args[..i + 1][..i] == args[..i];
    var n := |spec| - 1;
    if i == n {
      assert spec[..i + 1] == spec && args[..i + 1] == args;
    } else {
      assert spec[..n][..i + 1] == spec[..i + 1] && args[..n][..i + 1] == args[..i + 1];
      RoomFor(spec[..n], args[..n], i);
    }
  }
}
