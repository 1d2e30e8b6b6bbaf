/** Type characters and error codes of the OSC library, and the values a message carries. */
module Osc {
  import opened Bytes

  const INT32: byte := 0x69      // 'i'
  const FLOAT: byte := 0x66      // 'f'
  const STRING: byte := 0x73     // 's'
  const BLOB: byte := 0x62       // 'b'
  const INT64: byte := 0x68      // 'h'
  const TIMETAG: byte := 0x74    // 't'
  const DOUBLE: byte := 0x64     // 'd'
  const SYMBOL: byte := 0x53     // 'S'
  const CHAR: byte := 0x63       // 'c'
  const MIDI: byte := 0x6D       // 'm'
  const TRUE: byte := 0x54       // 'T'
  const FALSE: byte := 0x46      // 'F'
  const NIL: byte := 0x4E        // 'N'
  const INFINITUM: byte := 0x49  // 'I'
  const COMMA: byte := 0x2C      // ','

  const ENOTYPE := 9902
  const EINVALIDPATH := 9908
  const EINVALIDTYPE := 9909
  const EBADTYPE := 9910
  const ESIZE := 9911
  const EINVALIDARG := 9912
  const ETERM := 9913
  const EPAD := 9914
  const EINVALIDBUND := 9915

  const MAX_MSG_SIZE: nat := 32768

  predicate IsUnit(t: byte) {
    t == TRUE || t == FALSE || t == NIL || t == INFINITUM
  }

  predicate IsWord(t: byte) {
    t == INT32 || t == FLOAT || t == MIDI || t == CHAR
  }

  predicate IsWide(t: byte) {
    t == INT64 || t == TIMETAG || t == DOUBLE
  }

  // lo_is_string_type
  predicate IsText(t: byte) {
    t == STRING || t == SYMBOL
  }

  // lo_is_numerical_type
  predicate IsNumerical(t: byte) {
    t == INT32 || t == FLOAT || t == INT64 || t == DOUBLE
  }

  predicate NulFree(s: seq<byte>) {
    forall i | 0 <= i < |s| :: s[i] != 0
  }

  // 4 * (n / 4 + 1): the size of a string of n characters with its 1 to 4 NULs, and of n bytes of blob.
  function PaddedSize(n: nat): (size: nat)
    ensures n < size <= n + 4
  {
    4 * (n / 4 + 1)
  }

  function Pad(s: seq<byte>): (p: seq<byte>)
    ensures |p| == PaddedSize(|s|)
  {
    s + Zeros(PaddedSize(|s|) - |s|)
  }

  datatype Order = Host | Network

  function Length32(n: nat, order: Order): (w: seq<byte>)
    ensures |w| == 4
  {
    if order.Host? then Image32(n) else Network32(n)
  }

  /** One argument. A word or wide value is kept as its bytes in host memory. */
  datatype Argument =
    | Unit(tag: byte)
    | Word(tag: byte, word: seq<byte>)
    | Wide(tag: byte, wide: seq<byte>)
    | Text(tag: byte, chars: seq<byte>)
    | Blob(data: seq<byte>)
  {
    predicate Valid() {
      match this
      case Unit(t) => IsUnit(t)
      case Word(t, w) => IsWord(t) && |w| == 4
      case Wide(t, w) => IsWide(t) && |w| == 8
      case Text(t, s) => IsText(t) && NulFree(s)
      case Blob(d) => |d| < TWO_TO_THE_32 - 8
    }

    // lo_validate_blob refuses longer blobs, lo_message_add_blob does not.
    predicate Fits() {
      Blob? ==> |data| <= MAX_MSG_SIZE
    }

    function Tag(): byte {
      if Blob? then BLOB else tag
    }

    // The bytes of the argument in a message's data (Host) or in a packet (Network).
    function Form(order: Order): seq<byte>
      requires Valid()
    {
      match this
      case Unit(_) => []
      case Word(t, w) => if order.Host? || t == MIDI then w else Swap32(w)
      case Wide(_, w) => if order.Host? then w else Swap64(w)
      case Text(_, s) => Pad(s)
      case Blob(d) => Length32(|d|, order) + d + Zeros(PaddedSize(4 + |d|) - (4 + |d|))
    }

    // The size is the same in both byte orders.
    function Size(): (n: nat)
      requires Valid()
      ensures n == |Form(Host)| == |Form(Network)|
    {
      match this
      case Unit(_) => 0
      case Word(_, _) => 4
      case Wide(_, _) => 8
      case Text(_, s) => PaddedSize(|s|)
      case Blob(d) => PaddedSize(4 + |d|)
    }
  }

  type Arg = a: Argument | a.Valid() witness Unit(TRUE)

  predicate AllFit(args: seq<Arg>) {
    forall a | a in args :: a.Fits()
  }

  function Tags(args: seq<Arg>): (t: seq<byte>)
    ensures |t| == |args|
    ensures forall i | 0 <= i < |args| :: t[i] == args[i].Tag()
  {
    seq(|args|, i requires 0 <= i < |args| => args[i].Tag())
  }

  // The type string of a message, without its terminator.
  function TypeString(args: seq<Arg>): (t: seq<byte>)
    ensures |t| == 1 + |args|
  {
    [COMMA] + Tags(args)
  }

  function Forms(args: seq<Arg>, order: Order): seq<byte> {
    if args == [] then [] else args[0].Form(order) + Forms(args[1..], order)
  }

  // What lo_message_serialise puts on the wire.
  function Wire(path: seq<byte>, args: seq<Arg>): (w: seq<byte>)
  {
    Pad(path) + Pad(TypeString(args)) + Forms(args, Network)
  }

  lemma {:induction false} FormsConcat(a: seq<Arg>, b: seq<Arg>, order: Order)
    ensures Forms(a + b, order) == Forms(a, order) + Forms(b, order)
  {
    hide Argument.Form;
    if a == [] {
      assert a + b == b;
    } else {
      assert (a + b)[1..] == a[1..] + b;
      FormsConcat(a[1..], b, order);
    }
  }

  lemma FormsSnoc(args: seq<Arg>, a: Arg, order: Order)
    ensures Forms(args + [a], order) == Forms(args, order) + a.Form(order)
  {
    FormsConcat(args, [a], order);
    assert [a][1..] == [];
    assert Forms([a], order) == a.Form(order) + Forms([], order);
  }

  function TotalSize(args: seq<Arg>): nat {
    if args == [] then 0 else args[0].Size() + TotalSize(args[1..])
  }

  lemma {:induction false} FormsSize(args: seq<Arg>, order: Order)
    ensures |Forms(args, order)| == TotalSize(args)
  {
    if args != [] {
      FormsSize(args[1..], order);
      assert args[0].Size() == |args[0].Form(order)|;
    }
  }

  lemma TypeStringNulFree(args: seq<Arg>)
    ensures NulFree(TypeString(args))
  {
    forall i | 0 <= i < |args| ensures args[i].Tag() != 0 {
      assert args[i].Valid();
    }
  }

  lemma WordsAddUp(a: nat, b: nat, c: nat)
    requires a % 4 == 0 && b % 4 == 0 && c % 4 == 0
    ensures (a + b + c) % 4 == 0
  {
    var i, j, k := a / 4, b / 4, c / 4;
    assert a == 4 * i && b == 4 * j && c == 4 * k;
    FourTimes(i + j + k);
  }

  lemma FourTimes(k: nat)
    ensures 4 * k % 4 == 0
  {
  }

  lemma SizeWhole(a: Arg)
    ensures a.Size() % 4 == 0
  {
    hide PaddedSize, Argument.Form;
    match a
    case Unit(_) =>
    case Word(_, _) =>
    case Wide(_, _) =>
    case Text(_, s) => PaddedWhole(|s|);
    case Blob(d) => PaddedWhole(4 + |d|);
  }

  lemma PaddedWhole(n: nat)
    ensures PaddedSize(n) % 4 == 0
  {
  }

  lemma {:induction false} TotalSizeWhole(args: seq<Arg>)
    ensures TotalSize(args) % 4 == 0
  {
    if args != [] {
      SizeWhole(args[0]);
      TotalSizeWhole(args[1..]);
      WordsAddUp(args[0].Size(), TotalSize(args[1..]), 0);
    }
  }

  // lo_message_length, and it is a whole number of words.
  lemma WireLength(path: seq<byte>, args: seq<Arg>)
    ensures |Wire(path, args)| == PaddedSize(|path|) + PaddedSize(1 + |args|) + |Forms(args, Host)|
    ensures |Wire(path, args)| % 4 == 0
  {
    hide PaddedSize, Forms, TotalSize;
    FormsSize(args, Host);
    FormsSize(args, Network);
    TotalSizeWhole(args);
    PaddedWhole(|path|);
    PaddedWhole(1 + |args|);
    WordsAddUp(PaddedSize(|path|), PaddedSize(1 + |args|), TotalSize(args));
  }
}
