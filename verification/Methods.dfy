/** The method table of server.c: a linked list with appending, deleting and dispatching. What
    lo_pattern_match answers is a parameter, so nothing here depends on the kind of pattern. */
module Methods {
  import opened Options
  import opened Bytes
  import Osc
  import Coercion
  import Messages

  type Text = seq<byte>

  // A method: a missing path or type string is a wildcard. The id stands for handler and user data.
  datatype Method = Method(path: Option<Text>, typespec: Option<Text>, id: nat)

  // The answer of lo_pattern_match for a string and a pattern.
  type Matcher = (Text, Text) -> bool

  // One of " #*,?[]{}" occurs in the path.
  predicate IsPattern(path: Text) {
    exists c | c in path :: c in [0x20, 0x23, 0x2A, 0x2C, 0x3F, 0x5B, 0x5D, 0x7B, 0x7D]
  }

  // The pattern characters, as the server writes them.
  const PATTERN_CHARACTERS: string := " #*,?[]{}"

  ghost predicate HoldsCharacter(path: Text, chars: string) {
    exists i, j :: 0 <= i < |path| && 0 <= j < |chars| && path[i] == chars[j] as int
  }

  // What registering, deleting and dispatching take for a pattern is a path with one of those characters.
  lemma PatternMeans(path: Text)
    ensures IsPattern(path) <==> HoldsCharacter(path, PATTERN_CHARACTERS)
  {
    forall i | 0 <= i < |path|
      ensures path[i] in [0x20, 0x23, 0x2A, 0x2C, 0x3F, 0x5B, 0x5D, 0x7B, 0x7D] <==>
              exists j :: 0 <= j < |PATTERN_CHARACTERS| && path[i] == PATTERN_CHARACTERS[j] as int
    {
      CharacterCodes(path[i]);
    }
  }

  lemma CharacterCodes(c: byte)
    ensures c in [0x20, 0x23, 0x2A, 0x2C, 0x3F, 0x5B, 0x5D, 0x7B, 0x7D] <==>
            exists j :: 0 <= j < |PATTERN_CHARACTERS| && c == PATTERN_CHARACTERS[j] as int
  {
    var codes := seq(9, j requires 0 <= j < 9 => PATTERN_CHARACTERS[j] as int);
    assert codes == [0x20, 0x23, 0x2A, 0x2C, 0x3F, 0x5B, 0x5D, 0x7B, 0x7D];
    assert forall j | 0 <= j < 9 :: codes[j] == PATTERN_CHARACTERS[j] as int;
  }

  // ---- Deleting ----

  // The test of lo_server_del_method.
  predicate Doomed(m: Method, path: Option<Text>, typespec: Option<Text>, matcher: Matcher) {
    && (m.path == path ||
        (path.Some? && IsPattern(path.value) && m.path.Some? && matcher(m.path.value, path.value)))
    && m.typespec == typespec
  }

  // The methods that stay, in their order.
  function Kept(ms: seq<Method>, path: Option<Text>, typespec: Option<Text>, matcher: Matcher): seq<Method> {
    if ms == [] then []
    else
      var n := |ms| - 1;
      Kept(ms[..n], path, typespec, matcher) + if Doomed(ms[n], path, typespec, matcher) then [] else [ms[n]]
  }

  // Deleting a method that was just added restores the table, when no other method answers to the same call.
  lemma {:induction false} DeleteUndoesAdd(ms: seq<Method>, m: Method, matcher: Matcher)
    requires forall x | x in ms :: !Doomed(x, m.path, m.typespec, matcher)
    ensures Kept(ms + [m], m.path, m.typespec, matcher) == ms
  {
    hide IsPattern;
    KeptAll(ms, m.path, m.typespec, matcher);
    assert (ms + [m])[..|ms|] == ms;
  }

  lemma {:induction false} KeptAll(ms: seq<Method>, path: Option<Text>, typespec: Option<Text>, matcher: Matcher)
    requires forall x | x in ms :: !Doomed(x, path, typespec, matcher)
    ensures Kept(ms, path, typespec, matcher) == ms
  {
    hide Doomed;
    if ms != [] {
      var n := |ms| - 1;
      assert ms[n] in ms;
      NoneDoomed(ms, n, path, typespec, matcher);
      KeptAll(ms[..n], path, typespec, matcher);
      assert ms == ms[..n] + [ms[n]];
    }
  }

  lemma NoneDoomed(ms: seq<Method>, n: nat, path: Option<Text>, typespec: Option<Text>, matcher: Matcher)
    requires n <= |ms| && forall x | x in ms :: !Doomed(x, path, typespec, matcher)
    ensures forall x | x in ms[..n] :: !Doomed(x, path, typespec, matcher)
  {
    hide Doomed;
  }

  // The methods that stay are exactly those the call does not mean.
  lemma {:induction false} KeptMembers(ms: seq<Method>, path: Option<Text>, typespec: Option<Text>, matcher: Matcher, m: Method)
    ensures m in Kept(ms, path, typespec, matcher) <==> m in ms && !Doomed(m, path, typespec, matcher)
  {
    if ms != [] {
      hide Doomed;
      var n := |ms| - 1;
      KeptMembers(ms[..n], path, typespec, matcher, m);
      assert ms == ms[..n] + [ms[n]];
    }
  }

  // ---- Dispatching ----

  predicate PathMatches(m: Method, path: Text, matcher: Matcher) {
    m.path.None? || path == m.path.value || (IsPattern(path) && matcher(m.path.value, path))
  }

  predicate Exact(m: Method, types: Text) {
    m.typespec.None? || types == m.typespec.value
  }

  predicate Compatible(m: Method, path: Text, types: Text, matcher: Matcher) {
    PathMatches(m, path, matcher) && (Exact(m, types) || Coercion.CanCoerceSpec(types, m.typespec.value))
  }

  // The argument vector a handler gets: the message's own, a converted one, or NULL.
  datatype Vector = Own | Converted | Missing

  // A call of the handler of the method at a place, with the path, type string and arguments it is given.
  datatype Call = Call(at: nat, path: Text, types: Text, argv: Vector)

  // What a handler finds behind its argument vector: NULL, the places in the message's data, or the places in a block
  // of converted arguments, with the block as it is when the handler is called.
  datatype Handed = Null | InMessage(argv: seq<Option<nat>>) | InBlock(places: seq<nat>, block: seq<byte>)

  // The vector a handler gets when its arguments are not converted.
  function HandedOwn(args: seq<Osc.Arg>, own: Option<seq<Option<nat>>>, v: Vector): Handed {
    if v == Own && own.Some? then InMessage(Messages.Slots(args)) else Null
  }

  // A handler is handed what its call says: the message's own vector when it has one, or a block with every argument
  // laid out as the method's type string asks for.
  predicate Hands(c: Call, h: Handed, args: seq<Osc.Arg>, own: Option<seq<Option<nat>>>, convert: Coercion.Convert) {
    match c.argv
    case Own => if own.Some? then h == InMessage(Messages.Slots(args)) else h == Null
    case Converted => h.InBlock? && Coercion.Laid(c.types, args, h.block, h.places, convert)
    case Missing => h == Null
  }

  ghost predicate HandsAll(calls: seq<Call>, handed: seq<Handed>, args: seq<Osc.Arg>, own: Option<seq<Option<nat>>>,
                           convert: Coercion.Convert)
  {
    |handed| == |calls| && forall i | 0 <= i < |calls| :: Hands(calls[i], handed[i], args, own, convert)
  }

  lemma NothingHanded(args: seq<Osc.Arg>, own: Option<seq<Option<nat>>>, convert: Coercion.Convert)
    ensures HandsAll([], [], args, own, convert)
  {
  }

  lemma OwnHanded(c: Call, args: seq<Osc.Arg>, own: Option<seq<Option<nat>>>, convert: Coercion.Convert)
    requires !c.argv.Converted?
    ensures Hands(c, HandedOwn(args, own, c.argv), args, own, convert)
  {
  }

  // The arguments of a message converted for a method.
  method HandConverted(c: Call, types: Text, data: seq<byte>, convert: Coercion.Convert,
                       ghost args: seq<Osc.Arg>, ghost own: Option<seq<Option<nat>>>)
    returns (h: Handed)
    requires types == Osc.Tags(args) && data == Osc.Forms(args, Osc.Host)
    requires c.argv.Converted? && Coercion.CanCoerceSpec(types, c.types)
    ensures Hands(c, h, args, own, convert)
  {
    hide Coercion.CanCoerceSpec, Coercion.Laid, Osc.Forms;
    var places, block := Coercion.CoerceArguments(types, c.types, data, convert, args);
    h := InBlock(places, block[..]);
  }

  // What dispatch_method takes from a message: type characters, data, and its argument vector as it is.
  method Contents(msg: Messages.Message) returns (types: Text, data: seq<byte>, argv: Handed)
    requires msg.Valid()
    ensures types == Osc.Tags(msg.args) && data == Osc.Forms(msg.args, Osc.Host)
    ensures argv == HandedOwn(msg.args, msg.argv, Own)
  {
    hide Osc.Forms, Messages.Slots;
    types, data := msg.types[1..msg.typelen], msg.data[..msg.datalen];
    argv := if msg.argv.Some? then InMessage(msg.argv.value) else Null;
    assert types == msg.types[..msg.typelen][1..];
  }

  lemma HandsOneMore(calls: seq<Call>, handed: seq<Handed>, args: seq<Osc.Arg>, own: Option<seq<Option<nat>>>,
                     convert: Coercion.Convert, c: Call, h: Handed)
    requires HandsAll(calls, handed, args, own, convert) && Hands(c, h, args, own, convert)
    ensures HandsAll(calls + [c], handed + [h], args, own, convert)
  {
    hide Hands;
  }

  // No compatible method before place k answered 0.
  predicate Unanswered(ms: seq<Method>, answers: seq<int>, k: nat, path: Text, types: Text, matcher: Matcher)
    requires |answers| == |ms| && k <= |ms|
  {
    forall j | 0 <= j < k :: Compatible(ms[j], path, types, matcher) ==> answers[j] != 0
  }

  // Whether the method at place k is called: it is compatible, and on a plain path nobody before it answered 0.
  predicate Called(ms: seq<Method>, answers: seq<int>, k: nat, path: Text, types: Text, matcher: Matcher)
    requires |answers| == |ms| && k < |ms|
  {
    && Compatible(ms[k], path, types, matcher)
    && (IsPattern(path) || Unanswered(ms, answers, k, path, types, matcher))
  }

  // A compatible method before place k wanted its arguments converted.
  predicate ConvertedBefore(ms: seq<Method>, k: nat, path: Text, types: Text, matcher: Matcher)
    requires k <= |ms|
  {
    exists j :: 0 <= j < k && Compatible(ms[j], path, types, matcher) && !Exact(ms[j], types)
  }

  function VectorFor(ms: seq<Method>, k: nat, path: Text, types: Text, matcher: Matcher): Vector
    requires k < |ms|
  {
    if !Exact(ms[k], types) then Converted
    else if ConvertedBefore(ms, k, path, types, matcher) then Missing
    else Own
  }

  // A method's own path is shown to its handler, the message's path to a wildcard; converted arguments come with
  // the method's own type string.
  function CallOf(ms: seq<Method>, k: nat, path: Text, types: Text, matcher: Matcher): (c: Call)
    requires k < |ms|
    ensures c.at == k
  {
    Call(k, if ms[k].path.Some? then ms[k].path.value else path,
         if Exact(ms[k], types) then types else ms[k].typespec.value,
         VectorFor(ms, k, path, types, matcher))
  }

  lemma CallMeans(ms: seq<Method>, k: nat, path: Text, types: Text, matcher: Matcher)
    requires k < |ms|
    ensures var m, before := ms[k], ConvertedBefore(ms, k, path, types, matcher);
      && (Compatible(m, path, types, matcher) <==>
           (m.path.None? || path == m.path.value || (IsPattern(path) && matcher(m.path.value, path))) &&
           (m.typespec.None? || types == m.typespec.value || Coercion.CanCoerceSpec(types, m.typespec.value)))
      && (Exact(m, types) <==> m.typespec.None? || types == m.typespec.value)
      && CallOf(ms, k, path, types, matcher) ==
         Call(k, if m.path.Some? then m.path.value else path, if Exact(m, types) then types else m.typespec.value,
              if !Exact(m, types) then Converted else if before then Missing else Own)
  {
  }

  // The calls of dispatch_method among the first n methods.
  function Trace(ms: seq<Method>, answers: seq<int>, n: nat, path: Text, types: Text, matcher: Matcher): (t: seq<Call>)
    requires |answers| == |ms| && n <= |ms|
    ensures forall i | 0 <= i < |t| :: t[i].at < n
  {
    if n == 0 then []
    else
      Trace(ms, answers, n - 1, path, types, matcher) +
      if Called(ms, answers, n - 1, path, types, matcher)
      then [CallOf(ms, n - 1, path, types, matcher)] else []
  }

  // A handler is shown its method's own path and type string, the message's for what its method leaves open, and it is
  // handed converted arguments exactly when its method asks for other types than the message has.
  predicate Shown(m: Method, c: Call, path: Text, types: Text) {
    && (if m.path.None? then c.path == path else c.path == m.path.value)
    && (if m.typespec.None? then c.types == types else c.types == m.typespec.value)
    && (c.argv.Converted? <==> c.types != types)
  }

  lemma CallShows(ms: seq<Method>, k: nat, path: Text, types: Text, matcher: Matcher)
    requires k < |ms|
    ensures Shown(ms[k], CallOf(ms, k, path, types, matcher), path, types)
  {
    hide ConvertedBefore;
  }

  /** Who is called: for a pattern all compatible methods, for a plain path the compatible methods up to and
      including the first that answers 0, each once and in the order of registration; and what each is shown. */
  lemma TraceIsDispatchOrder(ms: seq<Method>, answers: seq<int>, path: Text, types: Text, matcher: Matcher)
    requires |answers| == |ms|
    ensures var t := Trace(ms, answers, |ms|, path, types, matcher);
      && (forall i, j | 0 <= i < j < |t| :: t[i].at < t[j].at)
      && (forall c | c in t :: Called(ms, answers, c.at, path, types, matcher) && Shown(ms[c.at], c, path, types))
      && (forall k | 0 <= k < |ms| && Called(ms, answers, k, path, types, matcher) ::
            CallOf(ms, k, path, types, matcher) in t)
  {
    hide Called, CallOf, Shown;
    var t := Trace(ms, answers, |ms|, path, types, matcher);
    forall i, j | 0 <= i < j < |t| ensures t[i].at < t[j].at {
      TraceInOrder(ms, answers, |ms|, path, types, matcher, i, j);
    }
    forall c | c in Trace(ms, answers, |ms|, path, types, matcher)
      ensures Called(ms, answers, c.at, path, types, matcher) && Shown(ms[c.at], c, path, types)
    {
      TraceSound(ms, answers, |ms|, path, types, matcher, c);
      CallShows(ms, c.at, path, types, matcher);
    }
    forall k | 0 <= k < |ms| && Called(ms, answers, k, path, types, matcher)
      ensures CallOf(ms, k, path, types, matcher) in Trace(ms, answers, |ms|, path, types, matcher)
    {
      TraceComplete(ms, answers, |ms|, path, types, matcher, k);
    }
  }

  lemma {:induction false} TraceInOrder(ms: seq<Method>, answers: seq<int>, n: nat, path: Text, types: Text, matcher: Matcher,
                                        i: nat, j: nat)
    requires |answers| == |ms| && n <= |ms| && i < j < |Trace(ms, answers, n, path, types, matcher)|
    ensures var t := Trace(ms, answers, n, path, types, matcher); t[i].at < t[j].at
  {
    hide Called, CallOf;
    if j < |Trace(ms, answers, n - 1, path, types, matcher)| {
      TraceInOrder(ms, answers, n - 1, path, types, matcher, i, j);
    }
  }

  lemma {:induction false} TraceSound(ms: seq<Method>, answers: seq<int>, n: nat, path: Text, types: Text, matcher: Matcher, c: Call)
    requires |answers| == |ms| && n <= |ms| && c in Trace(ms, answers, n, path, types, matcher)
    ensures c.at < n && Called(ms, answers, c.at, path, types, matcher) && c == CallOf(ms, c.at, path, types, matcher)
  {
    hide Called, CallOf;
    assert c in Trace(ms, answers, n - 1, path, types, matcher) ||
           (Called(ms, answers, n - 1, path, types, matcher) &&
            c == CallOf(ms, n - 1, path, types, matcher));
    if c in Trace(ms, answers, n - 1, path, types, matcher) {
      TraceSound(ms, answers, n - 1, path, types, matcher, c);
    }
  }

  lemma {:induction false} TraceComplete(ms: seq<Method>, answers: seq<int>, n: nat, path: Text, types: Text, matcher: Matcher, k: nat)
    requires |answers| == |ms| && k < n <= |ms| && Called(ms, answers, k, path, types, matcher)
    ensures CallOf(ms, k, path, types, matcher) in Trace(ms, answers, n, path, types, matcher)
  {
    hide Called, CallOf;
    if k < n - 1 {
      TraceComplete(ms, answers, n - 1, path, types, matcher, k);
    }
  }

  /** A handler whose types fit exactly gets the message's argument vector, exactly when no handler called before it had
      its arguments converted; otherwise it gets NULL. */
  lemma ExactHandlersMayLoseArguments(ms: seq<Method>, answers: seq<int>, path: Text, types: Text, matcher: Matcher, i: nat)
    requires |answers| == |ms|
    requires var t := Trace(ms, answers, |ms|, path, types, matcher); i < |t| && Exact(ms[t[i].at], types)
    ensures var t := Trace(ms, answers, |ms|, path, types, matcher);
      t[i].argv == if exists b :: 0 <= b < i && t[b].argv == Converted then Missing else Own
  {
    hide Trace, Called, Exact, ConvertedBefore;
    var t := Trace(ms, answers, |ms|, path, types, matcher);
    var k := t[i].at;
    TraceSound(ms, answers, |ms|, path, types, matcher, t[i]);
    if ConvertedBefore(ms, k, path, types, matcher) {
      var b := ConvertedCall(ms, answers, path, types, matcher, i);
    }
    if b :| 0 <= b < i && t[b].argv == Converted {
      TraceSound(ms, answers, |ms|, path, types, matcher, t[b]);
      TraceInOrder(ms, answers, |ms|, path, types, matcher, b, i);
      Converts(ms, t[b].at, k, path, types, matcher, answers);
    }
  }

  lemma Converts(ms: seq<Method>, j: nat, k: nat, path: Text, types: Text, matcher: Matcher, answers: seq<int>)
    requires |answers| == |ms| && j < k < |ms| && Called(ms, answers, j, path, types, matcher) && !Exact(ms[j], types)
    ensures ConvertedBefore(ms, k, path, types, matcher)
  {
    hide Compatible, Exact;
  }

  // A conversion before a call belongs to an earlier call.
  lemma ConvertedCall(ms: seq<Method>, answers: seq<int>, path: Text, types: Text, matcher: Matcher, i: nat) returns (b: nat)
    requires |answers| == |ms| && i < |Trace(ms, answers, |ms|, path, types, matcher)|
    requires ConvertedBefore(ms, Trace(ms, answers, |ms|, path, types, matcher)[i].at, path, types, matcher)
    ensures b < i && Trace(ms, answers, |ms|, path, types, matcher)[b].argv == Converted
  {
    hide Trace, Compatible, Exact, IsPattern;
    var t := Trace(ms, answers, |ms|, path, types, matcher);
    TraceSound(ms, answers, |ms|, path, types, matcher, t[i]);
    var j :| 0 <= j < t[i].at && Compatible(ms[j], path, types, matcher) && !Exact(ms[j], types);
    TraceComplete(ms, answers, |ms|, path, types, matcher, j);
    b :| 0 <= b < |t| && t[b] == CallOf(ms, j, path, types, matcher);
    if i < b {
      TraceInOrder(ms, answers, |ms|, path, types, matcher, i, b);
    }
  }

  // A method that wants no conversion can be left without arguments.
  lemma SecondHandlerGetsNull()
    ensures var types := [Osc.INT32];
      var ms := [Method(None, Some([Osc.FLOAT]), 0), Method(None, Some(types), 1)];
      Trace(ms, [1, 1], 2, [], types, (s, p) => false) ==
        [Call(0, [], [Osc.FLOAT], Converted), Call(1, [], types, Missing)]
  {
    var types := [Osc.INT32];
    var ms := [Method(None, Some([Osc.FLOAT]), 0), Method(None, Some(types), 1)];
    var matcher: Matcher := (s, p) => false;
    assert Coercion.CanCoerce(Osc.INT32, Osc.FLOAT);
    assert Compatible(ms[0], [], types, matcher) && !Exact(ms[0], types);
    assert ConvertedBefore(ms, 1, [], types, matcher);
    assert Trace(ms, [1, 1], 1, [], types, matcher) == [Call(0, [], [Osc.FLOAT], Converted)];
  }

  // The last answer of a handler, 1 when there was none.
  function LastAnswer(calls: seq<Call>, answers: seq<int>): int {
    if calls == [] || calls[|calls| - 1].at >= |answers| then 1 else answers[calls[|calls| - 1].at]
  }

  lemma LastOf(calls: seq<Call>, c: Call, answers: seq<int>)
    requires c.at < |answers|
    ensures LastAnswer(calls + [c], answers) == answers[c.at]
  {
  }

  // A place among the first n that answers 0 when its method is called.
  predicate Stops(ms: seq<Method>, answers: seq<int>, k: nat, path: Text, types: Text, matcher: Matcher)
    requires |answers| == |ms| && k < |ms|
  {
    Compatible(ms[k], path, types, matcher) && answers[k] == 0
  }

  lemma NoneStops(ms: seq<Method>, answers: seq<int>, n: nat, path: Text, types: Text, matcher: Matcher)
    requires |answers| == |ms| && n <= |ms|
    ensures Unanswered(ms, answers, n, path, types, matcher) <==>
            !exists k :: 0 <= k < n && Stops(ms, answers, k, path, types, matcher)
  {
    hide Compatible;
    if !Unanswered(ms, answers, n, path, types, matcher) {
      var j :| 0 <= j < n && Compatible(ms[j], path, types, matcher) && answers[j] == 0;
      assert Stops(ms, answers, j, path, types, matcher);
    }
  }

  // One place more: called or not.
  lemma TraceAnswer(ms: seq<Method>, answers: seq<int>, n: nat, path: Text, types: Text, matcher: Matcher)
    requires |answers| == |ms| && 0 < n <= |ms|
    ensures LastAnswer(Trace(ms, answers, n, path, types, matcher), answers) ==
            if Called(ms, answers, n - 1, path, types, matcher) then answers[n - 1]
            else LastAnswer(Trace(ms, answers, n - 1, path, types, matcher), answers)
  {
    hide Called, CallOf;
    var t := Trace(ms, answers, n - 1, path, types, matcher);
    assert t + [] == t;
    LastOf(t, CallOf(ms, n - 1, path, types, matcher), answers);
  }

  // Dispatching answers 1 when nobody is called, and otherwise what the last one called answers.
  lemma {:induction false} AnswerOfLast(ms: seq<Method>, answers: seq<int>, n: nat, path: Text, types: Text, matcher: Matcher, k: int)
    requires |answers| == |ms| && -1 <= k < n <= |ms|
    requires k >= 0 ==> Called(ms, answers, k, path, types, matcher)
    requires forall j | k < j < n :: !Called(ms, answers, j, path, types, matcher)
    ensures LastAnswer(Trace(ms, answers, n, path, types, matcher), answers) == if k >= 0 then answers[k] else 1
  {
    hide Called, LastAnswer;
    if n == 0 {
      DispatchStart(ms, answers, path, types, matcher);
    } else {
      TraceAnswer(ms, answers, n, path, types, matcher);
      if k < n - 1 {
        AnswerOfLast(ms, answers, n - 1, path, types, matcher, k);
      }
    }
  }

  /** For a plain path the answer is 0 exactly when one of the methods it means answers 0. */
  lemma {:induction false} PlainAnswer(ms: seq<Method>, answers: seq<int>, n: nat, path: Text, types: Text, matcher: Matcher)
    requires |answers| == |ms| && n <= |ms| && !IsPattern(path)
    ensures LastAnswer(Trace(ms, answers, n, path, types, matcher), answers) == 0 <==>
            exists k :: 0 <= k < n && Stops(ms, answers, k, path, types, matcher)
  {
    hide Compatible, LastAnswer, Trace, IsPattern, Unanswered;
    NoneStops(ms, answers, n, path, types, matcher);
    if n == 0 {
      DispatchStart(ms, answers, path, types, matcher);
    } else {
      PlainAnswer(ms, answers, n - 1, path, types, matcher);
      assert Stops(ms, answers, n - 1, path, types, matcher) <==>
             Compatible(ms[n - 1], path, types, matcher) && answers[n - 1] == 0;
      NoneStops(ms, answers, n - 1, path, types, matcher);
      TraceAnswer(ms, answers, n, path, types, matcher);
    }
  }

  lemma DispatchStart(ms: seq<Method>, answers: seq<int>, path: Text, types: Text, matcher: Matcher)
    requires |answers| == |ms|
    ensures Trace(ms, answers, 0, path, types, matcher) == [] && LastAnswer([], answers) == 1
    ensures !ConvertedBefore(ms, 0, path, types, matcher) && Unanswered(ms, answers, 0, path, types, matcher)
  {
  }

  // One more method looked at, as long as nobody has answered 0 on a plain path.
  lemma DispatchStep(ms: seq<Method>, answers: seq<int>, k: nat, path: Text, types: Text, matcher: Matcher)
    requires |answers| == |ms| && k < |ms| && (IsPattern(path) || Unanswered(ms, answers, k, path, types, matcher))
    ensures var c := Compatible(ms[k], path, types, matcher); var t := Trace(ms, answers, k, path, types, matcher);
      && Trace(ms, answers, k + 1, path, types, matcher) ==
         (if c then t + [CallOf(ms, k, path, types, matcher)] else t)
      && (ConvertedBefore(ms, k + 1, path, types, matcher) <==>
          ConvertedBefore(ms, k, path, types, matcher) || (c && !Exact(ms[k], types)))
      && (!IsPattern(path) ==>
          (Unanswered(ms, answers, k + 1, path, types, matcher) <==> !(c && answers[k] == 0)))
  {
    hide Compatible, Exact, IsPattern;
    var t := Trace(ms, answers, k, path, types, matcher);
    assert t + [] == t;
    if ConvertedBefore(ms, k, path, types, matcher) {
      var j :| 0 <= j < k && Compatible(ms[j], path, types, matcher) && !Exact(ms[j], types);
      assert j < k + 1 && Compatible(ms[j], path, types, matcher) && !Exact(ms[j], types);
    }
  }

  // After an answer of 0 on a plain path nobody is called.
  lemma {:induction false} TraceStops(ms: seq<Method>, answers: seq<int>, k: nat, n: nat, path: Text, types: Text, matcher: Matcher)
    requires |answers| == |ms| && k < n <= |ms| && !IsPattern(path)
    requires Compatible(ms[k], path, types, matcher) && answers[k] == 0
    ensures Trace(ms, answers, n, path, types, matcher) == Trace(ms, answers, k + 1, path, types, matcher)
    decreases n
  {
    hide Compatible, IsPattern;
    if n > k + 1 {
      TraceStops(ms, answers, k, n - 1, path, types, matcher);
      assert !Unanswered(ms, answers, n - 1, path, types, matcher);
    }
  }

  // ---- The list ----

  class Node {
    const info: Method
    var next: Node?
    ghost var freed: bool

    constructor (m: Method)
      ensures info == m && next == null && !freed
    {
      info, next, freed := m, null, false;
    }

    // Every use of a node's fields goes through a check that it has not been freed.
    function Next(): Node?
      requires !freed
      reads this
    {
      next
    }

    function Info(): Method
      requires !freed
      reads this
    {
      info
    }

    method SetNext(n: Node?)
      requires !freed
      modifies this
      ensures next == n && !freed
    {
      next := n;
    }

    method Free()
      requires !freed
      modifies this
      ensures freed && next == old(next)
    {
      freed := true;
    }
  }

  ghost function Infos(nodes: seq<Node>): (ms: seq<Method>)
    ensures |ms| == |nodes| && forall i | 0 <= i < |ms| :: ms[i] == nodes[i].info
  {
    seq(|nodes|, i requires 0 <= i < |nodes| => nodes[i].info)
  }

  class Table {
    var first: Node?
    ghost var nodes: seq<Node>

    ghost function At(i: nat): Node?
      reads this
    {
      if i < |nodes| then nodes[i] else null
    }

    ghost predicate Linked()
      reads this, nodes
    {
      && first == At(0)
      && (forall i | 0 <= i < |nodes| :: nodes[i].next == At(i + 1) && !nodes[i].freed)
      && (forall i, j | 0 <= i < j < |nodes| :: nodes[i] != nodes[j])
    }

    ghost function Methods(): seq<Method>
      reads this
    {
      Infos(nodes)
    }

    // The loop of dispatch_method; the method at place k answers answers[k] when it is called.
    method Dispatch(msg: Messages.Message, path: Text, answers: seq<int>, matcher: Matcher, convert: Coercion.Convert)
      returns (calls: seq<Call>, handed: seq<Handed>, ret: int)
      requires Linked() && |answers| == |Methods()| && msg.Valid()
      ensures calls == Trace(Methods(), answers, |answers|, path, Osc.Tags(msg.args), matcher)
      ensures HandsAll(calls, handed, msg.args, msg.argv, convert)
      ensures ret == LastAnswer(calls, answers)
    {
      hide Trace, LastAnswer, ConvertedBefore, Unanswered, IsPattern, HandsAll, Hands, Messages.Message.Valid,
           Osc.Tags, Coercion.CanCoerceSpec, Coercion.CanCoerce, Exact, Compatible, CallOf, Linked, Infos;
      ghost var ms, args := Methods(), msg.args;
      Head();
      var pattern := IsPattern(path);
      var types, data, argv := Contents(msg);
      var vector := Own;
      calls, handed, ret := [], [], 1;
      DispatchStart(ms, answers, path, types, matcher);
      NothingHanded(args, msg.argv, convert);
      var it, k := first, 0;
      while it != null
        invariant k <= |nodes| && it == At(k)
        invariant calls == Trace(ms, answers, k, path, types, matcher)
        invariant HandsAll(calls, handed, args, msg.argv, convert)
        invariant vector == if ConvertedBefore(ms, k, path, types, matcher) then Missing else Own
        invariant argv == HandedOwn(args, msg.argv, vector)
        invariant ret == LastAnswer(calls, answers)
        invariant !pattern ==> ret != 0 && Unanswered(ms, answers, k, path, types, matcher)
        decreases |nodes| - k
      {
        Here(k);
        var m := it.Info();
        DispatchStep(ms, answers, k, path, types, matcher);
        CallMeans(ms, k, path, types, matcher);
        var pptr := if m.path.Some? then m.path.value else path;
        if m.path.None? || path == m.path.value || (pattern && matcher(m.path.value, path)) {
          if m.typespec.None? || types == m.typespec.value {
            var call := Call(k, pptr, types, vector);
            LastOf(calls, call, answers);
            OwnHanded(call, args, msg.argv, convert);
            HandsOneMore(calls, handed, args, msg.argv, convert, call, argv);
            calls, handed := calls + [call], handed + [argv];
            ret := answers[k];
          } else if Coercion.CanCoerceSpec(types, m.typespec.value) {
            var call := Call(k, pptr, m.typespec.value, Converted);
            LastOf(calls, call, answers);
            var block := HandConverted(call, types, data, convert, args, msg.argv);
            HandsOneMore(calls, handed, args, msg.argv, convert, call, block);
            calls, handed := calls + [call], handed + [block];
            ret := answers[k];
            argv, vector := Null, Missing;
          }
          if ret == 0 && !pattern {
            TraceStops(ms, answers, k, |answers|, path, types, matcher);
            break;
          }
        }
        it := it.Next();
        k := k + 1;
      }
    }

    // No registered path is a pattern.
    ghost predicate Valid()
      reads this, nodes
    {
      && Linked()
      && forall m | m in Methods() :: m.path.Some? ==> !IsPattern(m.path.value)
    }

    ghost function Footprint(): set<object>
      reads this
    {
      set n | n in nodes
    }

    constructor ()
      ensures Valid() && Methods() == [] && nodes == []
    {
      first, nodes := null, [];
    }

    // Appending to the list: the last node is found by walking.
    method Append(m: Node)
      requires Linked() && m !in nodes && m.next == null && !m.freed
      modifies this, Footprint()
      ensures Linked() && nodes == old(nodes) + [m]
    {
      if first == null {
        first := m;
      } else {
        var it := first;
        ghost var k := 0;
        while it.Next() != null
          invariant 0 <= k < |nodes| && it == nodes[k]
          decreases |nodes| - k
        {
          it := it.Next();
          k := k + 1;
        }
        it.SetNext(m);
      }
      nodes := nodes + [m];
    }

    // lo_server_add_method
    method Add(path: Option<Text>, typespec: Option<Text>, id: nat) returns (ok: bool)
      requires Valid()
      modifies this, Footprint()
      ensures Valid() && fresh(Footprint() - old(Footprint()))
      ensures ok <==> path.None? || !HoldsCharacter(path.value, PATTERN_CHARACTERS)
      ensures Methods() == old(Methods()) + if ok then [Method(path, typespec, id)] else []
    {
      hide IsPattern, HoldsCharacter, Linked;
      if path.Some? {
        PatternMeans(path.value);
      }
      if path.Some? && IsPattern(path.value) {
        return false;
      }
      ghost var ms := Methods();
      var m := new Node(Method(path, typespec, id));
      Append(m);
      assert Methods() == ms + [m.info];
      return true;
    }

    lemma Here(a: nat)
      requires Linked() && a < |nodes|
      ensures !nodes[a].freed && nodes[a].next == At(a + 1) && Methods()[a] == nodes[a].info
    {
    }

    lemma Head()
      requires Linked()
      ensures first == At(0) && |Methods()| == |nodes|
    {
    }

    method RemoveHead()
      requires Linked() && nodes != []
      modifies this, nodes[0]
      ensures Linked() && nodes == old(nodes)[1..] && old(nodes[0]).freed
    {
      var it := first;
      first := it.Next();
      nodes := nodes[1..];
      it.Free();
    }

    method RemoveAfter(prev: Node, it: Node, ghost a: nat)
      requires Linked() && 0 < a < |nodes| && it == nodes[a] && prev == nodes[a - 1]
      modifies this, prev, it
      ensures Linked() && nodes == old(nodes[..a]) + old(nodes[a + 1..]) && it.freed
    {
      ghost var was := nodes;
      prev.SetNext(it.Next());
      nodes := nodes[..a] + nodes[a + 1..];
      it.Free();
      CutOut(was, a);
      forall i | 0 <= i < |nodes| ensures nodes[i].next == At(i + 1) && !nodes[i].freed {
        assert nodes[i] == was[if i < a then i else i + 1] && nodes[i] != it;
        if i == a - 1 {
          assert nodes[i] == prev;
        } else {
          assert nodes[i] != prev;
        }
      }
    }

    // One removal of lo_server_del_method: prev is only used when the node is not the head.
    method Remove(prev: Node, it: Node, ghost a: nat)
      requires Linked() && a < |nodes| && it == nodes[a] && (a > 0 ==> prev == nodes[a - 1])
      modifies this, Footprint()
      ensures Linked() && nodes == old(nodes[..a]) + old(nodes[a + 1..]) && it.freed
      ensures Methods() == old(Methods()[..a]) + old(Methods()[a + 1..]) && Footprint() <= old(Footprint())
    {
      hide Infos;
      ghost var was := nodes;
      if it == first {
        RemoveHead();
      } else {
        RemoveAfter(prev, it, a);
      }
      FewerNodes(was, a);
      InfosRemoved(was, a);
    }

    // lo_server_del_method. After the head is removed prev names a freed node, but then the next node is the
    // head again, and the branch that uses prev is not taken.
    method Delete(path: Option<Text>, typespec: Option<Text>, matcher: Matcher)
      requires Valid()
      modifies this, Footprint()
      ensures Valid() && Footprint() <= old(Footprint())
      ensures Methods() == Kept(old(Methods()), path, typespec, matcher)
    {
      hide IsPattern, Kept, Split, Doomed, Linked, Infos;
      ghost var ms, a, k := Methods(), 0, 0;
      SplitStart(ms, path, typespec, matcher);
      Head();
      if first == null {
        assert ms == [];
        SplitEnd(ms, ms, 0, 0, path, typespec, matcher);
        return;
      }
      var it := first;
      var prev := first;
      while it != null
        invariant Linked() && a <= |nodes| && k <= |ms| && it == At(a) && prev != null
        invariant a > 0 ==> prev == nodes[a - 1]
        invariant Split(ms, Methods(), a, k, path, typespec, matcher)
        invariant Footprint() <= old(Footprint())
        decreases |ms| - k
      {
        Here(a);
        var next := it.Next();
        var info := it.Info();
        SplitStep(ms, Methods(), a, k, path, typespec, matcher);
        DoomedMeans(info, path, typespec, matcher);
        if (info.path == path ||
            (path.Some? && IsPattern(path.value) && info.path.Some? && matcher(info.path.value, path.value)))
           && info.typespec == typespec {
          next := it.Next();
          Remove(prev, it, a);
          it := prev;
        } else {
          a := a + 1;
        }
        k := k + 1;
        prev := it;
        it := next;
      }
      SplitEnd(ms, Methods(), a, k, path, typespec, matcher);
    }
  }

  lemma CutOut<T>(s: seq<T>, a: nat)
    requires a < |s|
    ensures var r := s[..a] + s[a + 1..];
      |r| == |s| - 1 && forall i | 0 <= i < |r| :: r[i] == s[if i < a then i else i + 1]
    ensures (forall i, j | 0 <= i < j < |s| :: s[i] != s[j]) ==>
      var r := s[..a] + s[a + 1..];
      && (forall i, j | 0 <= i < j < |r| :: r[i] != r[j])
      && (forall i | 0 <= i < |r| :: r[i] != s[a] && (i != a - 1 ==> a == 0 || r[i] != s[a - 1]))
  {
    var r := s[..a] + s[a + 1..];
    assert forall i | 0 <= i < |r| :: r[i] == s[if i < a then i else i + 1];
  }

  lemma FewerNodes(nodes: seq<Node>, a: nat)
    requires a < |nodes|
    ensures forall n | n in nodes[..a] + nodes[a + 1..] :: n in nodes
  {
  }

  lemma InfosRemoved(nodes: seq<Node>, a: nat)
    requires a < |nodes|
    ensures Infos(nodes[..a] + nodes[a + 1..]) == Infos(nodes)[..a] + Infos(nodes)[a + 1..]
  {
  }

  // The list during a deletion: what is kept of the first k methods, and then the rest.
  ghost predicate Split(ms: seq<Method>, now: seq<Method>, a: nat, k: nat,
                        path: Option<Text>, typespec: Option<Text>, matcher: Matcher)
  {
    a <= |now| && k <= |ms| && now[..a] == Kept(ms[..k], path, typespec, matcher) && now[a..] == ms[k..]
  }

  lemma SplitStart(ms: seq<Method>, path: Option<Text>, typespec: Option<Text>, matcher: Matcher)
    ensures Split(ms, ms, 0, 0, path, typespec, matcher)
  {
  }

  lemma SplitStep(ms: seq<Method>, now: seq<Method>, a: nat, k: nat,
                  path: Option<Text>, typespec: Option<Text>, matcher: Matcher)
    requires Split(ms, now, a, k, path, typespec, matcher) && a < |now|
    ensures k < |ms|
    ensures if Doomed(now[a], path, typespec, matcher)
            then Split(ms, now[..a] + now[a + 1..], a, k + 1, path, typespec, matcher)
            else Split(ms, now, a + 1, k + 1, path, typespec, matcher)
  {
    hide Doomed;
    assert now[a] == now[a..][0] == ms[k];
    assert ms[..k + 1][..k] == ms[..k];
    assert now[a + 1..] == now[a..][1..] == ms[k + 1..];
    if Doomed(now[a], path, typespec, matcher) {
      SplitAt(now[..a], now[a + 1..]);
    } else {
      assert now[..a + 1] == now[..a] + [now[a]];
    }
  }

  lemma SplitEnd(ms: seq<Method>, now: seq<Method>, a: nat, k: nat,
                 path: Option<Text>, typespec: Option<Text>, matcher: Matcher)
    requires Split(ms, now, a, k, path, typespec, matcher) && a == |now|
    ensures now == Kept(ms, path, typespec, matcher) && forall m | m in now :: m in ms
  {
    assert now[a..] == [] && ms[..k] == ms && now[..a] == now;
    forall m | m in now ensures m in ms {
      KeptMembers(ms, path, typespec, matcher, m);
    }
  }

  lemma DoomedMeans(m: Method, path: Option<Text>, typespec: Option<Text>, matcher: Matcher)
    ensures Doomed(m, path, typespec, matcher) <==>
      (m.path == path ||
        (path.Some? && IsPattern(path.value) && m.path.Some? && matcher(m.path.value, path.value)))
      && m.typespec == typespec
  {
  }
}
