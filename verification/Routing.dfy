/** Which handlers a pattern reaches: the method table with the matcher of pattern_match.c in it. */
module Routing {
  import opened Options
  import opened Bytes
  import Coercion
  import Pattern
  import opened Methods

  // The value of a char, on a host where char is signed or on one where it is not.
  function CharValue(b: byte, signed: bool): int {
    if signed && b >= 128 then b as int - 256 else b
  }

  function Codes(s: Text, signed: bool): (c: seq<int>)
    ensures |c| == |s|
  {
    seq(|s|, i requires 0 <= i < |s| => CharValue(s[i], signed))
  }

  // lo_pattern_match, by Pattern.PatternMatch.
  function Globbing(signed: bool): Matcher {
    (s: Text, p: Text) => Pattern.Glob(Codes(s, signed), Codes(p, signed))
  }

  // The patterns Pattern.PatternMatch answers for.
  predicate Supported(p: Text) {
    Pattern.BRACE !in p && Pattern.Sound(Codes(p, true)) && Pattern.Sound(Codes(p, false))
  }

  // A string can be cut into one piece for each token of a pattern whose sets are closed.
  ghost predicate Cut(s: Text, p: Text, signed: bool) {
    var tokens := Pattern.Parse(Codes(p, signed));
    tokens.Tokens? && exists parts :: Pattern.Fits(parts, tokens.list, Codes(s, signed))
  }

  lemma CutIsMatch(s: Text, p: Text, signed: bool)
    ensures Globbing(signed)(s, p) <==> Cut(s, p, signed)
  {
    hide Pattern.Glob, Pattern.Fits, Pattern.Parse, Codes;
    Pattern.MatchIsDecomposition(Codes(s, signed), Codes(p, signed));
  }

  /** A path without any of the nine pattern characters matches only itself, so nothing is lost where the code does not
      call the matcher for it. */
  lemma NoPatternMatchesItself(s: Text, p: Text, signed: bool)
    requires !IsPattern(p)
    ensures Globbing(signed)(s, p) <==> s == p
  {
    hide Pattern.Glob;
    var codes := Codes(p, signed);
    forall i | 0 <= i < |codes| ensures codes[i] != Pattern.STAR && codes[i] != Pattern.QUESTION && codes[i] != Pattern.OPEN {
      assert p[i] in p;
    }
    Pattern.PlainMatchesItself(Codes(s, signed), codes);
    CodesInjective(s, p, signed);
  }

  lemma CodesInjective(s: Text, t: Text, signed: bool)
    ensures Codes(s, signed) == Codes(t, signed) <==> s == t
  {
    if Codes(s, signed) == Codes(t, signed) {
      forall i | 0 <= i < |s| ensures s[i] == t[i] {
        assert Codes(s, signed)[i] == Codes(t, signed)[i];
      }
    }
  }

  /** The characters that mean something in a pattern, by their letters: '*', '?', "[lo-hi]" and "[!lo-hi]". */
  lemma PatternLetters(s: seq<int>, lo: int, hi: int)
    requires lo != '!' as int && hi != ']' as int
    ensures Pattern.Glob(s, ['*' as int])
    ensures Pattern.Glob(s, ['?' as int]) <==> |s| == 1
    ensures var between := |s| == 1 && (lo <= s[0] <= hi || s[0] == lo || s[0] == hi);
      && (Pattern.Glob(s, ['[' as int, lo, '-' as int, hi, ']' as int]) <==> between)
      && (Pattern.Glob(s, ['[' as int, '!' as int, lo, '-' as int, hi, ']' as int]) <==> |s| == 1 && !between)
  {
    hide Pattern.Glob, Pattern.SetHas;
    Pattern.StarTakesAll(s);
    Pattern.OneCharacter(Pattern.QUESTION, [], s);
    var b := [lo, Pattern.DASH, hi];
    Pattern.SetInPattern(b, [], s);
    assert [Pattern.OPEN] + b + [Pattern.CLOSE] + [] == ['[' as int, lo, '-' as int, hi, ']' as int];
    assert [Pattern.OPEN, Pattern.NEGATE] + b + [Pattern.CLOSE] + [] == ['[' as int, '!' as int, lo, '-' as int, hi, ']' as int];
    assert [Pattern.QUESTION] + [] == ['?' as int];
    if s != [] {
      Pattern.RangeHolds(lo, hi, s[0]);
      Pattern.GlobStep(s[1..], []);
    }
  }

  // The answer of the code's matcher is what the table takes it to be.
  method Match(s: Text, p: Text, signed: bool) returns (r: bool)
    requires Supported(p)
    ensures r == Globbing(signed)(s, p)
    ensures r <==> Cut(s, p, signed)
  {
    hide Pattern.Glob, Cut;
    assert Pattern.BRACE !in Codes(p, signed);
    r := Pattern.PatternMatch(Codes(s, signed), Codes(p, signed));
    CutIsMatch(s, p, signed);
  }

  predicate Plain(ms: seq<Method>) {
    forall m | m in ms :: m.path.Some? ==> !IsPattern(m.path.value)
  }

  /** A message with a pattern for a path calls exactly the methods of compatible types that are wildcards or whose
      paths can be cut along the pattern. */
  lemma PatternReaches(ms: seq<Method>, answers: seq<int>, path: Text, types: Text, signed: bool, k: nat)
    requires |answers| == |ms| && k < |ms| && Plain(ms) && IsPattern(path)
    ensures var m := ms[k];
      (exists c :: c in Trace(ms, answers, |ms|, path, types, Globbing(signed)) && c.at == k) <==>
        && (m.path.None? || Cut(m.path.value, path, signed))
        && (m.typespec.None? || types == m.typespec.value || Coercion.CanCoerceSpec(types, m.typespec.value))
  {
    hide IsPattern, Trace, VectorFor, Pattern.Glob, Cut, Coercion.CanCoerceSpec;
    var m, matcher := ms[k], Globbing(signed);
    TraceIsDispatchOrder(ms, answers, path, types, matcher);
    assert m in ms;
    if m.path.Some? {
      CutIsMatch(m.path.value, path, signed);
    }
    assert Called(ms, answers, k, path, types, matcher) ==> CallOf(ms, k, path, types, matcher).at == k;
  }

  /** Deleting with a pattern keeps exactly the methods of another type string, and those whose path is missing or
      cannot be cut along the pattern. */
  lemma PatternDeletes(ms: seq<Method>, path: Text, typespec: Option<Text>, signed: bool, m: Method)
    requires Plain(ms) && IsPattern(path)
    ensures m in Kept(ms, Some(path), typespec, Globbing(signed)) <==>
      m in ms && (m.typespec != typespec || m.path.None? || !Cut(m.path.value, path, signed))
  {
    hide IsPattern, Pattern.Glob, Cut;
    KeptMembers(ms, Some(path), typespec, Globbing(signed), m);
    if m.path.Some? {
      CutIsMatch(m.path.value, path, signed);
    }
  }

  /** Deleting with a plain path, or with none, keeps exactly the methods of another path or another type string; the
      matcher plays no part. */
  lemma PlainDeletes(ms: seq<Method>, path: Option<Text>, typespec: Option<Text>, signed: bool, m: Method)
    requires path.Some? ==> !IsPattern(path.value)
    ensures m in Kept(ms, path, typespec, Globbing(signed)) <==> m in ms && !(m.path == path && m.typespec == typespec)
  {
    hide IsPattern, Pattern.Glob;
    KeptMembers(ms, path, typespec, Globbing(signed), m);
  }

  // The methods a plain path means: those of that very path, and wildcards, of compatible types.
  predicate Meant(m: Method, path: Text, types: Text) {
    && (m.path.None? || m.path.value == path)
    && (m.typespec.None? || types == m.typespec.value || Coercion.CanCoerceSpec(types, m.typespec.value))
  }

  /** A plain path calls exactly the methods it means, up to and including the first that answers 0; the matcher plays
      no part. */
  lemma PlainReaches(ms: seq<Method>, answers: seq<int>, path: Text, types: Text, signed: bool, k: nat)
    requires |answers| == |ms| && k < |ms| && !IsPattern(path)
    ensures (exists c :: c in Trace(ms, answers, |ms|, path, types, Globbing(signed)) && c.at == k) <==>
      Meant(ms[k], path, types) && forall j | 0 <= j < k :: Meant(ms[j], path, types) ==> answers[j] != 0
  {
    hide IsPattern, Trace, VectorFor, Pattern.Glob, Coercion.CanCoerceSpec;
    var matcher := Globbing(signed);
    TraceIsDispatchOrder(ms, answers, path, types, matcher);
    forall j | 0 <= j <= k ensures Compatible(ms[j], path, types, matcher) <==> Meant(ms[j], path, types) {
    }
    assert Called(ms, answers, k, path, types, matcher) ==> CallOf(ms, k, path, types, matcher).at == k;
  }
}
