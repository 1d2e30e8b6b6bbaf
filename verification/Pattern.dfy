/** lo_pattern_match for patterns without braces. Strings are sequences of character codes without their
    terminator; the codes are plain integers, so nothing depends on whether char is signed. */
module Pattern {
  const STAR := 0x2A      // '*'
  const QUESTION := 0x3F  // '?'
  const OPEN := 0x5B      // '['
  const CLOSE := 0x5D     // ']'
  const NEGATE := 0x21    // '!'
  const DASH := 0x2D      // '-'
  const BRACE := 0x7B     // '{'

  // An item of a character set: one character, two ends and what is between, or all from one on ("c-]").
  datatype SetItem = One(c: int) | Range(lo: int, hi: int) | From(c: int) {
    predicate Has(x: int) {
      match this
      case One(c) => x == c
      case Range(lo, hi) => x == lo || x == hi || lo < x < hi
      case From(c) => x >= c
    }
  }

  // The items of a set; the upper end of a range is read again as the start of the next item.
  function SetItems(b: seq<int>): seq<SetItem> {
    if b == [] then []
    else if |b| == 1 then [One(b[0])]
    else if b[1] != DASH then [One(b[0])] + SetItems(b[1..])
    else if |b| == 2 then [From(b[0])]
    else [Range(b[0], b[2])] + SetItems(b[2..])
  }

  predicate SetHas(b: seq<int>, x: int) {
    exists r | r in SetItems(b) :: r.Has(x)
  }

  // Where a set ends: the first ']' that is not its first character.
  function SetEnd(b: seq<int>): (e: nat)
    ensures e <= |b| && (e < |b| ==> e > 0 && b[e] == CLOSE)
    ensures forall i | 1 <= i < e :: b[i] != CLOSE
  {
    if |b| <= 1 then |b| else 1 + Close(b[1..])
  }

  function Close(b: seq<int>): (e: nat)
    ensures e <= |b| && (e < |b| ==> b[e] == CLOSE)
    ensures forall i | 0 <= i < e :: b[i] != CLOSE
  {
    if b == [] || b[0] == CLOSE then 0 else 1 + Close(b[1..])
  }

  // The part of a pattern after '[' or "[!".
  function Body(p: seq<int>): (b: seq<int>)
    requires p != []
    ensures |b| < |p|
  {
    if |p| > 1 && p[1] == NEGATE then p[2..] else p[1..]
  }

  predicate Inverted(p: seq<int>) {
    |p| > 1 && p[1] == NEGATE
  }

  /** Naive backtracking: a star takes nothing, or one character and tries again. */
  predicate Glob(s: seq<int>, p: seq<int>)
    decreases |p|, |s|
  {
    if p == [] then s == []
    else if p[0] == STAR then Glob(s, p[1..]) || (s != [] && Glob(s[1..], p))
    else if s == [] then false
    else if p[0] == QUESTION then Glob(s[1..], p[1..])
    else if p[0] == OPEN then
      SetMatches(p, s[0]) && Glob(s[1..], Body(p)[SetEnd(Body(p)) + 1..])
    else p[0] == s[0] && Glob(s[1..], p[1..])
  }

  lemma StarTakesOne(s: seq<int>, q: seq<int>)
    ensures Glob(s, [STAR] + q) <==> Glob(s, q) || (s != [] && Glob(s[1..], [STAR] + q))
  {
    assert ([STAR] + q)[1..] == q;
  }

  // Collapsing stars loses no match.
  lemma {:induction false} TwoStars(s: seq<int>, q: seq<int>)
    requires q != [] && q[0] == STAR
    ensures Glob(s, [STAR] + q) <==> Glob(s, q)
  {
    StarTakesOne(s, q);
    if s != [] {
      TwoStars(s[1..], q);
    }
  }

  lemma {:induction false} StarTakesAll(s: seq<int>)
    ensures Glob(s, [STAR])
  {
    assert [STAR] + [] == [STAR];
    StarTakesOne(s, []);
    if s != [] {
      StarTakesAll(s[1..]);
    }
  }

  /** A star takes any prefix. */
  lemma {:induction false} StarTakesAnyPrefix(s: seq<int>, q: seq<int>)
    ensures Glob(s, [STAR] + q) <==> exists k :: 0 <= k <= |s| && Glob(s[k..], q)
  {
    StarTakesOne(s, q);
    assert s[0..] == s;
    if s != [] {
      StarTakesAnyPrefix(s[1..], q);
      assert forall k | 1 <= k <= |s| :: s[1..][k - 1..] == s[k..];
      if k :| 0 <= k <= |s| && Glob(s[k..], q) {
        assert k > 0 ==> Glob(s[1..][k - 1..], q);
      }
      if k :| 0 <= k <= |s[1..]| && Glob(s[1..][k..], q) {
        assert s[1..][k..] == s[k + 1..];
      }
    }
  }

  lemma UnionStep(first: SetItem, rest: seq<SetItem>, x: int)
    ensures (exists r | r in [first] + rest :: r.Has(x)) <==> first.Has(x) || exists r | r in rest :: r.Has(x)
  {
    assert forall r :: r in [first] + rest <==> r == first || r in rest;
    assert first in [first] + rest;
  }

  // Membership, item by item.
  lemma SetHasStep(b: seq<int>, x: int)
    requires b != []
    ensures SetHas(b, x) <==>
      if |b| == 1 then x == b[0]
      else if b[1] != DASH then x == b[0] || SetHas(b[1..], x)
      else if |b| == 2 then x >= b[0]
      else x == b[0] || x == b[2] || b[0] < x < b[2] || SetHas(b[2..], x)
  {
    if |b| == 1 {
      UnionStep(One(b[0]), [], x);
      assert SetItems(b) == [One(b[0])] + [];
    } else if b[1] != DASH {
      UnionStep(One(b[0]), SetItems(b[1..]), x);
    } else if |b| == 2 {
      UnionStep(From(b[0]), [], x);
      assert SetItems(b) == [From(b[0])] + [];
    } else {
      UnionStep(Range(b[0], b[2]), SetItems(b[2..]), x);
    }
  }

  // However the character is read, it is a member of what it starts.
  lemma FirstIsMember(b: seq<int>)
    requires b != []
    ensures SetHas(b, b[0])
  {
    SetHasStep(b, b[0]);
  }

  /** What the three kinds of item hold: a range from lo up to hi all between, and its two ends alone when lo is the
      higher one; an open range all from its character on; and a set without '-' its characters. */
  lemma RangeHolds(lo: int, hi: int, x: int)
    ensures lo <= hi ==> (SetHas([lo, DASH, hi], x) <==> lo <= x <= hi)
    ensures lo > hi ==> (SetHas([lo, DASH, hi], x) <==> x == lo || x == hi)
    ensures SetHas([lo, DASH], x) <==> x >= lo
  {
    hide SetHas, SetItems;
    var b := [lo, DASH, hi];
    assert b[2..] == [hi];
    SetHasStep(b, x);
    SetHasStep([hi], x);
    SetHasStep([lo, DASH], x);
  }

  lemma {:induction false} CharactersHold(b: seq<int>, x: int)
    requires DASH !in b
    ensures SetHas(b, x) <==> x in b
  {
    hide SetHas, SetItems;
    if b == [] {
      EmptySet(x);
    } else {
      SetHasStep(b, x);
      CharactersHold(b[1..], x);
      assert |b| > 1 ==> b[1] in b;
      if |b| == 1 {
        EmptySet(x);
      }
      assert b == [b[0]] + b[1..];
    }
  }

  lemma EmptySet(x: int)
    ensures !SetHas([], x)
  {
  }

  // The search for the end of a set, character by character as in the code.
  method MatchSet(b: seq<int>, x: int) returns (found: bool, at: nat, ended: bool)
    ensures ended ==> at <= |b|
    ensures ended && !found && b != [] ==> SetEnd(b) == at < |b|
    ensures ended && found ==> 0 < at <= SetEnd(b)
    ensures !ended ==> SetEnd(b) == |b|
    ensures ended && SetEnd(b) < |b| ==> found == SetHas(b[..SetEnd(b)], x)
  {
    hide SetHas, SetEnd, SetItems;
    var i := 0;
    found := false;
    ghost var e := SetEnd(b);
    assert b[0..e] == b[..e];
    while !found && i < |b|
      invariant 0 <= i <= |b| && (i > 0 ==> i < e)
      invariant !found ==> (e < |b| ==> SetHas(b[..e], x) == SetHas(b[i..e], x))
      invariant found ==> i > 0 && (e < |b| ==> SetHas(b[..e], x))
    {
      var c := b[i];
      if b != [] && e < |b| {
        SetStep(b, x, i, e);
      }
      i := i + 1;
      if i == |b| {
        return found, i, false;
      }
      if b[i] == DASH {
        i := i + 1;
        if i == |b| {
          return found, i, false;
        }
        if b[i] != CLOSE {
          found := x == c || x == b[i] || (x > c && x < b[i]);
        } else {
          found := x >= c;
          return found, i, true;
        }
      } else {
        found := c == x;
        if b[i] != CLOSE {
          found := found || b[i] == x;
        } else {
          return found, i, true;
        }
      }
    }
    return found, i, true;
  }

  lemma SetStep(b: seq<int>, x: int, i: nat, e: nat)
    requires i < e == SetEnd(b) < |b|
    ensures SetHas(b[i..e], x) <==>
      if i + 1 == e then x == b[i]
      else if b[i + 1] != DASH then x == b[i] || x == b[i + 1] || SetHas(b[i + 1..e], x)
      else if i + 2 == e then x >= b[i]
      else x == b[i] || x == b[i + 2] || b[i] < x < b[i + 2] || SetHas(b[i + 2..e], x)
  {
    hide SetHas, SetItems, SetEnd;
    var s := b[i..e];
    SetHasStep(s, x);
    if |s| > 1 {
      assert s[1..] == b[i + 1..e];
      FirstIsMember(s[1..]);
    }
    if |s| > 2 {
      assert s[2..] == b[i + 2..e];
    }
  }

  // Skipping to the end of the set after a match.
  lemma EndAfter(b: seq<int>, i: nat)
    requires 0 < i <= SetEnd(b)
    ensures SetEnd(b) == i + Close(b[i..])
  {
    CloseUnique(b[i..], SetEnd(b) - i);
  }

  lemma CloseStep(b: seq<int>, k: nat)
    requires k < |b| && b[k] != CLOSE
    ensures Close(b[k..]) == 1 + Close(b[k + 1..])
  {
    assert b[k..][1..] == b[k + 1..];
  }

  lemma CloseHere(b: seq<int>, k: nat)
    requires k <= |b| && (k < |b| ==> b[k] == CLOSE)
    ensures Close(b[k..]) == 0
  {
  }

  lemma {:induction false} CloseUnique(b: seq<int>, n: nat)
    requires n <= |b| && (n < |b| ==> b[n] == CLOSE) && forall i | 0 <= i < n :: b[i] != CLOSE
    ensures Close(b) == n
  {
    if n > 0 {
      assert b[0] != CLOSE;
      CloseUnique(b[1..], n - 1);
    }
  }

  // No "[!" at the very end, where the code would read past its pattern.
  predicate Sound(p: seq<int>) {
    |p| >= 2 ==> !(p[|p| - 2] == OPEN && p[|p| - 1] == NEGATE)
  }

  predicate SetMatches(q: seq<int>, x: int)
    requires q != []
  {
    var b := Body(q);
    SetEnd(b) < |b| && SetHas(b[..SetEnd(b)], x) != Inverted(q)
  }

  // The search for the closing bracket, from inside the set on.
  method SkipSet(b: seq<int>, at: nat) returns (k: nat)
    requires 0 < at <= SetEnd(b)
    ensures k == SetEnd(b)
  {
    hide SetEnd, Close;
    k := at;
    EndAfter(b, at);
    while k < |b| && b[k] != CLOSE
      invariant at <= k <= |b| && at + Close(b[at..]) == k + Close(b[k..])
    {
      CloseStep(b, k);
      k := k + 1;
    }
    CloseHere(b, k);
  }

  // A set at the start of q is tried on x, and passed over when it matches.
  method PassSet(q: seq<int>, x: int) returns (ok: bool, len: nat)
    requires q != [] && q[0] == OPEN && Sound(q)
    ensures ok == SetMatches(q, x)
    ensures ok ==> 0 < len <= |q| && q[len..] == Body(q)[SetEnd(Body(q)) + 1..]
  {
    hide SetHas, SetEnd, Close;
    var j := 1;
    var negate := j < |q| && q[j] == NEGATE;
    if negate {
      j := j + 1;
    }
    var b := q[j..];
    assert b == Body(q);
    var match', at, ended := MatchSet(b, x);
    if !ended || negate == match' {
      return false, 0;
    }
    var k := SkipSet(b, at);
    if k == |b| {
      return false, 0;
    }
    Behind(q, j, k + 1);
    return true, j + k + 1;
  }

  // The naive matcher, case by case.
  lemma GlobStep(s: seq<int>, q: seq<int>)
    ensures q == [] ==> (Glob(s, q) <==> s == [])
    ensures q != [] && q[0] != STAR && s == [] ==> !Glob(s, q)
    ensures q != [] && q[0] != STAR && s != [] ==>
      Glob(s, q) ==
        if q[0] == QUESTION then Glob(s[1..], q[1..])
        else if q[0] == OPEN then SetMatches(q, s[0]) && Glob(s[1..], Body(q)[SetEnd(Body(q)) + 1..])
        else q[0] == s[0] && Glob(s[1..], q[1..])
  {
  }

  lemma Behind<T>(s: seq<T>, i: nat, n: nat)
    requires i + n <= |s|
    ensures s[i..][n..] == s[i + n..]
  {
  }

  lemma SoundBehind(p: seq<int>, i: nat)
    requires BRACE !in p && Sound(p) && i <= |p|
    ensures BRACE !in p[i..] && Sound(p[i..])
  {
  }

  /** lo_pattern_match answers exactly what naive backtracking does. */
  method PatternMatch(str: seq<int>, p: seq<int>) returns (r: bool)
    requires BRACE !in p && Sound(p)
    ensures r == Glob(str, p)
    decreases |p|, 0
  {
    hide SetMatches, SetEnd, Body, Glob, Sound;
    var i, j := 0, 0;
    assert str[0..] == str && p[0..] == p;
    while j < |p|
      invariant 0 <= i <= |str| && 0 <= j <= |p|
      invariant Glob(str, p) == Glob(str[i..], p[j..])
      decreases |p| - j
    {
      ghost var s, q := str[i..], p[j..];
      GlobStep(s, q);
      SoundBehind(p, j);
      SoundBehind(p, j + 1);
      if i == |str| && p[j] != STAR {
        return false;
      }
      var c := p[j];
      j := j + 1;
      Behind(p, j - 1, 1);
      if c == STAR {
        assert q == [STAR] + p[j..];
        r := MatchStar(str[i..], p[j..]);
        return;
      } else if c == QUESTION {
      } else if c == OPEN {
        var ok, len := PassSet(p[j - 1..], str[i]);
        if !ok {
          return false;
        }
        Behind(p, j - 1, len);
        j := j - 1 + len;
      } else if c != str[i] {
        return false;
      }
      Behind(str, i, 1);
      i := i + 1;
    }
    GlobStep(str[i..], p[j..]);
    return i == |str|;
  }

  // The star case: stars are collapsed, the next literal is searched, and the empty rest is not tried.
  method MatchStar(str: seq<int>, p: seq<int>) returns (r: bool)
    requires BRACE !in p && Sound(p)
    ensures r == Glob(str, [STAR] + p)
    decreases |p|, 1
  {
    hide Glob, SetMatches, SetEnd, Body;
    var j := 0;
    assert p[0..] == p;
    while j < |p| && p[j] == STAR
      invariant 0 <= j <= |p|
      invariant Glob(str, [STAR] + p) == Glob(str, [STAR] + p[j..])
    {
      TwoStars(str, p[j..]);
      assert p[j..] == [STAR] + p[j + 1..];
      j := j + 1;
    }
    if j == |p| {
      StarTakesAll(str);
      assert [STAR] + p[j..] == [STAR];
      return true;
    }
    var q := p[j..];
    var i := 0;
    assert str[0..] == str;
    if q[0] != QUESTION && q[0] != OPEN {
      while i < |str| && q[0] != str[i]
        invariant 0 <= i <= |str|
        invariant Glob(str, [STAR] + p) == Glob(str[i..], [STAR] + q)
      {
        StarTakesOne(str[i..], q);
        GlobStep(str[i..], q);
        assert str[i..][1..] == str[i + 1..];
        i := i + 1;
      }
    }
    while i < |str|
      invariant 0 <= i <= |str|
      invariant Glob(str, [STAR] + p) == Glob(str[i..], [STAR] + q)
    {
      StarTakesOne(str[i..], q);
      var found := PatternMatch(str[i..], q);
      if found {
        return true;
      }
      assert str[i..][1..] == str[i + 1..];
      i := i + 1;
    }
    StarTakesOne(str[i..], q);
    GlobStep(str[i..], q);
    return false;
  }

  // ---- Patterns of one token ----

  // The set "[b]" and the set "[!b]" in a pattern, for a first character that is not taken for the bracket or for '!'.
  lemma SetInPattern(b: seq<int>, q: seq<int>, s: seq<int>)
    requires b != [] && forall i | 1 <= i < |b| :: b[i] != CLOSE
    ensures b[0] != NEGATE ==>
      (Glob(s, [OPEN] + b + [CLOSE] + q) <==> s != [] && SetHas(b, s[0]) && Glob(s[1..], q))
    ensures Glob(s, [OPEN, NEGATE] + b + [CLOSE] + q) <==> s != [] && !SetHas(b, s[0]) && Glob(s[1..], q)
  {
    hide Glob, SetHas;
    var body := b + [CLOSE] + q;
    var p, n := [OPEN] + b + [CLOSE] + q, [OPEN, NEGATE] + b + [CLOSE] + q;
    assert p == [OPEN] + body && n == [OPEN, NEGATE] + body && body[0] == b[0];
    BodyOf(body);
    ClosedSet(n, b, q, s);
    if b[0] != NEGATE {
      ClosedSet(p, b, q, s);
    }
  }

  lemma BodyOf(body: seq<int>)
    requires body != []
    ensures body[0] != NEGATE ==> Body([OPEN] + body) == body && !Inverted([OPEN] + body)
    ensures Body([OPEN, NEGATE] + body) == body && Inverted([OPEN, NEGATE] + body)
  {
  }

  lemma ClosedSet(p: seq<int>, b: seq<int>, q: seq<int>, s: seq<int>)
    requires p != [] && p[0] == OPEN && Body(p) == b + [CLOSE] + q
    requires b != [] && forall i | 1 <= i < |b| :: b[i] != CLOSE
    ensures Glob(s, p) <==> s != [] && SetHas(b, s[0]) != Inverted(p) && Glob(s[1..], q)
  {
    hide Glob, SetHas, SetEnd, Body, Inverted;
    EndOfSet(b, q);
    GlobStep(s, p);
  }

  lemma EndOfSet(b: seq<int>, q: seq<int>)
    requires b != [] && forall i | 1 <= i < |b| :: b[i] != CLOSE
    ensures var body := b + [CLOSE] + q; SetEnd(body) == |b| && body[..|b|] == b && body[|b| + 1..] == q
  {
    var body := b + [CLOSE] + q;
    CloseUnique(body[1..], |b| - 1);
  }

  // '?' takes one character, whatever it is, and any other character but '*' and '[' takes itself.
  lemma OneCharacter(c: int, q: seq<int>, s: seq<int>)
    requires c != STAR && c != OPEN
    ensures Glob(s, [c] + q) <==> s != [] && (c == QUESTION || s[0] == c) && Glob(s[1..], q)
  {
    assert ([c] + q)[1..] == q;
  }

  /** A pattern of plain characters matches only itself. */
  lemma {:induction false} PlainMatchesItself(s: seq<int>, p: seq<int>)
    requires STAR !in p && QUESTION !in p && OPEN !in p
    ensures Glob(s, p) <==> s == p
    decreases |p|
  {
    if p != [] {
      assert p[0] in p;
      if s != [] {
        PlainMatchesItself(s[1..], p[1..]);
        assert s == [s[0]] + s[1..] && p == [p[0]] + p[1..];
      }
    }
  }

  // ---- What a pattern means, without any search ----

  datatype Token = Star | AnyChar | Set(negated: bool, members: seq<int>) | Char(c: int)

  // The tokens of a pattern; none when a set is not closed.
  datatype Tokens = Tokens(list: seq<Token>) | Unclosed

  function Parse(p: seq<int>): Tokens
    decreases |p|
  {
    if p == [] then Tokens([])
    else if p[0] == OPEN then
      var b := Body(p);
      if SetEnd(b) == |b| then Unclosed
      else Then(Set(Inverted(p), b[..SetEnd(b)]), Parse(b[SetEnd(b) + 1..]))
    else Then(if p[0] == STAR then Star else if p[0] == QUESTION then AnyChar else Char(p[0]), Parse(p[1..]))
  }

  function Then(t: Token, rest: Tokens): Tokens {
    if rest.Tokens? then Tokens([t] + rest.list) else Unclosed
  }

  // The pieces of text a token stands for.
  predicate Accepts(t: Token, part: seq<int>) {
    match t
    case Star => true
    case AnyChar => |part| == 1
    case Set(negated, members) => |part| == 1 && SetHas(members, part[0]) != negated
    case Char(c) => part == [c]
  }

  function Joined(parts: seq<seq<int>>): seq<int> {
    if parts == [] then [] else parts[0] + Joined(parts[1..])
  }

  ghost predicate Fits(parts: seq<seq<int>>, ts: seq<Token>, s: seq<int>) {
    && |parts| == |ts| && Joined(parts) == s
    && forall i | 0 <= i < |ts| :: Accepts(ts[i], parts[i])
  }

  lemma FitsStep(part: seq<int>, parts: seq<seq<int>>, t: Token, ts: seq<Token>, s: seq<int>)
    requires Accepts(t, part) && Fits(parts, ts, s)
    ensures Fits([part] + parts, [t] + ts, part + s)
  {
    hide Accepts;
    var all, tokens := [part] + parts, [t] + ts;
    assert all[1..] == parts;
    forall i | 0 <= i < |tokens| ensures Accepts(tokens[i], all[i]) {
      if i > 0 {
        assert tokens[i] == ts[i - 1] && all[i] == parts[i - 1];
      }
    }
  }

  lemma FitsNothing()
    ensures Fits([], [], [])
  {
  }

  lemma FitsUnstep(parts: seq<seq<int>>, t: Token, ts: seq<Token>, s: seq<int>)
    requires Fits(parts, [t] + ts, s)
    ensures parts != [] && Accepts(t, parts[0]) && s == parts[0] + Joined(parts[1..])
    ensures Fits(parts[1..], ts, Joined(parts[1..]))
  {
    var all := [t] + ts;
    assert all[0] == t;
    assert forall i | 0 <= i < |ts| :: ts[i] == all[i + 1] && parts[1..][i] == parts[i + 1];
  }

  /** A match cuts the string into one piece for each token. */
  lemma {:induction false} MatchGivesPieces(s: seq<int>, p: seq<int>) returns (parts: seq<seq<int>>)
    requires Glob(s, p)
    ensures Parse(p).Tokens? && Fits(parts, Parse(p).list, s)
    decreases |p|, |s|
  {
    hide Fits, Joined, SetHas, SetEnd, Body;
    if p == [] {
      parts := [];
      FitsNothing();
    } else if p[0] == STAR {
      if Glob(s, p[1..]) {
        parts := MatchGivesPieces(s, p[1..]);
        FitsStep([], parts, Star, Parse(p[1..]).list, s);
        assert [] + s == s;
        parts := [[]] + parts;
      } else {
        parts := MatchGivesPieces(s[1..], p);
        var ts := Parse(p[1..]).list;
        FitsUnstep(parts, Star, ts, s[1..]);
        FitsStep([s[0]] + parts[0], parts[1..], Star, ts, Joined(parts[1..]));
        assert s == [s[0]] + parts[0] + Joined(parts[1..]);
        parts := [[s[0]] + parts[0]] + parts[1..];
      }
    } else {
      var t := Parse(p);
      var rest := if p[0] == OPEN then Body(p)[SetEnd(Body(p)) + 1..] else p[1..];
      parts := MatchGivesPieces(s[1..], rest);
      assert s == [s[0]] + s[1..];
      FitsStep([s[0]], parts, t.list[0], Parse(rest).list, s[1..]);
      parts := [[s[0]]] + parts;
    }
  }

  lemma {:induction false} PiecesGiveMatch(s: seq<int>, p: seq<int>, parts: seq<seq<int>>)
    requires Parse(p).Tokens? && Fits(parts, Parse(p).list, s)
    ensures Glob(s, p)
    decreases |p|
  {
    if p != [] {
      var t := Parse(p).list[0];
      var rest := if p[0] == OPEN then Body(p)[SetEnd(Body(p)) + 1..] else p[1..];
      assert Parse(p).list == [t] + Parse(rest).list;
      FitsUnstep(parts, t, Parse(rest).list, s);
      PiecesGiveMatch(Joined(parts[1..]), rest, parts[1..]);
      if p[0] == STAR {
        assert s[|parts[0]|..] == Joined(parts[1..]);
        StarTakesAnyPrefix(s, rest);
        assert p == [STAR] + rest;
      } else {
        assert s[1..] == Joined(parts[1..]);
      }
    }
  }

  /** A string matches a pattern exactly when the pattern is closed and the string can be cut into one
      piece for each token: anything for a star, one character of the right kind otherwise. */
  lemma MatchIsDecomposition(s: seq<int>, p: seq<int>)
    ensures Glob(s, p) <==> Parse(p).Tokens? && exists parts :: Fits(parts, Parse(p).list, s)
  {
    if Glob(s, p) {
      var parts := MatchGivesPieces(s, p);
    } else if Parse(p).Tokens? {
      forall parts | Fits(parts, Parse(p).list, s) ensures false {
        PiecesGiveMatch(s, p, parts);
      }
    }
  }
}
