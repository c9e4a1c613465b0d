/** The Scan pattern matcher: a one-pass wildcard loop with a single backtrack
    point, checked against the declarative meaning of '*' and '?'. */
module Glob {

  import opened Arithmetic

  /** Declarative meaning: '*' stands for any (possibly empty) text, '?' for any
      one character, every other character for itself. */
  ghost predicate Matches(key: string, pattern: string)
    decreases |pattern|
  {
    if pattern == [] then key == []
    else if pattern[0] == '*' then
      exists i :: 0 <= i <= |key| && Matches(key[i..], pattern[1..])
    else
      key != [] && (pattern[0] == '?' || pattern[0] == key[0]) && Matches(key[1..], pattern[1..])
  }

  predicate Fits(c: char, p: char) { p == '?' || p == c }

  // ----- the loop as a function of its variables -----

  /** The loop variables: `k` in the key, `p` in the pattern, the pattern index
      of the most recent '*' (-1 for none) and the key index it consumes up to. */
  datatype Cursor = Cursor(k: nat, p: nat, starPos: int, starKey: nat)

  predicate InBounds(key: string, pattern: string, c: Cursor) {
    && c.starKey <= c.k <= |key| && c.p <= |pattern|
    && -1 <= c.starPos < c.p
    && (c.starPos >= 0 ==> pattern[c.starPos] == '*')
  }

  datatype Move = Consume | Star | Backtrack | Stuck

  /** Which branch the loop body takes. A literal match is tested before '*'. */
  function Choose(key: string, pattern: string, c: Cursor): Move
    requires InBounds(key, pattern, c) && c.k < |key|
  {
    if c.p < |pattern| && Fits(key[c.k], pattern[c.p]) then Consume
    else if c.p < |pattern| && pattern[c.p] == '*' then Star
    else if c.starPos >= 0 then Backtrack
    else Stuck
  }

  function Advance(key: string, pattern: string, c: Cursor): (c': Cursor)
    requires InBounds(key, pattern, c) && c.k < |key|
    requires !Choose(key, pattern, c).Stuck?
    ensures InBounds(key, pattern, c')
    ensures c'.starKey > c.starKey || (c'.starKey == c.starKey && c'.p > c.p)
  {
    match Choose(key, pattern, c)
    case Consume => c.(k := c.k + 1, p := c.p + 1)
    case Star => Cursor(c.k, c.p + 1, c.p, c.k)
    case Backtrack => Cursor(c.starKey + 1, c.starPos + 1, c.starPos, c.starKey + 1)
  }

  /** The answer of the loop started at `c`. */
  function Outcome(key: string, pattern: string, c: Cursor): bool
    requires InBounds(key, pattern, c)
    decreases |key| - c.starKey, |pattern| - c.p
  {
    if c.k == |key| then AllStars(pattern[c.p..])
    else if Choose(key, pattern, c).Stuck? then false
    else Outcome(key, pattern, Advance(key, pattern, c))
  }

  predicate AllStars(s: string) { forall i :: 0 <= i < |s| ==> s[i] == '*' }

  const START := Cursor(0, 0, -1, 0)

  /** What matchesPattern answers. */
  function Accepts(key: string, pattern: string): bool {
    pattern == [] || pattern == "*" || Outcome(key, pattern, START)
  }

  /** matchesPattern itself, with a step counter. The empty pattern accepts every
      key; with any other, an accepted key matches the glob, and a key (or a
      pattern) without '*' is accepted exactly when it does. The bound is the
      worst case of |key| * |pattern| the design asks for. */
  method MatchesPattern(key: string, pattern: string) returns (matched: bool, ghost steps: nat)
    ensures matched == Accepts(key, pattern)
    ensures pattern == [] ==> matched
    ensures pattern != [] && matched ==> Matches(key, pattern)
    ensures pattern != [] && ('*' !in key || '*' !in pattern) ==> (matched <==> Matches(key, pattern))
    ensures steps <= |key| * (|pattern| + 1) + |pattern|
  {
    hide Matches;
    AcceptsMeans(key, pattern);
    steps := 0;
    if pattern == [] || pattern == "*" {
      return true, 0;
    }
    var k, p, starPos, starKey := 0, 0, -1, 0;
    while k < |key|
      invariant 0 <= k && 0 <= p && 0 <= starKey
      invariant InBounds(key, pattern, Cursor(k, p, starPos, starKey))
      invariant Outcome(key, pattern, Cursor(k, p, starPos, starKey)) == Outcome(key, pattern, START)
      invariant steps <= Spent(pattern, Cursor(k, p, starPos, starKey))
      decreases |key| - starKey, |pattern| - p
    {
      ghost var c := Cursor(k, p, starPos, starKey);
      if p < |pattern| && (pattern[p] == '?' || pattern[p] == key[k]) {
        k, p := k + 1, p + 1;
      } else if p < |pattern| && pattern[p] == '*' {
        starPos, p := p, p + 1;
        starKey := k;
      } else if starPos != -1 {
        p := starPos + 1;
        starKey := starKey + 1;
        k := starKey;
      } else {
        StuckIsEarly(key, pattern, c);
        return false, steps + 1;
      }
      AdvanceSpends(key, pattern, c);
      assert Cursor(k, p, starPos, starKey) == Advance(key, pattern, c);
      steps := steps + 1;
    }
    SpentIsBounded(key, pattern, Cursor(k, p, starPos, starKey));
    ghost var atEnd := p;
    while p < |pattern| && pattern[p] == '*'
      invariant atEnd <= p <= |pattern|
      invariant forall i :: atEnd <= i < p ==> pattern[i] == '*'
      invariant steps <= |key| * (|pattern| + 1) + p
    {
      p := p + 1;
      steps := steps + 1;
    }
    assert p < |pattern| ==> pattern[p] == pattern[atEnd..][p - atEnd];
    return p == |pattern|, steps;
  }

  /** Steps paid for so far: a full pattern for each key index given to '*'. */
  ghost function Spent(pattern: string, c: Cursor): nat {
    c.starKey * (|pattern| + 1) + c.p
  }

  lemma AdvanceSpends(key: string, pattern: string, c: Cursor)
    requires InBounds(key, pattern, c) && c.k < |key| && !Choose(key, pattern, c).Stuck?
    ensures Spent(pattern, Advance(key, pattern, c)) >= Spent(pattern, c) + 1
  {
    var c', w := Advance(key, pattern, c), |pattern| + 1;
    if c'.starKey > c.starKey {
      MulMonotone(c.starKey + 1, c'.starKey, w);
      assert (c.starKey + 1) * w == c.starKey * w + w;
    }
  }

  lemma SpentIsBounded(key: string, pattern: string, c: Cursor)
    requires InBounds(key, pattern, c)
    ensures Spent(pattern, c) <= |key| * (|pattern| + 1) + c.p
  {
    MulMonotone(c.starKey, |key|, |pattern| + 1);
  }

  lemma StuckIsEarly(key: string, pattern: string, c: Cursor)
    requires InBounds(key, pattern, c) && c.k < |key|
    ensures Spent(pattern, c) + 1 <= |key| * (|pattern| + 1)
  {
    MulMonotone(c.starKey + 1, |key|, |pattern| + 1);
    assert (c.starKey + 1) * (|pattern| + 1) == c.starKey * (|pattern| + 1) + |pattern| + 1;
  }

  // ----- soundness, for every key -----

  lemma {:induction false} ConcatMatches(a: string, p: string, b: string, q: string)
    requires Matches(a, p) && Matches(b, q)
    ensures Matches(a + b, p + q)
    decreases |p|
  {
    if p == [] {
      assert a + b == b && p + q == q;
    } else {
      assert (p + q)[1..] == p[1..] + q;
      if p[0] == '*' {
        var i :| 0 <= i <= |a| && Matches(a[i..], p[1..]);
        ConcatMatches(a[i..], p[1..], b, q);
        assert (a + b)[i..] == a[i..] + b;
      } else {
        ConcatMatches(a[1..], p[1..], b, q);
        assert (a + b)[1..] == a[1..] + b;
      }
    }
  }

  lemma StarMatches(a: string)
    ensures Matches(a, "*")
  {
    assert a[|a|..] == [] && "*"[1..] == [];
    assert Matches(a[|a|..], "*"[1..]);
  }

  lemma OneMatches(c: char, p: char)
    requires Fits(c, p)
    ensures Matches([c], [p])
  {
    if p == '*' { StarMatches([c]); }
  }

  lemma {:induction false} AllStarsMatchEmpty(s: string)
    ensures Matches([], s) <==> AllStars(s)
  {
    if s != [] {
      AllStarsMatchEmpty(s[1..]);
      assert ""[0..] == "";
      assert AllStars(s) <==> s[0] == '*' && AllStars(s[1..]) by {
        assert forall i :: 1 <= i < |s| ==> s[i] == s[1..][i - 1];
      }
    }
  }

  /** A trailing '*' that matches can swallow one more character. */
  lemma {:induction false} StarSwallows(a: string, q: string, c: char)
    requires q != [] && q[|q| - 1] == '*' && Matches(a, q)
    ensures Matches(a + [c], q)
    decreases |q|
  {
    if |q| == 1 {
      assert q == "*";
      StarMatches(a + [c]);
    } else if q[0] == '*' {
      var i :| 0 <= i <= |a| && Matches(a[i..], q[1..]);
      StarSwallows(a[i..], q[1..], c);
      assert (a + [c])[i..] == a[i..] + [c];
    } else {
      StarSwallows(a[1..], q[1..], c);
      assert (a + [c])[1..] == a[1..] + [c];
    }
  }

  /** The loop's soundness invariant: what has been consumed matches, both at
      the current position and at the backtrack point. */
  ghost predicate Consumed(key: string, pattern: string, c: Cursor)
    requires InBounds(key, pattern, c)
  {
    && Matches(key[..c.k], pattern[..c.p])
    && (c.starPos >= 0 ==> Matches(key[..c.starKey], pattern[..c.starPos + 1]))
  }

  lemma MatchesSnoc(a: string, p: string, c: char, d: char)
    requires Matches(a, p) && Fits(c, d)
    ensures Matches(a + [c], p + [d])
  {
    hide Matches;
    OneMatches(c, d);
    ConcatMatches(a, p, [c], [d]);
  }

  lemma MatchesStarSnoc(a: string, p: string)
    requires Matches(a, p)
    ensures Matches(a, p + "*")
  {
    hide Matches;
    StarMatches([]);
    ConcatMatches(a, p, [], "*");
    assert a + [] == a;
  }

  lemma AdvanceKeepsConsumed(key: string, pattern: string, c: Cursor)
    requires InBounds(key, pattern, c) && c.k < |key| && Consumed(key, pattern, c)
    requires !Choose(key, pattern, c).Stuck?
    ensures Consumed(key, pattern, Advance(key, pattern, c))
  {
    hide Matches;
    match Choose(key, pattern, c)
    case Consume =>
      MatchesSnoc(key[..c.k], pattern[..c.p], key[c.k], pattern[c.p]);
      assert key[..c.k + 1] == key[..c.k] + [key[c.k]];
      assert pattern[..c.p + 1] == pattern[..c.p] + [pattern[c.p]];
    case Star =>
      MatchesStarSnoc(key[..c.k], pattern[..c.p]);
      assert pattern[..c.p + 1] == pattern[..c.p] + "*";
    case Backtrack =>
      StarSwallows(key[..c.starKey], pattern[..c.starPos + 1], key[c.starKey]);
      assert key[..c.starKey + 1] == key[..c.starKey] + [key[c.starKey]];
  }

  lemma {:induction false} OutcomeSound(key: string, pattern: string, c: Cursor)
    requires InBounds(key, pattern, c) && Consumed(key, pattern, c)
    requires Outcome(key, pattern, c)
    ensures Matches(key, pattern)
    decreases |key| - c.starKey, |pattern| - c.p
  {
    if c.k == |key| {
      AllStarsMatchEmpty(pattern[c.p..]);
      ConcatMatches(key[..c.k], pattern[..c.p], [], pattern[c.p..]);
      assert key == key[..c.k] + [] && pattern == pattern[..c.p] + pattern[c.p..];
    } else {
      AdvanceKeepsConsumed(key, pattern, c);
      OutcomeSound(key, pattern, Advance(key, pattern, c));
    }
  }

  /** Soundness: whatever the key, an accepted key matches a non-empty pattern. */
  lemma AcceptedKeysMatch(key: string, pattern: string)
    requires pattern != [] && Accepts(key, pattern)
    ensures Matches(key, pattern)
  {
    if pattern == "*" {
      StarMatches(key);
    } else {
      assert key[..0] == [] && pattern[..0] == [];
      OutcomeSound(key, pattern, START);
    }
  }

  // ----- exactness, when '*' cannot be taken for a literal -----

  predicate FitsAll(a: string, s: string)
    requires |a| == |s|
  {
    forall i :: 0 <= i < |s| ==> Fits(a[i], s[i])
  }

  predicate StarFree(s: string) { forall i :: 0 <= i < |s| ==> s[i] != '*' }

  /** A star-free prefix of the pattern consumes exactly its own length. */
  lemma {:induction false} LiteralPrefix(x: string, s: string, r: string)
    requires StarFree(s)
    ensures Matches(x, s + r) <==> |s| <= |x| && FitsAll(x[..|s|], s) && Matches(x[|s|..], r)
    decreases |s|
  {
    if s == [] {
      assert s + r == r && x[0..] == x;
    } else {
      assert (s + r)[1..] == s[1..] + r;
      if x != [] {
        LiteralPrefix(x[1..], s[1..], r);
        if |s| <= |x| {
          assert x[1..][|s| - 1..] == x[|s|..];
          assert x[..|s|] == [x[0]] + x[1..][..|s| - 1];
          assert FitsAll(x[..|s|], s) <==> Fits(x[0], s[0]) && FitsAll(x[1..][..|s| - 1], s[1..]) by {
            assert forall i :: 1 <= i < |s| ==> s[i] == s[1..][i - 1] && x[..|s|][i] == x[1..][..|s| - 1][i - 1];
          }
        }
      }
    }
  }

  /** The goal the loop still has to decide: the whole match, or the match from
      the most recent '*' on. */
  ghost predicate Goal(key: string, pattern: string, c: Cursor)
    requires InBounds(key, pattern, c)
  {
    if c.starPos < 0 then Matches(key, pattern)
    else Matches(key[c.starKey..], pattern[c.starPos..])
  }

  /** Key characters `i` to `k` fit the star-free pattern characters `b` to `p`. */
  predicate FitsBetween(key: string, pattern: string, i: nat, k: nat, b: nat, p: nat) {
    && i <= k <= |key| && b <= p <= |pattern| && k - i == p - b
    && StarFree(pattern[b..p]) && FitsAll(key[i..k], pattern[b..p])
  }

  predicate PieceFits(key: string, pattern: string, c: Cursor)
    requires InBounds(key, pattern, c)
  {
    && (c.starPos < 0 ==> c.starKey == 0)
    && FitsBetween(key, pattern, c.starKey, c.k, c.starPos + 1, c.p)
  }

  lemma SplitAt(s: string, i: nat, k: nat)
    requires i <= k <= |s|
    ensures s[i..][..k - i] == s[i..k] && s[i..][k - i..] == s[k..] && s[i..] == s[i..k] + s[k..]
  {
  }

  /** The consumed piece, as the star-free prefix of what is left to match. */
  lemma PieceIsPrefix(key: string, pattern: string, i: nat, k: nat, b: nat, p: nat)
    requires FitsBetween(key, pattern, i, k, b, p)
    ensures var s := pattern[b..p];
            && StarFree(s) && |s| <= |key[i..]|
            && FitsAll(key[i..][..|s|], s) && key[i..][|s|..] == key[k..]
            && pattern[b..] == s + pattern[p..]
  {
    hide FitsAll, StarFree;
    SplitAt(key, i, k);
    SplitAt(pattern, b, p);
    assert |pattern[b..p]| == k - i;
  }

  lemma StarIntro(x: string, tail: string, i: nat)
    requires tail != [] && tail[0] == '*' && i <= |x| && Matches(x[i..], tail[1..])
    ensures Matches(x, tail)
  {
  }

  lemma StarElim(x: string, tail: string) returns (i: nat)
    requires tail != [] && tail[0] == '*' && Matches(x, tail)
    ensures i <= |x| && Matches(x[i..], tail[1..])
  {
    i :| 0 <= i <= |x| && Matches(x[i..], tail[1..]);
  }

  /** Past a fitting piece only the rest matters. */
  lemma PieceThenRest(key: string, pattern: string, i: nat, k: nat, b: nat, p: nat)
    requires FitsBetween(key, pattern, i, k, b, p)
    ensures Matches(key[i..], pattern[b..]) <==> Matches(key[k..], pattern[p..])
  {
    hide Matches, FitsAll, StarFree;
    PieceIsPrefix(key, pattern, i, k, b, p);
    hide FitsBetween;
    LiteralPrefix(key[i..], pattern[b..p], pattern[p..]);
  }

  /** A '*' may stand for nothing. */
  lemma StarSkipped(x: string, pattern: string, i: nat)
    requires i < |pattern| && pattern[i] == '*' && Matches(x, pattern[i + 1..])
    ensures Matches(x, pattern[i..])
  {
    hide Matches;
    assert x[0..] == x && pattern[i..][1..] == pattern[i + 1..];
    StarIntro(x, pattern[i..], 0);
  }

  /** A match at the current position decides the goal; without a '*' nothing
      else does. */
  lemma GoalHere(key: string, pattern: string, c: Cursor)
    requires InBounds(key, pattern, c) && PieceFits(key, pattern, c)
    ensures c.starPos < 0 ==> (Goal(key, pattern, c) <==> Matches(key[c.k..], pattern[c.p..]))
    ensures Matches(key[c.k..], pattern[c.p..]) ==> Goal(key, pattern, c)
  {
    hide Matches, FitsBetween;
    PieceThenRest(key, pattern, c.starKey, c.k, c.starPos + 1, c.p);
    if c.starPos < 0 {
      assert pattern[0..] == pattern && key[0..] == key;
    } else if Matches(key[c.k..], pattern[c.p..]) {
      StarSkipped(key[c.starKey..], pattern, c.starPos);
    }
  }

  /** A '*' followed by a star-free piece: the piece fits somewhere, and unless
      it fits at once the '*' can also swallow the first character. */
  lemma StarThenPiece(x: string, tail: string, s: string, rest: string) returns (i: nat)
    requires tail != [] && tail[0] == '*' && tail[1..] == s + rest && StarFree(s) && Matches(x, tail)
    ensures i + |s| <= |x| && Matches(x[i + |s|..], rest)
    ensures i == 0 || Matches(x[1..], tail)
  {
    hide Matches, FitsAll, StarFree;
    i := StarElim(x, tail);
    LiteralPrefix(x[i..], s, rest);
    assert x[i..][|s|..] == x[i + |s|..];
    if i > 0 {
      assert x[1..][i - 1..] == x[i..];
      StarIntro(x[1..], tail, i - 1);
    }
  }

  /** A '*' at `b - 1` and then a fitting piece: the rest matches from some later
      position on, and unless that is here the '*' can swallow one more. */
  lemma StarThenRest(key: string, pattern: string, i: nat, k: nat, b: nat, p: nat) returns (j: nat)
    requires FitsBetween(key, pattern, i, k, b, p) && b > 0 && pattern[b - 1] == '*'
    requires Matches(key[i..], pattern[b - 1..])
    ensures k <= j <= |key| && Matches(key[j..], pattern[p..])
    ensures j == k || (i < |key| && Matches(key[i + 1..], pattern[b - 1..]))
  {
    hide Matches, FitsAll, StarFree;
    PieceIsPrefix(key, pattern, i, k, b, p);
    var s, x, tail := pattern[b..p], key[i..], pattern[b - 1..];
    assert tail[1..] == pattern[b..];
    var n := StarThenPiece(x, tail, s, pattern[p..]);
    j := k + n;
    assert x[n + |s|..] == key[j..];
    if n > 0 { assert x[1..] == key[i + 1..]; }
  }

  /** With a '*' the goal is reached by some start at or after the backtrack key. */
  lemma GoalLater(key: string, pattern: string, c: Cursor) returns (j: nat)
    requires InBounds(key, pattern, c) && PieceFits(key, pattern, c) && c.starPos >= 0
    requires Goal(key, pattern, c)
    ensures c.k <= j <= |key| && Matches(key[j..], pattern[c.p..])
    ensures j == c.k || (c.starKey < |key| && Matches(key[c.starKey + 1..], pattern[c.starPos..]))
  {
    hide Matches, FitsBetween;
    j := StarThenRest(key, pattern, c.starKey, c.k, c.starPos + 1, c.p);
  }

  lemma FitsAllSnoc(a: string, s: string, x: char, y: char)
    requires |a| == |s| && FitsAll(a, s) && Fits(x, y) && StarFree(s) && y != '*'
    ensures FitsAll(a + [x], s + [y]) && StarFree(s + [y])
  {
    hide Fits;
  }

  lemma PieceGrows(key: string, pattern: string, i: nat, k: nat, b: nat, p: nat)
    requires k < |key| && p < |pattern| && ('*' !in key || '*' !in pattern)
    requires FitsBetween(key, pattern, i, k, b, p) && Fits(key[k], pattern[p])
    ensures FitsBetween(key, pattern, i, k + 1, b, p + 1)
  {
    assert pattern[p] != '*' by { assert key[k] in key && pattern[p] in pattern; }
    hide FitsAll, Fits, StarFree;
    FitsAllSnoc(key[i..k], pattern[b..p], key[k], pattern[p]);
    assert key[i..k + 1] == key[i..k] + [key[k]];
    assert pattern[b..p + 1] == pattern[b..p] + [pattern[p]];
  }

  lemma EmptyPieceFits(key: string, pattern: string, k: nat, p: nat)
    requires k <= |key| && p <= |pattern|
    ensures FitsBetween(key, pattern, k, k, p, p)
  {
  }

  /** A new '*' makes the older one irrelevant. */
  lemma StarKeepsGoal(key: string, pattern: string, c: Cursor)
    requires InBounds(key, pattern, c) && c.k < |key| && PieceFits(key, pattern, c)
    requires Choose(key, pattern, c).Star?
    ensures Goal(key, pattern, Advance(key, pattern, c)) == Goal(key, pattern, c)
  {
    hide Matches, FitsBetween;
    GoalHere(key, pattern, c);
    var here, tail := key[c.k..], pattern[c.p..];
    if c.starPos >= 0 && Goal(key, pattern, c) {
      var j := GoalLater(key, pattern, c);
      var i := StarElim(key[j..], tail);
      assert here[j + i - c.k..] == key[j..][i..];
      StarIntro(here, tail, j + i - c.k);
    }
  }

  lemma BacktrackKeepsGoal(key: string, pattern: string, c: Cursor)
    requires InBounds(key, pattern, c) && c.k < |key| && PieceFits(key, pattern, c)
    requires Choose(key, pattern, c).Backtrack?
    ensures Goal(key, pattern, Advance(key, pattern, c)) == Goal(key, pattern, c)
  {
    hide Matches, FitsBetween;
    if Goal(key, pattern, c) { var _ := GoalLater(key, pattern, c); }
    RestCannotMatch(key, pattern, c);
    if Goal(key, pattern, Advance(key, pattern, c)) {
      var x, y, tail := key[c.starKey..], key[c.starKey + 1..], pattern[c.starPos..];
      var i := StarElim(y, tail);
      assert x[i + 1..] == y[i..];
      StarIntro(x, tail, i + 1);
    }
  }

  /** On a mismatch the rest of the pattern cannot match at this position. */
  lemma RestCannotMatch(key: string, pattern: string, c: Cursor)
    requires InBounds(key, pattern, c) && c.k < |key|
    requires Choose(key, pattern, c).Backtrack? || Choose(key, pattern, c).Stuck?
    ensures !Matches(key[c.k..], pattern[c.p..])
  {
  }

  lemma AdvanceKeepsPiece(key: string, pattern: string, c: Cursor)
    requires '*' !in key || '*' !in pattern
    requires InBounds(key, pattern, c) && c.k < |key| && PieceFits(key, pattern, c)
    requires !Choose(key, pattern, c).Stuck?
    ensures PieceFits(key, pattern, Advance(key, pattern, c))
  {
    hide FitsBetween, Fits;
    match Choose(key, pattern, c)
    case Consume => PieceGrows(key, pattern, c.starKey, c.k, c.starPos + 1, c.p);
    case Star => EmptyPieceFits(key, pattern, c.k, c.p + 1);
    case Backtrack => EmptyPieceFits(key, pattern, c.starKey + 1, c.starPos + 1);
  }

  lemma AdvanceKeepsGoal(key: string, pattern: string, c: Cursor)
    requires InBounds(key, pattern, c) && c.k < |key| && PieceFits(key, pattern, c)
    requires !Choose(key, pattern, c).Stuck?
    ensures Goal(key, pattern, Advance(key, pattern, c)) == Goal(key, pattern, c)
  {
    hide Matches, PieceFits;
    match Choose(key, pattern, c)
    case Consume =>
    case Star => StarKeepsGoal(key, pattern, c);
    case Backtrack => BacktrackKeepsGoal(key, pattern, c);
  }

  /** With the key used up, the goal is that only '*' is left of the pattern. */
  lemma GoalAtEnd(key: string, pattern: string, c: Cursor)
    requires InBounds(key, pattern, c) && c.k == |key| && PieceFits(key, pattern, c)
    ensures Goal(key, pattern, c) <==> AllStars(pattern[c.p..])
  {
    hide Matches, PieceFits, AllStars;
    GoalHere(key, pattern, c);
    AllStarsMatchEmpty(pattern[c.p..]);
    assert key[c.k..] == [];
    if c.starPos >= 0 && Goal(key, pattern, c) { var _ := GoalLater(key, pattern, c); }
  }

  lemma {:induction false} OutcomeExact(key: string, pattern: string, c: Cursor)
    requires '*' !in key || '*' !in pattern
    requires InBounds(key, pattern, c) && PieceFits(key, pattern, c)
    ensures Outcome(key, pattern, c) == Goal(key, pattern, c)
    decreases |key| - c.starKey, |pattern| - c.p
  {
    hide Matches, PieceFits, AllStars;
    if c.k == |key| {
      GoalAtEnd(key, pattern, c);
    } else if Choose(key, pattern, c).Stuck? {
      GoalHere(key, pattern, c);
      RestCannotMatch(key, pattern, c);
    } else {
      AdvanceKeepsPiece(key, pattern, c);
      AdvanceKeepsGoal(key, pattern, c);
      OutcomeExact(key, pattern, Advance(key, pattern, c));
    }
  }

  /** Greedy last-star backtracking loses no match as long as a '*' of the key
      cannot meet a '*' of the pattern. */
  lemma AcceptsExactly(key: string, pattern: string)
    requires pattern != [] && ('*' !in key || '*' !in pattern)
    ensures Accepts(key, pattern) <==> Matches(key, pattern)
  {
    hide Matches, Outcome, FitsBetween;
    if pattern == "*" {
      StarMatches(key);
    } else {
      EmptyPieceFits(key, pattern, 0, 0);
      OutcomeExact(key, pattern, START);
    }
  }

  /** The answer for every key and pattern, the empty pattern included. */
  lemma AcceptsMeans(key: string, pattern: string)
    ensures pattern == [] ==> Accepts(key, pattern)
    ensures pattern != [] && Accepts(key, pattern) ==> Matches(key, pattern)
    ensures pattern != [] && ('*' !in key || '*' !in pattern) ==> (Accepts(key, pattern) <==> Matches(key, pattern))
  {
    hide Matches, Outcome;
    if pattern != [] {
      if Accepts(key, pattern) { AcceptedKeysMatch(key, pattern); }
      if '*' !in key || '*' !in pattern { AcceptsExactly(key, pattern); }
    }
  }

  // ----- the exact boundary of exactness -----

  /** While pattern and key agree character by character the loop only consumes. */
  lemma {:induction false} ConsumesFitting(key: string, pattern: string, k: nat, n: nat)
    requires k <= n <= |key| && n <= |pattern|
    requires FitsAll(key[..n], pattern[..n])
    ensures Outcome(key, pattern, Cursor(k, k, -1, 0)) == Outcome(key, pattern, Cursor(n, n, -1, 0))
    decreases n - k
  {
    if k < n {
      assert Fits(key[..n][k], pattern[..n][k]);
      ConsumesFitting(key, pattern, k + 1, n);
    }
  }

  lemma {:induction false} SelfMatches(s: string)
    ensures Matches(s, s)
  {
    if s != [] {
      SelfMatches(s[1..]);
      OneMatches(s[0], s[0]);
      ConcatMatches([s[0]], [s[0]], s[1..], s[1..]);
      assert s == [s[0]] + s[1..];
    }
  }

  function Questions(n: nat): string { seq(n, i => '?') }

  lemma {:induction false} QuestionsMatch(s: string)
    ensures Matches(s, Questions(|s|))
  {
    if s != [] {
      assert Questions(|s|)[1..] == Questions(|s| - 1);
      QuestionsMatch(s[1..]);
    }
  }

  /** A pattern that spells out the whole key with '?' or its own characters
      and still goes on with a '?' is refused. */
  lemma SpelledButLonger(key: string, pattern: string)
    requires |key| < |pattern| && FitsAll(key, pattern[..|key|]) && pattern[|key|] == '?'
    ensures !Outcome(key, pattern, START)
  {
    assert key[..|key|] == key;
    ConsumesFitting(key, pattern, 0, |key|);
    assert pattern[|key|..][0] == '?';
  }

  /** A key that spells the whole pattern and then goes on is refused. */
  lemma SpelledButShorter(key: string, pattern: string)
    requires |pattern| < |key| && FitsAll(key[..|pattern|], pattern)
    ensures !Outcome(key, pattern, START)
  {
    assert pattern[..|pattern|] == pattern;
    ConsumesFitting(key, pattern, 0, |pattern|);
    assert Choose(key, pattern, Cursor(|pattern|, |pattern|, -1, 0)).Stuck?;
  }

  lemma MatchAroundStar(a: string, p: string, mid: string, b: string, q: string)
    requires Matches(a, p) && Matches(b, q)
    ensures Matches(a + mid + b, p + "*" + q)
  {
    StarMatches(mid);
    ConcatMatches(a, p, mid, "*");
    ConcatMatches(a + mid, p + "*", b, q);
  }

  /** The pattern "??..*?.." with '*' at `i`, one character longer than the key. */
  function StarAmongQuestions(n: nat, i: nat): string
    requires i <= n
  {
    Questions(i) + "*" + Questions(n - i)
  }

  lemma StarAmongQuestionsMatches(key: string, i: nat)
    requires i <= |key|
    ensures Matches(key, StarAmongQuestions(|key|, i))
  {
    hide Matches;
    QuestionsMatch(key[..i]);
    QuestionsMatch(key[i..]);
    MatchAroundStar(key[..i], Questions(i), [], key[i..], Questions(|key| - i));
    assert key == key[..i] + [] + key[i..];
  }

  /** A key with '*' at `i` is wrongly refused: the pattern's '*' is spent on
      the key's. */
  lemma StarredKeyRefused(key: string, i: nat)
    requires i < |key| && key[i] == '*'
    ensures !Accepts(key, StarAmongQuestions(|key|, i))
  {
    var pattern := StarAmongQuestions(|key|, i);
    assert |pattern| == |key| + 1;
    assert forall j :: 0 <= j < |key| ==> Fits(key[j], pattern[..|key|][j]);
    SpelledButLonger(key, pattern);
  }

  /** The smallest case of the mismatch: key "*ab" matches "*b" but is refused. */
  lemma StarTakenLiterally()
    ensures Matches("*ab", "*b") && !Accepts("*ab", "*b")
  {
    var key, pattern := "*ab", "*b";
    StarMatches("*a");
    OneMatches('b', 'b');
    ConcatMatches("*a", "*", "b", "b");
    assert "*a" + "b" == key && "*" + "b" == pattern;
    assert Choose(key, pattern, START).Consume?;
    assert Choose(key, pattern, Cursor(1, 1, -1, 0)).Stuck?;
    assert !Outcome(key, pattern, Cursor(1, 1, -1, 0));
  }

  /** Exact condition on keys: the matcher agrees with the declarative glob on
      every non-empty pattern if and only if the key contains no '*'. */
  lemma ExactForKeyIff(key: string)
    ensures (forall pattern :: pattern != [] ==> Accepts(key, pattern) == Matches(key, pattern))
            <==> '*' !in key
  {
    if '*' !in key {
      forall pattern | pattern != [] ensures Accepts(key, pattern) == Matches(key, pattern) {
        AcceptsExactly(key, pattern);
      }
    } else {
      var i: nat :| i < |key| && key[i] == '*';
      var pattern := StarAmongQuestions(|key|, i);
      StarAmongQuestionsMatches(key, i);
      StarredKeyRefused(key, i);
      assert pattern != [] && Accepts(key, pattern) != Matches(key, pattern);
    }
  }

  /** The key that spells the pattern and then repeats what follows its '*'. */
  function SpelledAndMore(pattern: string, i: nat): string
    requires i < |pattern|
  {
    pattern + "x" + pattern[i + 1..]
  }

  lemma SpelledAndMoreMatches(pattern: string, i: nat)
    requires i < |pattern| && pattern[i] == '*'
    ensures Matches(SpelledAndMore(pattern, i), pattern)
  {
    hide Matches;
    var head, rest := pattern[..i], pattern[i + 1..];
    SelfMatches(head);
    SelfMatches(rest);
    var mid := "*" + rest + "x";
    MatchAroundStar(head, head, mid, rest, rest);
    assert pattern == head + "*" + rest;
    assert pattern + "x" == head + mid;
  }

  lemma SpelledAndMoreRefused(pattern: string, i: nat)
    requires i < |pattern| && pattern != "*"
    ensures !Accepts(SpelledAndMore(pattern, i), pattern)
  {
    var key := SpelledAndMore(pattern, i);
    assert key[..|pattern|] == pattern;
    SpelledButShorter(key, pattern);
  }

  /** Exact condition on patterns: a non-empty pattern is decided correctly for
      every key if and only if it is the single "*" or contains no '*'. */
  lemma ExactForPatternIff(pattern: string)
    requires pattern != []
    ensures (forall key :: Accepts(key, pattern) == Matches(key, pattern))
            <==> pattern == "*" || '*' !in pattern
  {
    if pattern == "*" || '*' !in pattern {
      forall key ensures Accepts(key, pattern) == Matches(key, pattern) {
        if pattern == "*" { StarMatches(key); } else { AcceptsExactly(key, pattern); }
      }
    } else {
      var i: nat :| i < |pattern| && pattern[i] == '*';
      SpelledAndMoreMatches(pattern, i);
      SpelledAndMoreRefused(pattern, i);
      var key := SpelledAndMore(pattern, i);
      assert Accepts(key, pattern) != Matches(key, pattern);
    }
  }
}
