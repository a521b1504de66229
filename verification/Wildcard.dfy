/** The glob matcher of the test filters: '*' matches any text, '?' any one
    character. One saved backtrack point is enough. */
module Wildcard {
  import opened Basics

  predicate SameChar(a: char, b: char, caseSensitive: bool) {
    if caseSensitive then a == b else Lower(a) == Lower(b)
  }

  predicate CharMatches(s: char, p: char, caseSensitive: bool) {
    SameChar(s, p, caseSensitive) || p == '?'
  }

  /** What a pattern means. */
  ghost predicate Matches(s: string, p: string, cs: bool)
    decreases |p|
  {
    if p == "" then s == ""
    else if p[0] == '*' then exists k :: 0 <= k <= |s| && Matches(s[k..], p[1..], cs)
    else s != "" && CharMatches(s[0], p[0], cs) && Matches(s[1..], p[1..], cs)
  }

  /** A pattern of one character: a star matches every text, any other one character,
      which it equals, but for case where that does not matter, unless it is '?'. */
  lemma OneCharacterPattern(s: string, c: char, cs: bool)
    ensures Matches(s, [c], cs) <==>
            c == '*' || (|s| == 1 && (c == '?' || s[0] == c || (!cs && (CaseForms(s[0], c) || CaseForms(c, s[0])))))
  {
    assert [c][1..] == "";
    if c == '*' {
      assert s[|s|..] == "" && Matches(s[|s|..], "", cs);
    } else if s != "" {
      LowerIff(s[0], c);
      assert Matches(s[1..], "", cs) <==> |s| == 1;
    }
  }

  /** The text can be cut at k so that the parts match the parts of the pattern. */
  ghost predicate CutAt(s: string, p: string, q: string, k: nat, cs: bool) {
    k <= |s| && Matches(s[..k], p, cs) && Matches(s[k..], q, cs)
  }

  /** A text matches one pattern after another exactly when it can be cut in two that match
      them: with patterns of one character, this is all there is to matching. */
  lemma {:induction false} MatchesInParts(s: string, p: string, q: string, cs: bool)
    ensures Matches(s, p + q, cs) <==> exists k: nat :: CutAt(s, p, q, k, cs)
    decreases |p|
  {
    if p == "" {
      assert p + q == q;
      assert s[..0] == "" && s[0..] == s;
      assert Matches(s, q, cs) ==> CutAt(s, p, q, 0, cs);
    } else {
      assert (p + q)[1..] == p[1..] + q && (p + q)[0] == p[0];
      if p[0] == '*' {
        StarInParts(s, p, q, cs);
      } else if s != "" {
        MatchesInParts(s[1..], p[1..], q, cs);
        if k: nat :| CutAt(s[1..], p[1..], q, k, cs) {
          assert s[1..][k..] == s[k + 1..] && s[..k + 1][1..] == s[1..][..k];
          assert Matches(s, p + q, cs) ==> CutAt(s, p, q, k + 1, cs);
        }
        if k: nat :| CutAt(s, p, q, k, cs) {
          assert k > 0;
          assert s[1..][k - 1..] == s[k..] && s[..k][1..] == s[1..][..k - 1];
          assert CutAt(s[1..], p[1..], q, k - 1, cs);
        }
      }
    }
  }

  lemma StarInParts(s: string, p: string, q: string, cs: bool)
    requires p != "" && p[0] == '*' && (p + q)[1..] == p[1..] + q && (p + q)[0] == '*'
    ensures Matches(s, p + q, cs) <==> exists k: nat :: CutAt(s, p, q, k, cs)
    decreases |p|, 0
  {
    if m :| 0 <= m <= |s| && Matches(s[m..], p[1..] + q, cs) {
      MatchesInParts(s[m..], p[1..], q, cs);
      var k: nat :| CutAt(s[m..], p[1..], q, k, cs);
      assert s[m..][k..] == s[m + k..] && s[..m + k][m..] == s[m..][..k];
      assert Matches(s[..m + k], p, cs);
      assert CutAt(s, p, q, m + k, cs);
    }
    if k: nat :| CutAt(s, p, q, k, cs) {
      var m :| 0 <= m <= k && Matches(s[..k][m..], p[1..], cs);
      assert s[..k][m..] == s[m..][..k - m] && s[m..][k - m..] == s[k..];
      assert CutAt(s[m..], p[1..], q, k - m, cs);
      MatchesInParts(s[m..], p[1..], q, cs);
    }
  }

  /** The pattern from j on matches some suffix of s that starts at i or later. */
  ghost predicate MatchesFrom(s: string, i: nat, p: string, j: nat, cs: bool)
    requires j <= |p|
  {
    exists k :: i <= k <= |s| && Matches(s[k..], p[j..], cs)
  }

  /** The characters of s from i to i + (w - m) match the star-free p[m..w]. */
  ghost predicate Literal(s: string, i: nat, p: string, m: nat, w: nat, cs: bool) {
    && m <= w <= |p| && i + (w - m) <= |s|
    && forall j {:trigger Fits(s, i, p, m, j, cs)} | m <= j < w :: Fits(s, i, p, m, j, cs)
  }

  ghost predicate Fits(s: string, i: nat, p: string, m: nat, j: nat, cs: bool) {
    m <= j < |p| && i + (j - m) < |s| && p[j] != '*' && CharMatches(s[i + (j - m)], p[j], cs)
  }

  lemma ExtendLiteral(s: string, i: nat, p: string, m: nat, w: nat, cs: bool)
    requires Literal(s, i, p, m, w, cs) && Fits(s, i, p, m, w, cs)
    ensures Literal(s, i, p, m, w + 1, cs)
  {
  }

  // A suffix matches a pattern starting with a star-free part only if that part fits, and then the rest matches after it.
  lemma {:induction false} SkipLiteral(s: string, i: nat, p: string, m: nat, w: nat, cs: bool)
    requires i <= |s| && m <= w <= |p| && forall j | m <= j < w :: p[j] != '*'
    ensures Matches(s[i..], p[m..], cs) ==> i + (w - m) <= |s| && Matches(s[i + (w - m)..], p[w..], cs)
    ensures Literal(s, i, p, m, w, cs) ==> (Matches(s[i..], p[m..], cs) <==> Matches(s[i + (w - m)..], p[w..], cs))
    decreases w - m
  {
    if m < w {
      assert p[m..][1..] == p[m + 1..];
      if i < |s| {
        assert s[i..][1..] == s[i + 1..];
        SkipLiteral(s, i + 1, p, m + 1, w, cs);
        if Literal(s, i, p, m, w, cs) {
          assert Fits(s, i, p, m, m, cs);
          var i1, m1 := i + 1, m + 1;
          forall j | m1 <= j < w ensures Fits(s, i1, p, m1, j, cs) {
            assert Fits(s, i, p, m, j, cs);
          }
          assert Literal(s, i + 1, p, m + 1, w, cs);
        }
      }
    }
  }

  lemma LiteralHasNoStar(s: string, i: nat, p: string, m: nat, w: nat, cs: bool)
    requires Literal(s, i, p, m, w, cs)
    ensures forall j | m <= j < w :: p[j] != '*'
  {
    forall j | m <= j < w ensures p[j] != '*' {
      assert Fits(s, i, p, m, j, cs);
    }
  }

  /** At a star, earlier backtrack points can be forgotten: a match that starts
      later than the current attempt gives one that uses the current attempt. */
  lemma ForgetEarlierStar(s: string, i: nat, p: string, m: nat, w: nat, cs: bool)
    requires Literal(s, i, p, m, w, cs) && w < |p| && p[w] == '*'
    ensures MatchesFrom(s, i, p, m, cs) <==> MatchesFrom(s, i + (w - m), p, w + 1, cs)
  {
    LiteralHasNoStar(s, i, p, m, w, cs);
    assert p[w..][1..] == p[w + 1..];
    if k :| i <= k <= |s| && Matches(s[k..], p[m..], cs) {
      SkipLiteral(s, k, p, m, w, cs);
      var t := s[k + (w - m)..];
      var l :| 0 <= l <= |t| && Matches(t[l..], p[w + 1..], cs);
      assert t[l..] == s[k + (w - m) + l..];
    }
    if k :| i + (w - m) <= k <= |s| && Matches(s[k..], p[w + 1..], cs) {
      var t := s[i + (w - m)..];
      assert t[k - (i + (w - m))..] == s[k..];
      assert Matches(t, p[w..], cs);
      SkipLiteral(s, i, p, m, w, cs);
    }
  }

  /** On a mismatch, the current attempt is hopeless and the next one starts one
      character later. */
  lemma NextAttempt(s: string, i: nat, p: string, m: nat, w: nat, cs: bool)
    requires Literal(s, i, p, m, w, cs) && i + (w - m) < |s|
    requires w < |p| ==> p[w] != '*' && !CharMatches(s[i + (w - m)], p[w], cs)
    ensures MatchesFrom(s, i, p, m, cs) <==> MatchesFrom(s, i + 1, p, m, cs)
  {
    LiteralHasNoStar(s, i, p, m, w, cs);
    SkipLiteral(s, i, p, m, w, cs);
    assert !Matches(s[i..], p[m..], cs) by {
      if w < |p| {
        assert s[i + (w - m)..][0] == s[i + (w - m)];
      }
    }
  }

  lemma {:induction false} StarsMatchEmpty(p: string, w: nat, cs: bool)
    requires w <= |p|
    ensures Matches("", p[w..], cs) <==> forall j | w <= j < |p| :: p[j] == '*'
    decreases |p| - w
  {
    if w < |p| {
      assert p[w..][1..] == p[w + 1..];
      StarsMatchEmpty(p, w + 1, cs);
      assert ""[0..] == "";
      if p[w] == '*' {
        assert Matches("", p[w..], cs) <==> Matches("", p[w + 1..], cs);
      }
    }
  }

  // With the text used up, later attempts are too short; only stars may be left.
  lemma AtEnd(s: string, i: nat, p: string, m: nat, w: nat, cs: bool)
    requires Literal(s, i, p, m, w, cs) && i + (w - m) == |s|
    ensures MatchesFrom(s, i, p, m, cs) <==> forall j | w <= j < |p| :: p[j] == '*'
  {
    LiteralHasNoStar(s, i, p, m, w, cs);
    StarsMatchEmpty(p, w, cs);
    assert s[|s|..] == "";
    if k :| i <= k <= |s| && Matches(s[k..], p[m..], cs) {
      SkipLiteral(s, k, p, m, w, cs);
      assert k == i;
    }
    SkipLiteral(s, i, p, m, w, cs);
  }

  lemma TrailingStar(s: string, i: nat, p: string, cs: bool)
    requires i <= |s|
    ensures MatchesFrom(s, i, p, |p|, cs)
  {
    assert s[|s|..] == "" && p[|p|..] == "";
  }

  lemma FirstStar(s: string, p: string, w: nat, cs: bool)
    requires Literal(s, 0, p, 0, w, cs) && w < |p| && p[w] == '*'
    ensures Matches(s, p, cs) <==> MatchesFrom(s, w, p, w + 1, cs)
  {
    LiteralHasNoStar(s, 0, p, 0, w, cs);
    assert s[0..] == s && p[0..] == p && p[w..][1..] == p[w + 1..];
    SkipLiteral(s, 0, p, 0, w, cs);
    var t := s[w..];
    if k :| 0 <= k <= |t| && Matches(t[k..], p[w + 1..], cs) {
      assert t[k..] == s[w + k..];
    }
    if k :| w <= k <= |s| && Matches(s[k..], p[w + 1..], cs) {
      assert t[k - w..] == s[k..];
    }
  }

  // Before any star, a mismatch is final.
  lemma HeadMismatch(s: string, p: string, w: nat, cs: bool)
    requires Literal(s, 0, p, 0, w, cs) && w < |s|
    requires w < |p| ==> p[w] != '*' && !CharMatches(s[w], p[w], cs)
    ensures !Matches(s, p, cs)
  {
    LiteralHasNoStar(s, 0, p, 0, w, cs);
    assert s[0..] == s && p[0..] == p;
    SkipLiteral(s, 0, p, 0, w, cs);
    assert s[w..][0] == s[w];
  }

  lemma UsedUp(s: string, p: string, w: nat, cs: bool)
    requires Literal(s, 0, p, 0, w, cs) && w == |s|
    ensures Matches(s, p, cs) <==> forall j | w <= j < |p| :: p[j] == '*'
  {
    LiteralHasNoStar(s, 0, p, 0, w, cs);
    assert s[0..] == s && p[0..] == p && s[w..] == "";
    SkipLiteral(s, 0, p, 0, w, cs);
    StarsMatchEmpty(p, w, cs);
  }

  /** Compares up to the first star. */
  method CompareHead(str: string, wild: string, caseSensitive: bool) returns (mismatch: bool, w: nat)
    ensures mismatch ==> !Matches(str, wild, caseSensitive)
    ensures !mismatch ==> Literal(str, 0, wild, 0, w, caseSensitive) && (w < |str| ==> w < |wild| && wild[w] == '*')
  {
    var s := 0;
    w := 0;
    while s < |str| && (w == |wild| || wild[w] != '*')
      invariant 0 <= s == w <= |str| && w <= |wild|
      invariant Literal(str, 0, wild, 0, w, caseSensitive)
      decreases |str| - s
    {
      if w == |wild| || (!SameChar(wild[w], str[s], caseSensitive) && wild[w] != '?') {
        HeadMismatch(str, wild, w, caseSensitive);
        return true, w;
      }
      ExtendLiteral(str, 0, wild, 0, w, caseSensitive);
      w, s := w + 1, s + 1;
    }
    return false, w;
  }

  /** Before the first star the text read so far matches the pattern; after one,
      mp is the pattern just after the last star, cp - 1 the place in the text where
      that part is being tried, and nothing before it matters any more. */
  ghost predicate Searching(str: string, wild: string, cs: bool, starred: bool, s: nat, w: nat, cp: nat, mp: nat) {
    if starred then
      && 1 <= cp && Literal(str, cp - 1, wild, mp, w, cs) && s == cp - 1 + (w - mp)
      && (Matches(str, wild, cs) <==> MatchesFrom(str, cp - 1, wild, mp, cs))
    else
      && s == w && Literal(str, 0, wild, 0, w, cs)
      && (s < |str| ==> w < |wild| && wild[w] == '*')
  }

  lemma OnStar(str: string, wild: string, cs: bool, starred: bool, s: nat, w: nat, cp: nat, mp: nat)
    requires Searching(str, wild, cs, starred, s, w, cp, mp) && s < |str| && w < |wild| && wild[w] == '*'
    ensures Searching(str, wild, cs, true, s, w + 1, s + 1, w + 1)
    ensures starred ==> mp < w + 1
    ensures w + 1 == |wild| ==> Matches(str, wild, cs)
  {
    if starred {
      ForgetEarlierStar(str, cp - 1, wild, mp, w, cs);
    } else {
      FirstStar(str, wild, w, cs);
    }
    if w + 1 == |wild| {
      TrailingStar(str, s, wild, cs);
    }
  }

  lemma OnMismatch(str: string, wild: string, cs: bool, s: nat, w: nat, cp: nat, mp: nat)
    requires Searching(str, wild, cs, true, s, w, cp, mp) && s < |str|
    requires w < |wild| ==> wild[w] != '*' && !CharMatches(str[s], wild[w], cs)
    ensures Searching(str, wild, cs, true, cp, mp, cp + 1, mp)
  {
    NextAttempt(str, cp - 1, wild, mp, w, cs);
  }

  lemma OnEnd(str: string, wild: string, cs: bool, starred: bool, w: nat, cp: nat, mp: nat)
    requires Searching(str, wild, cs, starred, |str|, w, cp, mp)
    ensures w <= |wild| && (Matches(str, wild, cs) <==> forall j | w <= j < |wild| :: wild[j] == '*')
  {
    if starred {
      AtEnd(str, cp - 1, wild, mp, w, cs);
    } else {
      UsedUp(str, wild, w, cs);
    }
  }

  /** Matches a text against a pattern with four moving positions. */
  method WildCmp(str: string, wild: string, caseSensitive: bool) returns (r: bool)
    ensures r <==> Matches(str, wild, caseSensitive)
  {
    var mismatch, w: nat := CompareHead(str, wild, caseSensitive);
    if mismatch {
      return false;
    }
    var s: nat, cp: nat, mp: nat := w, 0, 0;
    ghost var starred := false;
    while s < |str|
      invariant s <= |str| && Searching(str, wild, caseSensitive, starred, s, w, cp, mp)
      decreases if starred then 0 else 1, |wild| - mp, |str| + 1 - cp, |str| - s
    {
      if w < |wild| && wild[w] == '*' {
        OnStar(str, wild, caseSensitive, starred, s, w, cp, mp);
        w := w + 1;
        if w == |wild| {
          return true;
        }
        mp, cp := w, s + 1;
        starred := true;
      } else if w < |wild| && (SameChar(wild[w], str[s], caseSensitive) || wild[w] == '?') {
        ExtendLiteral(str, cp - 1, wild, mp, w, caseSensitive);
        w, s := w + 1, s + 1;
      } else {
        OnMismatch(str, wild, caseSensitive, s, w, cp, mp);
        w := mp;
        s := cp;
        cp := cp + 1;
      }
    }
    OnEnd(str, wild, caseSensitive, starred, w, cp, mp);
    ghost var rest := w;
    while w < |wild| && wild[w] == '*'
      invariant rest <= w <= |wild| && forall j | rest <= j < w :: wild[j] == '*'
    {
      w := w + 1;
    }
    return w == |wild|;
  }
}
