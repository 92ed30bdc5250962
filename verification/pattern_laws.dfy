/**
 What the compiled patterns mean in terms of the tokens of a key. The laws
 hold for partial combinations whose literal tokens do not contain the
 delimiter (a literal containing it is not token-shaped; see the README).
 */
module PatternLaws {
  import opened Codec
  import opened Pattern

  /** No literal token of the pattern contains the delimiter. */
  predicate DelimiterFree(p: seq<Token>, d: char) {
    forall i :: 0 <= i < |p| && p[i].Lit? ==> d !in p[i].text
  }

  /** The tokens `ws` are matched one by one by the pattern tokens `p`. */
  predicate TokensMatch(p: seq<Token>, ws: seq<string>, d: char) {
    |p| == |ws| && forall i :: 0 <= i < |p| ==> TokenMatches(p[i], ws[i], d)
  }

  /** The pattern matches the window of `ws` that starts at token `k`. */
  predicate WindowAt(p: seq<Token>, ws: seq<string>, k: int, d: char) {
    0 <= k && k + |p| <= |ws| && TokensMatch(p, ws[k..k + |p|], d)
  }

  /** The pattern matches some contiguous window of `ws`. */
  predicate HasWindow(p: seq<Token>, ws: seq<string>, d: char) {
    exists k :: 0 <= k <= |ws| - |p| && WindowAt(p, ws, k, d)
  }

  /** An unanchored literal may match a prefix of a token; the wildcard matches any token. */
  predicate PrefixMatches(t: Token, w: string) {
    match t
    case Lit(x) => x <= w
    case Wild => true
  }

  /** An unanchored literal may match a suffix of a token; the wildcard matches any token. */
  predicate SuffixMatches(t: Token, w: string) {
    match t
    case Lit(x) => IsSuffix(x, w)
    case Wild => true
  }

  /** The shortest string a token can match that is also a prefix (or suffix) of `w`. */
  function Witness(t: Token): string {
    match t
    case Lit(x) => x
    case Wild => ""
  }

  /** Escaping a combination with delimiter-free tokens gives delimiter-free literals. */
  lemma EscapeDelimiterFree(c: seq<string>, d: char)
    requires TokensFree(c, d)
    ensures DelimiterFree(Escape(c), d)
  {
  }

  /** Matching tokens one by one, first token first. */
  lemma TokensMatchCons(p: seq<Token>, ws: seq<string>, d: char)
    requires |p| >= 1 && |ws| >= 1
    ensures TokensMatch(p, ws, d) <==> TokenMatches(p[0], ws[0], d) && TokensMatch(p[1..], ws[1..], d)
  {
    if TokenMatches(p[0], ws[0], d) && TokensMatch(p[1..], ws[1..], d) {
      forall i | 0 <= i < |p|
        ensures TokenMatches(p[i], ws[i], d)
      {
        if i > 0 {
          assert p[1..][i - 1] == p[i] && ws[1..][i - 1] == ws[i];
        }
      }
    }
  }

  /** A matched token in front of matched tokens. */
  lemma TokensMatchPrepend(p: seq<Token>, x: string, rest: seq<string>, d: char)
    requires |p| >= 1 && TokenMatches(p[0], x, d) && TokensMatch(p[1..], rest, d)
    ensures TokensMatch(p, [x] + rest, d)
  {
    var ws := [x] + rest;
    assert ws[0] == x && ws[1..] == rest;
    TokensMatchCons(p, ws, d);
  }

  /** Matching tokens one by one, last token last. */
  lemma TokensMatchSnoc(p: seq<Token>, ws: seq<string>, d: char)
    requires |p| >= 1 && |ws| == |p|
    ensures var n := |p| - 1;
      TokensMatch(p, ws, d) <==> TokensMatch(p[..n], ws[..n], d) && TokenMatches(p[n], ws[n], d)
  {
    var n := |p| - 1;
    if TokensMatch(p[..n], ws[..n], d) && TokenMatches(p[n], ws[n], d) {
      forall i | 0 <= i < |p|
        ensures TokenMatches(p[i], ws[i], d)
      {
        if i < n {
          assert p[..n][i] == p[i] && ws[..n][i] == ws[i];
        }
      }
    }
  }

  /** A full match of two or more pattern tokens is cut at some delimiter. */
  lemma FirstCut(p: seq<Token>, s: string, d: char) returns (i: nat)
    requires |p| >= 2 && MatchesWhole(p, s, d)
    ensures i < |s| && CutAt(p, s, d, i)
  {
    i :| 0 <= i < |s| && CutAt(p, s, d, i);
  }

  /**
   A key is matched in full exactly when it has one token per pattern token
   and each token is matched: a wildcard stands for one whole token, which
   may be empty and never spans a delimiter.
   */
  lemma {:induction false} WholeTokens(p: seq<Token>, s: string, d: char)
    requires |p| >= 1 && DelimiterFree(p, d)
    ensures MatchesWhole(p, s, d) <==> TokensMatch(p, Split(s, d), d)
    decreases |p|, 1
  {
    if |p| == 1 {
      var ws := Split(s, d);
      if MatchesWhole(p, s, d) {
        assert d !in s;
        SplitSingle(s, d);
      }
      if TokensMatch(p, ws, d) {
        SplitSingle(s, d);
      }
    } else {
      WholeTokensForward(p, s, d);
      WholeTokensBackward(p, s, d);
    }
  }

  /** The step of `WholeTokens` from a full match to matching tokens. */
  lemma {:induction false} WholeTokensForward(p: seq<Token>, s: string, d: char)
    requires |p| >= 2 && DelimiterFree(p, d)
    ensures MatchesWhole(p, s, d) ==> TokensMatch(p, Split(s, d), d)
    decreases |p|, 0
  {
    if MatchesWhole(p, s, d) {
      var i := FirstCut(p, s, d);
      var head, tail := s[..i], s[i + 1..];
      assert d !in head;
      assert s == head + [d] + tail;
      SplitAppend(head, tail, d);
      SplitSingle(head, d);
      assert DelimiterFree(p[1..], d);
      WholeTokens(p[1..], tail, d);
      var ws := Split(s, d);
      assert ws == [head] + Split(tail, d);
      assert ws[0] == head && ws[1..] == Split(tail, d);
      TokensMatchCons(p, ws, d);
    }
  }

  /** The step of `WholeTokens` from matching tokens to a full match. */
  lemma {:induction false} WholeTokensBackward(p: seq<Token>, s: string, d: char)
    requires |p| >= 2 && DelimiterFree(p, d)
    ensures TokensMatch(p, Split(s, d), d) ==> MatchesWhole(p, s, d)
    decreases |p|, 0
  {
    var ws := Split(s, d);
    if TokensMatch(p, ws, d) {
      var i := SplitFirst(s, d);
      var head, tail := s[..i], s[i + 1..];
      assert ws == [head] + Split(tail, d);
      TokensMatchCons(p, ws, d);
      assert DelimiterFree(p[1..], d);
      WholeTokens(p[1..], tail, d);
      assert CutAt(p, s, d, i);
    }
  }

  /** With no wildcard, the pattern's language is the single encoded key. */
  lemma {:induction false} LiteralWhole(c: seq<string>, s: string, d: char)
    requires WildcardMarker !in c
    ensures MatchesWhole(Escape(c), s, d) <==> s == Join(c, d)
    decreases |c|
  {
    if |c| >= 2 {
      if MatchesWhole(Escape(c), s, d) {
        var i := LiteralCut(c, s, d);
        LiteralWhole(c[1..], s[i + 1..], d);
      }
      if s == Join(c, d) {
        LiteralWhole(c[1..], Join(c[1..], d), d);
        LiteralJoinCut(c, d);
      }
    }
  }

  /** A full match of a literal first token pins the key down to that token, the delimiter and a match of the rest. */
  lemma LiteralCut(c: seq<string>, s: string, d: char) returns (i: nat)
    requires |c| >= 2 && c[0] != WildcardMarker && MatchesWhole(Escape(c), s, d)
    ensures i < |s| && s == c[0] + [d] + s[i + 1..]
    ensures MatchesWhole(Escape(c[1..]), s[i + 1..], d)
  {
    var p := Escape(c);
    assert p[1..] == Escape(c[1..]);
    i := FirstCut(p, s, d);
    assert s == s[..i] + [d] + s[i + 1..];
  }

  /** A key that joins a literal token to a full match of the rest is matched in full. */
  lemma LiteralJoinCut(c: seq<string>, d: char)
    requires |c| >= 2 && c[0] != WildcardMarker
    requires MatchesWhole(Escape(c[1..]), Join(c[1..], d), d)
    ensures MatchesWhole(Escape(c), Join(c, d), d)
  {
    var p, s, i := Escape(c), Join(c, d), |c[0]|;
    assert p[1..] == Escape(c[1..]);
    assert s[..i] == c[0];
    assert s[i + 1..] == Join(c[1..], d);
    assert CutAt(p, s, d, i);
  }

  /** `^RD` holds exactly when the first |p| tokens match and more tokens follow. */
  lemma LeadingTokens(p: seq<Token>, s: string, d: char)
    requires |p| >= 1 && DelimiterFree(p, d)
    ensures var ws := Split(s, d);
      Leading(p, s, d) <==> |ws| > |p| && TokensMatch(p, ws[..|p|], d)
    ensures forall j :: 0 <= j < |s| && LeadingAt(p, s, d, j) ==>
      Split(s[j + 1..], d) == Split(s, d)[|p|..]
  {
    var ws := Split(s, d);
    forall j | 0 <= j < |s| && LeadingAt(p, s, d, j)
      ensures |ws| > |p| && TokensMatch(p, ws[..|p|], d) && Split(s[j + 1..], d) == ws[|p|..]
    {
      assert s == s[..j] + [d] + s[j + 1..];
      SplitAppend(s[..j], s[j + 1..], d);
      WholeTokens(p, s[..j], d);
      assert ws[..|p|] == Split(s[..j], d);
    }
    if |ws| > |p| && TokensMatch(p, ws[..|p|], d) {
      SplitAt(s, d, |p|);
      var a := Join(ws[..|p|], d);
      var j := |a|;
      assert s[..j] == a;
      WholeTokens(p, a, d);
      assert LeadingAt(p, s, d, j);
    }
  }

  /** `DR\z` holds exactly when the last |p| tokens match and more tokens precede. */
  lemma TrailingTokens(p: seq<Token>, s: string, d: char)
    requires |p| >= 1 && DelimiterFree(p, d)
    ensures var ws := Split(s, d);
      Trailing(p, s, d) <==> |ws| > |p| && TokensMatch(p, ws[|ws| - |p|..], d)
  {
    var ws := Split(s, d);
    if Trailing(p, s, d) {
      var i :| 0 < i <= |s| && TrailingAt(p, s, d, i);
      TrailingForward(p, s, d, i);
    }
    if |ws| > |p| && TokensMatch(p, ws[|ws| - |p|..], d) {
      TrailingBackward(p, s, d);
    }
  }

  /** A `DR\z` match starting at position i covers the last |p| tokens. */
  lemma TrailingForward(p: seq<Token>, s: string, d: char, i: nat)
    requires |p| >= 1 && DelimiterFree(p, d)
    requires TrailingAt(p, s, d, i)
    ensures var ws := Split(s, d);
      |ws| > |p| && TokensMatch(p, ws[|ws| - |p|..], d)
  {
    var a, t := s[..i - 1], s[i..];
    assert s == a + [d] + t;
    SplitAppend(a, t, d);
    WholeTokens(p, t, d);
    var ws := Split(s, d);
    assert ws == Split(a, d) + Split(t, d);
    assert ws[|ws| - |p|..] == Split(t, d);
  }

  /** Matching last tokens, preceded by more, give a `DR\z` match. */
  lemma TrailingBackward(p: seq<Token>, s: string, d: char)
    requires |p| >= 1 && DelimiterFree(p, d)
    requires var ws := Split(s, d);
      |ws| > |p| && TokensMatch(p, ws[|ws| - |p|..], d)
    ensures Trailing(p, s, d)
  {
    var ws := Split(s, d);
    var k := |ws| - |p|;
    SplitAt(s, d, k);
    var a, b := Join(ws[..k], d), Join(ws[k..], d);
    assert s == a + [d] + b;
    var i := |a| + 1;
    assert s[i..] == b;
    WholeTokens(p, b, d);
    assert TrailingAt(p, s, d, i);
  }

  /** `DRD` holds exactly when a window strictly inside the key's tokens matches. */
  lemma InsideTokens(p: seq<Token>, s: string, d: char)
    requires |p| >= 1 && DelimiterFree(p, d)
    ensures var ws := Split(s, d);
      Inside(p, s, d) <==> exists k :: 0 < k && k + |p| < |ws| && WindowAt(p, ws, k, d)
  {
    var ws := Split(s, d);
    if Inside(p, s, d) {
      var i, j :| 0 < i <= j < |s| && InsideAt(p, s, d, i, j);
      InsideWindow(p, s, d, i, j);
    }
    if exists k :: 0 < k && k + |p| < |ws| && WindowAt(p, ws, k, d) {
      var k :| 0 < k && k + |p| < |ws| && WindowAt(p, ws, k, d);
      WindowInside(p, s, d, k);
    }
  }

  /** Three pieces of a key around two delimiters split into three runs of tokens. */
  lemma SplitAround(a: string, m: string, b: string, d: char)
    ensures Split(a + [d] + m + [d] + b, d) == Split(a, d) + Split(m, d) + Split(b, d)
  {
    SplitAppend(m, b, d);
    assert a + [d] + m + [d] + b == a + [d] + (m + [d] + b);
    SplitAppend(a, m + [d] + b, d);
  }

  /** A `DRD` match at positions i..j is a window of tokens strictly inside the key. */
  lemma InsideWindow(p: seq<Token>, s: string, d: char, i: nat, j: nat)
    requires |p| >= 1 && DelimiterFree(p, d)
    requires InsideAt(p, s, d, i, j)
    ensures var ws := Split(s, d);
      exists k :: 0 < k && k + |p| < |ws| && WindowAt(p, ws, k, d)
  {
    var a, m, b := s[..i - 1], s[i..j], s[j + 1..];
    assert s == a + [d] + m + [d] + b;
    SplitAround(a, m, b, d);
    WholeTokens(p, m, d);
    var ws := Split(s, d);
    var k := |Split(a, d)|;
    assert ws[k..k + |p|] == Split(m, d);
    assert WindowAt(p, ws, k, d);
  }

  /** A window of tokens strictly inside the key gives a `DRD` match. */
  lemma WindowInside(p: seq<Token>, s: string, d: char, k: nat)
    requires |p| >= 1 && DelimiterFree(p, d)
    requires 0 < k && k + |p| < |Split(s, d)| && WindowAt(p, Split(s, d), k, d)
    ensures Inside(p, s, d)
  {
    var i, j := WindowBounds(s, d, k, |p|);
    InsideOfTokens(p, s, d, i, j);
  }

  /** Matching tokens between two delimiters give a `DRD` match. */
  lemma InsideOfTokens(p: seq<Token>, s: string, d: char, i: nat, j: nat)
    requires |p| >= 1 && DelimiterFree(p, d)
    requires 0 < i <= j < |s| && s[i - 1] == d && s[j] == d
    requires TokensMatch(p, Split(s[i..j], d), d)
    ensures Inside(p, s, d)
  {
    WholeTokens(p, s[i..j], d);
    assert InsideAt(p, s, d, i, j);
  }

  /** The window of m tokens from token k, strictly inside the key, lies between two delimiters. */
  lemma WindowBounds(s: string, d: char, k: nat, m: nat) returns (i: nat, j: nat)
    requires 1 <= m && 0 < k && k + m < |Split(s, d)|
    ensures 0 < i <= j < |s| && s[i - 1] == d && s[j] == d
    ensures Split(s[i..j], d) == Split(s, d)[k..k + m]
  {
    var ws := Split(s, d);
    var a, t := SplitAtParts(s, d, k);
    i := |a| + 1;
    assert s[i..] == t;
    var w, end := FirstTokensBound(t, d, m);
    assert ws[k..][..m] == ws[k..k + m];
    j := i + end;
    assert s[i..j] == t[..end];
  }

  /** The first m tokens of a key with more than m tokens end just before a delimiter. */
  lemma FirstTokensBound(t: string, d: char, m: nat) returns (w: string, j: nat)
    requires 1 <= m < |Split(t, d)|
    ensures j < |t| && t[j] == d && w == t[..j]
    ensures Split(w, d) == Split(t, d)[..m]
  {
    var vs := Split(t, d);
    SplitAt(t, d, m);
    w := Join(vs[..m], d);
    assert t == w + [d] + Join(vs[m..], d);
    j := |w|;
    assert t[..j] == w;
  }

  /**
   The four alternatives of `have`, each read up to the very end, match
   exactly the keys in which the pattern matches some contiguous window of
   tokens.
   */
  lemma IncludesToEndTokens(p: seq<Token>, s: string, d: char)
    requires |p| >= 1 && DelimiterFree(p, d)
    ensures IncludesToEnd(p, s, d) <==> HasWindow(p, Split(s, d), d)
  {
    var ws := Split(s, d);
    if IncludesToEnd(p, s, d) {
      var k := IncludesWindow(p, s, d);
      assert WindowAt(p, ws, k, d);
    }
    if HasWindow(p, ws, d) {
      var k :| 0 <= k <= |ws| - |p| && WindowAt(p, ws, k, d);
      WindowIncludes(p, s, d, k);
    }
  }

  /** Each alternative of the 'include' expression matches some window of tokens. */
  lemma IncludesWindow(p: seq<Token>, s: string, d: char) returns (k: int)
    requires |p| >= 1 && DelimiterFree(p, d)
    requires IncludesToEnd(p, s, d)
    ensures WindowAt(p, Split(s, d), k, d)
  {
    var ws := Split(s, d);
    if Leading(p, s, d) {
      LeadingTokens(p, s, d);
      k := 0;
      assert ws[..|p|] == ws[k..k + |p|];
    } else if Trailing(p, s, d) {
      TrailingTokens(p, s, d);
      k := |ws| - |p|;
      assert ws[|ws| - |p|..] == ws[k..k + |p|];
    } else if Inside(p, s, d) {
      InsideTokens(p, s, d);
      k :| 0 < k && k + |p| < |ws| && WindowAt(p, ws, k, d);
    } else {
      WholeTokens(p, s, d);
      k := 0;
      assert ws[0..|p|] == ws;
    }
  }

  /** A window of tokens anywhere in the key is matched by one of the alternatives. */
  lemma WindowIncludes(p: seq<Token>, s: string, d: char, k: int)
    requires |p| >= 1 && DelimiterFree(p, d)
    requires WindowAt(p, Split(s, d), k, d)
    ensures IncludesToEnd(p, s, d)
  {
    var ws := Split(s, d);
    if k == 0 && |p| == |ws| {
      assert ws[0..|p|] == ws;
      WholeTokens(p, s, d);
    } else if k == 0 {
      assert ws[..|p|] == ws[0..|p|];
      LeadingTokens(p, s, d);
    } else if k + |p| == |ws| {
      assert ws[|ws| - |p|..] == ws[k..k + |p|];
      TrailingTokens(p, s, d);
    } else {
      WindowInside(p, s, d, k);
    }
  }

  /**
   The token-level condition of `^R`: the tokens before the last pattern
   token match in place, and the last pattern token only has to match a
   prefix of the next token, because the expression is not anchored at its
   right end.
   */
  predicate HeadMatches(p: seq<Token>, ws: seq<string>, d: char) {
    && 1 <= |p| <= |ws|
    && TokensMatch(p[..|p| - 1], ws[..|p| - 1], d)
    && PrefixMatches(p[|p| - 1], ws[|p| - 1])
  }

  /**
   The token-level condition of `R\z`: the tokens after the first pattern
   token match in place, and the first pattern token only has to match a
   suffix of the token before them, because the expression is not anchored
   at its left end.
   */
  predicate TailMatches(p: seq<Token>, ws: seq<string>, d: char) {
    && 1 <= |p| <= |ws|
    && TokensMatch(p[1..], ws[|ws| - |p| + 1..], d)
    && SuffixMatches(p[0], ws[|ws| - |p|])
  }

  /** `^R` (startWith) in terms of the key's tokens. */
  lemma StartsWithTokens(p: seq<Token>, s: string, d: char)
    requires |p| >= 1 && DelimiterFree(p, d)
    ensures StartsWith(p, s, d) <==> HeadMatches(p, Split(s, d), d)
  {
    if StartsWith(p, s, d) {
      var j :| 0 <= j <= |s| && PrefixMatch(p, s, d, j);
      StartsWithForward(p, s, d, j);
    }
    if HeadMatches(p, Split(s, d), d) {
      if |p| == 1 {
        StartsWithBackwardOne(p, s, d);
      } else {
        StartsWithBackward(p, s, d);
      }
    }
  }

  /** A full match of a prefix of the key gives the token-level condition of `^R`. */
  lemma StartsWithForward(p: seq<Token>, s: string, d: char, j: nat)
    requires |p| >= 1 && DelimiterFree(p, d)
    requires PrefixMatch(p, s, d, j)
    ensures HeadMatches(p, Split(s, d), d)
  {
    WholeTokens(p, s[..j], d);
    SplitPrefix(s, j, d);
    HeadOfAligned(p, Split(s[..j], d), Split(s, d), d);
  }

  /** Tokens matched in full, aligned with the head of `ws`, give the condition of `^R`. */
  lemma HeadOfAligned(p: seq<Token>, us: seq<string>, ws: seq<string>, d: char)
    requires |p| >= 1 && DelimiterFree(p, d)
    requires TokensMatch(p, us, d) && PrefixAligned(us, ws)
    ensures HeadMatches(p, ws, d)
  {
    var n := |p| - 1;
    assert us[..n] == ws[..n];
    assert TokenMatches(p[n], us[n], d);
    forall i | 0 <= i < n
      ensures TokenMatches(p[..n][i], ws[..n][i], d)
    {
      assert ws[..n][i] == us[i];
    }
  }

  /** The token-level condition of `^R` for a one-token pattern gives a match. */
  lemma StartsWithBackwardOne(p: seq<Token>, s: string, d: char)
    requires |p| == 1 && DelimiterFree(p, d)
    requires HeadMatches(p, Split(s, d), d)
    ensures StartsWith(p, s, d)
  {
    var x := Witness(p[0]);
    assert x <= Split(s, d)[0];
    FirstTokenPrefix(s, d);
    assert s[..|x|] == x;
    assert TokenMatches(p[0], x, d);
    assert PrefixMatch(p, s, d, |x|);
  }

  /** The token-level condition of `^R` for a longer pattern gives a match. */
  lemma StartsWithBackward(p: seq<Token>, s: string, d: char)
    requires |p| >= 2 && DelimiterFree(p, d)
    requires HeadMatches(p, Split(s, d), d)
    ensures StartsWith(p, s, d)
  {
    var ws, n := Split(s, d), |p| - 1;
    var x := Witness(p[n]);
    assert x <= ws[n] && TokenMatches(p[n], x, d) && d !in x;
    var j := CutAfterPrefix(s, d, n, x);
    TokensMatchAppend(p, ws[..n], x, d);
    PrefixMatchOfTokens(p, s, d, j);
  }

  /** Matched tokens followed by a matched token. */
  lemma TokensMatchAppend(p: seq<Token>, init: seq<string>, x: string, d: char)
    requires |p| >= 1 && TokensMatch(p[..|p| - 1], init, d) && TokenMatches(p[|p| - 1], x, d)
    ensures TokensMatch(p, init + [x], d)
  {
    var us := init + [x];
    assert us[..|p| - 1] == init && us[|p| - 1] == x;
    TokensMatchSnoc(p, us, d);
  }

  /** Matching tokens of a prefix of the key give a full match of that prefix. */
  lemma PrefixMatchOfTokens(p: seq<Token>, s: string, d: char, j: nat)
    requires |p| >= 1 && DelimiterFree(p, d)
    requires j <= |s| && TokensMatch(p, Split(s[..j], d), d)
    ensures PrefixMatch(p, s, d, j)
  {
    WholeTokens(p, s[..j], d);
  }

  /**
   A prefix `x` of the key's token k, free of the delimiter, ends a prefix
   of the key whose tokens are the key's first k tokens followed by `x`.
   */
  lemma CutAfterPrefix(s: string, d: char, k: nat, x: string) returns (j: nat)
    requires 0 < k < |Split(s, d)|
    requires x <= Split(s, d)[k] && d !in x
    ensures j <= |s| && Split(s[..j], d) == Split(s, d)[..k] + [x]
  {
    var ws := Split(s, d);
    SplitAt(s, d, k);
    var a, b := Join(ws[..k], d), Join(ws[k..], d);
    assert s == a + [d] + b;
    JoinFirst(ws[k..], d);
    assert ws[k..][0] == ws[k];
    assert x <= b;
    j := |a| + 1 + |x|;
    assert s[..j] == a + [d] + x;
    SplitAppend(a, x, d);
    SplitSingle(x, d);
  }

  /** `R\z` (endWith) in terms of the key's tokens. */
  lemma ToEndTokens(p: seq<Token>, s: string, d: char)
    requires |p| >= 1 && DelimiterFree(p, d)
    ensures MatchesToEnd(p, s, d) <==> TailMatches(p, Split(s, d), d)
  {
    if MatchesToEnd(p, s, d) {
      var i :| 0 <= i <= |s| && SuffixMatch(p, s, d, i);
      ToEndForward(p, s, d, i);
    }
    if TailMatches(p, Split(s, d), d) {
      if |p| == 1 {
        ToEndBackwardOne(p, s, d);
      } else {
        ToEndBackward(p, s, d);
      }
    }
  }

  /** A full match of a suffix of the key gives the token-level condition of `R\z`. */
  lemma ToEndForward(p: seq<Token>, s: string, d: char, i: nat)
    requires |p| >= 1 && DelimiterFree(p, d)
    requires SuffixMatch(p, s, d, i)
    ensures TailMatches(p, Split(s, d), d)
  {
    WholeTokens(p, s[i..], d);
    SplitSuffix(s, i, d);
    TailOfAligned(p, Split(s[i..], d), Split(s, d), d);
  }

  /** Tokens matched in full, aligned with the tail of `ws`, give the condition of `R\z`. */
  lemma TailOfAligned(p: seq<Token>, vs: seq<string>, ws: seq<string>, d: char)
    requires |p| >= 1 && DelimiterFree(p, d)
    requires TokensMatch(p, vs, d) && SuffixAligned(vs, ws)
    ensures TailMatches(p, ws, d)
  {
    TokensMatchCons(p, vs, d);
    assert SuffixMatches(p[0], ws[|ws| - |p|]) by {
      if p[0].Lit? {
        assert vs[0] == p[0].text;
      }
    }
  }

  /** The token-level condition of `R\z` for a one-token pattern gives a match. */
  lemma ToEndBackwardOne(p: seq<Token>, s: string, d: char)
    requires |p| == 1 && DelimiterFree(p, d)
    requires TailMatches(p, Split(s, d), d)
    ensures MatchesToEnd(p, s, d)
  {
    var ws := Split(s, d);
    var x := Witness(p[0]);
    assert IsSuffix(x, ws[|ws| - 1]);
    LastTokenSuffix(s, d);
    SuffixTransitive(x, ws[|ws| - 1], s);
    var i := |s| - |x|;
    assert s[i..] == x;
    assert TokenMatches(p[0], x, d);
    assert SuffixMatch(p, s, d, i);
  }

  /** The token-level condition of `R\z` for a longer pattern gives a match. */
  lemma ToEndBackward(p: seq<Token>, s: string, d: char)
    requires |p| >= 2 && DelimiterFree(p, d)
    requires TailMatches(p, Split(s, d), d)
    ensures MatchesToEnd(p, s, d)
  {
    var ws := Split(s, d);
    var k := |ws| - |p| + 1;
    var x := Witness(p[0]);
    assert IsSuffix(x, ws[k - 1]) && TokenMatches(p[0], x, d) && d !in x;
    var i := CutBeforeSuffix(s, d, k, x);
    TokensMatchPrepend(p, x, ws[k..], d);
    SuffixMatchOfTokens(p, s, d, i);
  }

  /** Matching tokens of a suffix of the key give a full match of that suffix. */
  lemma SuffixMatchOfTokens(p: seq<Token>, s: string, d: char, i: nat)
    requires |p| >= 1 && DelimiterFree(p, d)
    requires i <= |s| && TokensMatch(p, Split(s[i..], d), d)
    ensures SuffixMatch(p, s, d, i)
  {
    WholeTokens(p, s[i..], d);
  }

  /**
   A suffix `x` of the key's token k-1, free of the delimiter, starts a
   suffix of the key whose tokens are `x` followed by the key's tokens from k.
   */
  lemma CutBeforeSuffix(s: string, d: char, k: nat, x: string) returns (i: nat)
    requires 0 < k < |Split(s, d)|
    requires IsSuffix(x, Split(s, d)[k - 1]) && d !in x
    ensures i <= |s| && Split(s[i..], d) == [x] + Split(s, d)[k..]
  {
    var ws := Split(s, d);
    var a, b := SplitAtParts(s, d, k);
    SuffixTransitive(x, ws[k - 1], a);
    i := |a| - |x|;
    SplitFromSuffix(a, b, x, d);
  }

  /** The empty partial combination keeps every key under startWith and endWith. */
  lemma EmptyPatternMatchesAll(s: string, d: char)
    ensures StartsWith([], s, d) && MatchesToEnd([], s, d) && EndsWith([], s, d)
  {
    assert s[..0] == "";
    assert PrefixMatch([], s, d, 0);
    assert s[|s|..] == "";
    assert SuffixMatch([], s, d, |s|);
  }

  /** With no wildcard, startWith is a string-prefix test of the encoded partial combination. */
  lemma StartsWithLiteral(c: seq<string>, s: string, d: char)
    requires WildcardMarker !in c
    ensures StartsWith(Escape(c), s, d) <==> Join(c, d) <= s
  {
    if StartsWith(Escape(c), s, d) {
      var j :| 0 <= j <= |s| && PrefixMatch(Escape(c), s, d, j);
      LiteralWhole(c, s[..j], d);
    }
    if Join(c, d) <= s {
      var j := |Join(c, d)|;
      assert s[..j] == Join(c, d);
      LiteralWhole(c, s[..j], d);
      assert PrefixMatch(Escape(c), s, d, j);
    }
  }

  /** With no wildcard, `R\z` is a string-suffix test of the encoded partial combination. */
  lemma ToEndLiteral(c: seq<string>, s: string, d: char)
    requires WildcardMarker !in c
    ensures MatchesToEnd(Escape(c), s, d) <==> IsSuffix(Join(c, d), s)
  {
    if MatchesToEnd(Escape(c), s, d) {
      var i :| 0 <= i <= |s| && SuffixMatch(Escape(c), s, d, i);
      LiteralWhole(c, s[i..], d);
    }
    if IsSuffix(Join(c, d), s) {
      var i := |s| - |Join(c, d)|;
      LiteralWhole(c, s[i..], d);
      assert SuffixMatch(Escape(c), s, d, i);
    }
  }

  /**
   `shave`: a key whose first |p| tokens match, with more tokens after them,
   loses exactly those tokens; every other key is unchanged.
   */
  lemma ShaveTokens(p: seq<Token>, s: string, d: char)
    requires |p| >= 1 && DelimiterFree(p, d)
    ensures var ws := Split(s, d);
      var shaved := if |ws| > |p| && TokensMatch(p, ws[..|p|], d) then ws[|p|..] else ws;
      Split(ShaveKey(p, s, d), d) == shaved && ShaveKey(p, s, d) == Join(shaved, d)
  {
    LeadingTokens(p, s, d);
    JoinSplit(ShaveKey(p, s, d), d);
  }

  /** A `^RD` match in the key without its final newline is a match in the key. */
  lemma LeadingChomp(p: seq<Token>, s: string, d: char)
    requires EndsInNewline(s) && Leading(p, Chomp(s), d)
    ensures Leading(p, s, d)
  {
    var t := Chomp(s);
    var j :| 0 <= j < |t| && LeadingAt(p, t, d, j);
    assert t[..j] == s[..j];
    assert LeadingAt(p, s, d, j);
  }

  /** A `DRD` match in the key without its final newline is a match in the key. */
  lemma InsideChomp(p: seq<Token>, s: string, d: char)
    requires EndsInNewline(s) && Inside(p, Chomp(s), d)
    ensures Inside(p, s, d)
  {
    var t := Chomp(s);
    var i, j :| 0 < i <= j < |t| && InsideAt(p, t, d, i, j);
    assert t[i..j] == s[i..j];
    assert InsideAt(p, s, d, i, j);
  }

  /**
   The 'include' query holds exactly when its four alternatives, read up to
   the very end, match the key or the key without its final newline.
   */
  lemma IncludesChomp(p: seq<Token>, s: string, d: char)
    ensures Includes(p, s, d) <==> IncludesToEnd(p, s, d) || (EndsInNewline(s) && IncludesToEnd(p, Chomp(s), d))
  {
    if EndsInNewline(s) && Leading(p, Chomp(s), d) {
      LeadingChomp(p, s, d);
    }
    if EndsInNewline(s) && Inside(p, Chomp(s), d) {
      InsideChomp(p, s, d);
    }
  }

  /**
   `R$` (endWith) in terms of the key's tokens: the tail condition holds for
   the key, or for the key without its final newline.
   */
  lemma EndsWithTokens(p: seq<Token>, s: string, d: char)
    requires |p| >= 1 && DelimiterFree(p, d)
    ensures EndsWith(p, s, d) <==>
      TailMatches(p, Split(s, d), d) || (EndsInNewline(s) && TailMatches(p, Split(Chomp(s), d), d))
  {
    ToEndTokens(p, s, d);
    if EndsInNewline(s) {
      ToEndTokens(p, Chomp(s), d);
    }
  }

  /** Without a wildcard, `R$` holds when the key, or the key without its final newline, ends with the joined tokens. */
  lemma EndsWithLiteral(c: seq<string>, s: string, d: char)
    requires WildcardMarker !in c
    ensures EndsWith(Escape(c), s, d) <==>
      IsSuffix(Join(c, d), s) || (EndsInNewline(s) && IsSuffix(Join(c, d), Chomp(s)))
  {
    ToEndLiteral(c, s, d);
    if EndsInNewline(s) {
      ToEndLiteral(c, Chomp(s), d);
    }
  }

  /**
   `have`: the 'include' query holds exactly when the pattern matches some
   contiguous window of the key's tokens, or of the tokens of the key without
   its final newline.
   */
  lemma IncludesTokens(p: seq<Token>, s: string, d: char)
    requires |p| >= 1 && DelimiterFree(p, d)
    ensures Includes(p, s, d) <==>
      HasWindow(p, Split(s, d), d) || (EndsInNewline(s) && HasWindow(p, Split(Chomp(s), d), d))
  {
    IncludesChomp(p, s, d);
    IncludesToEndTokens(p, s, d);
    if EndsInNewline(s) {
      IncludesToEndTokens(p, Chomp(s), d);
    }
  }
}
