/**
 The pattern compiler of the partial-match queries. A partial combination is
 escaped token by token: the exact token "*" becomes the wildcard, which the
 source compiles to `[^D]*` (any run of non-delimiter characters, possibly
 empty); every other token is quoted and matches literally. The escaped
 tokens are joined with the quoted delimiter, and the resulting expression is
 anchored according to the query. Instead of a regular-expression engine,
 this module states the language of each anchored expression directly over
 the characters of a flat key. The expressions carry no `D` modifier, so
 `$` also holds just before a final newline of the key.
 */
module Pattern {
  import opened Options

  /** An escaped token of a partial combination. */
  datatype Token = Lit(text: string) | Wild

  /** The one token that escapes to the wildcard. */
  const WildcardMarker: string := "*"

  /** `escape`: only the exact token "*" is a wildcard; every other token is literal. */
  function Escape(c: seq<string>): (p: seq<Token>)
    ensures |p| == |c|
    ensures forall i :: 0 <= i < |c| ==> (p[i] == Wild <==> c[i] == WildcardMarker)
    ensures forall i :: 0 <= i < |c| && c[i] != WildcardMarker ==> p[i] == Lit(c[i])
  {
    if |c| == 0 then []
    else [if c[0] == WildcardMarker then Wild else Lit(c[0])] + Escape(c[1..])
  }

  /** The language of one escaped token: the literal itself, or `[^D]*`. */
  predicate TokenMatches(t: Token, w: string, d: char) {
    match t
    case Lit(x) => w == x
    case Wild => d !in w
  }

  /**
   `s` belongs to the language of the escaped tokens of `p` joined by the
   delimiter (the expression `implode(D, escape(p))` matched in full).
   */
  predicate MatchesWhole(p: seq<Token>, s: string, d: char)
    decreases |p|, 1
  {
    if |p| == 0 then s == ""
    else if |p| == 1 then TokenMatches(p[0], s, d)
    else exists i :: 0 <= i < |s| && CutAt(p, s, d, i)
  }

  /**
   The delimiter at position `i` of `s` separates a match of the first
   pattern token from a full match of the others.
   */
  predicate CutAt(p: seq<Token>, s: string, d: char, i: int)
    decreases |p|, 0
  {
    && 1 <= |p|
    && 0 <= i < |s| && s[i] == d
    && TokenMatches(p[0], s[..i], d)
    && MatchesWhole(p[1..], s[i + 1..], d)
  }

  /** `^R`: some prefix of the key is matched in full (the 'left' query). */
  predicate StartsWith(p: seq<Token>, s: string, d: char) {
    exists j :: 0 <= j <= |s| && PrefixMatch(p, s, d, j)
  }

  /** The first `j` characters of the key are matched in full. */
  predicate PrefixMatch(p: seq<Token>, s: string, d: char, j: int) {
    0 <= j <= |s| && MatchesWhole(p, s[..j], d)
  }

  /** `R\z`: some suffix of the key is matched in full, up to its very end. */
  predicate MatchesToEnd(p: seq<Token>, s: string, d: char) {
    exists i :: 0 <= i <= |s| && SuffixMatch(p, s, d, i)
  }

  /** The key from position `i` on is matched in full. */
  predicate SuffixMatch(p: seq<Token>, s: string, d: char, i: int) {
    0 <= i <= |s| && MatchesWhole(p, s[i..], d)
  }

  /** `^RD`: a prefix of the key followed by a delimiter is matched. */
  predicate Leading(p: seq<Token>, s: string, d: char) {
    exists j :: 0 <= j < |s| && LeadingAt(p, s, d, j)
  }

  /** The first `j` characters of the key are matched in full and a delimiter follows. */
  predicate LeadingAt(p: seq<Token>, s: string, d: char, j: int) {
    0 <= j < |s| && s[j] == d && MatchesWhole(p, s[..j], d)
  }

  /** `DR\z`: a suffix of the key preceded by a delimiter is matched, up to its very end. */
  predicate Trailing(p: seq<Token>, s: string, d: char) {
    exists i :: 0 < i <= |s| && TrailingAt(p, s, d, i)
  }

  /** The key from position `i` on is matched in full and a delimiter precedes it. */
  predicate TrailingAt(p: seq<Token>, s: string, d: char, i: int) {
    0 < i <= |s| && s[i - 1] == d && MatchesWhole(p, s[i..], d)
  }

  /** `DRD`: an infix of the key with a delimiter on both sides is matched. */
  predicate Inside(p: seq<Token>, s: string, d: char) {
    exists i, j :: 0 < i <= j < |s| && InsideAt(p, s, d, i, j)
  }

  /** The characters from `i` up to `j` are matched in full, with a delimiter on each side. */
  predicate InsideAt(p: seq<Token>, s: string, d: char, i: int, j: int) {
    0 < i <= j < |s| && s[i - 1] == d && s[j] == d && MatchesWhole(p, s[i..j], d)
  }

  /** `^RD|DR\z|DRD|^R\z`: the four alternatives of the 'include' query, each `$` read as the very end. */
  predicate IncludesToEnd(p: seq<Token>, s: string, d: char) {
    Leading(p, s, d) || Trailing(p, s, d) || Inside(p, s, d) || MatchesWhole(p, s, d)
  }

  /**
   Without the `D` modifier, PCRE's `$` holds at the end of the subject and
   also just before a final newline.
   */
  predicate EndsInNewline(s: string) {
    |s| > 0 && s[|s| - 1] == '\n'
  }

  /** The key without its final newline. */
  function Chomp(s: string): (t: string)
    requires EndsInNewline(s)
    ensures |t| == |s| - 1 && s == t + "\n"
  {
    s[..|s| - 1]
  }

  /** `R$`: the 'right' query, matched up to the end of the key or up to its final newline. */
  predicate EndsWith(p: seq<Token>, s: string, d: char) {
    MatchesToEnd(p, s, d) || (EndsInNewline(s) && MatchesToEnd(p, Chomp(s), d))
  }

  /**
   `^RD|DR$|DRD|^R$`: the 'include' query. The two alternatives that end in
   `$` may also stop just before a final newline.
   */
  predicate Includes(p: seq<Token>, s: string, d: char) {
    || Leading(p, s, d)
    || Trailing(p, s, d) || (EndsInNewline(s) && Trailing(p, Chomp(s), d))
    || Inside(p, s, d)
    || MatchesWhole(p, s, d) || (EndsInNewline(s) && MatchesWhole(p, Chomp(s), d))
  }

  /** The three query kinds `part` dispatches on. */
  datatype Side = Left | Right | Include

  /** The anchored expression `part` builds for a side, tested against one key. */
  predicate PartMatches(side: Side, p: seq<Token>, s: string, d: char) {
    match side
    case Left => StartsWith(p, s, d)
    case Right => EndsWith(p, s, d)
    case Include => Includes(p, s, d)
  }

  /** The first position at or after `from` where a `^RD` match ends on its delimiter. */
  function LeadingEnd(p: seq<Token>, s: string, d: char, from: nat): (r: Option<nat>)
    requires from <= |s|
    ensures r.Some? ==> from <= r.value && LeadingAt(p, s, d, r.value)
    ensures r.None? ==> forall j :: from <= j ==> !LeadingAt(p, s, d, j)
    decreases |s| - from
  {
    if from == |s| then None
    else if LeadingAt(p, s, d, from) then Some(from)
    else LeadingEnd(p, s, d, from + 1)
  }

  /**
   The key `shave` produces: the `^RD` match (the partial combination and the
   delimiter after it) is cut off the front of the key; a key that does not
   match is left as it is.
   */
  function ShaveKey(p: seq<Token>, s: string, d: char): (r: string)
    ensures Leading(p, s, d) ==> exists j :: 0 <= j < |s| && LeadingAt(p, s, d, j) && r == s[j + 1..]
    ensures !Leading(p, s, d) ==> r == s
  {
    match LeadingEnd(p, s, d, 0)
    case Some(j) => s[j + 1..]
    case None => s
  }
}
