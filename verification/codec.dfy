/**
 The key codec. A combination (a sequence of tokens) is stored under the flat
 key obtained by joining its tokens with the map's delimiter (PHP's `implode`),
 and a flat key is turned back into a combination by cutting it at every
 delimiter (PHP's `explode`). The delimiter is one character.
 */
module Codec {

  /** `x` is a suffix of `w`. */
  predicate IsSuffix(x: string, w: string) {
    |x| <= |w| && w[|w| - |x|..] == x
  }

  /** Every token is free of the delimiter. */
  predicate TokensFree(c: seq<string>, d: char) {
    forall i :: 0 <= i < |c| ==> d !in c[i]
  }

  /** `toKey`: PHP's `implode(d, c)`. */
  function Join(c: seq<string>, d: char): string
  {
    if |c| == 0 then ""
    else if |c| == 1 then c[0]
    else c[0] + [d] + Join(c[1..], d)
  }

  /**
   `toCombination`: PHP's `explode(d, k)`. The key is read one character at a
   time; a delimiter opens a new token and any other character extends the
   current one, so empty tokens are kept.
   */
  function Split(k: string, d: char): (c: seq<string>)
    ensures |c| >= 1
    ensures TokensFree(c, d)
  {
    if |k| == 0 then [""]
    else
      var rest := Split(k[1..], d);
      if k[0] == d then [""] + rest
      else [[k[0]] + rest[0]] + rest[1..]
  }

  /** A key is a single token exactly when it has no delimiter. */
  lemma {:induction false} SplitSingle(k: string, d: char)
    ensures |Split(k, d)| == 1 <==> d !in k
    ensures d !in k ==> Split(k, d) == [k]
  {
    if |k| > 0 {
      SplitSingle(k[1..], d);
      assert k == [k[0]] + k[1..];
    }
  }

  /** Decoding inverts encoding for every flat key. */
  lemma {:induction false} JoinSplit(k: string, d: char)
    ensures Join(Split(k, d), d) == k
  {
    if |k| > 0 {
      JoinSplit(k[1..], d);
      var rest := Split(k[1..], d);
      if k[0] != d && |rest| > 1 {
        assert ([[k[0]] + rest[0]] + rest[1..])[1..] == rest[1..];
      }
      assert k == [k[0]] + k[1..];
    }
  }

  /** Cutting at a delimiter that has none before it. */
  lemma {:induction false} SplitCons(x: string, y: string, d: char)
    requires d !in x
    ensures Split(x + [d] + y, d) == [x] + Split(y, d)
  {
    if |x| == 0 {
      assert x + [d] + y == [d] + y;
      assert ([d] + y)[1..] == y;
    } else {
      assert (x + [d] + y)[1..] == x[1..] + [d] + y;
      SplitCons(x[1..], y, d);
      assert [x[0]] + x[1..] == x;
    }
  }

  /** Encoding inverts decoding for a non-empty combination whose tokens are delimiter-free. */
  lemma {:induction false} SplitJoin(c: seq<string>, d: char)
    requires |c| >= 1 && TokensFree(c, d)
    ensures Split(Join(c, d), d) == c
  {
    if |c| == 1 {
      SplitSingle(c[0], d);
    } else {
      SplitJoin(c[1..], d);
      SplitCons(c[0], Join(c[1..], d), d);
    }
  }

  /** The empty combination encodes to "", which decodes to one empty token. */
  lemma EmptyCombinationNotRecovered(d: char)
    ensures Join([], d) == ""
    ensures Split(Join([], d), d) == [""]
  {
  }

  /** The key of a combination of two or more tokens contains the delimiter. */
  lemma JoinHasDelimiter(c: seq<string>, d: char)
    requires |c| >= 2
    ensures d in Join(c, d)
  {
    assert Join(c, d)[|c[0]|] == d;
  }

  /** Non-empty delimiter-free combinations have the same key only when they are equal. */
  lemma JoinInjective(a: seq<string>, b: seq<string>, d: char)
    requires |a| >= 1 && TokensFree(a, d)
    requires |b| >= 1 && TokensFree(b, d)
    ensures Join(a, d) == Join(b, d) <==> a == b
  {
    SplitJoin(a, d);
    SplitJoin(b, d);
  }

  /** Splitting distributes over a delimiter. */
  lemma {:induction false} SplitAppend(a: string, b: string, d: char)
    ensures Split(a + [d] + b, d) == Split(a, d) + Split(b, d)
  {
    if |a| == 0 {
      assert a + [d] + b == [d] + b;
      assert ([d] + b)[1..] == b;
    } else {
      assert (a + [d] + b)[1..] == a[1..] + [d] + b;
      SplitAppend(a[1..], b, d);
    }
  }

  /** Joining distributes over concatenation of non-empty combinations. */
  lemma {:induction false} JoinAppend(a: seq<string>, b: seq<string>, d: char)
    requires |a| >= 1 && |b| >= 1
    ensures Join(a + b, d) == Join(a, d) + [d] + Join(b, d)
  {
    if |a| == 1 {
      assert (a + b)[1..] == b;
    } else {
      assert (a + b)[1..] == a[1..] + b;
      JoinAppend(a[1..], b, d);
    }
  }

  /** Cutting a key between its k-th and (k+1)-th token. */
  lemma SplitAt(s: string, d: char, k: nat)
    requires 0 < k < |Split(s, d)|
    ensures var ws := Split(s, d);
      && s == Join(ws[..k], d) + [d] + Join(ws[k..], d)
      && Split(Join(ws[..k], d), d) == ws[..k]
      && Split(Join(ws[k..], d), d) == ws[k..]
  {
    var ws := Split(s, d);
    JoinSplit(s, d);
    assert ws == ws[..k] + ws[k..];
    JoinAppend(ws[..k], ws[k..], d);
    SplitJoin(ws[..k], d);
    SplitJoin(ws[k..], d);
  }

  /** The two flat pieces of a key on either side of the delimiter before token k. */
  lemma SplitAtParts(s: string, d: char, k: nat) returns (a: string, b: string)
    requires 0 < k < |Split(s, d)|
    ensures s == a + [d] + b
    ensures Split(a, d) == Split(s, d)[..k] && Split(b, d) == Split(s, d)[k..]
    ensures IsSuffix(Split(s, d)[k - 1], a)
  {
    SplitAt(s, d, k);
    a, b := Join(Split(s, d)[..k], d), Join(Split(s, d)[k..], d);
    JoinPrefixLast(Split(s, d), k, d);
  }

  /** The k-th token of a combination ends the key of its first k tokens. */
  lemma JoinPrefixLast(ws: seq<string>, k: nat, d: char)
    requires 0 < k <= |ws|
    ensures IsSuffix(ws[k - 1], Join(ws[..k], d))
  {
    JoinLast(ws[..k], d);
    assert ws[..k][k - 1] == ws[k - 1];
  }

  /** The first token of a key ends at a delimiter, after which the other tokens follow. */
  lemma SplitFirst(s: string, d: char) returns (i: nat)
    requires |Split(s, d)| >= 2
    ensures i < |s| && s[i] == d
    ensures s[..i] == Split(s, d)[0] && Split(s[i + 1..], d) == Split(s, d)[1..]
  {
    var ws := Split(s, d);
    SplitAt(s, d, 1);
    assert ws[..1] == [ws[0]];
    i := |ws[0]|;
    assert s == ws[0] + [d] + Join(ws[1..], d);
    assert s[i + 1..] == Join(ws[1..], d);
  }

  /** The first token of a key is a prefix of the key. */
  lemma FirstTokenPrefix(s: string, d: char)
    ensures Split(s, d)[0] <= s
  {
    JoinSplit(s, d);
    JoinFirst(Split(s, d), d);
  }

  /** The last token of a key is a suffix of the key. */
  lemma LastTokenSuffix(s: string, d: char)
    ensures IsSuffix(Split(s, d)[|Split(s, d)| - 1], s)
  {
    JoinSplit(s, d);
    JoinLast(Split(s, d), d);
  }

  /** The first token of a non-empty combination is a prefix of its key. */
  lemma JoinFirst(c: seq<string>, d: char)
    requires |c| >= 1
    ensures c[0] <= Join(c, d)
  {
  }

  /** The last token of a non-empty combination is a suffix of its key. */
  lemma {:induction false} JoinLast(c: seq<string>, d: char)
    requires |c| >= 1
    ensures IsSuffix(c[|c| - 1], Join(c, d))
  {
    if |c| > 1 {
      JoinLast(c[1..], d);
    }
  }

  /**
   `us` lines up with the head of `ws`: all of its tokens but the last are
   the first tokens of `ws`, and its last is a prefix of the token of `ws`
   at that position.
   */
  predicate PrefixAligned(us: seq<string>, ws: seq<string>) {
    && 1 <= |us| <= |ws|
    && us[..|us| - 1] == ws[..|us| - 1]
    && us[|us| - 1] <= ws[|us| - 1]
  }

  /** Splitting a prefix of a key gives tokens aligned with the key's first tokens. */
  lemma {:induction false} SplitPrefix(s: string, j: nat, d: char)
    requires j <= |s|
    ensures PrefixAligned(Split(s[..j], d), Split(s, d))
  {
    if j > 0 {
      var t := s[1..];
      assert s[..j][1..] == t[..j - 1];
      SplitPrefix(t, j - 1, d);
      var us', ws' := Split(t[..j - 1], d), Split(t, d);
      if s[0] == d {
        PrefixAlignedUnderNewToken(us', ws');
      } else {
        PrefixAlignedUnderLongerToken(us', ws', s[0]);
      }
    }
  }

  /** Prefix alignment survives a new first token on both sides. */
  lemma PrefixAlignedUnderNewToken(us: seq<string>, ws: seq<string>)
    requires PrefixAligned(us, ws)
    ensures PrefixAligned([""] + us, [""] + ws)
  {
    var us2, ws2 := [""] + us, [""] + ws;
    assert us2[..|us2| - 1] == [""] + us[..|us| - 1];
    assert ws2[..|us2| - 1] == [""] + ws[..|us| - 1];
  }

  /** Prefix alignment survives the same character added in front of both first tokens. */
  lemma PrefixAlignedUnderLongerToken(us: seq<string>, ws: seq<string>, ch: char)
    requires PrefixAligned(us, ws)
    ensures PrefixAligned([[ch] + us[0]] + us[1..], [[ch] + ws[0]] + ws[1..])
  {
    var us2, ws2 := [[ch] + us[0]] + us[1..], [[ch] + ws[0]] + ws[1..];
    if |us| > 1 {
      assert us[0] == ws[0] by {
        assert us[..|us| - 1][0] == ws[..|us| - 1][0];
      }
      assert us[1..|us| - 1] == ws[1..|us| - 1] by {
        assert us[1..|us| - 1] == us[..|us| - 1][1..];
        assert ws[1..|us| - 1] == ws[..|us| - 1][1..];
      }
      assert us2[..|us2| - 1] == [[ch] + us[0]] + us[1..|us| - 1];
      assert ws2[..|us2| - 1] == [[ch] + ws[0]] + ws[1..|us| - 1];
    }
  }

  /** Dropping a prefix that ends inside the first part of a concatenation. */
  lemma DropInFirst(a: string, r: string, i: nat)
    requires i <= |a|
    ensures (a + r)[i..] == a[i..] + r
  {
  }

  /** Being a suffix is transitive. */
  lemma SuffixTransitive(x: string, y: string, z: string)
    requires IsSuffix(x, y) && IsSuffix(y, z)
    ensures IsSuffix(x, z)
  {
    assert z[|z| - |x|..] == z[|z| - |y|..][|y| - |x|..];
  }

  /**
   `vs` lines up with the tail of `ws`: all of its tokens but the first are
   the last tokens of `ws`, and its first is a suffix of the token of `ws`
   at that position.
   */
  predicate SuffixAligned(vs: seq<string>, ws: seq<string>) {
    && 1 <= |vs| <= |ws|
    && vs[1..] == ws[|ws| - |vs| + 1..]
    && IsSuffix(vs[0], ws[|ws| - |vs|])
  }

  /** Splitting a suffix of a key gives tokens aligned with the key's last tokens. */
  lemma {:induction false} SplitSuffix(s: string, i: nat, d: char)
    requires i <= |s|
    ensures SuffixAligned(Split(s[i..], d), Split(s, d))
  {
    if i == 0 {
      assert s[0..] == s;
    } else {
      var t := s[1..];
      assert s[i..] == t[i - 1..];
      SplitSuffix(t, i - 1, d);
      var vs, ws' := Split(s[i..], d), Split(t, d);
      if s[0] == d {
        AlignedUnderNewToken(vs, ws');
      } else {
        AlignedUnderLongerToken(vs, ws', s[0]);
      }
    }
  }

  /** Alignment survives a new first token. */
  lemma AlignedUnderNewToken(vs: seq<string>, ws: seq<string>)
    requires SuffixAligned(vs, ws)
    ensures SuffixAligned(vs, [""] + ws)
  {
    var ws2 := [""] + ws;
    assert ws2[|ws2| - |vs| + 1..] == ws[|ws| - |vs| + 1..];
    assert ws2[|ws2| - |vs|] == ws[|ws| - |vs|];
  }

  /** Alignment survives a character added in front of the first token. */
  lemma AlignedUnderLongerToken(vs: seq<string>, ws: seq<string>, ch: char)
    requires SuffixAligned(vs, ws)
    ensures SuffixAligned(vs, [[ch] + ws[0]] + ws[1..])
  {
    var ws2 := [[ch] + ws[0]] + ws[1..];
    if |vs| < |ws| {
      assert ws2[|ws2| - |vs| + 1..] == ws[|ws| - |vs| + 1..];
      assert ws2[|ws2| - |vs|] == ws[|ws| - |vs|];
    } else {
      assert ws2[1..] == ws[1..];
      assert IsSuffix(ws[0], ws2[0]) by {
        assert ws2[0][1..] == ws[0];
      }
      SuffixTransitive(vs[0], ws[0], ws2[0]);
    }
  }

  /**
   Cutting a key `a + [d] + b` just before a delimiter-free suffix `x` of
   `a` leaves `x` as the first token, followed by the tokens of `b`.
   */
  lemma SplitFromSuffix(a: string, b: string, x: string, d: char)
    requires IsSuffix(x, a) && d !in x
    ensures (a + [d] + b)[|a| - |x|..] == x + [d] + b
    ensures Split((a + [d] + b)[|a| - |x|..], d) == [x] + Split(b, d)
  {
    DropInFirst(a, [d] + b, |a| - |x|);
    assert a + [d] + b == a + ([d] + b);
    assert x + [d] + b == x + ([d] + b);
    SplitCons(x, b, d);
  }
}
