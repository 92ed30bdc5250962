/**
 A combination map: an insertion-ordered dictionary keyed by combinations
 (sequences of tokens). A combination is stored under the flat key that
 joins its tokens with the map's delimiter, so every operation below works on
 the flat keys of the underlying PHP array. Every map an operation derives
 from another (`baby` in the source) carries the same delimiter.
 */
module CombinationMaps {
  import opened Options
  import opened Codec
  import opened Pattern
  import opened PatternLaws
  import opened Entries

  /** The delimiter the constructor uses when none is given. */
  const DefaultDelimiter: char := ','

  datatype CombinationMap<V> = CombinationMap(delimiter: char, entries: seq<Entry<V>>)

  /** The underlying array never holds a key twice. */
  predicate Valid<V>(m: CombinationMap<V>) {
    UniqueKeys(m.entries)
  }

  /** `new CombinationMap($d)`: an empty map. */
  function Empty<V>(d: char): (m: CombinationMap<V>)
    ensures Valid(m) && Size(m) == 0 && m.delimiter == d
  {
    CombinationMap(d, [])
  }

  /** `size`: the number of stored combinations. */
  function Size<V>(m: CombinationMap<V>): nat {
    |m.entries|
  }

  /** `toKey`: the flat key of a combination. */
  function ToKey<V>(m: CombinationMap<V>, c: seq<string>): string {
    Join(c, m.delimiter)
  }

  /** `toCombination`: the combination a flat key stands for. */
  function ToCombination<V>(m: CombinationMap<V>, k: string): seq<string> {
    Split(k, m.delimiter)
  }

  /** `get`: the value stored under a combination, or `None` (PHP's null) when there is none. */
  function Get<V>(m: CombinationMap<V>, c: seq<string>): (r: Option<V>)
    ensures r.Some? ==> Entry(ToKey(m, c), r.value) in m.entries
  {
    Lookup(m.entries, ToKey(m, c))
  }

  /** `exist`: whether a combination is stored. */
  function Exist<V>(m: CombinationMap<V>, c: seq<string>): (b: bool)
    ensures b <==> Get(m, c).Some?
  {
    HasKey(m.entries, ToKey(m, c))
  }

  /** `set`: store a value under a combination. */
  function Set<V>(m: CombinationMap<V>, c: seq<string>, v: V): (r: CombinationMap<V>)
    ensures r.delimiter == m.delimiter
    ensures Size(r) == if Exist(m, c) then Size(m) else Size(m) + 1
    ensures !Exist(m, c) ==> r.entries == m.entries + [Entry(ToKey(m, c), v)]
    ensures Valid(m) ==> Valid(r)
  {
    assert Valid(m) ==> UniqueKeys(Store(m.entries, ToKey(m, c), v)) by {
      if Valid(m) {
        StoreUnique(m.entries, ToKey(m, c), v);
      }
    }
    m.(entries := Store(m.entries, ToKey(m, c), v))
  }

  /**
   After `set(c, v)`, `c` reads back `v` and every combination with a
   different flat key reads as before; a present key keeps its position.
   */
  lemma GetSet<V>(m: CombinationMap<V>, c: seq<string>, v: V, c': seq<string>)
    requires Valid(m)
    ensures Valid(Set(m, c, v))
    ensures Get(Set(m, c, v), c') == if ToKey(m, c') == ToKey(m, c) then Some(v) else Get(m, c')
    ensures Exist(Set(m, c, v), c)
  {
    StoreUnique(m.entries, ToKey(m, c), v);
    StoreLookup(m.entries, ToKey(m, c), v, ToKey(m, c'));
    StoreLookup(m.entries, ToKey(m, c), v, ToKey(m, c));
  }

  /** Setting a present combination keeps every entry where it was and changes only that value. */
  lemma SetInPlace<V>(m: CombinationMap<V>, c: seq<string>, v: V)
    requires Valid(m) && Exist(m, c)
    ensures var r := Set(m, c, v);
      |r.entries| == |m.entries| &&
      forall i :: 0 <= i < |m.entries| ==>
        r.entries[i] == if m.entries[i].key == ToKey(m, c) then Entry(ToKey(m, c), v) else m.entries[i]
  {
  }

  /** `erase`: remove a combination. */
  function Erase<V>(m: CombinationMap<V>, c: seq<string>): (r: CombinationMap<V>)
    ensures r.delimiter == m.delimiter
    ensures IsSubseq(r.entries, m.entries)
    ensures forall i :: 0 <= i < |r.entries| ==> r.entries[i].key != ToKey(m, c)
  {
    m.(entries := Remove(m.entries, ToKey(m, c)))
  }

  /** After `erase(c)`, `c` is absent, every other key reads as before, and the size drops only if `c` was there. */
  lemma GetErase<V>(m: CombinationMap<V>, c: seq<string>, c': seq<string>)
    requires Valid(m)
    ensures Valid(Erase(m, c))
    ensures Get(Erase(m, c), c') == if ToKey(m, c') == ToKey(m, c) then None else Get(m, c')
    ensures Size(Erase(m, c)) == if Exist(m, c) then Size(m) - 1 else Size(m)
  {
    RemoveLookup(m.entries, ToKey(m, c), ToKey(m, c'));
  }

  /** Erasing an absent combination changes nothing. */
  lemma EraseAbsent<V>(m: CombinationMap<V>, c: seq<string>)
    requires !Exist(m, c)
    ensures Erase(m, c) == m
  {
    SelectAll(m.entries, (e: Entry<V>) => e.key != ToKey(m, c));
  }

  /** Selecting with a condition every entry meets keeps the whole array. */
  lemma {:induction false} SelectAll<V>(es: seq<Entry<V>>, keep: Entry<V> -> bool)
    requires forall i :: 0 <= i < |es| ==> keep(es[i])
    ensures Select(es, keep) == es
  {
    if |es| > 0 {
      SelectAll(es[1..], keep);
    }
  }

  /** `apply`: store `f` of the current value (or of `None` when absent). */
  function Apply<V>(m: CombinationMap<V>, c: seq<string>, f: Option<V> -> V): (r: CombinationMap<V>)
    ensures r.delimiter == m.delimiter
    ensures Size(r) == if Exist(m, c) then Size(m) else Size(m) + 1
  {
    Set(m, c, f(Get(m, c)))
  }

  /** After `apply(c, f)`, `c` holds `f` of its old value and nothing else changes. */
  lemma GetApply<V>(m: CombinationMap<V>, c: seq<string>, f: Option<V> -> V, c': seq<string>)
    requires Valid(m)
    ensures Valid(Apply(m, c, f))
    ensures Get(Apply(m, c, f), c) == Some(f(Get(m, c)))
    ensures ToKey(m, c') != ToKey(m, c) ==> Get(Apply(m, c, f), c') == Get(m, c')
  {
    GetSet(m, c, f(Get(m, c)), c);
    GetSet(m, c, f(Get(m, c)), c');
  }

  /** `values`: the stored values in insertion order. */
  function ValueList<V>(m: CombinationMap<V>): (vs: seq<V>)
    ensures |vs| == Size(m)
  {
    Values(m.entries)
  }

  /** The values list the value of every stored combination, in the order the combinations were first set. */
  lemma ValuesInOrder<V>(m: CombinationMap<V>, i: nat)
    requires Valid(m) && i < Size(m)
    ensures Some(ValueList(m)[i]) == Get(m, ToCombination(m, m.entries[i].key))
  {
    JoinSplit(m.entries[i].key, m.delimiter);
    LookupAt(m.entries, i);
  }

  /** `map`: apply `f` to every value, keeping keys, order and delimiter. */
  function Map<V, U>(m: CombinationMap<V>, f: V -> U): (r: CombinationMap<U>)
    ensures r.delimiter == m.delimiter
    ensures Keys(r.entries) == Keys(m.entries)
    ensures forall i :: 0 <= i < |m.entries| ==> r.entries[i].value == f(m.entries[i].value)
  {
    CombinationMap(m.delimiter, seq(|m.entries|, i requires 0 <= i < |m.entries| => Entry(m.entries[i].key, f(m.entries[i].value))))
  }

  /** Reading a mapped map is reading the map and applying `f`. */
  lemma GetMap<V, U>(m: CombinationMap<V>, f: V -> U, c: seq<string>)
    requires Valid(m)
    ensures Valid(Map(m, f))
    ensures Get(Map(m, f), c) == if Exist(m, c) then Some(f(Get(m, c).value)) else None
  {
    var r := Map(m, f);
    var k := ToKey(m, c);
    assert forall i :: 0 <= i < |m.entries| ==> r.entries[i].key == m.entries[i].key by {
      assert Keys(r.entries) == Keys(m.entries);
    }
    if Exist(m, c) {
      var i :| 0 <= i < |m.entries| && m.entries[i].key == k;
      LookupAt(m.entries, i);
      LookupAt(r.entries, i);
    } else {
      forall i | 0 <= i < |r.entries|
        ensures r.entries[i].key != k
      {
        assert r.entries[i].key == m.entries[i].key;
      }
    }
  }

  /** The values of a mapped map are the mapped values. */
  lemma ValuesMap<V, U>(m: CombinationMap<V>, f: V -> U)
    ensures ValueList(Map(m, f)) == seq(Size(m), i requires 0 <= i < Size(m) => f(ValueList(m)[i]))
  {
    var mapped := seq(Size(m), i requires 0 <= i < Size(m) => f(ValueList(m)[i]));
    var r := Map(m, f);
    forall i | 0 <= i < Size(m)
      ensures ValueList(r)[i] == mapped[i]
    {
      assert ValueList(r)[i] == r.entries[i].value;
      assert ValueList(m)[i] == m.entries[i].value;
    }
  }

  /** `filter`: keep the entries whose value satisfies `keep`, in order, with the same delimiter. */
  function Filter<V>(m: CombinationMap<V>, keep: V -> bool): (r: CombinationMap<V>)
    ensures r.delimiter == m.delimiter
    ensures IsSubseq(r.entries, m.entries)
    ensures forall i :: 0 <= i < |r.entries| ==> r.entries[i] in m.entries && keep(r.entries[i].value)
    ensures forall i :: 0 <= i < |m.entries| && keep(m.entries[i].value) ==> m.entries[i] in r.entries
  {
    m.(entries := Select(m.entries, (e: Entry<V>) => keep(e.value)))
  }

  /** Reading a filtered map gives the value when it passes and nothing otherwise. */
  lemma GetFilter<V>(m: CombinationMap<V>, keep: V -> bool, c: seq<string>)
    requires Valid(m)
    ensures Valid(Filter(m, keep))
    ensures Get(Filter(m, keep), c) == if Exist(m, c) && keep(Get(m, c).value) then Get(m, c) else None
  {
    SubseqUnique(Filter(m, keep).entries, m.entries);
    SelectLookup(m.entries, (e: Entry<V>) => keep(e.value), ToKey(m, c));
  }

  /** Left fold over a sequence: `f(...f(f(init, vs[0]), vs[1])..., vs[n-1])`. */
  function FoldLeft<A, V>(f: (A, V) -> A, init: A, vs: seq<V>): A {
    if |vs| == 0 then init else f(FoldLeft(f, init, vs[..|vs| - 1]), vs[|vs| - 1])
  }

  /** `reduce`: PHP's `array_reduce` over the values in insertion order. */
  method Reduce<V, A>(m: CombinationMap<V>, f: (A, V) -> A, init: A) returns (r: A)
    ensures r == FoldLeft(f, init, ValueList(m))
  {
    var vs := ValueList(m);
    r := init;
    var i := 0;
    while i < |vs|
      invariant 0 <= i <= |vs|
      invariant r == FoldLeft(f, init, vs[..i])
    {
      assert vs[..i + 1][..i] == vs[..i];
      r := f(r, vs[i]);
      i := i + 1;
    }
    assert vs[..|vs|] == vs;
  }

  /**
   Reducing a filtered map is reducing the whole map with a step that passes
   over the values the filter rejects.
   */
  lemma FoldLeftOfFilter<V, A>(m: CombinationMap<V>, keep: V -> bool, f: (A, V) -> A, init: A)
    ensures FoldLeft(f, init, ValueList(Filter(m, keep))) ==
      FoldLeft((a: A, v: V) => if keep(v) then f(a, v) else a, init, ValueList(m))
  {
    FoldSelect(m.entries, keep, f, init);
  }

  /** The entry-level induction behind `FoldLeftOfFilter`, over the last entry. */
  lemma {:induction false} FoldSelect<V, A>(es: seq<Entry<V>>, keep: V -> bool, f: (A, V) -> A, init: A)
    ensures FoldLeft(f, init, Values(Select(es, (e: Entry<V>) => keep(e.value)))) ==
      FoldLeft((a: A, v: V) => if keep(v) then f(a, v) else a, init, Values(es))
  {
    if |es| > 0 {
      var g := (a: A, v: V) => if keep(v) then f(a, v) else a;
      var front, e := es[..|es| - 1], es[|es| - 1];
      var sel := Select(front, (e: Entry<V>) => keep(e.value));
      assert es == front + [e];
      SelectSnoc(front, e, (e: Entry<V>) => keep(e.value));
      FoldSelect(front, keep, f, init);
      ValuesSnoc(front, e);
      FoldSnoc(g, init, Values(front), e.value);
      assert Values(es) == Values(front) + [e.value];
      assert FoldLeft(g, init, Values(es)) == g(FoldLeft(g, init, Values(front)), e.value);
      assert FoldLeft(g, init, Values(front)) == FoldLeft(f, init, Values(sel));
      if keep(e.value) {
        ValuesSnoc(sel, e);
        FoldSnoc(f, init, Values(sel), e.value);
        assert Select(es, (e: Entry<V>) => keep(e.value)) == sel + [e];
        assert FoldLeft(f, init, Values(sel + [e])) == f(FoldLeft(f, init, Values(sel)), e.value);
      } else {
        assert Select(es, (e: Entry<V>) => keep(e.value)) == sel;
      }
    }
  }

  /** The values of entries with one more at the end end with its value. */
  lemma ValuesSnoc<V>(es: seq<Entry<V>>, e: Entry<V>)
    ensures Values(es + [e]) == Values(es) + [e.value]
  {
  }

  /** Folding one more value applies one more step. */
  lemma FoldSnoc<A, V>(f: (A, V) -> A, init: A, vs: seq<V>, v: V)
    ensures FoldLeft(f, init, vs + [v]) == f(FoldLeft(f, init, vs), v)
  {
    assert (vs + [v])[..|vs|] == vs;
  }

  /** A filter that rejects nothing does not change what `reduce` returns. */
  lemma FoldLeftKeepAll<V, A>(m: CombinationMap<V>, keep: V -> bool, f: (A, V) -> A, init: A)
    requires forall i :: 0 <= i < Size(m) ==> keep(ValueList(m)[i])
    ensures FoldLeft(f, init, ValueList(Filter(m, keep))) == FoldLeft(f, init, ValueList(m))
  {
    forall i | 0 <= i < |m.entries|
      ensures keep(m.entries[i].value)
    {
      assert ValueList(m)[i] == m.entries[i].value;
    }
    SelectAll(m.entries, (e: Entry<V>) => keep(e.value));
  }

  /** `part`: keep the entries whose flat key the anchored expression for `side` matches. */
  function Part<V>(m: CombinationMap<V>, side: Side, c: seq<string>): (r: CombinationMap<V>)
    ensures r.delimiter == m.delimiter
    ensures IsSubseq(r.entries, m.entries)
    ensures forall i :: 0 <= i < |r.entries| ==>
      r.entries[i] in m.entries && PartMatches(side, Escape(c), r.entries[i].key, m.delimiter)
    ensures forall i :: 0 <= i < |m.entries| && PartMatches(side, Escape(c), m.entries[i].key, m.delimiter) ==>
      m.entries[i] in r.entries
  {
    m.(entries := Select(m.entries, (e: Entry<V>) => PartMatches(side, Escape(c), e.key, m.delimiter)))
  }

  /** `startWith`: the 'left' query. */
  function StartWith<V>(m: CombinationMap<V>, c: seq<string>): (r: CombinationMap<V>)
  {
    Part(m, Left, c)
  }

  /** `endWith`: the 'right' query. */
  function EndWith<V>(m: CombinationMap<V>, c: seq<string>): (r: CombinationMap<V>)
  {
    Part(m, Right, c)
  }

  /** `have`: the 'include' query. */
  function Have<V>(m: CombinationMap<V>, c: seq<string>): (r: CombinationMap<V>)
  {
    Part(m, Include, c)
  }

  /** A query reads a key as the map does when the key matches, and as absent otherwise. */
  lemma PartLookup<V>(m: CombinationMap<V>, side: Side, c: seq<string>, k: string)
    requires Valid(m)
    ensures Valid(Part(m, side, c))
    ensures Lookup(Part(m, side, c).entries, k) ==
      if PartMatches(side, Escape(c), k, m.delimiter) then Lookup(m.entries, k) else None
  {
    SubseqUnique(Part(m, side, c).entries, m.entries);
    SelectLookup(m.entries, (e: Entry<V>) => PartMatches(side, Escape(c), e.key, m.delimiter), k);
  }

  /** A query that exactly one entry satisfies returns that entry alone. */
  lemma PartOnly<V>(m: CombinationMap<V>, side: Side, c: seq<string>, j: nat)
    requires j < |m.entries|
    requires forall i :: 0 <= i < |m.entries| ==> (PartMatches(side, Escape(c), m.entries[i].key, m.delimiter) <==> i == j)
    ensures Part(m, side, c).entries == [m.entries[j]]
  {
    SelectOnly(m.entries, (e: Entry<V>) => PartMatches(side, Escape(c), e.key, m.delimiter), j);
  }

  /** A query that exactly the entries at positions `lo` to `hi` satisfy returns that run. */
  lemma PartRange<V>(m: CombinationMap<V>, side: Side, c: seq<string>, lo: nat, hi: nat)
    requires lo <= hi <= |m.entries|
    requires forall i :: 0 <= i < |m.entries| ==> (PartMatches(side, Escape(c), m.entries[i].key, m.delimiter) <==> lo <= i < hi)
    ensures Part(m, side, c).entries == m.entries[lo..hi]
  {
    SelectRange(m.entries, (e: Entry<V>) => PartMatches(side, Escape(c), e.key, m.delimiter), lo, hi);
  }

  /** Running a query on its own result changes nothing. */
  lemma PartIdempotent<V>(m: CombinationMap<V>, side: Side, c: seq<string>)
    ensures Part(Part(m, side, c), side, c) == Part(m, side, c)
  {
    SelectIdempotent(m.entries, (e: Entry<V>) => PartMatches(side, Escape(c), e.key, m.delimiter));
  }

  /** An empty partial combination keeps the whole map under `startWith` and `endWith`. */
  lemma StartWithEndWithEmpty<V>(m: CombinationMap<V>)
    ensures StartWith(m, []) == m && EndWith(m, []) == m
  {
    forall k: string
      ensures StartsWith([], k, m.delimiter) && EndsWith([], k, m.delimiter)
    {
      EmptyPatternMatchesAll(k, m.delimiter);
    }
    SelectAll(m.entries, (e: Entry<V>) => PartMatches(Left, Escape([]), e.key, m.delimiter));
    SelectAll(m.entries, (e: Entry<V>) => PartMatches(Right, Escape([]), e.key, m.delimiter));
  }

  /**
   `startWith(c)` on delimiter-free tokens: a key is kept exactly when its
   tokens agree with `c` except for the last token of `c`, which (literal)
   only has to be a prefix of the key's token at that position.
   */
  lemma StartWithTokens<V>(m: CombinationMap<V>, c: seq<string>, k: string)
    requires Valid(m) && |c| >= 1 && TokensFree(c, m.delimiter)
    ensures Lookup(StartWith(m, c).entries, k) ==
      if HeadMatches(Escape(c), Split(k, m.delimiter), m.delimiter) then Lookup(m.entries, k) else None
  {
    PartLookup(m, Left, c, k);
    EscapeDelimiterFree(c, m.delimiter);
    StartsWithTokens(Escape(c), k, m.delimiter);
  }

  /**
   `endWith(c)` on delimiter-free tokens, symmetrically to `startWith`; since
   PCRE's `$` also holds just before a final newline, a key ending in a
   newline is kept when the tokens of the key without it satisfy the tail
   condition.
   */
  lemma EndWithTokens<V>(m: CombinationMap<V>, c: seq<string>, k: string)
    requires Valid(m) && |c| >= 1 && TokensFree(c, m.delimiter)
    ensures var p, d := Escape(c), m.delimiter;
      Lookup(EndWith(m, c).entries, k) ==
        if TailMatches(p, Split(k, d), d) || (EndsInNewline(k) && TailMatches(p, Split(Chomp(k), d), d))
        then Lookup(m.entries, k) else None
  {
    PartLookup(m, Right, c, k);
    EscapeDelimiterFree(c, m.delimiter);
    EndsWithTokens(Escape(c), k, m.delimiter);
  }

  /** With no wildcard, `startWith(c)` keeps exactly the keys that begin with `toKey(c)`. */
  lemma StartWithLiteral<V>(m: CombinationMap<V>, c: seq<string>, k: string)
    requires Valid(m) && WildcardMarker !in c
    ensures Lookup(StartWith(m, c).entries, k) ==
      if ToKey(m, c) <= k then Lookup(m.entries, k) else None
  {
    PartLookup(m, Left, c, k);
    StartsWithLiteral(c, k, m.delimiter);
  }

  /** With no wildcard, `endWith(c)` keeps exactly the keys that end with `toKey(c)`, possibly followed by one final newline. */
  lemma EndWithLiteral<V>(m: CombinationMap<V>, c: seq<string>, k: string)
    requires Valid(m) && WildcardMarker !in c
    ensures Lookup(EndWith(m, c).entries, k) ==
      if IsSuffix(ToKey(m, c), k) || (EndsInNewline(k) && IsSuffix(ToKey(m, c), Chomp(k)))
      then Lookup(m.entries, k) else None
  {
    PartLookup(m, Right, c, k);
    EndsWithLiteral(c, k, m.delimiter);
  }

  /**
   `have(c)` on delimiter-free tokens keeps a key exactly when `c` matches a
   contiguous window of its tokens, or of the tokens of the key without its
   final newline.
   */
  lemma HaveTokens<V>(m: CombinationMap<V>, c: seq<string>, k: string)
    requires Valid(m) && |c| >= 1 && TokensFree(c, m.delimiter)
    ensures var p, d := Escape(c), m.delimiter;
      Lookup(Have(m, c).entries, k) ==
        if HasWindow(p, Split(k, d), d) || (EndsInNewline(k) && HasWindow(p, Split(Chomp(k), d), d))
        then Lookup(m.entries, k) else None
  {
    PartLookup(m, Include, c, k);
    EscapeDelimiterFree(c, m.delimiter);
    IncludesTokens(Escape(c), k, m.delimiter);
  }

  /** The entries with their keys rewritten by the `shave` expression, in order. */
  function ShavedEntries<V>(es: seq<Entry<V>>, p: seq<Token>, d: char): seq<Entry<V>>
  {
    seq(|es|, i requires 0 <= i < |es| => Entry(ShaveKey(p, es[i].key, d), es[i].value))
  }

  /**
   `shave`: every key loses the leading match of `c` and the delimiter
   after it; the rewritten entries are assigned in order into a new array,
   so entries whose rewritten keys collide overwrite one another.
   */
  function Shave<V>(m: CombinationMap<V>, c: seq<string>): (r: CombinationMap<V>)
    ensures r.delimiter == m.delimiter
    ensures Valid(r)
    ensures Size(r) <= Size(m)
  {
    CombinationMap(m.delimiter, StoreAll([], ShavedEntries(m.entries, Escape(c), m.delimiter)))
  }

  /** A key of the shaved map reads as the last source entry rewritten to it. */
  lemma ShaveLookup<V>(m: CombinationMap<V>, c: seq<string>, k: string)
    ensures Lookup(Shave(m, c).entries, k) == LastValue(ShavedEntries(m.entries, Escape(c), m.delimiter), k)
  {
    StoreAllLookup([], ShavedEntries(m.entries, Escape(c), m.delimiter), k);
  }

  /** Every source entry survives `shave` under its rewritten key, and every value of the result comes from the source. */
  lemma ShaveKeepsEntries<V>(m: CombinationMap<V>, c: seq<string>)
    ensures forall i :: 0 <= i < Size(m) ==>
      HasKey(Shave(m, c).entries, ShaveKey(Escape(c), m.entries[i].key, m.delimiter))
    ensures forall j :: 0 <= j < Size(Shave(m, c)) ==>
      exists i :: 0 <= i < Size(m) && Shave(m, c).entries[j] == Entry(ShaveKey(Escape(c), m.entries[i].key, m.delimiter), m.entries[i].value)
  {
    var kvs := ShavedEntries(m.entries, Escape(c), m.delimiter);
    var r := Shave(m, c);
    assert |kvs| == Size(m);
    forall i | 0 <= i < Size(m)
      ensures HasKey(r.entries, ShaveKey(Escape(c), m.entries[i].key, m.delimiter))
    {
      assert kvs[i].key == ShaveKey(Escape(c), m.entries[i].key, m.delimiter);
      ShaveLookup(m, c, kvs[i].key);
      LastValueDefined(kvs, i);
    }
    forall j | 0 <= j < Size(r)
      ensures exists i :: 0 <= i < Size(m) && r.entries[j] == kvs[i]
    {
      var e := r.entries[j];
      ShaveLookup(m, c, e.key);
      LookupAt(r.entries, j);
      var i := LastValueFrom(kvs, e.key);
      assert r.entries[j] == kvs[i] == Entry(ShaveKey(Escape(c), m.entries[i].key, m.delimiter), m.entries[i].value);
    }
  }

  /** A key that occurs among the assignments has a last assigned value. */
  lemma {:induction false} LastValueDefined<V>(kvs: seq<Entry<V>>, i: nat)
    requires i < |kvs|
    ensures LastValue(kvs, kvs[i].key).Some?
  {
    if i < |kvs| - 1 && kvs[|kvs| - 1].key != kvs[i].key {
      LastValueDefined(kvs[..|kvs| - 1], i);
    }
  }

  /** The last assigned value is the value of some assignment to that key. */
  lemma {:induction false} LastValueFrom<V>(kvs: seq<Entry<V>>, k: string) returns (i: nat)
    requires LastValue(kvs, k).Some?
    ensures i < |kvs| && kvs[i] == Entry(k, LastValue(kvs, k).value)
  {
    if kvs[|kvs| - 1].key == k {
      i := |kvs| - 1;
    } else {
      i := LastValueFrom(kvs[..|kvs| - 1], k);
    }
  }

  /** When no two rewritten keys collide, `shave` keeps every entry in place with its rewritten key. */
  lemma ShaveWithoutCollisions<V>(m: CombinationMap<V>, c: seq<string>)
    requires UniqueKeys(ShavedEntries(m.entries, Escape(c), m.delimiter))
    ensures Shave(m, c).entries == ShavedEntries(m.entries, Escape(c), m.delimiter)
  {
    StoreAllFresh([], ShavedEntries(m.entries, Escape(c), m.delimiter));
  }

  /**
   In terms of tokens (delimiter-free partial combination): a key whose
   first |c| tokens match `c` and has more tokens loses exactly those tokens;
   any other key is kept as it is.
   */
  lemma ShaveKeyTokens<V>(m: CombinationMap<V>, c: seq<string>, k: string)
    requires |c| >= 1 && TokensFree(c, m.delimiter)
    ensures var ws := ToCombination(m, k);
      var p := Escape(c);
      ToCombination(m, ShaveKey(p, k, m.delimiter)) ==
        if |ws| > |p| && TokensMatch(p, ws[..|p|], m.delimiter) then ws[|p|..] else ws
  {
    EscapeDelimiterFree(c, m.delimiter);
    ShaveTokens(Escape(c), k, m.delimiter);
  }

  /** A row of `toArrays`/`fromArrays`: a combination followed by its value. */
  datatype Row<V> = Row(combination: seq<string>, value: V)

  /** `toArrays`: one row per entry, in order, with the key split back into its tokens. */
  function ToArrays<V>(m: CombinationMap<V>): (rows: seq<Row<V>>)
    ensures |rows| == Size(m)
    ensures forall i :: 0 <= i < |rows| ==> ToKey(m, rows[i].combination) == m.entries[i].key
    ensures forall i :: 0 <= i < |rows| ==>
      rows[i].combination == ToCombination(m, m.entries[i].key) && rows[i].value == m.entries[i].value
  {
    assert forall i :: 0 <= i < |m.entries| ==> ToKey(m, ToCombination(m, m.entries[i].key)) == m.entries[i].key by {
      forall i | 0 <= i < |m.entries| {
        JoinSplit(m.entries[i].key, m.delimiter);
      }
    }
    seq(|m.entries|, i requires 0 <= i < |m.entries| => Row(ToCombination(m, m.entries[i].key), m.entries[i].value))
  }

  /** The entries `fromArrays` assigns, one per row, in order. */
  function RowEntries<V>(rows: seq<Row<V>>, d: char): seq<Entry<V>>
  {
    seq(|rows|, i requires 0 <= i < |rows| => Entry(Join(rows[i].combination, d), rows[i].value))
  }

  /** `fromArrays`: a new map with every row set in order. */
  function FromArrays<V>(rows: seq<Row<V>>, d: char): (m: CombinationMap<V>)
    ensures m.delimiter == d && Valid(m)
    ensures Size(m) <= |rows|
  {
    CombinationMap(d, StoreAll([], RowEntries(rows, d)))
  }

  /** A combination of `fromArrays(rows)` reads as the last row that sets it. */
  lemma GetFromArrays<V>(rows: seq<Row<V>>, d: char, c: seq<string>)
    ensures Get(FromArrays(rows, d), c) == LastValue(RowEntries(rows, d), Join(c, d))
  {
    StoreAllLookup([], RowEntries(rows, d), Join(c, d));
  }

  /**
   A delimiter-free combination exists after `fromArrays` exactly when some
   row carries it; the rows may repeat combinations.
   */
  lemma ExistFromArrays<V>(rows: seq<Row<V>>, d: char, c: seq<string>)
    requires FreeRows(rows, d)
    requires |c| >= 1 && TokensFree(c, d)
    ensures Exist(FromArrays(rows, d), c) <==> exists i :: 0 <= i < |rows| && rows[i].combination == c
  {
    var es := RowEntries(rows, d);
    GetFromArrays(rows, d, c);
    LastValueHasKey(es, Join(c, d));
    forall i | 0 <= i < |rows|
      ensures es[i].key == Join(c, d) <==> rows[i].combination == c
    {
      JoinInjective(rows[i].combination, c, d);
    }
  }

  /** `fromArrays(toArrays(m))` rebuilds `m` exactly, entries and order included. */
  lemma ArraysRoundTrip<V>(m: CombinationMap<V>)
    requires Valid(m)
    ensures FromArrays(ToArrays(m), m.delimiter) == m
  {
    var es := RowEntries(ToArrays(m), m.delimiter);
    assert es == m.entries;
    StoreAllFresh([], es);
  }

  /** Rows whose combinations are non-empty, delimiter-free and pairwise distinct. */
  predicate WellFormedRows<V>(rows: seq<Row<V>>, d: char) {
    && FreeRows(rows, d)
    && (forall i, j :: 0 <= i < j < |rows| ==> rows[i].combination != rows[j].combination)
  }

  /** Rows whose combinations are non-empty and delimiter-free. */
  predicate FreeRows<V>(rows: seq<Row<V>>, d: char) {
    forall i :: 0 <= i < |rows| ==> |rows[i].combination| >= 1 && TokensFree(rows[i].combination, d)
  }

  /** Well-formed rows are stored one entry per row, in order. */
  lemma FromArraysEntries<V>(rows: seq<Row<V>>, d: char)
    requires WellFormedRows(rows, d)
    ensures FromArrays(rows, d).entries == RowEntries(rows, d)
    ensures forall i :: 0 <= i < |rows| ==> ToCombination(FromArrays(rows, d), RowEntries(rows, d)[i].key) == rows[i].combination
  {
    var es := RowEntries(rows, d);
    forall i | 0 <= i < |rows|
      ensures Split(es[i].key, d) == rows[i].combination
    {
      SplitJoin(rows[i].combination, d);
    }
    assert UniqueKeys(es);
    StoreAllFresh([], es);
  }

  /** For well-formed rows, `toArrays(fromArrays(rows))` gives the rows back. */
  lemma RowsRoundTrip<V>(rows: seq<Row<V>>, d: char)
    requires WellFormedRows(rows, d)
    ensures ToArrays(FromArrays(rows, d)) == rows
  {
    FromArraysEntries(rows, d);
  }
}
