/**
 The nested-array view of a combination map. A PHP associative array whose
 values are scalars or further arrays is a forest: each branch has a string
 key and either a leaf value or a sub-forest. `toAssociative` places every
 value at the path given by its combination; `fromAssociative` walks the
 forest and sets every leaf under the combination of keys leading to it.
 */
module Associative {
  import opened Options
  import opened Codec
  import opened Entries
  import opened CombinationMaps

  datatype Tree<V> = Leaf(value: V) | Node(branches: seq<Branch<V>>)
  datatype Branch<V> = Branch(key: string, tree: Tree<V>)

  /** A nested associative array: its top level. */
  type Forest<V> = seq<Branch<V>>

  /** The value a forest holds at a path of keys (`None` when the path ends at no leaf). */
  function Find<V>(bs: Forest<V>, q: seq<string>): Option<V>
    requires |q| >= 1
    decreases |q|, 0, |bs|
  {
    if |bs| == 0 then None
    else if bs[0].key == q[0] then At(bs[0].tree, q[1..])
    else Find(bs[1..], q)
  }

  /** The value a tree holds at a path of keys below it. */
  function At<V>(t: Tree<V>, rest: seq<string>): Option<V>
    decreases |rest|, 1, 0
  {
    match t
    case Leaf(v) => if |rest| == 0 then Some(v) else None
    case Node(bs) => if |rest| == 0 then None else Find(bs, rest)
  }

  /** Keys are distinct on every level and free of the delimiter, as in a PHP array built from split keys. */
  predicate WellFormed<V>(bs: Forest<V>, d: char)
    decreases bs
  {
    && (forall i, j :: 0 <= i < j < |bs| ==> bs[i].key != bs[j].key)
    && (forall i :: 0 <= i < |bs| ==> d !in bs[i].key && TreeWellFormed(bs[i].tree, d))
  }

  predicate TreeWellFormed<V>(t: Tree<V>, d: char)
    decreases t
  {
    t.Node? ==> WellFormed(t.branches, d)
  }

  /** Two paths differ at some position both have: neither is a prefix of the other. */
  predicate Diverge(p: seq<string>, q: seq<string>) {
    exists n :: 0 <= n < |p| && n < |q| && p[n] != q[n]
  }

  /** Paths that start with the same key diverge exactly when the rest of them do. */
  lemma DivergeTail(p: seq<string>, q: seq<string>)
    requires |p| >= 1 && |q| >= 1 && p[0] == q[0]
    ensures Diverge(p, q) <==> Diverge(p[1..], q[1..])
  {
    if Diverge(p, q) {
      var n :| 0 <= n < |p| && n < |q| && p[n] != q[n];
      assert p[1..][n - 1] != q[1..][n - 1];
    }
    if Diverge(p[1..], q[1..]) {
      var n :| 0 <= n < |p[1..]| && n < |q[1..]| && p[1..][n] != q[1..][n];
      assert p[n + 1] != q[n + 1];
    }
  }

  /**
   `array_merge_recursive($forest, aoa_set([], $path, $v))`: follow the path
   through existing branches, keeping their positions, and append a branch
   for each key not yet on its level; the value lands at the end of the path.
   */
  function Insert<V>(bs: Forest<V>, p: seq<string>, v: V): (r: Forest<V>)
    requires |p| >= 1
    ensures |bs| <= |r| <= |bs| + 1
    ensures forall i :: 0 <= i < |bs| ==> r[i].key == bs[i].key
    ensures |r| == |bs| + 1 ==> r[|bs|].key == p[0] && forall i :: 0 <= i < |bs| ==> bs[i].key != p[0]
    decreases |p|, 0, |bs|
  {
    if |bs| == 0 then [Branch(p[0], Put(Node([]), p[1..], v))]
    else if bs[0].key == p[0] then [Branch(p[0], Put(bs[0].tree, p[1..], v))] + bs[1..]
    else [bs[0]] + Insert(bs[1..], p, v)
  }

  /** Place a value at a path below a tree; a leaf in the way is replaced by a node. */
  function Put<V>(t: Tree<V>, rest: seq<string>, v: V): Tree<V>
    decreases |rest|, 1, 0
  {
    if |rest| == 0 then Leaf(v)
    else match t
      case Node(bs) => Node(Insert(bs, rest, v))
      case Leaf(_) => Node(Insert([], rest, v))
  }

  /**
   After inserting `v` at `p`, path `p` holds `v`, a path diverging from `p`
   reads as before, and a proper prefix or extension of `p` holds no value.
   */
  lemma {:induction false} InsertFind<V>(bs: Forest<V>, p: seq<string>, v: V, q: seq<string>)
    requires |p| >= 1 && |q| >= 1
    ensures Find(Insert(bs, p, v), q) ==
      if q == p then Some(v) else if Diverge(p, q) then Find(bs, q) else None
    decreases |p|, 0, |bs|
  {
    if q[0] == p[0] {
      DivergeTail(p, q);
      assert q == p <==> q[1..] == p[1..] by {
        if q[1..] == p[1..] {
          assert q == [q[0]] + q[1..] && p == [p[0]] + p[1..];
        }
      }
      if |bs| == 0 {
        PutAt(Node([]), p[1..], v, q[1..]);
      } else if bs[0].key == p[0] {
        PutAt(bs[0].tree, p[1..], v, q[1..]);
      } else {
        InsertFind(bs[1..], p, v, q);
      }
    } else {
      assert Diverge(p, q) by {
        assert p[0] != q[0];
      }
      if |bs| > 0 && bs[0].key != p[0] {
        InsertFind(bs[1..], p, v, q);
      }
    }
  }

  /** `InsertFind` one level down, for the tree below a branch. */
  lemma {:induction false} PutAt<V>(t: Tree<V>, rest: seq<string>, v: V, r: seq<string>)
    ensures At(Put(t, rest, v), r) ==
      if r == rest then Some(v) else if Diverge(rest, r) then At(t, r) else None
    decreases |rest|, 1, 0
  {
    if |rest| > 0 && |r| > 0 {
      match t
      case Node(bs) => InsertFind(bs, rest, v, r);
      case Leaf(_) => InsertFind([], rest, v, r);
    }
  }

  /** Inserting a path of delimiter-free keys keeps a forest well formed. */
  lemma {:induction false} InsertWellFormed<V>(bs: Forest<V>, p: seq<string>, v: V, d: char)
    requires |p| >= 1 && TokensFree(p, d) && WellFormed(bs, d)
    ensures WellFormed(Insert(bs, p, v), d)
    decreases |p|, 0, |bs|
  {
    var r := Insert(bs, p, v);
    assert TokensFree(p[1..], d) by {
      forall i | 0 <= i < |p[1..]| ensures d !in p[1..][i] {
        assert p[1..][i] == p[i + 1];
      }
    }
    if |bs| == 0 {
      PutWellFormed(Node([]), p[1..], v, d);
    } else if bs[0].key == p[0] {
      PutWellFormed(bs[0].tree, p[1..], v, d);
      assert forall i :: 1 <= i < |r| ==> r[i] == bs[i];
    } else {
      var tail := bs[1..];
      assert WellFormed(tail, d) by {
        assert forall i :: 0 <= i < |tail| ==> tail[i] == bs[i + 1];
      }
      InsertWellFormed(tail, p, v, d);
      var rt := Insert(tail, p, v);
      assert forall i :: 1 <= i < |r| ==> r[i] == rt[i - 1];
      forall i | 1 <= i < |r|
        ensures r[i].key != bs[0].key
      {
        if i - 1 < |tail| {
          assert rt[i - 1].key == bs[i].key;
        }
      }
    }
  }

  /** `InsertWellFormed` one level down. */
  lemma {:induction false} PutWellFormed<V>(t: Tree<V>, rest: seq<string>, v: V, d: char)
    requires TokensFree(rest, d) && TreeWellFormed(t, d)
    ensures TreeWellFormed(Put(t, rest, v), d)
    decreases |rest|, 1, 0
  {
    if |rest| > 0 {
      match t
      case Node(bs) => InsertWellFormed(bs, rest, v, d);
      case Leaf(_) => InsertWellFormed([], rest, v, d);
    }
  }

  /** Insert the entries' combinations one after another, in order, into a forest. */
  function InsertAll<V>(bs: Forest<V>, es: seq<Entry<V>>, d: char): Forest<V> {
    if |es| == 0 then bs
    else Insert(InsertAll(bs, es[..|es| - 1], d), Split(es[|es| - 1].key, d), es[|es| - 1].value)
  }

  /** Inserting split keys keeps a forest well formed. */
  lemma {:induction false} InsertAllWellFormed<V>(bs: Forest<V>, es: seq<Entry<V>>, d: char)
    requires WellFormed(bs, d)
    ensures WellFormed(InsertAll(bs, es, d), d)
  {
    if |es| > 0 {
      InsertAllWellFormed(bs, es[..|es| - 1], d);
      InsertWellFormed(InsertAll(bs, es[..|es| - 1], d), Split(es[|es| - 1].key, d), es[|es| - 1].value, d);
    }
  }

  /** Inserting one more entry after a run. */
  lemma InsertAllSnoc<V>(bs: Forest<V>, es: seq<Entry<V>>, e: Entry<V>, d: char)
    ensures InsertAll(bs, es + [e], d) == Insert(InsertAll(bs, es, d), Split(e.key, d), e.value)
  {
    assert (es + [e])[..|es|] == es;
  }

  /** Splitting off the last element of the second part of a concatenation. */
  lemma SnocConcat<T>(a: seq<T>, b: seq<T>)
    requires |b| >= 1
    ensures a + b[..|b| - 1] + [b[|b| - 1]] == a + b
  {
    assert b[..|b| - 1] + [b[|b| - 1]] == b;
  }

  /** Inserting no entries leaves the forest as it is. */
  lemma InsertAllNothing<V>(bs: Forest<V>, es: seq<Entry<V>>, d: char)
    requires |es| == 0
    ensures InsertAll(bs, es, d) == bs
  {
  }

  /** Inserting two runs of entries one after the other is inserting their concatenation. */
  lemma {:induction false} InsertAllAppend<V>(bs: Forest<V>, a: seq<Entry<V>>, b: seq<Entry<V>>, d: char)
    ensures InsertAll(InsertAll(bs, a, d), b, d) == InsertAll(bs, a + b, d)
  {
    if |b| == 0 {
      assert a + b == a;
      InsertAllNothing(InsertAll(bs, a, d), b, d);
    } else {
      InsertAllAppend(bs, a, b[..|b| - 1], d);
      InsertAllSnoc(bs, a + b[..|b| - 1], b[|b| - 1], d);
      SnocConcat(a, b);
    }
  }

  /** No two entries' combinations are equal or a prefix of one another. */
  predicate PrefixFree<V>(es: seq<Entry<V>>, d: char) {
    forall i, j :: 0 <= i < j < |es| ==> Diverge(Split(es[i].key, d), Split(es[j].key, d))
  }

  /** A prefix of a prefix-free run of entries is prefix-free. */
  lemma PrefixFreeInit<V>(es: seq<Entry<V>>, n: nat, d: char)
    requires PrefixFree(es, d) && n <= |es|
    ensures PrefixFree(es[..n], d)
  {
    assert forall i :: 0 <= i < n ==> es[..n][i] == es[i];
  }

  /**
   Reading a path of delimiter-free keys after one more entry whose
   combination diverges from all earlier ones: the path of the new entry
   holds its value, a path diverging from it reads as before, and a path on
   the same line as it holds nothing.
   */
  lemma LookupAfterLast<V>(init: seq<Entry<V>>, e: Entry<V>, d: char, q: seq<string>)
    requires |q| >= 1
    requires forall i :: 0 <= i < |init| ==> Diverge(Split(init[i].key, d), Split(e.key, d))
    ensures var p := Split(e.key, d);
      (if TokensFree(q, d) then Lookup(init + [e], Join(q, d)) else None) ==
      if q == p then Some(e.value)
      else if Diverge(p, q) then (if TokensFree(q, d) then Lookup(init, Join(q, d)) else None)
      else None
  {
    var p := Split(e.key, d);
    LookupAppend(init, [e], Join(q, d));
    JoinSplit(e.key, d);
    if TokensFree(q, d) {
      SplitJoin(q, d);
      if HasKey(init, Join(q, d)) {
        var i :| 0 <= i < |init| && init[i].key == Join(q, d);
        DivergeKey(Split(init[i].key, d), p, q);
      }
    }
  }

  /** A path diverging from `p` is not `p`, and one equal to a path diverging from `p` diverges from `p`. */
  lemma DivergeKey(u: seq<string>, p: seq<string>, q: seq<string>)
    requires Diverge(u, p) && u == q
    ensures q != p && Diverge(p, q)
  {
    var n :| 0 <= n < |u| && n < |p| && u[n] != p[n];
    assert p[n] != q[n];
  }

  /**
   After inserting prefix-free entries into an empty forest, a path of
   delimiter-free keys holds the value stored under the key it joins to, and
   any other path holds nothing.
   */
  lemma {:induction false} InsertAllFind<V>(es: seq<Entry<V>>, d: char, q: seq<string>)
    requires PrefixFree(es, d) && |q| >= 1
    ensures Find(InsertAll([], es, d), q) == if TokensFree(q, d) then Lookup(es, Join(q, d)) else None
  {
    if |es| > 0 {
      var n := |es| - 1;
      PrefixFreeInit(es, n, d);
      InsertAllFind(es[..n], d, q);
      InsertFind(InsertAll([], es[..n], d), Split(es[n].key, d), es[n].value, q);
      assert es == es[..n] + [es[n]];
      assert forall i :: 0 <= i < n ==> es[..n][i] == es[i];
      LookupAfterLast(es[..n], es[n], d, q);
    }
  }

  /** `toAssociative`: the forest holding every value at the path of its combination. */
  function ToAssociative<V>(m: CombinationMap<V>): (t: Forest<V>)
    ensures WellFormed(t, m.delimiter)
  {
    InsertAllWellFormed([], m.entries, m.delimiter);
    InsertAll([], m.entries, m.delimiter)
  }

  /** For a prefix-free map, `toAssociative` places each value exactly at the path `toCombination(key)`. */
  lemma ToAssociativeFind<V>(m: CombinationMap<V>, q: seq<string>)
    requires PrefixFree(m.entries, m.delimiter) && |q| >= 1
    ensures Find(ToAssociative(m), q) == if TokensFree(q, m.delimiter) then Get(m, q) else None
  {
    InsertAllFind(m.entries, m.delimiter, q);
  }

  /** Every stored key of a prefix-free map can be read back from its forest under its combination. */
  lemma ToAssociativeKeys<V>(m: CombinationMap<V>, k: string)
    requires PrefixFree(m.entries, m.delimiter)
    ensures Find(ToAssociative(m), ToCombination(m, k)) == Lookup(m.entries, k)
  {
    ToAssociativeFind(m, ToCombination(m, k));
    JoinSplit(k, m.delimiter);
  }

  /** `chainFrom` for one branch: set its leaf, or walk its sub-forest, under `path` extended by its key. */
  function ChainBranch<V>(m: CombinationMap<V>, b: Branch<V>, path: seq<string>): (r: CombinationMap<V>)
    ensures r.delimiter == m.delimiter
    ensures Valid(m) ==> Valid(r)
    decreases b
  {
    match b.tree
    case Leaf(v) => Set(m, path + [b.key], v)
    case Node(bs) => ChainForest(m, bs, path + [b.key])
  }

  /** `chainFrom`: walk a forest in order, setting every leaf under the path of keys leading to it. */
  function ChainForest<V>(m: CombinationMap<V>, bs: Forest<V>, path: seq<string>): (r: CombinationMap<V>)
    ensures r.delimiter == m.delimiter
    ensures Valid(m) ==> Valid(r)
    decreases bs
  {
    if |bs| == 0 then m else ChainForest(ChainBranch(m, bs[0], path), bs[1..], path)
  }

  /**
   `fromAssociative`: a new map holding every leaf of the forest. A scalar
   at the top level is assigned under its own key, which is `toKey` of the
   one-token combination, so it is the same as walking it with an empty path.
   */
  function FromAssociative<V>(a: Forest<V>, d: char): (m: CombinationMap<V>)
    ensures m.delimiter == d && Valid(m)
  {
    ChainForest(Empty(d), a, [])
  }

  /** `c` continues `path` with at least one more token. */
  predicate Below(path: seq<string>, c: seq<string>) {
    |path| < |c| && c[..|path|] == path
  }

  /** A path whose first key no branch has reaches no leaf. */
  lemma {:induction false} FindAbsent<V>(bs: Forest<V>, q: seq<string>)
    requires |q| >= 1 && forall i :: 0 <= i < |bs| ==> bs[i].key != q[0]
    ensures Find(bs, q) == None
  {
    if |bs| > 0 {
      FindAbsent(bs[1..], q);
    }
  }

  /** `ChainForestGet` for one branch. */
  lemma {:induction false} ChainBranchGet<V>(m: CombinationMap<V>, b: Branch<V>, path: seq<string>, c: seq<string>)
    requires Valid(m) && m.delimiter !in b.key && TreeWellFormed(b.tree, m.delimiter)
    requires TokensFree(path, m.delimiter) && |c| >= 1 && TokensFree(c, m.delimiter)
    ensures Get(ChainBranch(m, b, path), c) ==
      if Below(path, c) && c[|path|] == b.key && At(b.tree, c[|path| + 1..]).Some?
      then At(b.tree, c[|path| + 1..]) else Get(m, c)
    decreases b
  {
    var d := m.delimiter;
    var n := |path|;
    var pk := path + [b.key];
    assert TokensFree(pk, d);
    assert Below(pk, c) <==> Below(path, c) && c[n] == b.key && |c| > n + 1 by {
      if Below(path, c) && c[n] == b.key {
        assert c[..n + 1] == c[..n] + [c[n]];
      }
      if Below(pk, c) {
        assert c[..n] == c[..n + 1][..n];
      }
    }
    match b.tree
    case Leaf(v) =>
      GetSet(m, pk, v, c);
      JoinInjective(c, pk, d);
      assert c == pk <==> Below(path, c) && c[n] == b.key && |c| == n + 1 by {
        if Below(path, c) && c[n] == b.key && |c| == n + 1 {
          assert c == c[..n] + [c[n]];
        }
      }
    case Node(bs) =>
      ChainForestGet(m, bs, pk, c);
  }

  /**
   Walking a well-formed forest under `path` into a map: a combination below
   `path` whose remaining keys reach a leaf reads that leaf's value; every
   other delimiter-free combination reads as before.
   */
  lemma {:induction false} ChainForestGet<V>(m: CombinationMap<V>, bs: Forest<V>, path: seq<string>, c: seq<string>)
    requires Valid(m) && WellFormed(bs, m.delimiter)
    requires TokensFree(path, m.delimiter) && |c| >= 1 && TokensFree(c, m.delimiter)
    ensures Get(ChainForest(m, bs, path), c) ==
      if Below(path, c) && Find(bs, c[|path|..]).Some? then Find(bs, c[|path|..]) else Get(m, c)
    decreases bs
  {
    if |bs| > 0 {
      var d := m.delimiter;
      var tail := bs[1..];
      assert WellFormed(tail, d) by {
        assert forall i :: 0 <= i < |tail| ==> tail[i] == bs[i + 1];
      }
      var m1 := ChainBranch(m, bs[0], path);
      ChainBranchGet(m, bs[0], path, c);
      ChainForestGet(m1, tail, path, c);
      if Below(path, c) {
        var q := c[|path|..];
        assert q[0] == c[|path|] && q[1..] == c[|path| + 1..];
        if bs[0].key == q[0] {
          FindAbsent(tail, q);
        }
      }
    }
  }

  /** A map built by `fromAssociative` from a well-formed forest reads every combination from the forest. */
  lemma FromAssociativeGet<V>(a: Forest<V>, d: char, c: seq<string>)
    requires WellFormed(a, d) && |c| >= 1 && TokensFree(c, d)
    ensures Get(FromAssociative(a, d), c) == Find(a, c)
  {
    ChainForestGet(Empty(d), a, [], c);
    assert c[..0] == [] && c[0..] == c;
  }

  /** `bundle`: rebuild the map from its nested view, with the same delimiter. */
  function Bundle<V>(m: CombinationMap<V>): (r: CombinationMap<V>)
    ensures r.delimiter == m.delimiter && Valid(r)
  {
    FromAssociative(ToAssociative(m), m.delimiter)
  }

  /** For a prefix-free map, `bundle` keeps exactly the same key/value pairs (grouped by leading tokens). */
  lemma BundleRoundTrip<V>(m: CombinationMap<V>, k: string)
    requires PrefixFree(m.entries, m.delimiter)
    ensures Lookup(Bundle(m).entries, k) == Lookup(m.entries, k)
  {
    var c := ToCombination(m, k);
    FromAssociativeGet(ToAssociative(m), m.delimiter, c);
    ToAssociativeKeys(m, k);
    JoinSplit(k, m.delimiter);
  }

  /**
   `merge` as written: `array_merge_recursive` of both nested views, rebuilt
   by `fromAssociative` without a delimiter, so the result always uses ','.
   The second view is folded into the first one combination at a time, the
   same step `toAssociative` uses.
   */
  function Merge<V>(m1: CombinationMap<V>, m2: CombinationMap<V>): (r: CombinationMap<V>)
    ensures r.delimiter == DefaultDelimiter && Valid(r)
  {
    FromAssociative(InsertAll(ToAssociative(m1), m2.entries, m2.delimiter), DefaultDelimiter)
  }

  /**
   Merging a map whose delimiter is not ',' and which holds a two-token
   combination with an empty map gives a ','-delimited map: the value is now
   stored under the tokens joined by ',', and the key the map used no longer exists.
   */
  lemma MergeMovesKey<V>(x: string, y: string, v: V, d: char)
    requires d != DefaultDelimiter
    requires d !in x && d !in y && DefaultDelimiter !in x && DefaultDelimiter !in y
    ensures var m := Set(Empty(d), [x, y], v);
      var r := Merge(m, Empty(d));
      && Get(m, [x, y]) == Some(v)
      && r.delimiter != m.delimiter
      && Get(r, [x, y]) == Some(v)
      && Lookup(r.entries, ToKey(m, [x, y])) == None
  {
    var c := [x, y];
    var m := Set(Empty(d), c, v);
    var k := ToKey(m, c);
    assert k == x + [d] + y;
    assert m.entries == [Entry(k, v)];
    SplitJoin(c, d);
    var t := ToAssociative(m);
    assert InsertAll(t, [], d) == t;
    assert m.entries[..0] == [];
    assert t == Insert(InsertAll([], [], d), Split(k, d), v);
    assert t == Insert([], c, v);
    assert Insert([], [y], v) == [Branch(y, Leaf(v))];
    assert t == [Branch(x, Node([Branch(y, Leaf(v))]))];
    assert WellFormed([Branch(y, Leaf(v))], DefaultDelimiter);
    assert WellFormed(t, DefaultDelimiter);
    var r := Merge(m, Empty(d));
    assert r == FromAssociative(t, DefaultDelimiter);
    FromAssociativeGet(t, DefaultDelimiter, c);
    assert Find([Branch(y, Leaf(v))], [y]) == Some(v) by {
      assert [y][1..] == [];
    }
    assert c[1..] == [y];
    assert Find(t, c) == Some(v);
    assert DefaultDelimiter !in k;
    FromAssociativeGet(t, DefaultDelimiter, [k]);
    assert Find(t, [k]) == None by {
      assert |k| > |x|;
    }
    assert ToKey(r, [k]) == k;
  }

  /** The instance with the test fixture's delimiter: `os/linux` becomes `os,linux`. */
  lemma MergeResetsDelimiter()
    ensures var m := Set(Empty('/'), ["os", "linux"], 310);
      var r := Merge(m, Empty('/'));
      Get(m, ["os", "linux"]) == Some(310) && r.delimiter == ',' &&
      Get(r, ["os", "linux"]) == Some(310) && Lookup(r.entries, ToKey(m, ["os", "linux"])) == None
  {
    MergeMovesKey("os", "linux", 310, '/');
  }

  /** `merge` with the receiver's delimiter kept, as the other derived maps do. */
  function MergeKeepingDelimiter<V>(m1: CombinationMap<V>, m2: CombinationMap<V>): (r: CombinationMap<V>)
    ensures r.delimiter == m1.delimiter && Valid(r)
  {
    FromAssociative(InsertAll(ToAssociative(m1), m2.entries, m2.delimiter), m1.delimiter)
  }

  /**
   Merging two maps with the same delimiter whose combinations together are
   prefix-free (so no key is in both): every key reads as in the map that has it.
   */
  lemma MergeContents<V>(m1: CombinationMap<V>, m2: CombinationMap<V>, k: string)
    requires m1.delimiter == m2.delimiter
    requires PrefixFree(m1.entries + m2.entries, m1.delimiter)
    ensures Lookup(MergeKeepingDelimiter(m1, m2).entries, k) ==
      if HasKey(m1.entries, k) then Lookup(m1.entries, k) else Lookup(m2.entries, k)
  {
    var d := m1.delimiter;
    var es := m1.entries + m2.entries;
    InsertAllAppend([], m1.entries, m2.entries, d);
    var c := Split(k, d);
    JoinSplit(k, d);
    InsertAllWellFormed([], es, d);
    FromAssociativeGet(InsertAll([], es, d), d, c);
    InsertAllFind(es, d, c);
    LookupAppend(m1.entries, m2.entries, k);
  }
}
