/**
 The storage under a combination map: a PHP array with string keys, modelled
 as a sequence of key/value entries in insertion order. Assigning to a key
 that is present replaces its value in place; assigning to a new key appends
 an entry. The keys of such an array are pairwise distinct.
 */
module Entries {
  import opened Options

  datatype Entry<V> = Entry(key: string, value: V)

  /** Some entry has key `k`. */
  predicate HasKey<V>(es: seq<Entry<V>>, k: string) {
    exists i :: 0 <= i < |es| && es[i].key == k
  }

  /** No key occurs twice: the invariant of a PHP array. */
  predicate UniqueKeys<V>(es: seq<Entry<V>>) {
    forall i, j :: 0 <= i < j < |es| ==> es[i].key != es[j].key
  }

  /** `i` is the position of the first entry with key `k`. */
  predicate FirstKeyAt<V>(es: seq<Entry<V>>, k: string, i: int) {
    0 <= i < |es| && es[i].key == k && forall j :: 0 <= j < i ==> es[j].key != k
  }

  /** Reading a key (PHP's `array_get`): the value stored under it, or `None` when absent. */
  function Lookup<V>(es: seq<Entry<V>>, k: string): (r: Option<V>)
    ensures r.Some? <==> HasKey(es, k)
    ensures r.Some? ==> Entry(k, r.value) in es
  {
    if |es| == 0 then None
    else if es[0].key == k then Some(es[0].value)
    else
      var r := Lookup(es[1..], k);
      assert HasKey(es[1..], k) ==> HasKey(es, k) by {
        if HasKey(es[1..], k) {
          var i :| 0 <= i < |es[1..]| && es[1..][i].key == k;
          assert es[i + 1].key == k;
        }
      }
      r
  }

  /** In an array with distinct keys, reading a key gives the value of its one entry. */
  lemma {:induction false} LookupAt<V>(es: seq<Entry<V>>, i: nat)
    requires UniqueKeys(es) && i < |es|
    ensures Lookup(es, es[i].key) == Some(es[i].value)
  {
    if i > 0 {
      LookupAt(es[1..], i - 1);
      assert es[1..][i - 1] == es[i];
    }
  }

  /** Reading a key from two arrays laid end to end finds it in the first one when it is there. */
  lemma {:induction false} LookupAppend<V>(a: seq<Entry<V>>, b: seq<Entry<V>>, k: string)
    ensures Lookup(a + b, k) == if HasKey(a, k) then Lookup(a, k) else Lookup(b, k)
  {
    if |a| > 0 {
      assert (a + b)[1..] == a[1..] + b;
      LookupAppend(a[1..], b, k);
      if a[0].key != k && HasKey(a, k) {
        var i :| 0 <= i < |a| && a[i].key == k;
        assert a[1..][i - 1].key == k;
      }
    } else {
      assert a + b == b;
    }
  }

  /** `$array[$k] = $v`: replace the value of a present key in place, or append a new entry. */
  function Store<V>(es: seq<Entry<V>>, k: string, v: V): (r: seq<Entry<V>>)
    ensures !HasKey(es, k) ==> r == es + [Entry(k, v)]
    ensures HasKey(es, k) ==> exists i :: FirstKeyAt(es, k, i) && r == es[i := Entry(k, v)]
  {
    if |es| == 0 then [Entry(k, v)]
    else if es[0].key == k then
      assert FirstKeyAt(es, k, 0);
      es[0 := Entry(k, v)]
    else
      var rest := Store(es[1..], k, v);
      StoreBehindFirst(es, k, v, rest);
      [es[0]] + rest
  }

  /** The shape of `Store` carries over from the tail to an array whose first key differs. */
  lemma StoreBehindFirst<V>(es: seq<Entry<V>>, k: string, v: V, rest: seq<Entry<V>>)
    requires |es| > 0 && es[0].key != k
    requires !HasKey(es[1..], k) ==> rest == es[1..] + [Entry(k, v)]
    requires HasKey(es[1..], k) ==> exists i :: FirstKeyAt(es[1..], k, i) && rest == es[1..][i := Entry(k, v)]
    ensures !HasKey(es, k) ==> [es[0]] + rest == es + [Entry(k, v)]
    ensures HasKey(es, k) ==> exists i :: FirstKeyAt(es, k, i) && [es[0]] + rest == es[i := Entry(k, v)]
  {
    assert HasKey(es, k) <==> HasKey(es[1..], k) by {
      if HasKey(es, k) {
        var i :| 0 <= i < |es| && es[i].key == k;
        assert es[1..][i - 1].key == k;
      }
      if HasKey(es[1..], k) {
        var i :| 0 <= i < |es[1..]| && es[1..][i].key == k;
        assert es[i + 1].key == k;
      }
    }
    if HasKey(es[1..], k) {
      var i :| FirstKeyAt(es[1..], k, i) && rest == es[1..][i := Entry(k, v)];
      assert FirstKeyAt(es, k, i + 1);
      assert [es[0]] + rest == es[i + 1 := Entry(k, v)];
    } else {
      assert [es[0]] + rest == es + [Entry(k, v)];
    }
  }

  /** Storing a present key keeps the size; storing a new key grows it by one. */
  lemma StoreSize<V>(es: seq<Entry<V>>, k: string, v: V)
    ensures |Store(es, k, v)| == if HasKey(es, k) then |es| else |es| + 1
  {
  }

  /** Storing keeps the keys pairwise distinct. */
  lemma StoreUnique<V>(es: seq<Entry<V>>, k: string, v: V)
    requires UniqueKeys(es)
    ensures UniqueKeys(Store(es, k, v))
  {
    var r := Store(es, k, v);
    if HasKey(es, k) {
      var i :| FirstKeyAt(es, k, i) && r == es[i := Entry(k, v)];
      forall a, b | 0 <= a < b < |r|
        ensures r[a].key != r[b].key
      {
        assert r[a].key == es[a].key && r[b].key == es[b].key;
      }
    } else {
      forall a, b | 0 <= a < b < |r|
        ensures r[a].key != r[b].key
      {
        if b == |es| {
          assert r[a] == es[a];
        }
      }
    }
  }

  /** After storing, the key reads back the stored value and every other key reads as before. */
  lemma StoreLookup<V>(es: seq<Entry<V>>, k: string, v: V, k': string)
    requires UniqueKeys(es)
    ensures Lookup(Store(es, k, v), k') == if k' == k then Some(v) else Lookup(es, k')
  {
    var r := Store(es, k, v);
    StoreUnique(es, k, v);
    if k' == k {
      if HasKey(es, k) {
        var i :| FirstKeyAt(es, k, i) && r == es[i := Entry(k, v)];
        LookupAt(r, i);
      } else {
        LookupAt(r, |es|);
      }
    } else if HasKey(es, k') {
      var i :| 0 <= i < |es| && es[i].key == k';
      LookupAt(es, i);
      assert r[i] == es[i];
      LookupAt(r, i);
    } else {
      forall i | 0 <= i < |r|
        ensures r[i].key != k'
      {
        if i < |es| {
          var key := r[i].key;
          assert key == es[i].key || key == k;
        }
      }
    }
  }

  /** `b` is an order-preserving subsequence of `a`. */
  predicate IsSubseq<T(==)>(b: seq<T>, a: seq<T>)
    decreases |a|
  {
    if |b| == 0 then true
    else if |a| == 0 then false
    else if b[0] == a[0] then IsSubseq(b[1..], a[1..])
    else IsSubseq(b, a[1..])
  }

  /** The entries that satisfy `keep`, in their original order (PHP's `array_filter` keeping keys). */
  function Select<V>(es: seq<Entry<V>>, keep: Entry<V> -> bool): (r: seq<Entry<V>>)
    ensures |r| <= |es|
    ensures IsSubseq(r, es)
    ensures forall i :: 0 <= i < |r| ==> r[i] in es && keep(r[i])
    ensures forall i :: 0 <= i < |es| && keep(es[i]) ==> es[i] in r
  {
    if |es| == 0 then []
    else
      var rest := Select(es[1..], keep);
      assert forall i :: 1 <= i < |es| ==> es[i] == es[1..][i - 1];
      if keep(es[0]) then [es[0]] + rest else rest
  }

  /** Selecting from entries with one more at the end selects that entry last, if at all. */
  lemma {:induction false} SelectSnoc<V>(es: seq<Entry<V>>, e: Entry<V>, keep: Entry<V> -> bool)
    ensures Select(es + [e], keep) == Select(es, keep) + (if keep(e) then [e] else [])
  {
    if |es| > 0 {
      assert (es + [e])[1..] == es[1..] + [e];
      SelectSnoc(es[1..], e, keep);
    } else {
      assert (es + [e])[1..] == [];
    }
  }

  /** A subsequence of an array with distinct keys has distinct keys. */
  lemma {:induction false} SubseqUnique<V>(b: seq<Entry<V>>, a: seq<Entry<V>>)
    requires IsSubseq(b, a) && UniqueKeys(a)
    ensures UniqueKeys(b)
    decreases |a|
  {
    if |b| > 0 && |a| > 0 {
      if b[0] == a[0] {
        SubseqUnique(b[1..], a[1..]);
        SubseqMembers(b[1..], a[1..]);
        forall j | 0 < j < |b|
          ensures b[0].key != b[j].key
        {
          assert b[j] == b[1..][j - 1];
          assert b[j] in a[1..];
          var m :| 0 <= m < |a[1..]| && a[1..][m] == b[j];
          assert a[m + 1] == b[j];
        }
      } else {
        SubseqUnique(b, a[1..]);
      }
    }
  }

  /** Every element of a subsequence is an element of the sequence. */
  lemma {:induction false} SubseqMembers<T>(b: seq<T>, a: seq<T>)
    requires IsSubseq(b, a)
    ensures forall x :: x in b ==> x in a
    decreases |a|
  {
    if |b| > 0 && |a| > 0 {
      if b[0] == a[0] {
        SubseqMembers(b[1..], a[1..]);
        assert forall x :: x in b ==> x == b[0] || x in b[1..];
      } else {
        SubseqMembers(b, a[1..]);
      }
      assert forall x :: x in a[1..] ==> x in a;
    }
  }

  /** Selecting twice with the same condition is selecting once. */
  lemma {:induction false} SelectIdempotent<V>(es: seq<Entry<V>>, keep: Entry<V> -> bool)
    ensures Select(Select(es, keep), keep) == Select(es, keep)
  {
    if |es| > 0 {
      SelectIdempotent(es[1..], keep);
      if keep(es[0]) {
        assert ([es[0]] + Select(es[1..], keep))[1..] == Select(es[1..], keep);
      }
    }
  }

  /** A key reads from a selection as in the array when its entry is kept, and as absent otherwise. */
  lemma SelectLookup<V>(es: seq<Entry<V>>, keep: Entry<V> -> bool, k: string)
    requires UniqueKeys(es)
    ensures var r := Lookup(es, k);
      Lookup(Select(es, keep), k) == if r.Some? && keep(Entry(k, r.value)) then r else None
  {
    var s := Select(es, keep);
    SubseqUnique(s, es);
    var r := Lookup(es, k);
    if r.Some? {
      var i :| 0 <= i < |es| && es[i] == Entry(k, r.value);
      LookupAt(es, i);
      if keep(es[i]) {
        var m :| 0 <= m < |s| && s[m] == es[i];
        LookupAt(s, m);
      } else {
        forall m | 0 <= m < |s|
          ensures s[m].key != k
        {
          assert s[m] in es && keep(s[m]);
          var n :| 0 <= n < |es| && es[n] == s[m];
          if n != i {
            assert es[n].key != es[i].key;
          }
        }
      }
    } else {
      forall m | 0 <= m < |s|
        ensures s[m].key != k
      {
        assert s[m] in es;
      }
    }
  }

  /** Selecting when no entry is kept gives nothing. */
  lemma {:induction false} SelectNone<V>(es: seq<Entry<V>>, keep: Entry<V> -> bool)
    requires forall i :: 0 <= i < |es| ==> !keep(es[i])
    ensures Select(es, keep) == []
  {
    if |es| > 0 {
      SelectNone(es[1..], keep);
    }
  }

  /** Selecting when exactly one entry is kept gives that entry alone. */
  lemma {:induction false} SelectOnly<V>(es: seq<Entry<V>>, keep: Entry<V> -> bool, j: nat)
    requires j < |es| && keep(es[j])
    requires forall i :: 0 <= i < |es| && i != j ==> !keep(es[i])
    ensures Select(es, keep) == [es[j]]
  {
    var tail := es[1..];
    if j == 0 {
      SelectNone(tail, keep);
    } else {
      SelectOnly(tail, keep, j - 1);
    }
  }

  /** Selecting when exactly the entries at positions `lo` to `hi` are kept gives that run. */
  lemma {:induction false} SelectRange<V>(es: seq<Entry<V>>, keep: Entry<V> -> bool, lo: nat, hi: nat)
    requires lo <= hi <= |es|
    requires forall i :: 0 <= i < |es| ==> (keep(es[i]) <==> lo <= i < hi)
    ensures Select(es, keep) == es[lo..hi]
  {
    if hi == 0 {
      SelectNone(es, keep);
    } else {
      var tail, lo' := es[1..], if lo == 0 then 0 else lo - 1;
      forall i | 0 <= i < |tail|
        ensures keep(tail[i]) <==> lo' <= i < hi - 1
      {
        assert tail[i] == es[i + 1];
      }
      SelectRange(tail, keep, lo', hi - 1);
      if lo == 0 {
        assert keep(es[0]);
        assert Select(es, keep) == [es[0]] + Select(tail, keep);
        assert es[..hi] == [es[0]] + tail[..hi - 1];
      } else {
        assert !keep(es[0]);
        assert Select(es, keep) == Select(tail, keep);
        assert forall k :: 0 <= k < hi - lo ==> es[lo..hi][k] == tail[lo - 1..hi - 1][k];
      }
    }
  }

  /** `unset($array[$k])`: drop the entry with key `k`, if any. */
  function Remove<V>(es: seq<Entry<V>>, k: string): (r: seq<Entry<V>>)
    ensures IsSubseq(r, es)
    ensures forall i :: 0 <= i < |r| ==> r[i] in es && r[i].key != k
    ensures forall i :: 0 <= i < |es| && es[i].key != k ==> es[i] in r
  {
    Select(es, (e: Entry<V>) => e.key != k)
  }

  /** Removing a key makes it absent, leaves every other key as it was, and shrinks the array only by its entry. */
  lemma RemoveLookup<V>(es: seq<Entry<V>>, k: string, k': string)
    requires UniqueKeys(es)
    ensures UniqueKeys(Remove(es, k))
    ensures Lookup(Remove(es, k), k') == if k' == k then None else Lookup(es, k')
    ensures |Remove(es, k)| == if HasKey(es, k) then |es| - 1 else |es|
  {
    SubseqUnique(Remove(es, k), es);
    SelectLookup(es, (e: Entry<V>) => e.key != k, k');
    RemoveSize(es, k);
  }

  /** A key occurs in a non-empty array when it is the first key or occurs in the rest. */
  lemma HasKeyCons<V>(es: seq<Entry<V>>, k: string)
    requires |es| > 0
    ensures HasKey(es, k) <==> es[0].key == k || HasKey(es[1..], k)
  {
    if HasKey(es, k) && es[0].key != k {
      var i :| 0 <= i < |es| && es[i].key == k;
      assert es[1..][i - 1].key == k;
    }
    if HasKey(es[1..], k) {
      var i :| 0 <= i < |es[1..]| && es[1..][i].key == k;
      assert es[i + 1].key == k;
    }
  }

  /** Behind the first entry of an array with distinct keys, the keys stay distinct and the first key is absent. */
  lemma TailUnique<V>(es: seq<Entry<V>>)
    requires UniqueKeys(es) && |es| > 0
    ensures UniqueKeys(es[1..]) && !HasKey(es[1..], es[0].key)
  {
    var tail := es[1..];
    forall a, b | 0 <= a < b < |tail|
      ensures tail[a].key != tail[b].key
    {
      assert tail[a] == es[a + 1] && tail[b] == es[b + 1];
    }
    HasKeyCons(es, es[0].key);
    forall i | 0 <= i < |tail|
      ensures tail[i].key != es[0].key
    {
      assert tail[i] == es[i + 1];
    }
  }

  /** The size after removing a key, for an array with distinct keys. */
  lemma {:induction false} RemoveSize<V>(es: seq<Entry<V>>, k: string)
    requires UniqueKeys(es)
    ensures |Remove(es, k)| == if HasKey(es, k) then |es| - 1 else |es|
  {
    if |es| > 0 {
      var tail := es[1..];
      TailUnique(es);
      HasKeyCons(es, k);
      RemoveSize(tail, k);
      assert Remove(es, k) == if es[0].key != k then [es[0]] + Remove(tail, k) else Remove(tail, k);
    }
  }

  /** The value of the last entry of `kvs` with key `k`: the one a run of assignments leaves behind. */
  function LastValue<V>(kvs: seq<Entry<V>>, k: string): Option<V> {
    if |kvs| == 0 then None
    else if kvs[|kvs| - 1].key == k then Some(kvs[|kvs| - 1].value)
    else LastValue(kvs[..|kvs| - 1], k)
  }

  /** The last assignment to `k` exists exactly when some entry has key `k`. */
  lemma {:induction false} LastValueHasKey<V>(kvs: seq<Entry<V>>, k: string)
    ensures LastValue(kvs, k).Some? <==> HasKey(kvs, k)
  {
    if |kvs| > 0 && kvs[|kvs| - 1].key != k {
      var init := kvs[..|kvs| - 1];
      LastValueHasKey(init, k);
      if HasKey(kvs, k) {
        var i :| 0 <= i < |kvs| && kvs[i].key == k;
        assert init[i].key == k;
      }
      if HasKey(init, k) {
        var i :| 0 <= i < |init| && init[i].key == k;
        assert kvs[i].key == k;
      }
    }
  }

  /** Assigning the entries of `kvs` one after another, in order, into `acc`. */
  function StoreAll<V>(acc: seq<Entry<V>>, kvs: seq<Entry<V>>): (r: seq<Entry<V>>)
    ensures UniqueKeys(acc) ==> UniqueKeys(r)
    ensures |acc| <= |r| <= |acc| + |kvs|
  {
    if |kvs| == 0 then acc
    else
      var last := kvs[|kvs| - 1];
      var before := StoreAll(acc, kvs[..|kvs| - 1]);
      assert UniqueKeys(before) ==> UniqueKeys(Store(before, last.key, last.value)) by {
        if UniqueKeys(before) {
          StoreUnique(before, last.key, last.value);
        }
      }
      Store(before, last.key, last.value)
  }

  /** After a run of assignments, a key reads as its last assignment, or as before when never assigned. */
  lemma {:induction false} StoreAllLookup<V>(acc: seq<Entry<V>>, kvs: seq<Entry<V>>, k: string)
    requires UniqueKeys(acc)
    ensures Lookup(StoreAll(acc, kvs), k) == if LastValue(kvs, k).Some? then LastValue(kvs, k) else Lookup(acc, k)
  {
    if |kvs| > 0 {
      var last := kvs[|kvs| - 1];
      StoreAllLookup(acc, kvs[..|kvs| - 1], k);
      StoreLookup(StoreAll(acc, kvs[..|kvs| - 1]), last.key, last.value, k);
    }
  }

  /** The keys of `kvs` are pairwise distinct and none of them is in `acc`. */
  predicate FreshKeys<V>(acc: seq<Entry<V>>, kvs: seq<Entry<V>>) {
    UniqueKeys(kvs) && forall i :: 0 <= i < |kvs| ==> !HasKey(acc, kvs[i].key)
  }

  /** Assigning pairwise distinct new keys appends them in order. */
  lemma {:induction false} StoreAllFresh<V>(acc: seq<Entry<V>>, kvs: seq<Entry<V>>)
    requires FreshKeys(acc, kvs)
    ensures StoreAll(acc, kvs) == acc + kvs
  {
    if |kvs| > 0 {
      var n := |kvs| - 1;
      var init := kvs[..n];
      assert FreshKeys(acc, init) by {
        forall i | 0 <= i < |init|
          ensures !HasKey(acc, init[i].key)
        {
          assert init[i] == kvs[i];
        }
      }
      StoreAllFresh(acc, init);
      forall i | 0 <= i < |acc + init|
        ensures (acc + init)[i].key != kvs[n].key
      {
        if i < |acc| {
          assert (acc + init)[i] == acc[i];
        } else {
          assert (acc + init)[i] == kvs[i - |acc|];
        }
      }
      assert acc + init + [kvs[n]] == acc + kvs;
    }
  }

  /** The values of the entries, in order (PHP's `array_values`). */
  function Values<V>(es: seq<Entry<V>>): seq<V>
  {
    seq(|es|, i requires 0 <= i < |es| => es[i].value)
  }

  /** The keys of the entries, in order. */
  function Keys<V>(es: seq<Entry<V>>): seq<string>
  {
    seq(|es|, i requires 0 <= i < |es| => es[i].key)
  }
}
