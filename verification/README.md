# CombinationMap in Dafny

A model of `CombinationMap`, a PHP map whose keys are *combinations*: sequences of
string tokens such as `['os', 'linux', 'ubuntu']`. Internally the class keeps an
ordinary PHP array keyed by the *flat key* of each combination: its tokens glued
together with the map's delimiter (`os/linux/ubuntu` for the delimiter `/`). The
model covers the following:

- the flat-key codec: `toKey` is `implode` and `toCombination` is `explode`;
- the array operations: `set`, `get`, `exist`, `apply`, `erase`, `size` and `values`;
- the derived maps: `map`, `filter`, `shave` and `part`, which `startWith`, `endWith`
  and `have` call;
- the fold `reduce`;
- the two exchange formats, each read in and written out:
  - nested associative arrays: `fromAssociative`/`chainFrom` read them and
    `toAssociative` writes them;
  - row lists: `fromArrays` reads them and `toArrays` writes them;
- the two operations built on top of those formats: `bundle` and `merge`.

Layout:

- `options.dfy`: `Option`. PHP's `null` for a missing entry is `None`.
- `codec.dfy` (module `Codec`): `Join` and `Split` model `implode` and `explode` on a
  one-character delimiter. The module proves their round trips and the
  token-alignment facts the pattern laws need.
- `pattern.dfy` (module `Pattern`): what the compiled regular expressions match.
  - `escape` makes the exact token `*` into `[^D]*`. Every other token is quoted.
  - `part` anchors the joined pattern as `^R`, `R$` or `^RD|DR$|DRD|^R$`.
  - `shave` deletes a `^RD` match.
  - Instead of a regular-expression engine, the module defines the language of
    each anchored expression directly over the characters of a key.
  - The expressions carry no `D` modifier, so PCRE's `$` holds at the end of the
    key and also just before a final newline. `EndsWith` and `Includes` model
    this. `MatchesToEnd` and `IncludesToEnd` read `$` as the very end only (`\z`),
    and the `$` forms are stated in terms of them.
- `pattern_laws.dfy` (module `PatternLaws`): each character-level query stated in
  terms of the key's tokens, proved in both directions.
- `entries.dfy` (module `Entries`): an ordered PHP array with string keys.
  - Assignment keeps an existing key in its place and appends a new one.
  - `unset` drops the key.
  - Filtering keeps the order.
  - A run of assignments leaves the last value behind.
- `combination_map.dfy` (module `CombinationMaps`): the class itself.
- `associative.dfy` (module `Associative`): nested associative arrays as a tree of
  ordered branches. It holds `toAssociative`, `fromAssociative`/`chainFrom`,
  `bundle` and `merge`.
- `scenarios.dfy` (module `Scenarios`): the fixture of `CombinationMapTest.php`
  (eight `/`-delimited combinations of browsers and operating systems). It states
  what each test expects of the fixture as a lemma about the model.

The map is a value: `set`, `apply` and `erase` return the updated map instead of
mutating `$this`. `baby` (lines 184-189) is the record update that swaps in new
entries and keeps the delimiter. The contracts of `map`, `filter`, `shave` and
`part` state that the delimiter is kept. `startWith`, `endWith` and `have` carry no
contract of their own: each is `part` with a fixed query kind, and its laws are
the lemmas about `part` and the token-level lemmas below.

The helpers from `php-utils` are not part of this model. They are read as follows:

- `array_get` returns the value or `null`;
- `array_shoe` appends one element;
- `array_depeditate` splits off the last element;
- `follow_join` joins and then appends the separator;
- `wrap($r, $d)` is `$d . $r . $d`.

Where the prose description of the class and the code differ, the model follows
the code:

- `startWith` and `endWith` are not token-aligned at their open end. The last
  pattern token of `startWith` only has to match a *prefix* of the key's next
  token, so `startWith(['os', 'lin'])` keeps `os/linux/...`. Symmetrically, the
  first pattern token of `endWith` only has to match a *suffix* of a token.
- The wildcard `[^D]*` also matches an empty token.

## Model

| member | source | states |
|---|---|---|
| Codec.JoinSplit | CombinationMap.class.php:191-201 | `toKey(toCombination(k)) == k`: every flat key is given back by its combination |
| Codec.SplitJoin | CombinationMap.class.php:191-201 | a non-empty combination of delimiter-free tokens is recovered from its flat key |
| Codec.SplitSingle | CombinationMap.class.php:196-201 | `explode` gives a single token exactly when the key has no delimiter, and then that token is the key |
| Codec.JoinInjective | CombinationMap.class.php:191-194 | two non-empty delimiter-free combinations share a flat key only when they are equal |
| Codec.JoinAppend | CombinationMap.class.php:191-194 | the key of a concatenation is the two keys with a delimiter between them |
| Codec.SplitAppend | CombinationMap.class.php:196-201 | exploding two keys joined by a delimiter gives the tokens of the first followed by those of the second |
| Pattern.Escape | CombinationMap.class.php:241-244 | exactly the tokens equal to `*` become the wildcard, every other token stays a literal of itself, and the length is kept |
| Pattern.ShaveKey | CombinationMap.class.php:131-136 | when the `^RD` expression matches, the key loses the match and the delimiter after it; otherwise the key is unchanged |
| PatternLaws.EscapeDelimiterFree | CombinationMap.class.php:241-244 | escaping delimiter-free tokens gives delimiter-free literals |
| PatternLaws.StartsWithTokens | CombinationMap.class.php:213-217 | `^R` matches a key exactly when all pattern tokens but the last match the key's first tokens one to one and the last one matches a prefix of the next token |
| PatternLaws.ToEndTokens | CombinationMap.class.php:213-220 | `R\z` matches exactly when all pattern tokens but the first match the key's last tokens and the first matches a suffix of the token before them |
| PatternLaws.EndsWithTokens | CombinationMap.class.php:213-220 | `R$` matches exactly when that tail condition holds for the key's tokens, or, for a key ending in a newline, for the tokens of the key without it |
| PatternLaws.IncludesToEndTokens | CombinationMap.class.php:221-226 | with `$` read as the very end, the 'include' expression matches exactly when some run of consecutive key tokens matches the pattern token for token |
| PatternLaws.IncludesChomp | CombinationMap.class.php:221-226 | the 'include' expression matches a key exactly when its very-end reading matches the key, or the key without its final newline |
| PatternLaws.IncludesTokens | CombinationMap.class.php:221-226 | the 'include' expression matches exactly when some run of consecutive tokens matches the pattern, in the key or, for a key ending in a newline, in the key without it |
| PatternLaws.StartsWithLiteral | CombinationMap.class.php:213-217 | without a wildcard, `^R` is "the key begins with `toKey(c)`" |
| PatternLaws.ToEndLiteral | CombinationMap.class.php:218-220 | without a wildcard, `R\z` is "the key ends with `toKey(c)`" |
| PatternLaws.EndsWithLiteral | CombinationMap.class.php:218-220 | without a wildcard, `R$` is "the key ends with `toKey(c)`, possibly followed by one final newline" |
| PatternLaws.EmptyPatternMatchesAll | CombinationMap.class.php:213-220 | the empty partial combination anchored left or right matches every key |
| PatternLaws.ShaveTokens | CombinationMap.class.php:131-136 | shaving a key drops its first tokens when they match the pattern one to one and more tokens follow, and otherwise leaves it as it is |
| Entries.Lookup | CombinationMap.class.php:77-80 | a read finds a value exactly when the key is present, and the entry read is in the array |
| Entries.LookupAt | CombinationMap.class.php:77-80 | in an array with distinct keys, the key at any position reads that position's value |
| Entries.Store | CombinationMap.class.php:72-75 | assigning a new key appends it; assigning a present key replaces the value at the key's first position |
| Entries.StoreSize | CombinationMap.class.php:72-75 | an assignment grows the array by one exactly when the key is new |
| Entries.StoreUnique | CombinationMap.class.php:72-75 | assignment keeps keys distinct |
| Entries.StoreLookup | CombinationMap.class.php:72-75 | after an assignment the key reads the new value and every other key reads as before |
| Entries.StoreAllLookup | CombinationMap.class.php:55-64 | after a run of assignments, each key reads the last value assigned to it, or its old value if none was |
| Entries.StoreAllFresh | CombinationMap.class.php:55-64 | assigning distinct fresh keys in order appends them in that order |
| Entries.SelectLookup | CombinationMap.class.php:232-237 | a key survives a selection exactly when its entry is kept, with its value unchanged |
| Entries.SelectIdempotent | CombinationMap.class.php:232-237 | selecting twice with the same test is selecting once |
| Entries.RemoveLookup | CombinationMap.class.php:95-98 | `unset` makes the key absent, leaves every other key as it was and shrinks the array by one exactly when the key was present |
| CombinationMaps.Empty | CombinationMap.class.php:21-29 | a new map is empty, valid and keeps its delimiter |
| CombinationMaps.Exist | CombinationMap.class.php:82-85 | `exist` holds exactly when `get` finds a value |
| CombinationMaps.Set | CombinationMap.class.php:72-75 | `set` grows the map by one exactly for a new combination, appends it last, and keeps keys distinct |
| CombinationMaps.GetSet | CombinationMap.class.php:72-80 | after `set(c, v)`, `get(c)` is `v` and every combination with a different key reads as before |
| CombinationMaps.SetInPlace | CombinationMap.class.php:72-75 | setting a present combination changes only the value at its own position |
| CombinationMaps.Erase | CombinationMap.class.php:95-98 | the result keeps the map's order and no longer holds the erased key |
| CombinationMaps.GetErase | CombinationMap.class.php:95-98 | after `erase(c)`, `get(c)` is null, other combinations read as before, and the size drops by one exactly when `c` existed |
| CombinationMaps.EraseAbsent | CombinationMap.class.php:95-98 | erasing a missing combination changes nothing |
| CombinationMaps.Apply | CombinationMap.class.php:87-93 | `apply` keeps the size of a present combination and adds one for a missing one |
| CombinationMaps.GetApply | CombinationMap.class.php:87-93 | after `apply(c, f)`, `get(c)` is `f` of the old value (`f(null)` when missing); other combinations are untouched |
| CombinationMaps.ValuesInOrder | CombinationMap.class.php:100-103 | the i-th value is what `get` reads for the i-th key |
| CombinationMaps.Map | CombinationMap.class.php:110-115 | `map` keeps every key in place and applies the closure to its value |
| CombinationMaps.GetMap | CombinationMap.class.php:110-115 | after `map(f)`, a stored combination reads `f` of its value and a missing one stays missing |
| CombinationMaps.ValuesMap | CombinationMap.class.php:110-115 | the values of `map(f)` are `f` applied to the values, in order |
| CombinationMaps.Filter | CombinationMap.class.php:124-129 | `filter` keeps, in order, exactly the entries whose value passes the closure |
| CombinationMaps.GetFilter | CombinationMap.class.php:124-129 | after `filter(p)`, a combination reads its value when that value passes `p`, and null otherwise |
| CombinationMaps.Reduce | CombinationMap.class.php:117-122 | the loop returns the left fold of the closure over the values in insertion order, from the initial value |
| CombinationMaps.FoldLeftOfFilter | CombinationMap.class.php:117-129 | `reduce` of `filter(p)` is `reduce` of the whole map with a step that passes over the values `p` rejects |
| CombinationMaps.FoldLeftKeepAll | CombinationMap.class.php:117-129 | a filter that rejects nothing does not change what `reduce` returns |
| CombinationMaps.Part | CombinationMap.class.php:211-239 | `part` keeps, in order, exactly the entries whose key the anchored expression matches |
| CombinationMaps.PartLookup | CombinationMap.class.php:232-238 | a key reads its old value in the result when the expression matches it, and null otherwise |
| CombinationMaps.PartOnly | CombinationMap.class.php:232-238 | when a single entry matches, the result is that entry alone |
| CombinationMaps.PartRange | CombinationMap.class.php:232-238 | when exactly the entries at positions `lo` to `hi` match, the result is that run of entries, in order |
| Entries.SelectRange | CombinationMap.class.php:232-237 | filtering an array whose kept entries form one contiguous run gives exactly that run |
| CombinationMaps.PartIdempotent | CombinationMap.class.php:211-239 | repeating a query on its own result changes nothing |
| CombinationMaps.StartWithEndWithEmpty | CombinationMap.class.php:141-149 | `startWith([])` and `endWith([])` return the whole map |
| CombinationMaps.StartWithTokens | CombinationMap.class.php:141-144 | `startWith(c)` keeps a key exactly when its tokens begin with `c`, the last token of `c` matching a prefix of a token |
| CombinationMaps.EndWithTokens | CombinationMap.class.php:146-149 | `endWith(c)` keeps a key exactly when its tokens end with `c`, the first token of `c` matching a suffix of a token; a key ending in a newline is also kept when the key without it passes |
| CombinationMaps.StartWithLiteral | CombinationMap.class.php:141-144 | without a wildcard, `startWith(c)` keeps exactly the keys that begin with `toKey(c)` |
| CombinationMaps.EndWithLiteral | CombinationMap.class.php:146-149 | without a wildcard, `endWith(c)` keeps exactly the keys that end with `toKey(c)`, possibly followed by one final newline |
| CombinationMaps.HaveTokens | CombinationMap.class.php:151-154 | `have(c)` keeps a key exactly when some run of its tokens matches `c` token for token, or, for a key ending in a newline, some run of the tokens of the key without it |
| CombinationMaps.Shave | CombinationMap.class.php:131-139 | the shaved map keeps the delimiter, has distinct keys and is no larger than the original |
| CombinationMaps.ShaveLookup | CombinationMap.class.php:134-137 | a shaved key reads the value of the last entry rewritten to it, so colliding entries overwrite one another |
| CombinationMaps.ShaveKeepsEntries | CombinationMap.class.php:134-137 | every rewritten key is present in the result, and every result entry comes from some original entry |
| CombinationMaps.ShaveWithoutCollisions | CombinationMap.class.php:134-138 | when no rewritten keys collide, the result is the rewritten entries in their original order |
| CombinationMaps.ShaveKeyTokens | CombinationMap.class.php:131-136 | in tokens, a key loses its first `|c|` tokens when they match `c` and more tokens follow |
| CombinationMaps.ToArrays | CombinationMap.class.php:164-171 | one row per entry, in order; each row holds the entry's exploded key, which joins back to that key, and the entry's value |
| CombinationMaps.FromArrays | CombinationMap.class.php:55-64 | the result has the given delimiter, distinct keys and at most one entry per row |
| CombinationMaps.GetFromArrays | CombinationMap.class.php:55-64 | a combination reads the value of the last row whose combination has its key |
| CombinationMaps.ExistFromArrays | CombinationMap.class.php:55-64 | for rows of non-empty delimiter-free combinations, repeats allowed, a delimiter-free combination exists exactly when some row carries it |
| CombinationMaps.FromArraysEntries | CombinationMap.class.php:55-64 | well-formed rows become one entry each, in row order |
| CombinationMaps.ArraysRoundTrip | CombinationMap.class.php:55-171 | `fromArrays(toArrays(m))` rebuilds `m` exactly, order included |
| CombinationMaps.RowsRoundTrip | CombinationMap.class.php:55-171 | `toArrays(fromArrays(rows))` gives the rows back when their combinations are distinct and delimiter-free |
| Associative.Insert | CombinationMap.class.php:159-161 | merging one chain into a nested array keeps existing keys in place and appends a new first key at the end |
| Associative.InsertFind | CombinationMap.class.php:159-161 | after merging a chain, its path reads the new value, paths that diverge from it read as before, and the paths it overwrote read nothing |
| Associative.InsertWellFormed | CombinationMap.class.php:159-161 | merging a delimiter-free chain keeps a nested array well formed, with distinct keys on every level |
| Associative.InsertAllFind | CombinationMap.class.php:157-162 | for prefix-free keys, the nested array holds at each path exactly the value of the entry whose key that path joins to |
| Associative.ToAssociative | CombinationMap.class.php:157-162 | `toAssociative` builds a well-formed nested array |
| Associative.ToAssociativeFind | CombinationMap.class.php:157-162 | for prefix-free keys, reading a path of `toAssociative()` is `get` of that combination |
| Associative.ToAssociativeKeys | CombinationMap.class.php:157-162 | for prefix-free keys, reading the exploded key of `toAssociative()` gives the entry stored under that key |
| Associative.ChainBranch | CombinationMap.class.php:43-53 | `chainFrom` keeps the delimiter and keeps keys distinct |
| Associative.ChainForestGet | CombinationMap.class.php:43-53 | after `chainFrom(a, path)`, a combination below `path` reads the leaf of `a` at the rest of it, and any other combination reads as before |
| Associative.FromAssociative | CombinationMap.class.php:31-42 | `fromAssociative` builds a valid map with the given delimiter |
| Associative.FromAssociativeGet | CombinationMap.class.php:31-53 | `get(c)` on `fromAssociative(a)` reads the leaf of `a` at the path `c` |
| Associative.Bundle | CombinationMap.class.php:173-176 | `bundle` keeps the delimiter and gives a valid map |
| Associative.BundleRoundTrip | CombinationMap.class.php:173-176 | for prefix-free keys, `bundle` keeps every key's value |
| Associative.Merge | CombinationMap.class.php:178-181 | `merge` gives a valid map whose delimiter is always `,` |
| Associative.MergeMovesKey | CombinationMap.class.php:180 | merging a map with delimiter other than `,` keeps `get` working but moves its flat keys, so the old key reads nothing |
| Associative.MergeResetsDelimiter | CombinationMap.class.php:180 | `os/linux -> 310` in a `/` map comes out of `merge` under `os,linux` |
| Associative.MergeKeepingDelimiter | CombinationMap.class.php:178-181 | the corrected `merge` keeps the first map's delimiter |
| Associative.MergeContents | CombinationMap.class.php:178-181 | for prefix-free keys, the merged map holds every key of both maps with its value |
| Scenarios.FixtureEntries | CombinationMapTest.php:8-18 | the fixture holds one entry per row, in order, and each key explodes back to its combination |
| Scenarios.SetAndSizeScenario | CombinationMapTest.php:47-55 | after setting the first `n` fixture rows the size is `n` |
| Scenarios.GetScenario | CombinationMapTest.php:60-64 | every fixture combination reads its value |
| Scenarios.GetEmptyScenario | CombinationMapTest.php:65 | `get([])` is null |
| Scenarios.ExistScenario | CombinationMapTest.php:72-76 | every fixture combination exists |
| Scenarios.AbsentScenario | CombinationMapTest.php:77 | `blowser/opera` does not exist |
| Scenarios.ApplyScenario | CombinationMapTest.php:83-91 | applying the doubling closure doubles a combination's value |
| Scenarios.ValuesScenario | CombinationMapTest.php:109-112 | `values()` is `[10, 20, 30, 100, 200, 310, 320, 330]` |
| Scenarios.MapScenario | CombinationMapTest.php:125-132 | `map` with the tripling closure triples every value |
| Scenarios.ArraysScenario | CombinationMapTest.php:165-168 | the fixture's `toArrays()` is the rows it was built from |
| Scenarios.ShaveScenario | CombinationMapTest.php:183-190 | `shave(['os', 'linux'])` keeps all eight values; `os/linux/x` moves to `x` and the rest stay put |
| Scenarios.ToAssociativeScenario | CombinationMapTest.php:146-150 | the nested array of the fixture holds each row's value at the path of its combination |
| Scenarios.FixturePrefixFree | CombinationMapTest.php:8-17 | no fixture combination is a proper prefix of another, so any two part at some position |
| Scenarios.StartWithBlowserScenario | CombinationMapTest.php:197 | `startWith(['blowser'])` is the three browser entries, in order |
| Scenarios.StartWithOsLinuxScenario | CombinationMapTest.php:198 | `startWith(['os', 'linux'])` is the three `os/linux/x` entries, in order |
| Scenarios.StartWithScenario | CombinationMapTest.php:199-200 | `startWith(['os', '*', 'ubuntu'])` is the single entry `os/linux/ubuntu -> 310` |
| Scenarios.FixtureKeyEnd | CombinationMapTest.php:8-18 | no fixture key ends in a newline |
| Scenarios.EndWithScenario | CombinationMapTest.php:206-210 | `endWith(['ubuntu'])` is the single entry `os/linux/ubuntu -> 310` |

## Left out

- `sum` (line 105) is left out: it is `array_sum`, which does PHP numeric coercion. `dump` (line 247) is left out: it only prints.
- Argument checks are left out. These are the `ensure_*` calls and the exception for an unknown query kind. Callable checks cannot fail in a typed model, and `Side` has exactly three cases.
- The delimiter is a single character. A multi-character delimiter, `preg_quote` and the `/u` flag are left out.
- A pattern literal that contains the delimiter is left out. The token-level laws require delimiter-free tokens. The character-level definitions in `Pattern` still cover such literals.
- The empty partial combination is left out for `have` and `shave`. What they match then depends on `wrap` and `follow_join`, which are not part of this model. Their token-level lemmas require at least one token. For `startWith` and `endWith` the empty case is modelled: `CombinationMaps.StartWithEndWithEmpty`.
- Numeric-string keys are left out. PHP turns a key such as `"10"` into an integer. `array_merge_recursive` then renumbers such keys instead of merging them. The model keeps all keys as strings.
- PHP's `get` cannot tell a stored `null` from a missing entry; the model keeps them apart (`Some(v)` against `None`).
- Associative.InsertFind: `array_merge_recursive` does not overwrite when two chains meet at a key. It gathers the clashing values into a list. The model overwrites instead, with the later chain winning. This happens when one combination is a proper prefix of another, or when both maps of `merge` hold the same combination. The contracts of `toAssociative`, `bundle` and `merge` therefore assume prefix-free keys (`PrefixFree`).
- Associative.BundleRoundTrip: map values are assumed not to be arrays. `fromAssociative` and `chainFrom` (lines 34-35 and 46-47) recurse into an array value, so PHP would flatten it into deeper keys; the model's values are opaque.
- Associative.MergeContents: map values are assumed not to be arrays, for the same reason as `Associative.BundleRoundTrip`.
- Associative.Merge: `merge` is modelled as merging the chains of the second map into the first map's nested array. This is the same as `array_merge_recursive` of the two nested arrays whenever the keys do not clash.
- Associative.FromAssociative: a scalar at the top level is assigned under its own key. That is the same as `set` of the one-token combination, which is how the model writes it.
- `toCombination('')` is `['']`, not `[]`. So `toKey` loses the difference between `[]` and `['']`. `Codec.EmptyCombinationNotRecovered` records this. The round-trip contracts require non-empty combinations.
- The `php-utils` helpers (`array_get`, `array_shoe`, `array_depeditate`, `follow_join`, `wrap`, `aoa_set`, `array_reduce_with_key`) are not part of this model. They are read as described above.

## Findings

| source | as written | input that shows it | evidently intended | confidence | as-written member | corrected member |
|---|---|---|---|---|---|---|
| CombinationMap.class.php:180 | `merge` calls `fromAssociative` without a delimiter, so the merged map always uses `,` | a `/`-delimited map holding `os/linux -> 310`, merged with an empty `/` map: the result's delimiter is `,`, its key is `os,linux`, and the key `os/linux` reads nothing | pass `$this->delimiter`, as `bundle` does on line 175 | medium, not executed | Associative.MergeMovesKey | Associative.MergeKeepingDelimiter |
