# Bimap — a verified model of `cmap::Bimap`

This project models the C++ header-only container `cmap::Bimap<TypeKey, TypeValue>`
(`lib/bimap.h`), a bidirectional map that keeps two `std::map` members side by side:
`m_map`, the forward index from key to value, and `m_mapInversed`, the inverse index from
value to key. The model is the class `CMap.Bimap` with two fields, `fwd: map<K, V>` and
`inv: map<V, K>`, that its methods reassign in place, just as the C++ methods update the
two members.

- `bimap.dfy`, module `CMap`: the class. Its constructors, `Clear`, `Insert`, `InsertNode`
  and `Erase` state the whole new state of both indices in terms of the old one. `IsEmpty`,
  `Size`, `GetValue` and `GetKey` are read-only functions.
- `bimap_indices.dfy`, module `BimapIndices`: what it means for the two indices to agree
  (`Transposed`). It also holds the lemmas about one write to each index and about building
  the container from a list of pairs.
- `traversal.dfy`, module `Traversal`: the order in which the iterators visit the forward
  index. `InOrder(fwd, lt)` is the `begin`-to-`end` order and `InReverseOrder(fwd, lt)` the
  `rbegin`-to-`rend` order. The strict total order `lt` stands in for the key type's
  comparison. The module proves that the ascending order of a finite key set exists and
  is unique.
- `wrappers.dfy`, module `Wrappers`: `Option`. `None` stands for the `std::out_of_range`
  that `getValue` and `getKey` throw.
- `scenarios.dfy`, module `BimapScenarios`: client code that relies on the contracts
  alone. It states the expectations of the unit tests in `tests/bimap_tests.cpp` as
  assertions about the fixture `{1: "ONE", 2: "TWO", 3: "THREE"}`, proved from those
  contracts. It also covers erasing a key twice, overwriting a key, stealing a value and
  traversal order. The methods `SearchByValidKeys`, `InsertNewItem`, `ClearResets`,
  `OverwriteKey`, `StealValue` and `TraverseFixture` are callers of the model, written
  like the unit tests: they have no contract of their own and model nothing in
  `lib/bimap.h`, so they have no row in the table below.

## Where the code and the usual bimap contract differ

A bimap is usually described as keeping its two indices exact transposes after every
operation, and some descriptions say that re-inserting an existing key removes the old
value's inverse entry. `insert` (`lib/bimap.h:178-183`) does not do that. It only performs
`m_map[key] = value` and `m_mapInversed[value] = key`. The model follows the code:

- Overwriting the value of a present key leaves the old value resolving to that key
  (`BimapIndices.OverwriteLeavesStaleInverse`; `BimapScenarios.OverwriteKey` shows that
  `getKey("ONE")` still returns 1 after `insert(1, "UN")`).
- Writing a value held by another key leaves that key's forward entry in place
  (`BimapIndices.StolenValueKeepsForward`, `BimapScenarios.StealValue`).
- So `Transposed` is not a class invariant. `Insert` states exactly when it survives the
  write (`BimapIndices.InsertTransposedIff`). `Erase` and `Clear` always preserve it, and so
  does the initializer-list constructor when the list repeats no key and no value.

## Model

| member | source | states |
|---|---|---|
| `CMap.Bimap.constructor` | lib/bimap.h:89-96 | The default-constructed container has empty forward and inverse indices. Its indices agree, `IsEmpty()` holds and `Size()` is 0. |
| `CMap.Bimap.FromList` | lib/bimap.h:98-119 | The container built from a list equals inserting its pairs one by one, in list order, into empty indices. When the list repeats no key and no value, the indices agree and `Size()` is the list's length. |
| `CMap.Bimap.IsEmpty` | lib/bimap.h:121-131 | True exactly when the forward index is empty. When the indices agree, that is also exactly when the inverse index is empty. |
| `CMap.Bimap.Size` | lib/bimap.h:133-143 | Zero exactly when the forward index is empty. When the indices agree, it also equals the inverse index's entry count. |
| `CMap.Bimap.Clear` | lib/bimap.h:157-168 | Both indices become empty. Afterwards the indices agree, `IsEmpty()` holds and `Size()` is 0. |
| `CMap.Bimap.Insert` | lib/bimap.h:170-183 | The forward index gets key -> value and the inverse index gets value -> key. Every other entry stays. `GetValue(key)` then returns the value and `GetKey(value)` returns the key. Size grows by one only for a new key. Agreeing indices keep agreeing exactly when neither write replaces a disagreeing entry. |
| `CMap.Bimap.InsertNode` | lib/bimap.h:185-201 | Inserting a (key, value) pair does exactly what `Insert(key, value)` does to both indices. |
| `CMap.Bimap.Erase` | lib/bimap.h:203-222 | An absent key leaves both indices unchanged. For a present key, the key leaves the forward index and exactly the value recorded under it leaves the inverse index, so `Size()` drops by one and the old value no longer resolves. `GetValue(key)` then fails. Agreeing indices keep agreeing. |
| `CMap.Bimap.GetValue` | lib/bimap.h:224-239 | Succeeds exactly when the key is in the forward index, and then returns the value stored under it. Otherwise it fails, standing for `std::out_of_range`. |
| `CMap.Bimap.GetKey` | lib/bimap.h:241-256 | Succeeds exactly when the value is in the inverse index, and then returns the key stored under it. Otherwise it fails. |
| `CMap.Bimap.KeyRoundTrip` | lib/bimap.h:235-256 | When the indices agree, looking up the value of a present key and then that value's key returns the original key. |
| `CMap.Bimap.ValueRoundTrip` | lib/bimap.h:235-256 | When the indices agree, looking up the key of a present value and then that key's value returns the original value. |
| `BimapIndices.TransposedSameSize` | lib/bimap.h:139-143 | Two transposed indices have the same number of entries, so counting the forward index alone gives the size of both. |
| `BimapIndices.InsertTransposedIff` | lib/bimap.h:178-183 | The two writes of `insert` keep transposed indices transposed if and only if the key is new or already holds that value, and the value is new or already resolves to that key. |
| `BimapIndices.OverwriteLeavesStaleInverse` | lib/bimap.h:170-183 | Giving a present key a different value leaves the old value resolving to that key, and the indices stop being transposed. |
| `BimapIndices.StolenValueKeepsForward` | lib/bimap.h:178-183 | Writing a value held by another key leaves that key's forward entry pointing at the value while the value resolves to the new key, so the indices stop being transposed. |
| `BimapIndices.ErasePreservesTransposed` | lib/bimap.h:210-222 | Removing a present key and its recorded value keeps transposed indices transposed, and each index loses exactly one entry. |
| `BimapIndices.BuiltFwd` | lib/bimap.h:113-119 | The forward index built from a list holds exactly the keys of the list. |
| `BimapIndices.BuiltInv` | lib/bimap.h:113-119 | The inverse index built from a list holds exactly the values of the list. |
| `BimapIndices.BuiltFwdLastWins` | lib/bimap.h:113-119 | In the list, the last pair carrying a key decides that key's value, so a later duplicate key overwrites an earlier one. |
| `BimapIndices.BuiltInvLastWins` | lib/bimap.h:113-119 | In the list, the last pair carrying a value decides which key that value resolves to. |
| `BimapIndices.BuiltOneToOne` | lib/bimap.h:113-119 | A list with no repeated key and no repeated value builds transposed indices with one entry per pair. |
| `Traversal.Ascending` | lib/bimap.h:258-269 | The ascending order of a finite key set lists each key exactly once, in strictly ascending order. |
| `Traversal.AscendingUnique` | lib/bimap.h:258-269 | Any strictly ascending listing of exactly the keys is the ascending order, so the keys alone fix the traversal order. |
| `Traversal.InOrder` | lib/bimap.h:258-282 | Forward traversal of the forward index (`begin` to `end`) visits every entry exactly once with its stored value, in strictly ascending key order. It is empty exactly when the map is empty, so `begin` equals `end`. |
| `Traversal.InReverseOrder` | lib/bimap.h:284-314 | Reverse traversal (`rbegin` to `rend`) visits as many entries as the map holds. Its i-th entry is the (n-1-i)-th of the forward traversal, so it starts at the entry with the largest key. Its keys are strictly descending. `rbegin` equals `rend` exactly when the map is empty. |
| `Traversal.InReverseOrderHoldsAll` | lib/bimap.h:284-314 | Reverse traversal visits every entry `(k, m[k])` of the map. |
| `BimapScenarios.NumberToString` | tests/bimap_tests.cpp:18-28 | Building from `{1,"ONE"},{2,"TWO"},{3,"THREE"}` gives exactly those three forward and inverse entries. The indices agree and the size is 3. |
| `BimapScenarios.FixtureBuilt` | tests/bimap_tests.cpp:22-27 | The fixture's initialisation list builds exactly the forward entries 1 -> "ONE", 2 -> "TWO", 3 -> "THREE" and the matching inverse entries, and they agree. |
| `BimapScenarios.FixtureForward` | lib/bimap.h:258-282 | A forward index whose keys are 1, 2 and 3 is traversed forward as (1, v1), (2, v2), (3, v3). |
| `BimapScenarios.FixtureReverse` | lib/bimap.h:284-314 | A forward index whose keys are 1, 2 and 3 is traversed in reverse as (3, v3), (2, v2), (1, v1). |

## Left out

- `maxSize()` (`lib/bimap.h:151-155`) is not modelled. It returns `std::map::max_size`, a platform-defined bound with nothing to state about it.
- `Size` returns an unbounded `nat`. The `std::size_t` bound is not modelled, because a `std::map` cannot reach it in practice.
- Iterator objects are not modelled. That covers `begin`/`end`/`cbegin`/`cend`/`rbegin`/`rend`/`crbegin`/`crend` as cursors and their invalidation rules. Only the order they visit is modelled (`Traversal.InOrder`, `Traversal.InReverseOrder`, as ghost functions).
- Writes through a mutable iterator are not modelled. Such a write changes a forward value without touching the inverse index.
- Each index is an abstract finite map. The red-black tree inside `std::map`, its logarithmic cost and allocation failure are not modelled.
- The key order is a strict total order `lt` passed to the traversal functions. It stands in for `std::less<TypeKey>`. The value order only affects the inverse index's internal layout, which nothing observes.
- C++ exceptions are not modelled as such. The `std::out_of_range` of `getValue`/`getKey` is a `None` result.
- The two private `insert` overloads for `std::pair` (rvalue and const reference, `lib/bimap.h:185-201`) are one method, `InsertNode`. In C++ they differ only in how the argument is passed.
- `lib/bimapglobal.h` is not part of this model. It holds only compiler and export macros.
