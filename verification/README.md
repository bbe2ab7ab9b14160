# Bimap in Dafny

A model of the Go package `bimap`. The package provides a generic bidirectional map, `Bimap[K, V]`. It holds two Go maps, `forward` (key to value) and `inverse` (value to key). Every mutating method keeps the two in step by hand.

The model is functional. A `Bimap` is an immutable pair of Dafny maps. The nil maps of Go's zero value are empty maps. Each method except `Keys` and `Values` is a function that returns the new state, the result, or both. `Keys` and `Values` are methods, because they pick elements in an unspecified order. Two facts about the Go type instantiation are passed to every operation in a `GoTypes` record:

- the zero values of `K` and `V`. A Go map read of an absent key returns the zero value.
- Go's `==` on `K` and on `V`, used only by the reflexivity guard: `t == t` of `isEqualityReflexive` becomes `eq(t, t)`, which is false for a NaN-like value. The maps themselves tell keys apart by Dafny equality.

The invariant is `Bij(forward, inverse)`: the two maps are mutual inverses. `Valid(b)` is `Bij` on the two fields of `b`.

Files:

- `bimap.dfy` (module `Bimap`): the state, `New`, `Store`, `isEqualityReflexive`, `LoadValue`, `LoadKey`, `DeleteByKey`, `DeleteByValue`, `Size`, `Keys` and `Values`, all as written in `bimap.go`.
- `bimap_properties.dfy` (module `BimapProperties`): lemmas about the frame and size of `Store`, lookups in both directions, and deletes of present and absent arguments.
- `bimap_deletes.dfy` (module `BimapDeletes`): corrected deletes, and traces of operations that use them.
- `bimap_examples.dfy` (module `BimapExamples`): the scenarios of `bimap_test.go` on concrete types, and the concrete inputs that break the deletes as written.

## Model

| member | source | states |
|---|---|---|
| Bimap.Store | bimap.go:29-57 | Store succeeds exactly when key and value are both equal to themselves. On rejection the state is unchanged. On success `LoadValue(key)` gives `(value, true)` and `LoadKey(value)` gives `(key, true)`. The one-to-one invariant is preserved. |
| Bimap.StoreKeepsBij | bimap.go:38-51 | Each eviction deletes from one index only. Under the invariant, the maps after the evictions are mutual inverses except at `key` in `forward` and at `value` in `inverse`, which are exactly the entries that lines 50-51 overwrite. So the written maps are again mutual inverses. |
| Bimap.LoadValue | bimap.go:59-65 | `ok` is true exactly when the key is stored. The value is then the stored one; otherwise it is the zero value of V. |
| Bimap.LoadKey | bimap.go:67-74 | `ok` is true exactly when the value is stored. The key is then the stored one; otherwise it is the zero value of K. |
| Bimap.DeleteByKey | bimap.go:76-82 | Removes `k` from `forward`. For a present key it removes that key's value from `inverse`. For an absent key it removes the zero value of V from `inverse`. |
| Bimap.DeleteByValue | bimap.go:84-90 | Removes `v` from `inverse`. For a present value it removes that value's key from `forward`. For an absent value it removes the zero value of K from `forward`. |
| Bimap.BijSizes | bimap.go:92-96 | Two maps that are mutual inverses have equally many entries. So Size, which counts `forward`, also counts `inverse`. |
| Bimap.Enumerate | bimap.go:98-114 | Lists each element of a set exactly once, in an unspecified order. The list has as many entries as the set. |
| Bimap.Keys | bimap.go:98-105 | Returns each key of `forward` exactly once. Its length is Size. |
| Bimap.Values | bimap.go:107-114 | Returns each key of `inverse` exactly once. Under the invariant its length is Size. |
| BimapProperties.LoadsAgree | bimap.go:11-13 | Under the invariant, `LoadValue(k) == (v, true)` holds exactly when `LoadKey(v) == (k, true)`. |
| BimapProperties.ZeroValueIsReady | bimap.go:17-27 | The zero value, which is also what `New` returns, satisfies the invariant and has size 0. On it, every lookup returns the zero value and `false`. A successful Store on it, with no construction first, leaves exactly the one stored pair. |
| BimapProperties.StoreFrame | bimap.go:29-33 | After a successful Store under the invariant, `key` maps to `value`. Every other pair survives unless it shares the key or the value. Surviving pairs keep their partners. This is stated for both indices. |
| BimapProperties.StoreFresh | bimap.go:38-52 | A successful Store whose key and value are both new evicts nothing. It adds the pair to both indices. |
| BimapProperties.StoreSize | bimap.go:38-51 | Size after a successful Store: +1 with no collision, unchanged on a re-store or a collision on one side only, and -1 when key and value belonged to two different pairs. |
| BimapProperties.DeleteByKeyPresent | bimap.go:76-82 | Deleting a present key removes exactly that pair from both indices. It keeps the invariant, lowers Size by one, and leaves every other key's lookup unchanged. |
| BimapProperties.DeleteByValuePresent | bimap.go:84-90 | Deleting a present value removes exactly that pair from both indices. It keeps the invariant, lowers Size by one, and leaves every other value's lookup unchanged. |
| BimapProperties.DeleteByKeyAbsent | bimap.go:78-82 | Deleting an absent key leaves the state unchanged, and keeps the invariant, exactly when no key maps to the zero value of V. |
| BimapProperties.DeleteByValueAbsent | bimap.go:86-90 | Deleting an absent value leaves the state unchanged, and keeps the invariant, exactly when the zero value of K is not a stored key. |
| BimapProperties.InverseKeysAreForwardValues | bimap.go:107-114 | Under the invariant, the keys of `inverse` that Values lists are exactly the values held in `forward`. |
| BimapDeletes.DeleteByKeyChecked | bimap.go:76-77 | Corrected DeleteByKey. It preserves the invariant for every key, is a no-op on an absent key, and agrees with the code on a present key. |
| BimapDeletes.DeleteByValueChecked | bimap.go:84-85 | Corrected DeleteByValue. It preserves the invariant for every value, is a no-op on an absent value, and agrees with the code on a present value. |
| BimapDeletes.RunKeepsBij | bimap.go:11-13 | Any sequence of Stores and corrected deletes keeps the two indices mutual inverses of equal size. |
| BimapDeletes.RunFromZeroKeepsBij | bimap.go:17 | Starting from the zero value, any such sequence leaves a one-to-one map whose two indices have equal size. |
| BimapExamples.ConflictingStoreEvictsBoth | bimap_test.go:44-55 | Storing `(1,"one")`, then `(2,"two")`, then `(1,"two")` leaves exactly `1 <-> "two"`, with size 1. |
| BimapExamples.NaNIsRejected | bimap_test.go:112-126 | A NaN key or a NaN value is refused and the map stays empty. A finite key is accepted. |
| BimapExamples.KeysAndValuesOfThree | bimap_test.go:85-110 | After storing three pairs, Keys holds exactly {1, 2, 3} and Values holds exactly {"one", "two", "three"}, with no repeats. |
| BimapExamples.DeleteAbsentKeyLosesZeroValue | bimap.go:78-81 | With `1 <-> ""` stored, `DeleteByKey(2)` as written leaves 1 mapped to `""` but `""` mapped to nothing. |
| BimapExamples.DeleteAbsentValueLosesZeroKey | bimap.go:86-89 | With `0 <-> "zero"` stored, `DeleteByValue("two")` as written leaves `"zero"` mapped to 0 but 0 mapped to nothing. |

`New` (bimap.go:24-27) is `Bimap.New`. `isEqualityReflexive` (bimap.go:55-57) is `Bimap.IsEqualityReflexive`. `Size` (bimap.go:94-96) is `Bimap.Size`. None of them has a contract of its own. Their meaning is stated through `ZeroValueIsReady`, `Store`, `BijSizes`, `Keys` and `Values`.

Where the code and a plain reading of the package's description differ, the model follows the code:

- One would expect Store to remove each conflicting pair from both indices before writing the new pair. The code deletes one half of each conflicting pair, and the final writes overwrite the other half. `StoreKeepsBij` and `StoreFrame` show that under the invariant the result is the same.
- One would expect a delete of an absent key or value to be a no-op. The code is not a no-op when the zero value is stored; see Findings.
- The doc comments of LoadValue and LoadKey (bimap.go:59-61, 67-69) swap the types of the zero value they return. The code returns the zero value of V from LoadValue and the zero value of K from LoadKey, and so does the model.

## Left out

- `String` (bimap.go:119-121): it formats `forward` with `fmt.Sprintf`. The output order depends on how `fmt` sorts map keys, which is library behaviour.
- Go's `==` as map-key identity: map key identity in the model is Dafny equality. A Dafny value of K or V stands for one class of Go-equal reflexive values; for instance, +0.0 and -0.0 would have to be one Dafny value, since Go treats them as one key. `eqK` and `eqV` are used only by the reflexivity guard. The run-time panic of `==` on an uncomparable dynamic type inside an interface-typed K or V is not modelled; the guard always returns a boolean.
- Floating-point NaN itself: Go's `==` is a parameter of the model. NaN appears only as a constructor of a small float-like datatype in the examples. A Go map holding several NaN keys, each a separate entry, is not modelled, because Store never admits one.
- Iteration order of Go maps in `Keys` and `Values`: it is unspecified. The model picks elements nondeterministically and states only contents, distinctness and length.
- The lazy allocation of the maps in Store (bimap.go:46-49): a nil map and an empty map behave the same for reads, deletes and `len`, so it has no observable effect.
- Amortized O(1) cost and the rule that a Bimap must not be copied after first use (bimap.go:15, 18): these are about performance and aliasing, not about values.
- Nil result slices: on an empty Bimap, Go's Keys and Values return a nil slice (bimap.go:100, 109). The model returns the empty sequence, which differs only under a `== nil` test.
- A concurrent, lock-guarded variant: no such code exists in this package.
- Pointer receivers and in-place mutation: each operation takes the state and returns the new one. That lookups never change the state therefore holds by construction and has no lemma.

## Findings

| source | as written | input that shows it | evidently intended | confidence | as-written member | corrected member |
|---|---|---|---|---|---|---|
| bimap.go:78-81 | `v := bi.forward[k]` is read without checking `ok`, then `delete(bi.inverse, v)` runs | `Bimap[int, string]` holding `1 <-> ""`, then `DeleteByKey(2)`: `LoadValue(1)` is `("", true)` but `LoadKey("")` is `(0, false)` | delete nothing when `k` is absent, as the comment at bimap.go:76-77 and the one-to-one promise at bimap.go:11-13 imply | high; not executed | Bimap.DeleteByKey (shown by BimapProperties.DeleteByKeyAbsent and BimapExamples.DeleteAbsentKeyLosesZeroValue) | BimapDeletes.DeleteByKeyChecked |
| bimap.go:86-89 | `k := bi.inverse[v]` is read without checking `ok`, then `delete(bi.forward, k)` runs | `Bimap[int, string]` holding `0 <-> "zero"`, then `DeleteByValue("two")`: `LoadKey("zero")` is `(0, true)` but `LoadValue(0)` is `("", false)` | delete nothing when `v` is absent, as the comment at bimap.go:84-85 implies | high; not executed | Bimap.DeleteByValue (shown by BimapProperties.DeleteByValueAbsent and BimapExamples.DeleteAbsentValueLosesZeroKey) | BimapDeletes.DeleteByValueChecked |

The operation traces in `BimapDeletes` (`Apply`, `Run`) use the corrected deletes.
