/**
 A bidirectional map of comparable keys and values, held as two maps that are
 kept in step by hand: `forward` (key to value) and `inverse` (value to key).

 A Go map that was never allocated (nil) behaves like an empty map for reads
 and deletes, so the zero-value Bimap is modelled as two empty maps, and the
 lazy allocation on the first store has no observable effect here.

 Go's reads of an absent key return the zero value of the element type, and
 Go's `==` is not reflexive on every comparable type (a floating-point NaN is
 not equal to itself). Both are properties of the type instantiation, so they
 travel together in a `GoTypes` record passed to the operations.
 */
module Bimap {

  /** What the model needs to know about the instantiation `Bimap[K, V]`:
      the zero values of both type parameters and Go's `==` on each. The
      maps themselves tell keys apart by Dafny equality, so a Dafny value of
      K or V stands for one class of Go-equal reflexive values; `eqK` and
      `eqV` are consulted only by the reflexivity guard of Store. */
  datatype GoTypes<!K, !V> = GoTypes(zeroK: K, zeroV: V, eqK: (K, K) -> bool, eqV: (V, V) -> bool)

  /** The two indices. The nil maps of a zero-value Bimap are empty maps. */
  datatype Bimap<K, V> = Bimap(forward: map<K, V>, inverse: map<V, K>)

  /** The two maps are mutual inverses: they describe the same set of pairs,
      read in opposite directions. This is the one-to-one promise. */
  ghost predicate Bij<K, V>(f: map<K, V>, i: map<V, K>)
  {
    && (forall k :: k in f ==> f[k] in i && i[f[k]] == k)
    && (forall v :: v in i ==> i[v] in f && f[i[v]] == v)
  }

  ghost predicate Valid<K, V>(b: Bimap<K, V>)
  {
    Bij(b.forward, b.inverse)
  }

  /** The zero value of Bimap, and what `New` returns. */
  function New<K, V>(): Bimap<K, V>
  {
    Bimap(map[], map[])
  }

  /** Go's `t == t`: false exactly for values, like NaN, that are not equal
      to themselves under the type's own equality. */
  function IsEqualityReflexive<T>(eq: (T, T) -> bool, t: T): bool
  {
    eq(t, t)
  }

  /** Store(key, value) on `b`: the new state and whether the pair was stored.
      The owner of `value` is evicted from `forward` only, then the value that
      `key` still has (read after that eviction) is evicted from `inverse`
      only; the stale halves are overwritten by the final two writes. */
  function Store<K, V>(t: GoTypes<K, V>, b: Bimap<K, V>, key: K, value: V): (r: (Bimap<K, V>, bool))
    ensures r.1 <==> t.eqK(key, key) && t.eqV(value, value)
    ensures !r.1 ==> r.0 == b
    ensures r.1 ==> LoadValue(t, r.0, key) == (value, true)
    ensures r.1 ==> LoadKey(t, r.0, value) == (key, true)
    ensures Valid(b) ==> Valid(r.0)
  {
    if !IsEqualityReflexive(t.eqK, key) || !IsEqualityReflexive(t.eqV, value) then
      (b, false)
    else
      var forward1 := if value in b.inverse then b.forward - {b.inverse[value]} else b.forward;
      var inverse1 := if key in forward1 then b.inverse - {forward1[key]} else b.inverse;
      var r := Bimap(forward1[key := value], inverse1[value := key]);
      StoreKeepsBij(b, key, value, forward1, inverse1);
      (r, true)
  }

  /** The heart of Store's correctness: each eviction removes only one half of
      a pair. The intermediate maps are mutual inverses except at `key` in
      `forward1` and at `value` in `inverse1`, which are exactly the entries
      the final two writes overwrite, so the written maps are again mutual
      inverses. */
  lemma StoreKeepsBij<K, V>(b: Bimap<K, V>, key: K, value: V, forward1: map<K, V>, inverse1: map<V, K>)
    requires forward1 == if value in b.inverse then b.forward - {b.inverse[value]} else b.forward
    requires inverse1 == if key in forward1 then b.inverse - {forward1[key]} else b.inverse
    ensures Valid(b) ==> forall k :: k in forward1 && !(forward1[k] in inverse1 && inverse1[forward1[k]] == k) ==> k == key
    ensures Valid(b) ==> forall v :: v in inverse1 && !(inverse1[v] in forward1 && forward1[inverse1[v]] == v) ==> v == value
    ensures Valid(b) ==> Bij(forward1[key := value], inverse1[value := key])
  {
  }

  /** LoadValue: the value stored for `k`, or the zero value of V. */
  function LoadValue<K, V>(t: GoTypes<K, V>, b: Bimap<K, V>, k: K): (r: (V, bool))
    ensures r.1 <==> k in b.forward
    ensures r.1 ==> r.0 == b.forward[k]
    ensures !r.1 ==> r.0 == t.zeroV
  {
    if k in b.forward then (b.forward[k], true) else (t.zeroV, false)
  }

  /** LoadKey: the key stored for `v`, or the zero value of K. */
  function LoadKey<K, V>(t: GoTypes<K, V>, b: Bimap<K, V>, v: V): (r: (K, bool))
    ensures r.1 <==> v in b.inverse
    ensures r.1 ==> r.0 == b.inverse[v]
    ensures !r.1 ==> r.0 == t.zeroK
  {
    if v in b.inverse then (b.inverse[v], true) else (t.zeroK, false)
  }

  /** DeleteByKey as written: the read of `forward[k]` is unconditional, so an
      absent `k` deletes `inverse[zeroV]`. */
  function DeleteByKey<K, V>(t: GoTypes<K, V>, b: Bimap<K, V>, k: K): (r: Bimap<K, V>)
    ensures r.forward == b.forward - {k}
    ensures k in b.forward ==> r.inverse == b.inverse - {b.forward[k]}
    ensures k !in b.forward ==> r.inverse == b.inverse - {t.zeroV}
  {
    var v := LoadValue(t, b, k).0;
    Bimap(b.forward - {k}, b.inverse - {v})
  }

  /** DeleteByValue as written: an absent `v` deletes `forward[zeroK]`. */
  function DeleteByValue<K, V>(t: GoTypes<K, V>, b: Bimap<K, V>, v: V): (r: Bimap<K, V>)
    ensures r.inverse == b.inverse - {v}
    ensures v in b.inverse ==> r.forward == b.forward - {b.inverse[v]}
    ensures v !in b.inverse ==> r.forward == b.forward - {t.zeroK}
  {
    var k := LoadKey(t, b, v).0;
    Bimap(b.forward - {k}, b.inverse - {v})
  }

  /** Size: the number of pairs, which is the size of `forward`. */
  function Size<K, V>(b: Bimap<K, V>): nat
  {
    |b.forward|
  }

  /** Two maps in bijection have the same number of entries, so under the
      invariant Size also counts the entries of `inverse`. */
  lemma {:induction false} BijSizes<K, V>(f: map<K, V>, i: map<V, K>)
    requires Bij(f, i)
    ensures |f| == |i|
    decreases |f|
  {
    if f != map[] {
      var k :| k in f;
      var v := f[k];
      var f', i' := f - {k}, i - {v};
      assert Bij(f', i');
      BijSizes(f', i');
      assert |f'| == |f| - 1 && |i'| == |i| - 1;
    }
  }

  /** The elements of `xs` are pairwise different. */
  ghost predicate Distinct<T>(xs: seq<T>)
  {
    forall i, j :: 0 <= i < j < |xs| ==> xs[i] != xs[j]
  }

  /** Lists every element of `s` once, in an order the caller cannot rely on,
      as Go's `for range` over a map does. */
  method Enumerate<T>(s: set<T>) returns (xs: seq<T>)
    ensures forall x :: x in xs <==> x in s
    ensures Distinct(xs)
    ensures |xs| == |s|
  {
    xs := [];
    var rest := s;
    while rest != {}
      invariant rest <= s
      invariant forall x :: x in xs <==> x in s && x !in rest
      invariant Distinct(xs)
      invariant |xs| + |rest| == |s|
      decreases rest
    {
      var x :| x in rest;
      xs := xs + [x];
      rest := rest - {x};
    }
  }

  /** Keys: each key of `forward` exactly once. */
  method Keys<K, V>(b: Bimap<K, V>) returns (keys: seq<K>)
    ensures forall k :: k in keys <==> k in b.forward
    ensures Distinct(keys)
    ensures |keys| == Size(b)
  {
    keys := Enumerate(b.forward.Keys);
  }

  /** Values: each key of `inverse` exactly once. */
  method Values<K, V>(b: Bimap<K, V>) returns (values: seq<V>)
    ensures forall v :: v in values <==> v in b.inverse
    ensures Distinct(values)
    ensures |values| == |b.inverse|
    ensures Valid(b) ==> |values| == Size(b)
  {
    values := Enumerate(b.inverse.Keys);
    if Valid(b) {
      BijSizes(b.forward, b.inverse);
    }
  }
}
