/**
 Properties of the Bimap operations that relate a state before and after a
 call, or two operations with each other.
 */
module BimapProperties {
  import opened Bimap

  /** A lookup in one direction succeeds exactly when the lookup in the
      other direction gives the pair back. */
  lemma LoadsAgree<K, V>(t: GoTypes<K, V>, b: Bimap<K, V>, k: K, v: V)
    requires Valid(b)
    ensures LoadValue(t, b, k) == (v, true) <==> LoadKey(t, b, v) == (k, true)
  {
  }

  /** The zero value, before any call, holds no pair, answers every lookup
      with the zero value and `false`, and takes a Store without being
      constructed first. */
  lemma ZeroValueIsReady<K, V>(t: GoTypes<K, V>, key: K, value: V)
    ensures Valid(New<K, V>()) && Size(New<K, V>()) == 0
    ensures LoadValue(t, New(), key) == (t.zeroV, false)
    ensures LoadKey(t, New(), value) == (t.zeroK, false)
    ensures Store(t, New(), key, value).1 ==>
              Store(t, New(), key, value).0 == Bimap(map[key := value], map[value := key])
  {
  }

  /** Frame of a successful Store: `key` now maps to `value`; every other
      pair survives unless it shares the key or the value. Stated on both
      indices. */
  lemma StoreFrame<K, V>(t: GoTypes<K, V>, b: Bimap<K, V>, key: K, value: V)
    requires Valid(b)
    requires t.eqK(key, key) && t.eqV(value, value)
    ensures var b' := Store(t, b, key, value).0;
      && (forall k :: k in b'.forward <==> k == key || (k in b.forward && b.forward[k] != value))
      && (forall k :: k in b'.forward && k != key ==> b'.forward[k] == b.forward[k])
      && (forall v :: v in b'.inverse <==> v == value || (v in b.inverse && b.inverse[v] != key))
      && (forall v :: v in b'.inverse && v != value ==> b'.inverse[v] == b.inverse[v])
  {
  }

  /** A Store whose key and value are both new just adds the pair to both
      indices. */
  lemma StoreFresh<K, V>(t: GoTypes<K, V>, b: Bimap<K, V>, key: K, value: V)
    requires t.eqK(key, key) && t.eqV(value, value)
    requires key !in b.forward && value !in b.inverse
    ensures Store(t, b, key, value) == (Bimap(b.forward[key := value], b.inverse[value := key]), true)
  {
  }

  /** Size after a successful Store, by which existing pairs it collides
      with: none adds one, a re-store of the same pair or a collision on
      one side only keeps the size, and colliding with two different pairs
      shrinks it by one. */
  lemma StoreSize<K, V>(t: GoTypes<K, V>, b: Bimap<K, V>, key: K, value: V)
    requires Valid(b)
    requires t.eqK(key, key) && t.eqV(value, value)
    ensures var n := Size(Store(t, b, key, value).0);
      && (key !in b.forward && value !in b.inverse ==> n == Size(b) + 1)
      && (key in b.forward && b.forward[key] == value ==> n == Size(b))
      && (key in b.forward && value !in b.inverse ==> n == Size(b))
      && (key !in b.forward && value in b.inverse ==> n == Size(b))
      && (key in b.forward && value in b.inverse && b.forward[key] != value ==> n == Size(b) - 1)
  {
  }

  /** DeleteByKey on a present key removes exactly that pair from both
      indices and keeps the invariant. */
  lemma DeleteByKeyPresent<K, V>(t: GoTypes<K, V>, b: Bimap<K, V>, k: K)
    requires Valid(b)
    requires k in b.forward
    ensures var b' := DeleteByKey(t, b, k);
      && Valid(b')
      && Size(b') == Size(b) - 1
      && LoadValue(t, b', k).1 == false
      && LoadKey(t, b', b.forward[k]).1 == false
      && (forall k' :: k' != k ==> LoadValue(t, b', k') == LoadValue(t, b, k'))
  {
  }

  /** DeleteByValue on a present value removes exactly that pair from both
      indices and keeps the invariant. */
  lemma DeleteByValuePresent<K, V>(t: GoTypes<K, V>, b: Bimap<K, V>, v: V)
    requires Valid(b)
    requires v in b.inverse
    ensures var b' := DeleteByValue(t, b, v);
      && Valid(b')
      && Size(b') == Size(b) - 1
      && LoadKey(t, b', v).1 == false
      && LoadValue(t, b', b.inverse[v]).1 == false
      && (forall v' :: v' != v ==> LoadKey(t, b', v') == LoadKey(t, b, v'))
  {
  }

  /** DeleteByKey on an absent key is the no-op the documentation implies
      only when no key maps to the zero value of V; otherwise it drops that
      value's inverse entry and breaks the one-to-one invariant. */
  lemma DeleteByKeyAbsent<K, V>(t: GoTypes<K, V>, b: Bimap<K, V>, k: K)
    requires Valid(b)
    requires k !in b.forward
    ensures DeleteByKey(t, b, k) == b <==> t.zeroV !in b.inverse
    ensures Valid(DeleteByKey(t, b, k)) <==> t.zeroV !in b.inverse
  {
    var b' := DeleteByKey(t, b, k);
    if t.zeroV in b.inverse {
      var k0 := b.inverse[t.zeroV];
      assert k0 in b'.forward && b'.forward[k0] == t.zeroV && t.zeroV !in b'.inverse;
    }
  }

  /** DeleteByValue on an absent value: the mirror image, with the zero
      value of K. */
  lemma DeleteByValueAbsent<K, V>(t: GoTypes<K, V>, b: Bimap<K, V>, v: V)
    requires Valid(b)
    requires v !in b.inverse
    ensures DeleteByValue(t, b, v) == b <==> t.zeroK !in b.forward
    ensures Valid(DeleteByValue(t, b, v)) <==> t.zeroK !in b.forward
  {
    var b' := DeleteByValue(t, b, v);
    if t.zeroK in b.forward {
      var v0 := b.forward[t.zeroK];
      assert v0 in b'.inverse && b'.inverse[v0] == t.zeroK && t.zeroK !in b'.forward;
    }
  }

  /** Under the invariant the keys of `inverse` are exactly the values held
      in `forward`, so Values lists the stored values. */
  lemma InverseKeysAreForwardValues<K, V>(b: Bimap<K, V>)
    requires Valid(b)
    ensures b.inverse.Keys == b.forward.Values
  {
  }
}
