/**
 DeleteByKey and DeleteByValue as the Bimap documentation describes them:
 delete the pair involving the argument if there is one, and do nothing
 otherwise. The functions in module Bimap follow the code, which reads the
 partner unconditionally and so, on an absent argument, deletes the entry
 of the zero value instead; module BimapProperties shows when that breaks
 the one-to-one invariant, and this module proves that guarding the read
 with its `ok` result removes the problem.

 The operation traces at the end use these corrected deletes.
 */
module BimapDeletes {
  import opened Bimap

  /** DeleteByKey with the lookup's `ok` result consulted before the
      second delete. */
  function DeleteByKeyChecked<K, V>(t: GoTypes<K, V>, b: Bimap<K, V>, k: K): (r: Bimap<K, V>)
    ensures Valid(b) ==> Valid(r)
    ensures k !in b.forward ==> r == b
    ensures k in b.forward ==> r == DeleteByKey(t, b, k)
  {
    if k in b.forward then Bimap(b.forward - {k}, b.inverse - {b.forward[k]}) else b
  }

  /** DeleteByValue with the lookup's `ok` result consulted before the
      second delete. */
  function DeleteByValueChecked<K, V>(t: GoTypes<K, V>, b: Bimap<K, V>, v: V): (r: Bimap<K, V>)
    ensures Valid(b) ==> Valid(r)
    ensures v !in b.inverse ==> r == b
    ensures v in b.inverse ==> r == DeleteByValue(t, b, v)
  {
    if v in b.inverse then Bimap(b.forward - {b.inverse[v]}, b.inverse - {v}) else b
  }

  /** One mutating call on a Bimap. */
  datatype Op<K, V> = StoreOp(key: K, value: V) | DeleteKeyOp(k: K) | DeleteValueOp(v: V)

  function Apply<K, V>(t: GoTypes<K, V>, b: Bimap<K, V>, op: Op<K, V>): Bimap<K, V>
  {
    match op
    case StoreOp(key, value) => Store(t, b, key, value).0
    case DeleteKeyOp(k) => DeleteByKeyChecked(t, b, k)
    case DeleteValueOp(v) => DeleteByValueChecked(t, b, v)
  }

  /** The state after the calls in `ops`, in order, starting from `b`. */
  function Run<K, V>(t: GoTypes<K, V>, b: Bimap<K, V>, ops: seq<Op<K, V>>): Bimap<K, V>
    decreases |ops|
  {
    if ops == [] then b else Run(t, Apply(t, b, ops[0]), ops[1..])
  }

  /** Any sequence of stores and (corrected) deletes, from any valid state,
      leaves two indices that are mutual inverses, so every successful
      LoadValue is matched by LoadKey and Size counts both indices. */
  lemma {:induction false} RunKeepsBij<K, V>(t: GoTypes<K, V>, b: Bimap<K, V>, ops: seq<Op<K, V>>)
    requires Valid(b)
    ensures Valid(Run(t, b, ops))
    ensures |Run(t, b, ops).inverse| == Size(Run(t, b, ops))
    decreases |ops|
  {
    if ops == [] {
      BijSizes(b.forward, b.inverse);
    } else {
      RunKeepsBij(t, Apply(t, b, ops[0]), ops[1..]);
    }
  }

  /** From the zero value, where every trace of a program starts, any
      sequence of calls leaves a one-to-one map. */
  lemma RunFromZeroKeepsBij<K, V>(t: GoTypes<K, V>, ops: seq<Op<K, V>>)
    ensures Valid(Run(t, New(), ops))
    ensures |Run(t, New(), ops).inverse| == Size(Run(t, New(), ops))
  {
    RunKeepsBij(t, New(), ops);
  }
}
