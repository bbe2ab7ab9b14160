/**
 Concrete scenarios on `Bimap[int, string]` and on a float-like key type,
 following the package's own test cases, plus the concrete inputs on which
 the deletes as written lose half of a pair.
 */
module BimapExamples {
  import opened Bimap
  import opened BimapProperties

  /** Go's `int` and `string`: zero values 0 and "", reflexive `==`. */
  const IntString: GoTypes<int, string> := GoTypes(0, "", (a: int, b: int) => a == b, (a: string, b: string) => a == b)

  /** A float64 reduced to what matters here: NaN is not `==` to itself. */
  datatype Float64 = Finite(n: int) | NaN

  function FloatEq(a: Float64, b: Float64): bool
  {
    a.Finite? && b.Finite? && a.n == b.n
  }

  const FloatString: GoTypes<Float64, string> := GoTypes(Finite(0), "", FloatEq, (a: string, b: string) => a == b)
  const StringFloat: GoTypes<string, Float64> := GoTypes("", Finite(0), (a: string, b: string) => a == b, FloatEq)

  /** Storing (1,"one"), (2,"two"), then (1,"two") evicts both earlier pairs
      and leaves exactly 1 <-> "two". */
  lemma ConflictingStoreEvictsBoth()
    ensures var b1 := Store(IntString, New(), 1, "one").0;
      var b2 := Store(IntString, b1, 2, "two").0;
      var r := Store(IntString, b2, 1, "two");
      && r.1
      && r.0 == Bimap(map[1 := "two"], map["two" := 1])
      && Size(r.0) == 1
      && LoadValue(IntString, r.0, 1) == ("two", true)
      && LoadValue(IntString, r.0, 2) == ("", false)
      && LoadKey(IntString, r.0, "one") == (0, false)
  {
  }

  /** A NaN key or a NaN value is refused and the map stays empty. */
  lemma NaNIsRejected()
    ensures Store(FloatString, New(), NaN, "NaN") == (New(), false)
    ensures Store(StringFloat, New(), "NaN", NaN) == (New(), false)
    ensures Store(FloatString, New(), Finite(1), "one").1
  {
  }

  /** Keys and Values after storing three pairs. */
  method KeysAndValuesOfThree() returns (keys: seq<int>, values: seq<string>)
    ensures forall k :: k in keys <==> k in {1, 2, 3}
    ensures |keys| == 3
    ensures forall v :: v in values <==> v in {"one", "two", "three"}
    ensures |values| == 3
  {
    var b0: Bimap<int, string> := New();
    StoreFresh(IntString, b0, 1, "one");
    var b1 := Store(IntString, b0, 1, "one").0;
    StoreFresh(IntString, b1, 2, "two");
    var b2 := Store(IntString, b1, 2, "two").0;
    StoreFresh(IntString, b2, 3, "three");
    var b := Store(IntString, b2, 3, "three").0;
    assert b.forward.Keys == {1, 2, 3};
    assert b.inverse.Keys == {"one", "two", "three"};
    keys := Keys(b);
    values := Values(b);
  }

  /** With 1 <-> "" stored, DeleteByKey(2) as written deletes the inverse
      entry of "" although 2 was never stored: 1 still maps to "" but ""
      no longer maps back to 1. */
  lemma DeleteAbsentKeyLosesZeroValue()
    ensures var b := Store(IntString, New(), 1, "").0;
      var b' := DeleteByKey(IntString, b, 2);
      && Valid(b)
      && LoadValue(IntString, b', 1) == ("", true)
      && LoadKey(IntString, b', "") == (0, false)
      && !Valid(b')
  {
  }

  /** With 0 <-> "zero" stored, DeleteByValue("two") as written deletes the
      forward entry of key 0. */
  lemma DeleteAbsentValueLosesZeroKey()
    ensures var b := Store(IntString, New(), 0, "zero").0;
      var b' := DeleteByValue(IntString, b, "two");
      && Valid(b)
      && LoadKey(IntString, b', "zero") == (0, true)
      && LoadValue(IntString, b', 0) == ("", false)
      && !Valid(b')
  {
  }
}
