/** Client code: what callers of SimpleVector can prove from its contracts alone. */
module Scenarios {
  import opened SimpleVectors
  import Growth
  import Comparison

  /** Pushing values one at a time onto a default-constructed vector leaves exactly
      those values, in order, and the capacity the doubling law predicts. */
  method PushAll<T>(def: T, values: seq<T>) returns (v: SimpleVector<T>)
    ensures v.Valid() && v.Elements() == values
    ensures v.capacity == Growth.CapacityAfterPushes(|values|)
  {
    v := new SimpleVector(def);
    var i := 0;
    while i < |values|
      invariant 0 <= i <= |values|
      invariant fresh(v) && fresh(v.items)
      invariant v.Valid() && v.Elements() == values[..i]
      invariant v.capacity == Growth.CapacityAfterPushes(i)
    {
      v.PushBack(values[i]);
      assert values[..i + 1] == values[..i] + [values[i]];
      i := i + 1;
    }
    assert values[..i] == values;
  }

  /** Erasing at the position just inserted at restores the original elements. */
  method InsertThenErase<T>(v: SimpleVector<T>, index: nat, x: T)
    requires v.Valid() && index <= v.size
    modifies v, v.items
    ensures v.Valid() && v.Elements() == old(v.Elements())
  {
    ghost var was := v.Elements();
    var pos := v.Insert(index, x);
    pos := v.Erase(pos);
    assert v.Elements() == was;
  }

  /** A copy starts equal to its source and changes independently of it. */
  method CopyThenPush<T>(def: T, values: seq<T>, x: T) returns (source: SimpleVector<T>, copy: SimpleVector<T>)
    ensures source.Valid() && copy.Valid()
    ensures source.Elements() == values && copy.Elements() == values + [x]
    ensures copy.capacity == Growth.GrowCapacity(|values|, |values|)
  {
    source := new SimpleVector.FromList(def, values);
    copy := new SimpleVector.Copy(source);
    copy.PushBack(x);
  }

  /** The source's copy constructor applied to a one-element vector yields size 1
      with capacity 0: the class invariant size <= capacity is broken. */
  method CopyDefectWitness() returns (source: SimpleVector<int>, copy: SimpleVector<int>)
    ensures source.Valid() && source.Elements() == [7]
    ensures copy.size == 1 && copy.capacity == 0 && !copy.Valid()
  {
    source := new SimpleVector.FromList(0, [7]);
    copy := new SimpleVector.CopyAsWritten(source);
  }

  /** List {1, 2, 3}; insert 9 at position 1; erase position 0; push 7; pop. */
  method ListScenario() returns (v: SimpleVector<int>)
    ensures v.Valid() && v.Elements() == [9, 2, 3] && v.capacity == 6
  {
    v := new SimpleVector.FromList(0, [1, 2, 3]);
    var pos := v.Insert(1, 9);
    assert v.Elements() == [1, 9, 2, 3] && v.capacity == 6;
    pos := v.Erase(0);
    assert v.Elements() == [9, 2, 3];
    v.PushBack(7);
    assert v.Elements() == [9, 2, 3, 7];
    v.PopBack();
  }

  /** A default-constructed vector is empty with capacity 0; the first push gives
      size 1 and capacity 1; Resize(0) empties it again without freeing the slot. */
  method FirstPushScenario() returns (v: SimpleVector<int>)
    ensures v.Valid() && v.IsEmpty() && v.capacity == 1
  {
    v := new SimpleVector(0);
    assert v.IsEmpty() && v.capacity == 0;
    v.PushBack(5);
    assert v.Elements() == [5] && v.capacity == 1;
    v.Resize(0);
  }

  /** `SimpleVector<int> v(Reserve(n))` gives an empty vector with n slots; a push
      then uses a reserved slot, or allocates one when n is 0. */
  method ReservedScenario(n: nat) returns (v: SimpleVector<int>)
    ensures v.Valid() && v.Elements() == [5]
    ensures v.capacity == if n == 0 then 1 else n
  {
    v := new SimpleVector.Reserved(0, Reserve(n));
    assert v.Elements() == [] && v.capacity == n;
    v.PushBack(5);
  }

  /** For two `int` vectors the six operators, applied to their live elements,
      behave as an order: exactly one of a < b, a == b, a > b holds, and the
      derived `<=` and `>=` mean "not greater" and "not less". */
  lemma IntVectorsAreOrdered(a: SimpleVector<int>, b: SimpleVector<int>)
    requires a.Valid() && b.Valid()
    ensures Comparison.Less(Comparison.IntLess, a.Elements(), b.Elements())
            || Comparison.Equal(a.Elements(), b.Elements())
            || Comparison.Greater(Comparison.IntLess, a.Elements(), b.Elements())
    ensures Comparison.LessOrEqual(Comparison.IntLess, a.Elements(), b.Elements())
            <==> !Comparison.Greater(Comparison.IntLess, a.Elements(), b.Elements())
    ensures Comparison.GreaterOrEqual(Comparison.IntLess, a.Elements(), b.Elements())
            <==> !Comparison.Less(Comparison.IntLess, a.Elements(), b.Elements())
  {
    Comparison.IntOrderIsStrictTotal();
    Comparison.Trichotomy(Comparison.IntLess, a.Elements(), b.Elements());
    Comparison.DerivedOperators(Comparison.IntLess, a.Elements(), b.Elements());
  }

  /** {1, 2} < {1, 3} < {1, 3, 0}, where {1, 3, 0} is a copy of {1, 3} with 0
      pushed onto it; the push makes the copy no longer `==` to its original. */
  method CompareScenario() returns (a: SimpleVector<int>, b: SimpleVector<int>, c: SimpleVector<int>)
    ensures a.Valid() && b.Valid() && c.Valid()
    ensures Comparison.Less(Comparison.IntLess, a.Elements(), b.Elements())
    ensures Comparison.Less(Comparison.IntLess, b.Elements(), c.Elements())
    ensures Comparison.Equal(b.Elements(), [1, 3]) && !Comparison.Equal(b.Elements(), c.Elements())
  {
    a := new SimpleVector.FromList(0, [1, 2]);
    b := new SimpleVector.FromList(0, [1, 3]);
    c := new SimpleVector.Copy(b);
    c.PushBack(0);
    assert c.Elements() == [1, 3, 0];
    assert Comparison.Less(Comparison.IntLess, [2], [3]);
    assert [1, 3] == [1, 3, 0][..2];
  }

  /** A moved-from vector can be reused: pushing onto it leaves the vector that
      took over its elements unchanged. */
  method MoveThenReuse(values: seq<int>) returns (moved: SimpleVector<int>, source: SimpleVector<int>)
    ensures moved.Valid() && moved.Elements() == values
    ensures source.Valid() && source.Elements() == [5] && source.capacity == 1
  {
    source := new SimpleVector.FromList(0, values);
    moved := new SimpleVector.Move(source);
    source.PushBack(5);
  }
}
