/** SimpleVector<Type>: a dynamic array that owns one storage block `items` and two
    counters, `size` (live elements) and `capacity` (slots it may use without
    reallocating). The live elements are `items[..size]`; every mutator keeps
    size <= capacity and follows one growth policy (see module Growth). Iterators
    and pointers into the block are modelled as `nat` positions. */
module SimpleVectors {
  import Buffers
  import Growth

  /** The source's ReserveProxyObj: a wrapped count that selects the reserving
      constructor instead of the sized one. */
  datatype ReserveProxyObj = ReserveProxyObj(capacity: nat) {
    function GetCapacity(): nat { capacity }
  }

  /** The free function Reserve(n), used as `SimpleVector<T> v(Reserve(n))`. */
  function Reserve(capacityToReserve: nat): (r: ReserveProxyObj)
    ensures r.GetCapacity() == capacityToReserve
  {
    ReserveProxyObj(capacityToReserve)
  }

  /** The failure At reports instead of throwing std::out_of_range. */
  datatype Error = OutOfRange

  datatype Result<T> = Success(value: T) | Failure(error: Error)

  class SimpleVector<T> {
    var items: array<T>
    var size: nat
    var capacity: nat
    /** The element type's default value, `Type{}` in the source. */
    const def: T

    /** The class invariant. The block may be longer than `capacity`: only the
        copy constructor as the source writes it leaves it so (see CopyAsWritten). */
    ghost predicate Valid()
      reads this
    {
      size <= capacity <= items.Length
    }

    /** The live elements, [begin(), end()). */
    ghost function Elements(): seq<T>
      reads this, items
      requires Valid()
    {
      items[..size]
    }

    /** SimpleVector(): no elements and no storage. */
    constructor (def: T)
      ensures Valid() && fresh(items) && this.def == def
      ensures Elements() == [] && capacity == 0
    {
      this.def := def;
      var block := Buffers.Allocate(0, def);
      items := block;
      size, capacity := 0, 0;
    }

    /** SimpleVector(size): `n` default-valued elements in exactly `n` slots. */
    constructor Sized(def: T, n: nat)
      ensures Valid() && fresh(items) && this.def == def
      ensures |Elements()| == n && capacity == n
      ensures forall k :: 0 <= k < n ==> Elements()[k] == def
    {
      this.def := def;
      var block := Buffers.Allocate(n, def);
      items := block;
      size, capacity := n, n;
      new;
      Buffers.Fill(items, 0, n, def);
    }

    /** SimpleVector(size, value): `n` copies of `value` in exactly `n` slots. */
    constructor Filled(def: T, n: nat, value: T)
      ensures Valid() && fresh(items) && this.def == def
      ensures |Elements()| == n && capacity == n
      ensures forall k :: 0 <= k < n ==> Elements()[k] == value
    {
      this.def := def;
      var block := Buffers.Allocate(n, def);
      items := block;
      size, capacity := n, n;
      new;
      Buffers.Fill(items, 0, n, value);
    }

    /** SimpleVector(std::initializer_list): the listed values in order, no spare slot. */
    constructor FromList(def: T, init: seq<T>)
      ensures Valid() && fresh(items) && this.def == def
      ensures Elements() == init && capacity == |init|
    {
      this.def := def;
      var block := Buffers.Allocate(|init|, def);
      items := block;
      size, capacity := |init|, |init|;
      new;
      Buffers.CopyFromSeq(init, items);
    }

    /** The copy constructor as intended: a fresh block of `other`'s capacity
        holding a copy of its live elements. The C++ code never sets capacity_ here;
        this constructor sets it to `other.capacity` (see CopyAsWritten). */
    constructor Copy(other: SimpleVector<T>)
      requires other.Valid()
      ensures Valid() && fresh(items) && def == other.def
      ensures Elements() == other.Elements() && capacity == other.capacity
    {
      def := other.def;
      var block := Buffers.Allocate(other.capacity, other.def);
      items := block;
      size := other.size;
      capacity := other.capacity;
      new;
      Buffers.CopyRange(other.items, 0, other.size, items, 0);
    }

    /** The copy constructor exactly as the C++ code writes it: the block has
        `other`'s capacity and holds its elements, but capacity_ keeps its default 0.
        The result satisfies the class invariant only when `other` is empty. */
    constructor CopyAsWritten(other: SimpleVector<T>)
      requires other.Valid()
      ensures fresh(items) && def == other.def
      ensures size == other.size && capacity == 0 && items.Length == other.capacity
      ensures items[..size] == other.Elements()
      ensures Valid() <==> other.Elements() == []
    {
      def := other.def;
      var block := Buffers.Allocate(other.capacity, other.def);
      items := block;
      size := other.size;
      capacity := 0;  // the source leaves capacity_ at its member initialiser
      new;
      Buffers.CopyRange(other.items, 0, other.size, items, 0);
    }

    /** SimpleVector(ReserveProxyObj): starts empty, then calls the member Reserve
        on itself (inside the class the member hides the free function Reserve). */
    constructor Reserved(def: T, obj: ReserveProxyObj)
      ensures Valid() && fresh(items) && this.def == def
      ensures Elements() == [] && capacity == obj.GetCapacity()
    {
      this.def := def;
      var block := Buffers.Allocate(0, def);
      items := block;
      size, capacity := 0, 0;
      new;
      Reserve(obj.GetCapacity());
    }

    /** The move constructor: starts empty and swaps with `other`, which is left
        with no elements and no storage. */
    constructor Move(other: SimpleVector<T>)
      requires other.Valid()
      modifies other
      ensures Valid() && def == other.def
      ensures items == old(other.items) && Elements() == old(other.Elements())
      ensures capacity == old(other.capacity)
      ensures other.Valid() && other.Elements() == [] && other.capacity == 0
      ensures fresh(other.items) && other.items.Length == 0
    {
      def := other.def;
      var block := Buffers.Allocate(0, other.def);
      items := block;
      size, capacity := 0, 0;
      new;
      Swap(other);
    }

    /** Copy assignment: unless `rhs` is this very vector, copy it into a temporary
        and swap the temporary in. `rhs` is not changed. */
    method Assign(rhs: SimpleVector<T>)
      requires Valid() && rhs.Valid()
      modifies this
      ensures Valid() && rhs.Valid()
      ensures Elements() == old(rhs.Elements()) && capacity == old(rhs.capacity)
      ensures rhs.Elements() == old(rhs.Elements())
      ensures rhs == this ==> items == old(items)
      ensures rhs != this ==> fresh(items)
    {
      if this != rhs {
        var temp := new SimpleVector.Copy(rhs);
        Swap(temp);
      }
    }

    /** Copy assignment as the source writes it, through CopyAsWritten: after
        assigning from another vector, capacity is 0 whatever the size. */
    method AssignAsWritten(rhs: SimpleVector<T>)
      requires Valid() && rhs.Valid()
      modifies this
      ensures rhs == this ==> items == old(items) && size == old(size) && capacity == old(capacity)
      ensures rhs != this ==> fresh(items) && items.Length == old(rhs.capacity)
      ensures rhs != this ==> size == old(rhs.size) && capacity == 0
      ensures rhs != this ==> size <= items.Length && items[..size] == old(rhs.Elements())
      ensures Valid() <==> rhs == this || old(rhs.Elements()) == []
    {
      if this != rhs {
        var temp := new SimpleVector.CopyAsWritten(rhs);
        Swap(temp);
      }
    }

    /** operator[] (read): the caller guarantees index < size. */
    function Get(index: nat): (r: T)
      reads this, items
      requires Valid() && index < size
      ensures r == Elements()[index]
    {
      items[index]
    }

    /** operator[] (write through the returned reference): index < size. */
    method Set(index: nat, v: T)
      requires Valid() && index < size
      modifies items
      ensures Valid() && Elements() == old(Elements())[index := v]
    {
      items[index] := v;
    }

    /** At(index): the element, or OutOfRange exactly when index >= size. */
    function At(index: nat): (r: Result<T>)
      reads this, items
      requires Valid()
      ensures r.Failure? <==> index >= |Elements()|
      ensures r.Success? ==> r.value == Elements()[index]
    {
      if index >= size then Failure(OutOfRange) else Success(items[index])
    }

    function GetSize(): (r: nat)
      reads this, items
      requires Valid()
      ensures r == |Elements()|
    {
      size
    }

    function GetCapacity(): (r: nat)
      reads this, items
      requires Valid()
      ensures |Elements()| <= r
    {
      capacity
    }

    function IsEmpty(): (r: bool)
      reads this, items
      requires Valid()
      ensures r <==> Elements() == []
    {
      size == 0
    }

    /** Clear(): forget every element; capacity and the block stay. */
    method Clear()
      requires Valid()
      modifies this
      ensures Valid() && Elements() == []
      ensures items == old(items) && capacity == old(capacity)
    {
      size := 0;
    }

    /** PopBack(): drop the last element; nothing on an empty vector. */
    method PopBack()
      requires Valid()
      modifies this
      ensures Valid() && items == old(items) && capacity == old(capacity)
      ensures old(size) == 0 ==> Elements() == []
      ensures old(size) > 0 ==> Elements() == old(Elements())[..old(size) - 1]
    {
      if size > 0 {
        size := size - 1;
      }
    }

    /** Erase(pos): remove the element at `index` by moving the tail one slot left;
        returns the position of the element that followed it. */
    method Erase(index: nat) returns (pos: nat)
      requires Valid() && index < size
      modifies items, this
      ensures Valid() && items == old(items) && capacity == old(capacity)
      ensures pos == index
      ensures Elements() == old(Elements())[..index] + old(Elements())[index + 1..]
    {
      ghost var was := Elements();
      Buffers.ShiftLeft(items, index, size);
      size := size - 1;
      pos := index;
      assert Elements() == was[..index] + was[index + 1..] by {
        forall k | 0 <= k < size
          ensures Elements()[k] == (was[..index] + was[index + 1..])[k]
        {
          if k < index {
            assert Elements()[k] == was[k];
          } else {
            assert Elements()[k] == was[k + 1];
          }
        }
      }
    }

    /** Insert(pos, value), copying or moving: put `v` at position `index`, growing
        the block first if needed (empty: one slot; full: twice the slots). Returns
        the position of the inserted element. */
    method Insert(index: nat, v: T) returns (pos: nat)
      requires Valid() && index <= size
      modifies this, items
      ensures Valid() && pos == index
      ensures Elements() == old(Elements())[..index] + [v] + old(Elements())[index..]
      ensures capacity == Growth.GrowCapacity(old(size), old(capacity))
      ensures old(size) < old(capacity) ==> items == old(items)
      ensures old(size) == old(capacity) ==> fresh(items)
    {
      ghost var was := Elements();
      if capacity == 0 {
        var temp := Buffers.Allocate(1, def);
        items := temp;
        items[0] := v;
        capacity := capacity + 1;
      } else if size < capacity {
        Buffers.ShiftRight(items, index, size);
        items[index] := v;
      } else {
        var temp := Buffers.Allocate(capacity * 2, def);
        Buffers.CopyRange(items, 0, index, temp, 0);
        Buffers.CopyRange(items, index, size, temp, index + 1);
        items := temp;
        items[index] := v;
        capacity := capacity * 2;
      }
      size := size + 1;
      pos := index;
      assert Elements() == was[..index] + [v] + was[index..] by {
        forall k | 0 <= k < size
          ensures Elements()[k] == (was[..index] + [v] + was[index..])[k]
        {
          if k < index {
            assert Elements()[k] == was[k];
          } else if k == index {
            assert Elements()[k] == v;
          } else {
            assert Elements()[k] == was[k - 1];
          }
        }
      }
    }

    /** PushBack(item), copying or moving: append `v`, growing the block first if
        it is full (empty: one slot; otherwise twice the slots). */
    method PushBack(v: T)
      requires Valid()
      modifies this, items
      ensures Valid()
      ensures Elements() == old(Elements()) + [v]
      ensures capacity == Growth.GrowCapacity(old(size), old(capacity))
      ensures old(size) < old(capacity) ==> items == old(items)
      ensures old(size) == old(capacity) ==> fresh(items)
    {
      ghost var was := Elements();
      if size < capacity {
      } else if capacity == 0 {
        var temp := Buffers.Allocate(1, def);
        items := temp;
        capacity := capacity + 1;
      } else {
        var newCapacity := capacity * 2;
        var temp := Buffers.Allocate(newCapacity, def);
        Buffers.CopyRange(items, 0, size, temp, 0);
        items := temp;
        capacity := newCapacity;
      }
      items[size] := v;
      size := size + 1;
      assert Elements() == was + [v] by {
        forall k | 0 <= k < size
          ensures Elements()[k] == (was + [v])[k]
        {
          if k < size - 1 {
            assert Elements()[k] == was[k];
          }
        }
      }
    }

    /** Reserve(n): if `n` exceeds the capacity, move the elements into a fresh block
        of exactly `n` slots; otherwise change nothing. Never shrinks. */
    method Reserve(n: nat)
      requires Valid()
      modifies this
      ensures Valid() && Elements() == old(Elements())
      ensures capacity == if n > old(capacity) then n else old(capacity)
      ensures n <= old(capacity) ==> items == old(items)
      ensures n > old(capacity) ==> fresh(items)
    {
      if n > capacity {
        ghost var was := Elements();
        var temp := Buffers.Allocate(n, def);
        Buffers.CopyRange(items, 0, size, temp, 0);
        items := temp;
        capacity := n;
        assert Elements() == was by {
          forall k | 0 <= k < size ensures Elements()[k] == was[k] { }
        }
      }
    }

    /** Resize(n): shrinking keeps the first `n` elements in place; growing keeps
        every element and gives the new positions [size, n) the default value,
        reallocating to max(n, 2 * capacity) slots when `n` does not fit. */
    method Resize(n: nat)
      requires Valid()
      modifies this, items
      ensures Valid() && |Elements()| == n
      ensures n <= old(size) ==> Elements() == old(Elements())[..n]
      ensures n > old(size) ==> Elements()[..old(size)] == old(Elements())
      ensures forall k :: old(size) <= k < n ==> Elements()[k] == def
      ensures capacity == Growth.ResizeCapacity(n, old(capacity))
      ensures n <= old(capacity) ==> items == old(items)
      ensures n > old(capacity) ==> fresh(items)
    {
      ghost var was := Elements();
      if n <= size {
        size := n;
        return;
      }
      if n <= capacity {
        Buffers.Fill(items, size, n, def);
        size := n;
        assert Elements()[..old(size)] == was by {
          forall k | 0 <= k < old(size) ensures Elements()[k] == was[k] { }
        }
        return;
      }
      var newCapacity := if n > capacity * 2 then n else capacity * 2;
      var temp := Buffers.Allocate(newCapacity, def);
      Buffers.CopyRange(items, 0, size, temp, 0);
      Buffers.Fill(temp, size, n, def);
      items := temp;
      size := n;
      capacity := newCapacity;
      assert Elements()[..old(size)] == was by {
        forall k | 0 <= k < old(size) ensures Elements()[k] == was[k] { }
      }
    }

    /** swap(other): exchange blocks and counters; no element is copied. */
    method Swap(other: SimpleVector<T>)
      modifies this, other
      ensures items == old(other.items) && other.items == old(items)
      ensures size == old(other.size) && other.size == old(size)
      ensures capacity == old(other.capacity) && other.capacity == old(capacity)
      ensures old(other.Valid()) ==> Valid() && Elements() == old(other.Elements())
      ensures old(Valid()) ==> other.Valid() && other.Elements() == old(Elements())
    {
      items, other.items := other.items, items;
      size, other.size := other.size, size;
      capacity, other.capacity := other.capacity, capacity;
    }
  }
}
