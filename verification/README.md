# SimpleVector in Dafny

A model of `SimpleVector<Type>` from `simple-vector/simple_vector.h`: a hand-written
dynamic array that owns one storage block (`items_`) and two counters, `size_` (live
elements) and `capacity_` (slots usable without reallocating). The Dafny class
`SimpleVectors.SimpleVector<T>` keeps the same three fields (`items: array<T>`,
`size`, `capacity`). Its invariant `Valid()` is `size <= capacity <= items.Length`.
The ghost function `Elements()` gives the live elements `items[..size]`. Every
mutator is a method whose contract gives the new `Elements()`, `size` and
`capacity` in terms of the old ones. It also says whether the block was kept or
replaced by a fresh one.

The growth policy is stated once, in module `Growth`:

- an empty block becomes one slot;
- a full block doubles;
- `Resize(n)` past the capacity grows to `max(n, 2 * capacity)`;
- `Reserve` never shrinks.

The doubling law (after k pushes from empty, capacity is the least power of two >= k)
is proved there. `Scenarios.PushAll` proves the vector follows it.

The free comparison operators are functions over the live sequences, in module
`Comparison`. `<` is `std::lexicographical_compare` under an element order `lt`
that the caller supplies. For a strict total `lt`, it is proved equal to the
textbook lexicographic order and proved to be a strict total order itself. `<=`, `>`, `>=` and `!=` are
written exactly as the source derives them from `==` and `<`.

Module `Buffers` holds the element-moving loops the source runs on its blocks:

- `std::fill`;
- `std::copy`/`std::move` into a new block;
- `std::copy_backward`/`std::move_backward` to open a gap;
- `std::move` to close one.

Modelling choices:

- Iterators and pointers are `nat` positions. `Insert`/`Erase` take and return
  indices.
- `Type{}` is a constructor argument `def`, kept as a constant of each vector.
- The `std::out_of_range` thrown by `At` is the value `Failure(OutOfRange)`.
- The debug `assert`s on positions are `requires` clauses.
- The reservation constructor (lines 55-57) calls `Reserve` unqualified. Inside the
  class that name is the member `Reserve`, which hides the free function at line 23.
  So the call acts on `*this`, the vector under construction: it gives size 0 and
  capacity `n`. `SimpleVector.Reserved` does the same: it calls the member `Reserve`.

## Model

| member | source | states |
|---|---|---|
| `SimpleVectors.Reserve` | simple-vector/simple_vector.h:11-25 | the proxy object carries exactly the requested count |
| `SimpleVectors.SimpleVector.constructor` | simple-vector/simple_vector.h:33-33 | default construction: no elements, capacity 0 |
| `SimpleVectors.SimpleVector.Sized` | simple-vector/simple_vector.h:35-38 | n elements, all equal to the default value, capacity n |
| `SimpleVectors.SimpleVector.Filled` | simple-vector/simple_vector.h:40-43 | n elements, all equal to `value`, capacity n |
| `SimpleVectors.SimpleVector.FromList` | simple-vector/simple_vector.h:45-48 | the elements are the list in order; capacity is its length |
| `SimpleVectors.SimpleVector.Copy` | simple-vector/simple_vector.h:50-53 | corrected copy: fresh block, same elements, same capacity as `other` |
| `SimpleVectors.SimpleVector.CopyAsWritten` | simple-vector/simple_vector.h:50-53 | copy as written: same size and elements, capacity 0, block length = `other`'s capacity; the invariant holds iff `other` is empty |
| `SimpleVectors.SimpleVector.Reserved` | simple-vector/simple_vector.h:55-57 | reservation construction: a fresh block, no elements, capacity equal to the requested count |
| `SimpleVectors.SimpleVector.Move` | simple-vector/simple_vector.h:59-61 | takes over `other`'s block, elements and capacity; `other` is left valid and empty with capacity 0 and a fresh empty block, so it can be reused independently |
| `SimpleVectors.SimpleVector.Assign` | simple-vector/simple_vector.h:63-69 | copy assignment (through the corrected copy): elements and capacity of `rhs`, `rhs` unchanged; self-assignment keeps the same block, elements and capacity; otherwise the block is fresh |
| `SimpleVectors.SimpleVector.AssignAsWritten` | simple-vector/simple_vector.h:63-69 | copy assignment as written: self-assignment changes nothing (same block, size, capacity); from another vector, a fresh block of `rhs`'s capacity holding its elements, its size, and capacity 0; the invariant holds iff `rhs` is this vector or empty |
| `SimpleVectors.SimpleVector.Set` | simple-vector/simple_vector.h:71-75 | writing through `operator[]` replaces exactly element `index` |
| `SimpleVectors.SimpleVector.Get` | simple-vector/simple_vector.h:77-81 | `operator[]` for index < size returns live element `index` |
| `SimpleVectors.SimpleVector.At` | simple-vector/simple_vector.h:119-131 | fails with OutOfRange exactly when index >= size, otherwise returns element `index`; no state change |
| `SimpleVectors.SimpleVector.Clear` | simple-vector/simple_vector.h:133-136 | no elements afterwards; block and capacity unchanged |
| `SimpleVectors.SimpleVector.Erase` | simple-vector/simple_vector.h:138-146 | elements become `old[..i] + old[i+1..]`, same block and capacity, returns i |
| `SimpleVectors.SimpleVector.GetSize` | simple-vector/simple_vector.h:148-151 | the number of live elements |
| `SimpleVectors.SimpleVector.GetCapacity` | simple-vector/simple_vector.h:153-156 | never less than the number of live elements |
| `SimpleVectors.SimpleVector.Insert` | simple-vector/simple_vector.h:158-218 | elements become `old[..i] + [v] + old[i..]`, returns i; capacity follows `GrowCapacity`; the block is kept when there was room and fresh otherwise |
| `SimpleVectors.SimpleVector.IsEmpty` | simple-vector/simple_vector.h:220-223 | true iff there are no live elements |
| `SimpleVectors.SimpleVector.PopBack` | simple-vector/simple_vector.h:225-230 | drops the last element; no-op when empty; block and capacity unchanged |
| `SimpleVectors.SimpleVector.PushBack` | simple-vector/simple_vector.h:232-272 | elements become `old + [v]`; capacity follows `GrowCapacity`; the block is kept when there was room and fresh otherwise |
| `SimpleVectors.SimpleVector.Reserve` | simple-vector/simple_vector.h:274-281 | elements unchanged; capacity becomes n only if n is larger; otherwise the same block is kept |
| `SimpleVectors.SimpleVector.Resize` | simple-vector/simple_vector.h:283-318 | size n; shrinking keeps `old[..n]`, growing keeps all old elements and sets [size, n) to the default; capacity follows `ResizeCapacity`; the block is replaced only when n exceeds the capacity |
| `SimpleVectors.SimpleVector.Swap` | simple-vector/simple_vector.h:320-331 | exchanges block, size and capacity, hence the element sequences, with `other` |
| `Growth.GrowCapacity` | simple-vector/simple_vector.h:166-184 | capacity after one insertion always exceeds the old size, never shrinks, and is unchanged when there was room |
| `Growth.ResizeCapacity` | simple-vector/simple_vector.h:298-317 | capacity after Resize is at least n and at least the old capacity; unchanged iff n fits; otherwise it is n or twice the old capacity, and never less than twice the old capacity, i.e. `max(n, 2 * capacity)` |
| `Growth.DoublingLaw` | simple-vector/simple_vector.h:234-252 | after k >= 1 pushes from capacity 0 the capacity is the least power of two >= k |
| `Buffers.Fill` | simple-vector/simple_vector.h:291-293 | slots [lo, hi) hold the value, every other slot unchanged |
| `Buffers.CopyRange` | simple-vector/simple_vector.h:178-180 | the target range receives the source range slot for slot; the rest of the target is unchanged |
| `Buffers.CopyFromSeq` | simple-vector/simple_vector.h:46-47 | the front of the block holds the list; the rest is unchanged |
| `Buffers.ShiftRight` | simple-vector/simple_vector.h:174-174 | slots [lo, hi) move one place right; slots below lo and above hi unchanged |
| `Buffers.ShiftLeft` | simple-vector/simple_vector.h:143-143 | slots [lo+1, hi) move one place left; slots below lo and from hi on unchanged |
| `Comparison.RangesEqual` | simple-vector/simple_vector.h:343-343 | `std::equal` over equal-length ranges is true iff the sequences are equal |
| `Comparison.Equal` | simple-vector/simple_vector.h:339-344 | `==` holds iff the live sequences are equal (same size, equal elements in order) |
| `Comparison.NotEqual` | simple-vector/simple_vector.h:346-349 | `!=` holds iff the live sequences differ |
| `Comparison.Less` | simple-vector/simple_vector.h:351-354 | `operator<`: nothing is less than an empty vector, and a proper prefix is always less, whatever the element order |
| `Comparison.LessOrEqual` | simple-vector/simple_vector.h:356-359 | `operator<=`: true of equal vectors and of a proper prefix; true only when `<` or `==` holds |
| `Comparison.Greater` | simple-vector/simple_vector.h:361-364 | `operator>`: an empty vector is never greater; a vector is greater than each of its proper prefixes |
| `Comparison.GreaterOrEqual` | simple-vector/simple_vector.h:366-369 | `operator>=`: every vector is `>=` an empty one; a proper prefix is never `>=` the longer vector |
| `Comparison.LessIsLexicographic` | simple-vector/simple_vector.h:351-354 | for a strict total element order, `<` is exactly "proper prefix, or smaller at the first difference" |
| `Comparison.LessIrreflexive` | simple-vector/simple_vector.h:351-354 | no vector is less than itself, for any irreflexive element order |
| `Comparison.LessTransitive` | simple-vector/simple_vector.h:351-354 | `<` is transitive, for a strict total element order |
| `Comparison.Trichotomy` | simple-vector/simple_vector.h:351-354 | for a strict total element order, exactly one of a < b, a == b, b < a holds |
| `Comparison.DerivedOperators` | simple-vector/simple_vector.h:356-369 | for a strict total element order: `<=` as written is "not greater"; `>=` as written is "greater or equal"; `!=` is "less or greater" |
| `Scenarios.PushAll` | simple-vector/simple_vector.h:232-252 | pushing a list onto a new vector yields that list, with the doubling-law capacity |
| `Scenarios.InsertThenErase` | simple-vector/simple_vector.h:139-189 | erasing at the position returned by Insert restores the original elements |
| `Scenarios.CopyThenPush` | simple-vector/simple_vector.h:50-53 | a copy equals its source, and pushing onto the copy leaves the source unchanged |
| `Scenarios.CopyDefectWitness` | simple-vector/simple_vector.h:51-53 | copying the one-element vector {7} as written gives size 1, capacity 0: invariant broken |
| `Scenarios.ListScenario` | simple-vector/simple_vector.h:162-252 | {1,2,3}, insert 9 at 1, erase at 0, push 7, pop back gives {9,2,3} with capacity 6 |
| `Scenarios.FirstPushScenario` | simple-vector/simple_vector.h:234-289 | a new vector is empty with capacity 0; the first push gives capacity 1; `Resize(0)` empties it and keeps that capacity |
| `Scenarios.IntVectorsAreOrdered` | simple-vector/simple_vector.h:339-369 | for any two `int` vectors, exactly one of `<`, `==`, `>` holds of their live elements; `<=` is "not `>`" and `>=` is "not `<`" |
| `Scenarios.CompareScenario` | simple-vector/simple_vector.h:339-369 | {1,2} < {1,3} < {1,3,0}, and a copy of {1,3} extended by a push is no longer `==` to it |
| `Scenarios.ReservedScenario` | simple-vector/simple_vector.h:55-57 | `SimpleVector v(Reserve(n))` is empty with capacity n; pushing 5 then gives {5} with capacity n (or 1 when n is 0) |
| `Scenarios.MoveThenReuse` | simple-vector/simple_vector.h:59-61 | after `SimpleVector m(std::move(v))`, `m` holds v's old elements and pushing 5 onto `v` gives {5} with capacity 1, leaving `m` unchanged |

## Findings

| source | as written | input that shows it | evidently intended | confidence | as-written member | corrected member |
|---|---|---|---|---|---|---|
| simple-vector/simple_vector.h:51-53 | the copy constructor initialises `items_` with `other.capacity_` slots and sets `size_`, but never sets `capacity_`, which stays 0 | copying a vector holding {7}: size 1, capacity 0, so size <= capacity fails; a later `PushBack` takes the capacity-0 branch, drops the element and writes past the new one-slot block | `capacity_(other.capacity_)` | high (not executed) | `SimpleVectors.SimpleVector.CopyAsWritten` | `SimpleVectors.SimpleVector.Copy` |
| simple-vector/simple_vector.h:64-69 | copy assignment swaps in a temporary built by that copy constructor | assigning {7} to another vector: size 1, capacity 0 | capacity equal to the right-hand side's | high (not executed) | `SimpleVectors.SimpleVector.AssignAsWritten` | `SimpleVectors.SimpleVector.Assign` |

The rest of the model uses the corrected `Copy` and `Assign`.

## Left out

- `ArrayPtr` (`array_ptr.h`) is not part of this model. A block is a fresh Dafny
  `array<T>` with every slot set to the default value (`Buffers.Allocate`).
  `items_.swap(temp)` is a reassignment of the `items` field. The old block is
  simply dropped.
- `begin`/`end`/`cbegin`/`cend` (lines 83-117) and pointer arithmetic are left out.
  Positions are `nat` indices and traversal is `Elements()`. The remark that an
  empty vector's iterators may be null is not modelled.
- The copy and move overloads of `Insert`, `PushBack` and `swap` are each one
  method. In a value model they cannot be told apart. For the same reason the
  moved-from state of an element is not modelled.
- Allocation failure and exception safety are left out. Allocation always succeeds.
- `size_t` arithmetic is left out. Counters are unbounded `nat`, so the overflow of
  `capacity_ * 2` is not modelled.
- `Type{}` is a per-vector constant `def` supplied at construction. The model does not
  force two vectors of the same element type to share it.
- The mutable `At` returns a reference that callers can write through. The model
  covers that write with `Set`, for an index `At` has accepted.
- `Comparison.Less`, `LessOrEqual`, `Greater`, `GreaterOrEqual` take the element
  order as a parameter `lt`, because the source relies on the element type's
  `operator<`.
- Comparison.Equal, Comparison.LessOrEqual: elements are compared with Dafny's
  built-in equality. The source's `std::equal` (line 343), and `<=` through the
  vector `==` (line 358), call the element type's `operator==`. The model does not
  cover an element type whose `operator==` is anything other than identity of values.
- Comparison.DerivedOperators: proved for a strict total element order only. Under a
  strict weak order whose "equivalent" is not "equal", the source's own operators
  disagree. Example: strings compared case-insensitively, a = {"A"}, b = {"a"}.
  Then `b >= a` holds (not `b < a`), but `a <= b` fails (neither `a < b` nor `a == b`).
  The model does not state this case.
- Comparison.LessTransitive: proved for a strict total element order. The source's
  `std::lexicographical_compare` asks only for a strict weak order.
- Comparison.Trichotomy: proved for a strict total element order. Under a weak order,
  "equal" would mean "equivalent" rather than `==`.
- Comparison.LessIsLexicographic: proved for a strict total element order, for the
  same reason.
- Buffers.ShiftLeft: says nothing about the last slot of the range. After
  `std::move` that slot holds a moved-from value, which the vector never reads.
