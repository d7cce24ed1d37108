# Valarray expression templates: a Dafny model

This project models the core of a small C++ numeric container library in
two parts.

- `epl::vector<T>` is a double-ended growable buffer. It keeps one
  allocation and four positions `sbegin <= dbegin <= dend <= send`: front
  spare, live elements, back spare.
- `valarray<T>` (`VectorWrapper<epl::vector<T>>`) sits on top of it. It is
  the front end of a lazy expression layer. Arithmetic builds read-only
  views (`Scalar`, `UnaryProxy`, `BinaryProxy`). Those views compute an
  element only when something indexes them. A container is materialised
  only when one is constructed from a view. The element type of each view
  comes from a rank-based type promotion table.

Files:

- `Outcomes.dfy`: the error kinds and the `Result`/`Option`/`Outcome` wrappers.
- `Vector.dfy` (module `Epl`): the vector as a generic class `Vector<T>` over an `array?<T>`
  with `dbegin`/`dend` indices. `Valid()` is the class invariant.
  `Elements()` is the abstract value. Every mutating method states the new
  value in terms of the old one. It also holds the instance counter and the
  as-written growth and conversion functions (see "Findings").
- `Promotion.dfy`: `Rank`, `BasicType`, `IsComplex`, `ComplexType`,
  `ChooseType` and the result type of `sqrt`.
- `Views.dfy`: the `Expr` datatype (container leaf, scalar broadcast, unary
  view, binary view) with `Size`, `At` and `ValueType`. It also has the
  view builders (`apply`, `sqrt`, unary `-`), `calculate` and `+ - * /`,
  C++ truncating division, and `accumulate`/`sum` as a loop proved against
  a left fold.
- `Wrapper.dfy`: the `valarray` class. It has the constructors, the
  truncating assignments, and a scenario that checks the laziness contract
  against a ghost instance counter.

Building a view is a function, so it cannot construct anything. The
converting constructor `Wrapper.Valarray.FromView` is the only place a view
becomes a container, and it raises the instance count by exactly one.

## Model

| member | source | states |
|---|---|---|
| `Epl.GrownCapacity` | Vector.h:377-381 | the capacity both growth routines settle on: twice the old capacity, doubled again while short of the needed size. Its contract: at least the need and at least twice the old capacity |
| `Epl.DoubleUntil` | Vector.h:377-381 | the doubling loop of both growth routines, starting from twice the capacity, ends at exactly the grown capacity for the requested size |
| `Epl.GrownCapacityIsFirstDoubling` | Vector.h:376-381 | the grown capacity is `old * 2^k` for some `k >= 1`. It holds the request, and it is the first such doubling (either exactly `2 * old`, or less than twice the request) |
| `Epl.Vector.Size` | Vector.h:122 | `dend - dbegin` is the number of live elements |
| `Epl.Vector.Default` | Vector.h:44-51 | the default constructor gives an empty vector with capacity 8 and no front spare, and counts one construction |
| `Epl.Vector.Sized` | Vector.h:53-65 | the sized constructor gives `sz` default-valued elements. Capacity is `sz`, or 8 when `sz` is 0. Counts one construction |
| `Epl.Vector.Copy` | Vector.h:67-72 | the copy constructor gives a fresh allocation with the same elements. Capacity is `max(size, 8)` |
| `Epl.Vector.Convert` | Vector.h:74-87 | converting construction gives element `i` equal to `cast(that[i])` and the same size. Capacity is the size, or 8 when empty (corrected loop bound, see Findings) |
| `Epl.Vector.FromRange` | Vector.h:347-358 | construction from a random-access range (and an initializer list) copies the range. Capacity is `max(length, 8)` |
| `Epl.Vector.FromForwardRange` | Vector.h:360-369 | construction from a forward range pushes each element at the back and ends holding exactly the range |
| `Epl.Vector.Move` | Vector.h:339-345 | the move constructor adopts the source's storage, elements, capacity and front spare. The source is left with null storage and no elements |
| `Epl.Vector.Destroy` | Vector.h:311-319 | after `destroy` there are no elements and no storage. A vector whose storage is already null is untouched |
| `Epl.Vector.CopyAssign` | Vector.h:108-114 | copy assignment makes the elements equal to the source's in a fresh allocation. Self-assignment changes nothing |
| `Epl.Vector.MoveAssign` | Vector.h:116-120 | move assignment adopts the source's storage and elements. The source always ends with null storage, including on self-move |
| `Epl.Vector.Get` | Vector.h:124-134 | `operator[](k)` gives element `k` when `k < size()`, and `out_of_range` otherwise |
| `Epl.Vector.Set` | Vector.h:124-128 | writing through `operator[](k)` replaces element `k` and nothing else. Out of range it throws and changes nothing |
| `Epl.Vector.Front` | Vector.h:187-195 | `front` gives element 0, or `out_of_range` on an empty vector |
| `Epl.Vector.Back` | Vector.h:197-205 | `back` gives element `size-1`, or `out_of_range` on an empty vector |
| `Epl.Vector.PopBack` | Vector.h:175-179 | `pop_back` throws on an empty vector and leaves it unchanged. Otherwise it removes the last element and keeps the others in order |
| `Epl.Vector.PopFront` | Vector.h:181-185 | `pop_front` throws on an empty vector and leaves it unchanged. Otherwise it removes the first element and keeps the others in order |
| `Epl.Vector.PushBack` | Vector.h:136-148 | `push_back(x)` appends `x` and keeps every earlier element at its index, also across a reallocation. Capacity doubles exactly when the back spare was 0. The back spare left is given |
| `Epl.Vector.PushFront` | Vector.h:156-166 | `push_front(x)` puts `x` at index 0 and old element `i` at `i+1`. Capacity doubles exactly when the front spare was 0 |
| `Epl.Vector.EnsureBackCapacity` | Vector.h:371-406 | no-op when the back spare covers the request. Otherwise: fresh storage of the first doubled capacity that holds size plus request; back spare `max(request, (capacity - size) / 2)`; front spare gets the rest; elements kept in order |
| `Epl.Vector.EnsureFrontCapacity` | Vector.h:408-443 | the mirror image at the front: front spare `max(request, (capacity - size) / 2)`, elements kept in order |
| `Epl.Vector.MoveInto` | Vector.h:389-405 | the live elements move in order into a new allocation of the given capacity, starting at the given offset |
| `Epl.PushBackThroughTwoDoublings` | Vector.h:136-148 | 17 pushes on a default vector keep `0..16` in order. Capacity goes 8, 16, 32, ending with front spare 10 and back spare 5 |
| `Epl.AsWrittenBackOffset` | Vector.h:377-390 | the offset of the first live element as `ensure_back_capacity` computes it, with the doubling loop compared against the request alone: `capacity - max(req, (capacity - size) / 2) - size` |
| `Epl.AsWrittenFrontEnd` | Vector.h:414-427 | the end of the live elements as `ensure_front_capacity` computes it, with the same as-written loop: `max(req, (capacity - size) / 2) + size` |
| `Epl.AsWrittenBackUnderflow` | Vector.h:377-390 | with the loop bound as written, a request of 15 on a full vector of capacity 8 would place the data 7 slots before the new storage |
| `Epl.AsWrittenFrontOverflow` | Vector.h:414-427 | with the loop bound as written, a request of 15 at the front of a full vector of capacity 8 would end the data 7 slots past the new storage |
| `Epl.GrowthBoundsAgreeForOneSlot` | Vector.h:136-166 | for a one-slot request (the only one `push_back`/`push_front` make), the as-written and the corrected loop bound both give twice the capacity, and the layout stays inside the storage |
| `Epl.ConvertAsWritten` | Vector.h:76-84 | the converting constructor's loop as written: it runs up to the capacity (the source's size, or 8 when the source is empty) through the bounds-checked `operator[]` |
| `Epl.ConvertUpTo` | Vector.h:81-84 | the first `n` iterations of that loop succeed exactly when `n <= that.size()`, give `n` elements, and otherwise fail with `out_of_range` |
| `Epl.ConvertAsWrittenThrowsOnEmpty` | Vector.h:76-84 | as written, converting an empty vector throws `out_of_range` |
| `Epl.ConvertUpToInRange` | Vector.h:81-84 | within the source's length, the as-written loop converts each element in turn |
| `Epl.ConvertAsWrittenAgreesWhenNonEmpty` | Vector.h:76-84 | on a non-empty source, the as-written loop gives exactly the converted elements |
| `Promotion.Rank` | Valarray.h:28-51 | 0 for any type without a specialisation, 1 for `int`, 2 for `float`, 3 for `double`, and a complex type has its component's rank |
| `Promotion.BasicType` | Valarray.h:53-69 | defined exactly for the ranks 1 to 3 (`BasicType<0>` has no definition); the type it gives has that rank and is not complex |
| `Promotion.IsComplex` | Valarray.h:73-82 | true exactly for `std::complex<T>` |
| `Promotion.ComplexType` | Valarray.h:84-95 | wraps the type in `std::complex` when the flag is set. The result keeps the rank and is complex iff the flag is set or the type already was |
| `Promotion.ChooseType` | Valarray.h:97-110 | defined exactly when some operand has a rank. Its rank is the higher operand rank. It is complex iff either operand is complex. It is never unranked or complex-of-complex |
| `Promotion.RankBounded` | Valarray.h:28-51 | every rank is at most 3, so `BasicType` of the higher rank exists |
| `Promotion.ChooseTypeSymmetric` | Valarray.h:97-110 | promotion does not depend on operand order |
| `Promotion.ChooseTypeSame` | Valarray.h:97-110 | an admissible type combined with itself gives itself |
| `Promotion.PromotionExamples` | Valarray.h:97-110 | int⊕double is double, int⊕int is int, double⊕complex<float> is complex<double> (both orders), int⊕float is float. An unranked type with int gives int. Two unranked types have no promotion |
| `Promotion.RootType` | Valarray.h:136-140 | the result type of `sqrt` has the rank of double and is complex iff the argument is |
| `Views.CDiv` | Valarray.h:408-411 | `std::divides<int>` truncates toward zero. The remainder has the dividend's sign and is smaller than the divisor in magnitude |
| `Views.CDivRemainder` | Valarray.h:408-411 | the remainder bounds behind `CDiv` |
| `Views.Size` | Valarray.h:194-271 | `size()` of each view: a container's length, `2^64-1` for a Scalar, the operand's size for a unary view, the smaller operand size for a binary view |
| `Views.At` | Valarray.h:198-267 | `operator[]` of each view: the container's bounds-checked element, the Scalar's value at every index, `op` of the operand's element, and `op` of both operands' elements (a division by zero is an error) |
| `Views.ValueType` | Valarray.h:192-263 | `value_type` of each view: the container's or Scalar's element type, the operand's for a unary view, and `ChooseType` of the operands' for a binary view |
| `Views.UnrankedArraysAreNotOperable` | Valarray.h:53-110 | two arrays whose element types have no rank cannot be combined, because their promotion would need the undefined `BasicType<0>`. An unranked array with an `int` array can |
| `Views.SizeIsShortestLeaf` | Valarray.h:269-271 | a view's size is that of the shortest container it reads, or the Scalar size `2^64-1` when it reads none. Mismatched operands truncate |
| `Views.AtWithinSize` | Valarray.h:265-267 | below a view's size, indexing never reaches a container out of range |
| `Views.DivisionFreeIsDefinedAt` | Valarray.h:265-267 | a view without division has a value at every index below its size |
| `Views.DivisionFreeIsDefined` | Valarray.h:265-267 | a view without division has all its elements defined |
| `Views.LeafValues` | Valarray.h:21-23 | a container used as a view presents exactly the container's elements |
| `Views.ApplyView` | Valarray.h:333-336 | `apply(f)` keeps the size and value type, and element `i` is `f(e[i])` |
| `Views.SqrtView` | Valarray.h:339-341 | `sqrt()` keeps the size and value type, and element `i` is the root of `e[i]` |
| `Views.NegateView` | Valarray.h:343-345 | unary `-` keeps the size and value type, and element `i` is `-e[i]` |
| `Views.Calculate` | Valarray.h:373-391 | a binary view has size `min(l.size, r.size)`. A bare number becomes a Scalar and leaves the array's size. Element `i` is `op(l[i], r[i])` in operand order. The value type is `ReturnType(l, r)` |
| `Views.ReturnType` | Valarray.h:113-131 | `ReturnType<T1, T2>`: `ChooseType` of the operands' element types, where a bare number contributes its own type |
| `Views.Add` | Valarray.h:393-396 | `operator+`: size `min` of the operand sizes, value type `ReturnType`, element `i` is `l[i] + r[i]` |
| `Views.Sub` | Valarray.h:398-401 | `operator-`: element `i` is `l[i] - r[i]`, in operand order |
| `Views.Mul` | Valarray.h:403-406 | `operator*`: element `i` is `l[i] * r[i]` |
| `Views.Div` | Valarray.h:408-411 | `operator/`: element `i` is `l[i] / r[i]` truncated toward zero, and a division-by-zero error when `r[i]` is 0 |
| `Views.ScalarBroadcastExamples` | Valarray.h:380-388 | ten ones plus 1 is ten twos. 1 minus ten ones is ten zeros. Operand order matters: `1 - [2..]` is -1 and `[2..] - 1` is 1 |
| `Views.OperatorsExample` | Valarray.h:393-411 | `-((2 * (1 + x - y + 1)) / 1)` with ten-zero `x` and twenty-zero `y` has size 10, and every element is -4 |
| `Views.FoldLeftSnoc` | Valarray.h:357-358 | folding one more element applies `op` once more on the right |
| `Views.Accumulate` | Valarray.h:353-364 | `accumulate(op)` returns 0 on an empty view. Otherwise it returns the left fold from element 0: `op(...op(e[0], e[1])..., e[n-1])` |
| `Views.FoldPlusIsSum` | Valarray.h:366-368 | a left fold with `+` is the ordinary sum |
| `Views.Sum` | Valarray.h:366-368 | `sum()` is the ordinary sum of the elements, and 0 when there are none |
| `Views.AccumulatedExamples` | Valarray.h:353-364 | `[1..5]` gives 15 with plus and 120 with times. `{5}` gives 5. AddPlus5 over `[0..4]` gives 30. Subtraction over `[1..5]` gives -13. Empty with times gives 0 |
| `Wrapper.Valarray.View` | Valarray.h:21-23 | a container seen as a view presents its elements with its element type |
| `Wrapper.Valarray.Default` | Valarray.h:293 | an empty container, counted once |
| `Wrapper.Valarray.Sized` | Valarray.h:297 | `n` zeros, counted once |
| `Wrapper.Valarray.FromList` | Valarray.h:347-348 | the listed elements, counted once |
| `Wrapper.Valarray.Copy` | Valarray.h:295 | a fresh container with the same elements and element type, counted once |
| `Wrapper.Valarray.FromView` | Valarray.h:300-305 | materialising a view gives its size and its elements in order, and constructs exactly one container |
| `Wrapper.Valarray.Assign` | Valarray.h:307-315 | same-type assignment writes only indices below `min(sizes)` and keeps its size and the remaining elements. Self-assignment is a no-op |
| `Wrapper.Valarray.AssignView` | Valarray.h:322-331 | assignment from a view or a differently typed container writes element `i` for `i < min(size, view size)` and leaves the rest and the size unchanged |
| `Wrapper.Valarray.AssignScalar` | Valarray.h:317-320 | assigning a ranked number sets every element (up to the Scalar size) to it, and keeps the size |
| `Wrapper.LazyEvaluationScenario` | Valarray.h:373-411 | building `x + y`, `(x + y) * (y / x)` and `-(apply(...))` leaves the instance count alone. Materialising `x + y` adds exactly one and gives ten 3s |

## Left out

- Element values are integers. Floating point, complex arithmetic and the
  values of `sqrt` are not modelled. `sqrt` takes the root function as a
  parameter, and `Promotion.RootType` gives its result type.
  `static_cast` between element types is the identity on these values.
- A bare number passes through `uint64_t` on its way into a Scalar, which
  the model does not capture. `VectorWrapper<Scalar<T>>(r)`
  (Valarray.h:319, 382, 387) picks `explicit VectorWrapper(uint64_t)`
  (Valarray.h:297), because a standard conversion beats the user-defined
  one through `Scalar(const T&)`. So a floating scalar is truncated: `x + 2.5`
  on a `valarray<double>` adds 2.0. With integer values this truncation
  cannot be seen.
- Fixed-width arithmetic is not modelled. `uint64_t` sizes, capacities and
  indices are unbounded naturals, so neither the overflow of
  `capacity *= 2` nor signed `int` overflow in the operators appears.
- Integer division by zero is undefined in C++. Here it yields
  `Err(DivideByZero)`. The assignments and `accumulate` require the
  elements they read to be defined.
- A view holds a container by reference. Here a `Leaf` holds the
  container's elements as a value, read when the view is built. Every
  view is elementwise, so assigning a view into one of its own operands
  (as in `x = -(... x ...)`) gives the same result either way. Aliasing
  itself is not modelled.
- Stream output (`operator<<`) and the message the copy constructor
  prints are I/O and are left out.
- The iterator classes of both files are left out. Iteration is an index
  range `0..size`.
- The `choose_ref`/`EnableIf`/`decltype` machinery collapses into the
  `Expr` constructors and the `Views.Operable` precondition. A call the
  source rejects at compile time (no array operand, an unranked bare
  number, or element types that do not promote) is a precondition here.
- Raw memory is not modelled: `operator new`/`delete`, placement new,
  element constructors and destructors, the destructor `~vector`, and
  exception safety while growing. Storage is an array with offsets.
- `InstanceCounter` is not part of this model beyond a ghost count that
  every vector constructor raises by one.
- `emplace_back` and `emplace_front` are left out because of their
  variadic forwarding. As written, `emplace_back` also never advances
  `dend` (Vector.h:150-154).
- `copy()` and both `constructFromIterator` overloads never assign
  `send` (Vector.h:321-337, 347-369). Here the end of storage is always
  `storage.Length`, which is what the other constructors set.
- `Wrapper.Valarray.AssignScalar`: the source's scalar `operator=` has no
  `return` statement (Valarray.h:317-320). Flowing off the end of a
  function that returns a value is undefined behaviour, so as written
  every call, even a plain `x = 5;`, is undefined. The model performs the
  intended element writes and returns nothing.
- `Views.Accumulate`: on an empty view, 0 is returned whatever the
  operation is (Valarray.h:361), even when 0 is not the operation's
  identity, as for multiplication. The model keeps this, and the library's
  tests expect it.
- Assignment and `accumulate` construct no container in the code. Only
  construction from a view does, so the model counts a construction only
  there.
- `Epl.Vector.Destroy`: the source leaves `sbegin` pointing at the
  released allocation. Every caller (the destructor and both assignments)
  overwrites or abandons the positions right away, so the model sets the
  storage to null instead.
- `Epl.Vector.PushBack`: requires non-null storage. On a moved-from vector
  (capacity 0), the source's doubling loop never ends.
- `Epl.Vector.PushFront`: the same requirement, for the same reason.
- `Epl.Vector.PushFront`: takes its argument by value. The source takes
  `const T&` and reads it only after `ensure_front_capacity(1)` has moved
  the elements and freed the old storage (Vector.h:156-160, 431-437). So
  `v.push_front(v[0])` on a vector with no front spare reads freed memory,
  and the model's `[x] + old` contract does not capture that case.
  `push_back` copies its argument into a temporary before growing
  (Vector.h:137, 144), so it is not affected.
- `Epl.Vector.EnsureBackCapacity`: requires non-null storage, for the
  same reason.
- `Epl.Vector.EnsureFrontCapacity`: requires non-null storage, for the
  same reason.
- `Wrapper.Valarray.Assign`: requires that two distinct containers do not
  share an allocation. Each container owns its own allocation, so this
  always holds in the source.
- `Views.Calculate`: the size `min(l.size, r.size)` is stated for all
  operands. The statement that a Scalar operand leaves the other
  operand's size unchanged needs that size to be at most `2^64-1`.

## Findings

| source | as written | input that shows it | evidently intended | confidence | as-written member | corrected member |
|---|---|---|---|---|---|---|
| Vector.h:377-390 | the doubling loop stops at the first capacity `>= back_capacity`, ignoring the live elements | `ensure_back_capacity(15)` on a full vector of capacity 8: capacity 16, back spare 15, data placed at `new_storage - 7` | double until the capacity holds `size() + back_capacity` | not executed; latent, since `push_back` only asks for 1 slot, where both bounds agree | `Epl.AsWrittenBackUnderflow` | `Epl.Vector.EnsureBackCapacity` |
| Vector.h:414-427 | the same loop bound in `ensure_front_capacity` | `ensure_front_capacity(15)` on a full vector of capacity 8: data ends at slot 23 of a 16-slot allocation | double until the capacity holds `size() + front_capacity` | not executed; latent, since `push_front` only asks for 1 slot | `Epl.AsWrittenFrontOverflow` | `Epl.Vector.EnsureFrontCapacity` |
| Vector.h:76-84 | the converting constructor copies `capacity` elements, and the capacity is 8 when the source is empty | converting an empty `vector<AltType>`: the loop reads `that[0]`, which throws `out_of_range` | copy `that.size()` elements, so an empty source gives an empty vector | not executed | `Epl.ConvertAsWrittenThrowsOnEmpty` | `Epl.Vector.Convert` |
