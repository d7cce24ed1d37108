/** `epl::vector<T>`: a double-ended growable buffer.

    One allocation holds the elements; four positions split it into front
    spare, live elements and back spare:
      sbegin <= dbegin <= dend <= send.
    Here the allocation is `storage` (sbegin is index 0, send is
    `storage.Length`) and `dbegin`/`dend` are indices into it. A vector
    whose storage was handed away by a move, or released, has
    `storage == null`, as the source's null `sbegin`. */
module Epl {
  import opened Outcomes

  /** Capacity of a vector built with no elements. */
  const MinimumCapacity: nat := 8

  function Max(a: int, b: int): int { if a < b then b else a }

  function Pow2(k: nat): nat { if k == 0 then 1 else 2 * Pow2(k - 1) }

  /** The diagnostic instance counter that every vector constructor bumps.
      Only its count is modelled, as ghost state. */
  class InstanceCounter {
    ghost var count: nat

    constructor ()
      ensures count == 0
    {
      count := 0;
    }
  }

  /** The capacity the growth routines settle on: double `cap` until the
      result holds `need` elements, doubling at least once. */
  function GrownCapacity(cap: nat, need: nat): (r: nat)
    requires cap > 0
    ensures r >= need && r >= 2 * cap
    decreases need - cap
  {
    if 2 * cap >= need then 2 * cap else GrownCapacity(2 * cap, need)
  }

  /** GrownCapacity is the first `cap * 2^k` with `k >= 1` that is at least `need`. */
  lemma {:induction false} GrownCapacityIsFirstDoubling(cap: nat, need: nat)
    requires cap > 0
    ensures GrownCapacity(cap, need) >= need
    ensures GrownCapacity(cap, need) >= 2 * cap
    ensures GrownCapacity(cap, need) == 2 * cap || GrownCapacity(cap, need) < 2 * need
    ensures exists k: nat :: 1 <= k && GrownCapacity(cap, need) == cap * Pow2(k)
    decreases need - cap
  {
    if 2 * cap < need {
      GrownCapacityIsFirstDoubling(2 * cap, need);
      var k: nat :| 1 <= k && GrownCapacity(2 * cap, need) == 2 * cap * Pow2(k);
      assert cap * Pow2(k + 1) == 2 * cap * Pow2(k);
    } else {
      assert GrownCapacity(cap, need) == cap * Pow2(1);
    }
  }

  /** The doubling loop both growth routines share: start from twice the
      current capacity and keep doubling while it is short of `need`. */
  method DoubleUntil(cap: nat, need: nat) returns (capacity: nat)
    requires cap > 0
    ensures capacity == GrownCapacity(cap, need)
  {
    ghost var half := cap;
    capacity := 2 * cap;
    while capacity < need
      invariant half > 0 && capacity == 2 * half
      invariant GrownCapacity(half, need) == GrownCapacity(cap, need)
      decreases need - capacity
    {
      half := capacity;
      capacity := capacity * 2;
    }
  }

  class Vector<T(0)> {
    var storage: array?<T>
    var dbegin: nat
    var dend: nat

    /** sbegin <= dbegin <= dend <= send, and a live allocation is never empty. */
    ghost predicate Valid()
      reads this
    {
      if storage == null then dbegin == 0 && dend == 0
      else 0 < storage.Length && dbegin <= dend <= storage.Length
    }

    /** The live elements, front to back. */
    ghost function Elements(): seq<T>
      reads this, storage
      requires Valid()
    {
      if storage == null then [] else storage[dbegin..dend]
    }

    /** send - sbegin. */
    function Capacity(): nat
      reads this
    {
      if storage == null then 0 else storage.Length
    }

    /** dend - dbegin. */
    function Size(): (n: nat)
      reads this, storage
      requires Valid()
      ensures n == |Elements()|
    {
      dend - dbegin
    }

    /** dbegin - sbegin. */
    function FrontSpare(): nat
      reads this
    {
      dbegin
    }

    /** send - dend. */
    function BackSpare(): nat
      reads this
      requires Valid()
    {
      Capacity() - dend
    }

    /** The default constructor: no elements, minimum capacity. */
    constructor Default(ghost ic: InstanceCounter)
      modifies ic
      ensures Valid() && fresh(storage)
      ensures Elements() == [] && Capacity() == MinimumCapacity && FrontSpare() == 0
      ensures ic.count == old(ic.count) + 1
    {
      storage := new T[MinimumCapacity];
      dbegin, dend := 0, 0;
      new;
      ic.count := ic.count + 1;
    }

    /** `vector(sz)`: `sz` default-constructed elements, whose value is `dflt`;
        capacity `sz`, or the minimum when `sz` is 0. */
    constructor Sized(sz: nat, dflt: T, ghost ic: InstanceCounter)
      modifies ic
      ensures Valid() && fresh(storage)
      ensures Elements() == seq(sz, _ => dflt)
      ensures Capacity() == (if sz == 0 then MinimumCapacity else sz)
      ensures FrontSpare() == 0
      ensures ic.count == old(ic.count) + 1
    {
      var capacity := if sz == 0 then MinimumCapacity else sz;
      var a := new T[capacity];
      var k := 0;
      while k < sz
        invariant k <= sz
        invariant forall j :: 0 <= j < k ==> a[j] == dflt
        modifies a
      {
        a[k] := dflt;
        k := k + 1;
      }
      storage, dbegin, dend := a, 0, sz;
      new;
      ic.count := ic.count + 1;
    }

    /** The copy constructor (`copy`): a fresh allocation of at least the
        minimum capacity holding the same elements. */
    constructor Copy(that: Vector<T>, ghost ic: InstanceCounter)
      requires that.Valid()
      modifies ic
      ensures Valid() && fresh(storage)
      ensures Elements() == that.Elements()
      ensures Capacity() == Max(that.Size(), MinimumCapacity) && FrontSpare() == 0
      ensures ic.count == old(ic.count) + 1
    {
      var n := that.dend - that.dbegin;
      var capacity := Max(n, MinimumCapacity);
      var a := new T[capacity];
      var k := 0;
      while k < n
        invariant k <= n
        invariant forall j :: 0 <= j < k ==> a[j] == that.Elements()[j]
        modifies a
      {
        a[k] := that.storage[that.dbegin + k];
        k := k + 1;
      }
      storage, dbegin, dend := a, 0, n;
      new;
      ic.count := ic.count + 1;
    }

    /** The converting constructor from a vector of another element type:
        each element passes through `cast` (`static_cast`). The loop runs over
        the source's size (see ConvertAsWritten for the loop bound as written). */
    constructor Convert<U(0)>(that: Vector<U>, cast: U -> T, ghost ic: InstanceCounter)
      requires that.Valid()
      modifies ic
      ensures Valid() && fresh(storage)
      ensures |Elements()| == |that.Elements()|
      ensures forall i :: 0 <= i < |that.Elements()| ==> Elements()[i] == cast(that.Elements()[i])
      ensures Capacity() == (if that.Size() == 0 then MinimumCapacity else that.Size())
      ensures FrontSpare() == 0
      ensures ic.count == old(ic.count) + 1
    {
      var n := that.dend - that.dbegin;
      var capacity := if n == 0 then MinimumCapacity else n;
      var a := new T[capacity];
      var k := 0;
      while k < n
        invariant k <= n
        invariant forall j :: 0 <= j < k ==> a[j] == cast(that.Elements()[j])
        modifies a
      {
        a[k] := cast(that.storage[that.dbegin + k]);
        k := k + 1;
      }
      storage, dbegin, dend := a, 0, n;
      new;
      ic.count := ic.count + 1;
    }

    /** Construction from a random-access range (and so from an initializer
        list): capacity is the range's length, at least the minimum. */
    constructor FromRange(xs: seq<T>, ghost ic: InstanceCounter)
      modifies ic
      ensures Valid() && fresh(storage)
      ensures Elements() == xs
      ensures Capacity() == Max(|xs|, MinimumCapacity) && FrontSpare() == 0
      ensures ic.count == old(ic.count) + 1
    {
      var capacity := Max(|xs|, MinimumCapacity);
      var a := new T[capacity];
      var k := 0;
      while k < |xs|
        invariant k <= |xs|
        invariant a[..k] == xs[..k]
        modifies a
      {
        a[k] := xs[k];
        k := k + 1;
      }
      storage, dbegin, dend := a, 0, |xs|;
      new;
      assert xs[..|xs|] == xs;
      ic.count := ic.count + 1;
    }

    /** Construction from a forward-only range: start at the minimum capacity
        and push every element at the back. */
    constructor FromForwardRange(xs: seq<T>, ghost ic: InstanceCounter)
      modifies ic
      ensures Valid() && storage != null && fresh(storage)
      ensures Elements() == xs
      ensures ic.count == old(ic.count) + 1
    {
      storage := new T[MinimumCapacity];
      dbegin, dend := 0, 0;
      new;
      var k := 0;
      while k < |xs|
        invariant Valid() && storage != null && fresh(storage)
        invariant k <= |xs|
        invariant Elements() == xs[..k]
        invariant ic.count == old(ic.count)
      {
        PushBack(xs[k]);
        assert xs[..k + 1] == xs[..k] + [xs[k]];
        k := k + 1;
      }
      assert xs[..|xs|] == xs;
      ic.count := ic.count + 1;
    }

    /** The move constructor: adopt all four positions of `that`, which is
        left with null storage. */
    constructor Move(that: Vector<T>, ghost ic: InstanceCounter)
      requires that.Valid()
      modifies that, ic
      ensures Valid() && storage == old(that.storage)
      ensures Elements() == old(that.Elements())
      ensures Capacity() == old(that.Capacity()) && FrontSpare() == old(that.FrontSpare())
      ensures that.Valid() && that.storage == null && that.Elements() == []
      ensures ic.count == old(ic.count) + 1
    {
      storage, dbegin, dend := that.storage, that.dbegin, that.dend;
      new;
      that.storage, that.dbegin, that.dend := null, 0, 0;
      ic.count := ic.count + 1;
    }

    /** `destroy`: destroy the live elements and release the allocation; a
        vector whose storage is already null is left alone. */
    method Destroy()
      requires Valid()
      modifies this
      ensures Valid() && storage == null && Elements() == []
      ensures old(storage) == null ==> unchanged(this)
    {
      if storage != null {
        storage, dbegin, dend := null, 0, 0;
      }
    }

    /** Copy assignment: unless `that` is this vector, release the current
        storage and copy `that` into a fresh allocation. */
    method CopyAssign(that: Vector<T>)
      requires Valid() && that.Valid()
      modifies this
      ensures Valid() && that.Valid()
      ensures Elements() == old(that.Elements())
      ensures this == that ==> unchanged(this)
      ensures this != that ==> fresh(storage) && Capacity() == Max(old(that.Size()), MinimumCapacity)
    {
      if this != that {
        Destroy();
        var n := that.dend - that.dbegin;
        var capacity := Max(n, MinimumCapacity);
        var a := new T[capacity];
        var k := 0;
        while k < n
          invariant k <= n
          invariant forall j :: 0 <= j < k ==> a[j] == that.Elements()[j]
        {
          a[k] := that.storage[that.dbegin + k];
          k := k + 1;
        }
        storage, dbegin, dend := a, 0, n;
      }
    }

    /** Move assignment: release the current storage, adopt that of `that`
        and leave `that` with null storage. There is no self-check, so
        moving a vector into itself leaves it with null storage. */
    method MoveAssign(that: Vector<T>)
      requires Valid() && that.Valid()
      modifies this, that
      ensures Valid() && that.Valid()
      ensures that.storage == null && that.Elements() == []
      ensures this != that ==> storage == old(that.storage) && Elements() == old(that.Elements())
      ensures this != that ==> FrontSpare() == old(that.FrontSpare())
    {
      Destroy();
      storage, dbegin, dend := that.storage, that.dbegin, that.dend;
      that.storage, that.dbegin, that.dend := null, 0, 0;
    }

    /** The bounds-checked `operator[]`, read access. */
    method Get(k: nat) returns (r: Result<T>)
      requires Valid()
      ensures k < |Elements()| ==> r == Ok(Elements()[k])
      ensures k >= |Elements()| ==> r == Err(OutOfRange)
    {
      if dbegin + k >= dend {
        r := Err(OutOfRange);
      } else {
        r := Ok(storage[dbegin + k]);
      }
    }

    /** The bounds-checked `operator[]` used as the target of an assignment. */
    method Set(k: nat, x: T) returns (r: Outcome)
      requires Valid()
      modifies storage
      ensures Valid()
      ensures r == (if k < old(|Elements()|) then Done else Fail(OutOfRange))
      ensures Elements() == if k < old(|Elements()|) then old(Elements())[k := x] else old(Elements())
    {
      if dbegin + k >= dend {
        r := Fail(OutOfRange);
      } else {
        storage[dbegin + k] := x;
        r := Done;
      }
    }

    method Front() returns (r: Result<T>)
      requires Valid()
      ensures Elements() == [] ==> r == Err(OutOfRange)
      ensures Elements() != [] ==> r == Ok(Elements()[0])
    {
      if dbegin == dend {
        r := Err(OutOfRange);
      } else {
        r := Ok(storage[dbegin]);
      }
    }

    method Back() returns (r: Result<T>)
      requires Valid()
      ensures Elements() == [] ==> r == Err(OutOfRange)
      ensures Elements() != [] ==> r == Ok(Elements()[|Elements()| - 1])
    {
      if dbegin == dend {
        r := Err(OutOfRange);
      } else {
        r := Ok(storage[dend - 1]);
      }
    }

    method PopBack() returns (r: Outcome)
      requires Valid()
      modifies this
      ensures Valid() && storage == old(storage)
      ensures old(Elements()) == [] ==> r == Fail(OutOfRange) && unchanged(this)
      ensures old(Elements()) != [] ==> r == Done && Elements() == old(Elements())[..old(Size()) - 1]
      ensures FrontSpare() == old(FrontSpare())
    {
      if dbegin == dend {
        r := Fail(OutOfRange);
      } else {
        dend := dend - 1;
        r := Done;
      }
    }

    method PopFront() returns (r: Outcome)
      requires Valid()
      modifies this
      ensures Valid() && storage == old(storage)
      ensures old(Elements()) == [] ==> r == Fail(OutOfRange) && unchanged(this)
      ensures old(Elements()) != [] ==> r == Done && Elements() == old(Elements())[1..]
      ensures BackSpare() == old(BackSpare())
    {
      if dbegin == dend {
        r := Fail(OutOfRange);
      } else {
        dbegin := dbegin + 1;
        r := Done;
      }
    }

    /** Append `x`. A moved-from vector (null storage) is excluded: its
        capacity is 0 and the source's doubling loop would never end. */
    method PushBack(x: T)
      requires Valid() && storage != null
      modifies this, storage
      ensures Valid() && storage != null
      ensures storage == old(storage) || fresh(storage)
      ensures Elements() == old(Elements()) + [x]
      ensures Capacity() == if old(BackSpare()) >= 1 then old(Capacity()) else 2 * old(Capacity())
      ensures BackSpare() == if old(BackSpare()) >= 1 then old(BackSpare()) - 1
                             else Max(1, (Capacity() - old(Size())) / 2) - 1
    {
      EnsureBackCapacity(1);
      storage[dend] := x;
      dend := dend + 1;
    }

    /** Prepend `x`; the same exclusion as PushBack. */
    method PushFront(x: T)
      requires Valid() && storage != null
      modifies this, storage
      ensures Valid() && storage != null
      ensures storage == old(storage) || fresh(storage)
      ensures Elements() == [x] + old(Elements())
      ensures Capacity() == if old(FrontSpare()) >= 1 then old(Capacity()) else 2 * old(Capacity())
      ensures FrontSpare() == if old(FrontSpare()) >= 1 then old(FrontSpare()) - 1
                              else Max(1, (Capacity() - old(Size())) / 2) - 1
    {
      EnsureFrontCapacity(1);
      dbegin := dbegin - 1;
      storage[dbegin] := x;
    }

    /** `ensure_back_capacity`: make room for `req` more elements at the back.
        If the back spare is short, the capacity doubles until it holds the
        live elements plus `req`; the back spare becomes the larger of `req`
        and half the excess, the front spare gets the rest; the elements move
        over in order. (The loop bound includes the size: see
        AsWrittenBackOffset for the bound as written.) */
    method EnsureBackCapacity(req: nat)
      requires Valid() && storage != null
      modifies this
      ensures Valid() && storage != null
      ensures Elements() == old(Elements())
      ensures BackSpare() >= req
      ensures req <= old(BackSpare()) ==> unchanged(this)
      ensures req > old(BackSpare()) ==>
        && fresh(storage)
        && Capacity() == GrownCapacity(old(Capacity()), old(Size()) + req)
        && BackSpare() == Max(req, (Capacity() - Size()) / 2)
    {
      if req <= storage.Length - dend {
        return;
      }
      var need := (dend - dbegin) + req;
      var capacity := DoubleUntil(storage.Length, need);
      GrownCapacityIsFirstDoubling(storage.Length, need);
      var excess := capacity - (dend - dbegin);
      assert req <= excess;
      var back := Max(req, excess / 2);
      var newData := capacity - back - (dend - dbegin);
      MoveInto(capacity, newData);
    }

    /** `ensure_front_capacity`: the mirror image of EnsureBackCapacity. */
    method EnsureFrontCapacity(req: nat)
      requires Valid() && storage != null
      modifies this
      ensures Valid() && storage != null
      ensures Elements() == old(Elements())
      ensures FrontSpare() >= req
      ensures req <= old(FrontSpare()) ==> unchanged(this)
      ensures req > old(FrontSpare()) ==>
        && fresh(storage)
        && Capacity() == GrownCapacity(old(Capacity()), old(Size()) + req)
        && FrontSpare() == Max(req, (Capacity() - Size()) / 2)
    {
      if req <= dbegin {
        return;
      }
      var need := (dend - dbegin) + req;
      var capacity := DoubleUntil(storage.Length, need);
      GrownCapacityIsFirstDoubling(storage.Length, need);
      var excess := capacity - (dend - dbegin);
      assert req <= excess;
      var front := Max(req, excess / 2);
      MoveInto(capacity, front);
    }

    /** The common tail of both growth routines: allocate `capacity` slots,
        move the live elements, in order, to start at `newData`, and adopt
        the new storage. */
    method MoveInto(capacity: nat, newData: nat)
      requires Valid() && storage != null
      requires 0 < capacity && newData + Size() <= capacity
      modifies this
      ensures Valid() && fresh(storage)
      ensures Capacity() == capacity && FrontSpare() == newData
      ensures Elements() == old(Elements())
    {
      ghost var moved := Elements();
      var newStorage := new T[capacity];
      var src := dbegin;
      var newEnd := newData;
      while src != dend
        invariant dbegin <= src <= dend
        invariant newEnd == newData + (src - dbegin)
        invariant forall j :: 0 <= j < src - dbegin ==> newStorage[newData + j] == moved[j]
        modifies newStorage
      {
        newStorage[newEnd] := storage[src];
        src := src + 1;
        newEnd := newEnd + 1;
      }
      storage, dbegin, dend := newStorage, newData, newEnd;
      assert forall i :: 0 <= i < |moved| ==> Elements()[i] == moved[i];
    }
  }

  /** Seventeen pushes at the back of a default vector: the capacity goes
      8, 16, 32, because each reallocation leaves only half of its slack at
      the back; every pushed element stays in place. */
  method PushBackThroughTwoDoublings() returns (v: Vector<int>)
    ensures v.Valid() && v.Elements() == seq(17, i => i)
    ensures v.Capacity() == 32 && v.FrontSpare() == 10 && v.BackSpare() == 5
  {
    var ic := new InstanceCounter();
    v := new Vector<int>.Default(ic);
    var k := 0;
    while k < 17
      invariant 0 <= k <= 17
      invariant v.Valid() && v.storage != null && fresh(v.storage)
      invariant v.Elements() == seq(k, i => i)
      invariant k <= 8 ==> v.Capacity() == 8 && v.BackSpare() == 8 - k
      invariant 8 < k <= 12 ==> v.Capacity() == 16 && v.BackSpare() == 12 - k
      invariant 12 < k ==> v.Capacity() == 32 && v.BackSpare() == 22 - k
    {
      v.PushBack(k);
      assert seq(k + 1, i => i) == seq(k, i => i) + [k];
      k := k + 1;
    }
  }

  /** Where ensure_back_capacity as written places the first live element:
      its doubling loop compares the capacity with the request alone. */
  function AsWrittenBackOffset(cap: nat, size: nat, req: nat): int
    requires 0 < cap && size <= cap
  {
    var capacity := GrownCapacity(cap, req);
    capacity - Max(req, (capacity - size) / 2) - size
  }

  /** Where ensure_front_capacity as written puts the end of the live elements. */
  function AsWrittenFrontEnd(cap: nat, size: nat, req: nat): int
    requires 0 < cap && size <= cap
  {
    var capacity := GrownCapacity(cap, req);
    Max(req, (capacity - size) / 2) + size
  }

  /** A full vector of capacity 8 asked for 15 slots at the back: as written,
      the data would start 7 slots before the new allocation. */
  lemma AsWrittenBackUnderflow()
    ensures AsWrittenBackOffset(8, 8, 15) == -7
  {
    assert GrownCapacity(8, 15) == 16;
  }

  /** The mirror case at the front: the data would end 7 slots past it. */
  lemma AsWrittenFrontOverflow()
    ensures AsWrittenFrontEnd(8, 8, 15) == 23
    ensures GrownCapacity(8, 15) == 16
  {
    assert GrownCapacity(8, 15) == 16;
  }

  /** For the only request the source makes (one slot, from push_back and
      push_front) the loop bound as written and the corrected bound agree. */
  lemma {:induction false} GrowthBoundsAgreeForOneSlot(cap: nat, size: nat)
    requires 0 < cap && size <= cap
    ensures GrownCapacity(cap, 1) == GrownCapacity(cap, size + 1) == 2 * cap
    ensures AsWrittenBackOffset(cap, size, 1) >= 0
    ensures AsWrittenFrontEnd(cap, size, 1) <= GrownCapacity(cap, 1)
  {
  }

  /** The converting constructor as written: it loops up to the capacity
      (the source's size, or the minimum when the source is empty) and
      indexes the source with the bounds-checked `operator[]`. */
  function ConvertAsWritten<U, T>(src: seq<U>, cast: U -> T): Result<seq<T>>
  {
    ConvertUpTo(src, cast, if |src| == 0 then MinimumCapacity else |src|)
  }

  /** The first `n` iterations of that loop: they succeed exactly when
      every index they read is inside the source. */
  function ConvertUpTo<U, T>(src: seq<U>, cast: U -> T, n: nat): (r: Result<seq<T>>)
    ensures r.Ok? <==> n <= |src|
    ensures r.Ok? ==> |r.value| == n
    ensures r.Err? ==> r.error == OutOfRange
  {
    if n == 0 then Ok([])
    else match ConvertUpTo(src, cast, n - 1)
      case Err(e) => Err(e)
      case Ok(done) => if n - 1 < |src| then Ok(done + [cast(src[n - 1])]) else Err(OutOfRange)
  }

  /** As written, converting an empty vector throws `out_of_range`. */
  lemma {:induction false} ConvertAsWrittenThrowsOnEmpty<U, T>(cast: U -> T)
    ensures ConvertAsWritten([], cast) == Err(OutOfRange)
  {
  }

  /** Within the source's length the loop converts each element in turn. */
  lemma {:induction false} ConvertUpToInRange<U, T>(src: seq<U>, cast: U -> T, n: nat)
    requires n <= |src|
    ensures ConvertUpTo(src, cast, n).Ok?
    ensures |ConvertUpTo(src, cast, n).value| == n
    ensures forall i :: 0 <= i < n ==> ConvertUpTo(src, cast, n).value[i] == cast(src[i])
  {
    if n > 0 {
      ConvertUpToInRange(src, cast, n - 1);
    }
  }

  /** On a non-empty source the as-written loop does what Convert does. */
  lemma ConvertAsWrittenAgreesWhenNonEmpty<U, T>(src: seq<U>, cast: U -> T)
    requires |src| > 0
    ensures ConvertAsWritten(src, cast).Ok?
    ensures |ConvertAsWritten(src, cast).value| == |src|
    ensures forall i :: 0 <= i < |src| ==> ConvertAsWritten(src, cast).value[i] == cast(src[i])
  {
    ConvertUpToInRange(src, cast, |src|);
  }
}
