/** `VectorWrapper<epl::vector<T>>`, the user-facing `valarray<T>`: a vector
    with elementwise assignment, construction from any view, and the entry
    points into the expression layer. Values are integers; `kind` records
    the element type `T`. */
module Wrapper {
  import opened Outcomes
  import opened Promotion
  import opened Epl
  import opened Views

  class Valarray {
    const kind: NumType
    const vec: Vector<int>

    ghost predicate Valid()
      reads vec
    {
      vec.Valid() && vec.storage != null
    }

    /** The elements, front to back. */
    ghost function Contents(): seq<int>
      reads vec, vec.storage
      requires Valid()
    {
      vec.Elements()
    }

    /** The container seen as a view (the operand a view holds by reference). */
    function View(): (e: Expr)
      reads vec, vec.storage
      requires Valid()
      ensures Defined(e) && Values(e) == Contents()
      ensures ValueType(e) == Some(kind)
    {
      var e := Leaf(kind, vec.storage[vec.dbegin..vec.dend]);
      LeafValues(kind, e.elems);
      e
    }

    constructor Default(kind: NumType, ghost ic: InstanceCounter)
      modifies ic
      ensures Valid() && fresh(vec) && fresh(vec.storage) && this.kind == kind
      ensures Contents() == []
      ensures ic.count == old(ic.count) + 1
    {
      this.kind := kind;
      vec := new Vector<int>.Default(ic);
    }

    /** `valarray<T>(n)`: `n` zero elements. */
    constructor Sized(kind: NumType, n: nat, ghost ic: InstanceCounter)
      modifies ic
      ensures Valid() && fresh(vec) && fresh(vec.storage) && this.kind == kind
      ensures Contents() == Fill(n, 0)
      ensures ic.count == old(ic.count) + 1
    {
      this.kind := kind;
      vec := new Vector<int>.Sized(n, 0, ic);
    }

    /** `valarray<T>{x0, x1, ...}`. */
    constructor FromList(kind: NumType, xs: seq<int>, ghost ic: InstanceCounter)
      modifies ic
      ensures Valid() && fresh(vec) && fresh(vec.storage) && this.kind == kind
      ensures Contents() == xs
      ensures ic.count == old(ic.count) + 1
    {
      this.kind := kind;
      vec := new Vector<int>.FromRange(xs, ic);
    }

    /** Copy construction from a container of the same element type. */
    constructor Copy(that: Valarray, ghost ic: InstanceCounter)
      requires that.Valid()
      modifies ic
      ensures Valid() && fresh(vec) && fresh(vec.storage) && kind == that.kind
      ensures Contents() == that.Contents()
      ensures ic.count == old(ic.count) + 1
    {
      kind := that.kind;
      vec := new Vector<int>.Copy(that.vec, ic);
    }

    /** The converting constructor from any view (or from a container of
        another element type): start empty and push every element of `e`
        in order. This is where an expression is materialised, and it
        constructs exactly one container. */
    constructor FromView(kind: NumType, e: Expr, ghost ic: InstanceCounter)
      requires Defined(e)
      modifies ic
      ensures Valid() && fresh(vec) && fresh(vec.storage) && this.kind == kind
      ensures Contents() == Values(e)
      ensures ic.count == old(ic.count) + 1
    {
      this.kind := kind;
      vec := new Vector<int>.Default(ic);
      new;
      ghost var target := Values(e);
      var n := Size(e);
      var k := 0;
      while k < n
        invariant Valid() && fresh(vec) && fresh(vec.storage)
        invariant k <= n
        invariant Contents() == target[..k]
        invariant ic.count == old(ic.count) + 1
      {
        vec.PushBack(At(e, k).value);
        assert target[..k + 1] == target[..k] + [target[k]];
        k := k + 1;
      }
      assert target[..n] == target;
    }

    /** Assignment from a container of the same element type: unless it is
        this container, copy the overlapping prefix; neither size changes.
        Distinct containers own distinct allocations. */
    method Assign(that: Valarray)
      requires Valid() && that.Valid()
      requires this == that || vec.storage != that.vec.storage
      modifies vec.storage
      ensures Valid() && that.Valid()
      ensures |Contents()| == old(|Contents()|)
      ensures forall i :: 0 <= i < |Contents()| ==>
                Contents()[i] == if i < old(|that.Contents()|) then old(that.Contents())[i] else old(Contents())[i]
      ensures this == that ==> Contents() == old(Contents())
    {
      if this != that {
        var m := Min(vec.Size(), that.vec.Size());
        var i := 0;
        while i < m
          invariant Valid() && that.Valid() && i <= m
          invariant |Contents()| == old(|Contents()|)
          invariant that.Contents() == old(that.Contents())
          invariant forall j :: 0 <= j < i ==> Contents()[j] == old(that.Contents())[j]
          invariant forall j :: i <= j < |Contents()| ==> Contents()[j] == old(Contents())[j]
        {
          var x := that.vec.Get(i);
          var _ := vec.Set(i, x.value);
          i := i + 1;
        }
      }
    }

    /** Assignment from a container of another element type or from a view:
        the same truncating elementwise copy, over min(size, view size). */
    method AssignView(e: Expr)
      requires Valid()
      requires forall i: nat :: i < Min(|Contents()|, Size(e)) ==> At(e, i).Ok?
      modifies vec.storage
      ensures Valid()
      ensures |Contents()| == old(|Contents()|)
      ensures forall i :: 0 <= i < |Contents()| ==>
                Contents()[i] == if i < Size(e) then At(e, i).value else old(Contents())[i]
    {
      var m := Min(vec.Size(), Size(e));
      var i := 0;
      while i < m
        invariant Valid() && i <= m
        invariant |Contents()| == old(|Contents()|)
        invariant forall j :: 0 <= j < i ==> Contents()[j] == At(e, j).value
        invariant forall j :: i <= j < |Contents()| ==> Contents()[j] == old(Contents())[j]
      {
        var _ := vec.Set(i, At(e, i).value);
        i := i + 1;
      }
    }

    /** Assignment from a bare number of a ranked type: assign the number
        wrapped as a Scalar, so every element (up to the Scalar's size)
        becomes `v`. */
    method AssignScalar(vkind: NumType, v: int)
      requires Valid() && Rank(vkind) != 0
      modifies vec.storage
      ensures Valid()
      ensures |Contents()| == old(|Contents()|)
      ensures forall i :: 0 <= i < |Contents()| ==>
                Contents()[i] == if i < MaxSize then v else old(Contents())[i]
    {
      AssignView(Broadcast(vkind, v));
    }
  }

  /** The laziness contract as the library's tests exercise it: building
      views over two ten-element containers leaves the instance count alone;
      materialising `x + y` constructs exactly one container. */
  method LazyEvaluationScenario(ic: InstanceCounter) returns (z: Valarray)
    modifies ic
    ensures z.Valid() && z.Contents() == Fill(10, 3)
    ensures ic.count == old(ic.count) + 3
  {
    var x := new Valarray.FromList(Int, Fill(10, 1), ic);
    var y := new Valarray.FromList(Int, Fill(10, 2), ic);
    ghost var before := ic.count;
    var sum := Add(Array(x.View()), Array(y.View()));
    var mixed := Mul(Array(Add(Array(x.View()), Array(y.View()))), Array(Div(Array(y.View()), Array(x.View()))));
    var negated := NegateView(ApplyView(mixed, a => a + 5));
    assert ic.count == before;
    DivisionFreeIsDefined(sum);
    z := new Valarray.FromView(Int, sum, ic);
    assert ic.count == before + 1;
    assert forall i :: 0 <= i < 10 ==> z.Contents()[i] == 3;
  }
}
