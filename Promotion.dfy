/** The numeric type promotion rules of the expression layer: the element
    type of a binary operation's result, chosen from its operands' types. */
module Promotion {
  import opened Outcomes

  /** The element types the rules know about. `Other` stands for any type
      without a rank; `Complex(t)` is `std::complex<t>`. */
  datatype NumType = Other | Int | Float | Double | Complex(of: NumType)

  /** `Rank<T>`: 0 for unranked types, then int < float < double; a complex
      type has the rank of its component type. */
  function Rank(t: NumType): nat
  {
    match t
    case Other => 0
    case Int => 1
    case Float => 2
    case Double => 3
    case Complex(u) => Rank(u)
  }

  /** `BasicType<rank>`, defined for the ranks 1 to 3 only. */
  function BasicType(rank: nat): (r: Option<NumType>)
    ensures r.Some? <==> 1 <= rank <= 3
    ensures r.Some? ==> Rank(r.value) == rank && !IsComplex(r.value)
  {
    if rank == 1 then Some(Int)
    else if rank == 2 then Some(Float)
    else if rank == 3 then Some(Double)
    else None
  }

  /** `is_complex<T>`. */
  predicate IsComplex(t: NumType)
  {
    t.Complex?
  }

  /** `ComplexType<p, T>`: `std::complex<T>` when `p`, else `T`. */
  function ComplexType(p: bool, t: NumType): (r: NumType)
    ensures Rank(r) == Rank(t)
    ensures IsComplex(r) <==> p || IsComplex(t)
  {
    if p then Complex(t) else t
  }

  function MaxRank(t1: NumType, t2: NumType): nat
  {
    if Rank(t1) > Rank(t2) then Rank(t1) else Rank(t2)
  }

  /** `ChooseType<T1, T2>::return_type`: the basic type of the higher rank,
      made complex when either operand is complex. `None` is the case the
      compiler rejects: both operands unranked. */
  function ChooseType(t1: NumType, t2: NumType): (r: Option<NumType>)
    ensures r.Some? <==> Rank(t1) >= 1 || Rank(t2) >= 1
    ensures r.Some? ==> Rank(r.value) == MaxRank(t1, t2)
    ensures r.Some? ==> Rank(r.value) >= Rank(t1) && Rank(r.value) >= Rank(t2)
    ensures r.Some? ==> (IsComplex(r.value) <==> IsComplex(t1) || IsComplex(t2))
    ensures r.Some? ==> r.value != Other && (IsComplex(r.value) ==> !IsComplex(r.value.of) && r.value.of != Other)
  {
    RankBounded(t1);
    RankBounded(t2);
    match BasicType(MaxRank(t1, t2))
    case None => None
    case Some(basic) => Some(ComplexType(IsComplex(t1) || IsComplex(t2), basic))
  }

  lemma {:induction false} RankBounded(t: NumType)
    ensures Rank(t) <= 3
  {
    match t
    case Complex(u) => RankBounded(u);
    case _ =>
  }

  /** Promotion does not depend on operand order. */
  lemma ChooseTypeSymmetric(t1: NumType, t2: NumType)
    ensures ChooseType(t1, t2) == ChooseType(t2, t1)
  {
  }

  /** Combining a type with itself gives back its basic flavour. */
  lemma ChooseTypeSame(t: NumType)
    requires t in {Int, Float, Double, Complex(Int), Complex(Float), Complex(Double)}
    ensures ChooseType(t, t) == Some(t)
  {
  }

  /** The promotions the library's tests rely on. */
  lemma PromotionExamples()
    ensures ChooseType(Int, Double) == Some(Double)
    ensures ChooseType(Int, Int) == Some(Int)
    ensures ChooseType(Double, Complex(Float)) == Some(Complex(Double))
    ensures ChooseType(Complex(Float), Double) == Some(Complex(Double))
    ensures ChooseType(Int, Float) == Some(Float)
    ensures ChooseType(Other, Int) == Some(Int)
    ensures ChooseType(Other, Other) == None
  {
  }

  /** `root<T>::result_type`: `double`, or `std::complex<double>` when `T`
      is complex. */
  function RootType(t: NumType): (r: NumType)
    ensures Rank(r) == 3
    ensures IsComplex(r) <==> IsComplex(t)
  {
    ComplexType(IsComplex(t), Double)
  }
}
