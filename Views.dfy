/** The lazy expression layer: read-only views that report a size and
    compute their element at an index on demand, and the operators that
    build them.

    A view is a value. A container operand appears as a `Leaf` holding the
    container's element type and a copy of its elements taken when the view
    is built (the source holds the container by reference); nested views
    are held by value, as in the source. */
module Views {
  import opened Outcomes
  import opened Promotion

  /** `std::numeric_limits<uint64_t>::max()`: the size a Scalar reports. */
  const MaxSize: nat := 0xFFFF_FFFF_FFFF_FFFF

  function Abs(x: int): int { if x < 0 then -x else x }

  function Min(a: nat, b: nat): nat { if a < b then a else b }

  /** Integer division as C++ does it: the quotient is truncated toward zero,
      so the remainder takes the sign of the dividend. */
  function CDiv(a: int, b: int): (q: int)
    requires b != 0
    ensures 0 <= a ==> 0 <= a - b * q < Abs(b)
    ensures a < 0 ==> -Abs(b) < a - b * q <= 0
  {
    var m := Abs(a) / Abs(b);
    var q := if (a < 0) == (b < 0) then m else -m;
    CDivRemainder(a, b, q);
    q
  }

  lemma CDivRemainder(a: int, b: int, q: int)
    requires b != 0
    requires q == if (a < 0) == (b < 0) then Abs(a) / Abs(b) else -(Abs(a) / Abs(b))
    ensures 0 <= a ==> 0 <= a - b * q < Abs(b)
    ensures a < 0 ==> -Abs(b) < a - b * q <= 0
  {
    var n, d := Abs(a), Abs(b);
    var m, rem := n / d, n % d;
    assert n == d * m + rem && 0 <= rem < d;
    assert b * q == (if a < 0 then -(d * m) else d * m);
  }

  /** The unary operations a view can apply: `std::negate`, `root` (the
      library's square root, supplied by the caller because its values are
      floating point), and any user operation passed to `apply`. */
  datatype UnaryOp = Negate | Root(sqrt: int -> int) | Apply(f: int -> int)

  /** The operations behind `+ - * /`. */
  datatype BinOp = Plus | Minus | Multiplies | Divides

  datatype Expr =
    | Leaf(kind: NumType, elems: seq<int>)          // a container's elements, copied
    | Broadcast(kind: NumType, value: int)         // Scalar<T>
    | Unary(fn: UnaryOp, operand: Expr)            // UnaryProxy
    | Binary(op: BinOp, left: Expr, right: Expr)   // BinaryProxy

  function ApplyUnary(op: UnaryOp, x: int): int
  {
    match op
    case Negate => -x
    case Root(sqrt) => sqrt(x)
    case Apply(f) => f(x)
  }

  function ApplyBinary(op: BinOp, x: int, y: int): Result<int>
  {
    match op
    case Plus => Ok(x + y)
    case Minus => Ok(x - y)
    case Multiplies => Ok(x * y)
    case Divides => if y == 0 then Err(DivideByZero) else Ok(CDiv(x, y))
  }

  /** `size()` of each view. */
  function Size(e: Expr): nat
  {
    match e
    case Leaf(_, elems) => |elems|
    case Broadcast(_, _) => MaxSize
    case Unary(_, operand) => Size(operand)
    case Binary(_, l, r) => Min(Size(l), Size(r))
  }

  /** `operator[]` of each view. A container's `operator[]` is bounds-checked;
      a Scalar answers at every index. */
  function At(e: Expr, i: nat): Result<int>
  {
    match e
    case Leaf(_, elems) => if i < |elems| then Ok(elems[i]) else Err(OutOfRange)
    case Broadcast(_, v) => Ok(v)
    case Unary(op, operand) =>
      (match At(operand, i)
       case Ok(x) => Ok(ApplyUnary(op, x))
       case Err(err) => Err(err))
    case Binary(op, l, r) =>
      (match (At(l, i), At(r, i))
       case (Ok(x), Ok(y)) => ApplyBinary(op, x, y)
       case (Err(err), _) => Err(err)
       case (_, Err(err)) => Err(err))
  }

  /** `value_type` of each view: a unary view keeps its operand's, a binary
      view promotes its operands'. */
  function ValueType(e: Expr): Option<NumType>
  {
    match e
    case Leaf(kind, _) => Some(kind)
    case Broadcast(kind, _) => Some(kind)
    case Unary(_, operand) => ValueType(operand)
    case Binary(_, l, r) => Promote(ValueType(l), ValueType(r))
  }

  function Promote(t1: Option<NumType>, t2: Option<NumType>): Option<NumType>
  {
    if t1.Some? && t2.Some? then ChooseType(t1.value, t2.value) else None
  }

  /** Every element of the view can be computed (no division by zero). */
  ghost predicate Defined(e: Expr)
  {
    forall i: nat :: i < Size(e) ==> At(e, i).Ok?
  }

  /** The elements a view presents, front to back. */
  ghost function Values(e: Expr): (s: seq<int>)
    requires Defined(e)
    ensures |s| == Size(e)
    ensures forall i :: 0 <= i < |s| ==> At(e, i) == Ok(s[i])
  {
    seq(Size(e), (i: int) requires 0 <= i < Size(e) => At(e, i).value)
  }

  /** The sizes of the containers a view reads. */
  ghost function LeafSizes(e: Expr): set<nat>
  {
    match e
    case Leaf(_, elems) => {|elems|}
    case Broadcast(_, _) => {}
    case Unary(_, operand) => LeafSizes(operand)
    case Binary(_, l, r) => LeafSizes(l) + LeafSizes(r)
  }

  /** A view's size is that of the shortest container it reads, or the
      Scalar size when it reads none: mismatched lengths truncate. */
  lemma {:induction false} SizeIsShortestLeaf(e: Expr)
    ensures forall n :: n in LeafSizes(e) ==> Size(e) <= n
    ensures Size(e) in LeafSizes(e) || Size(e) == MaxSize
  {
    match e
    case Leaf(_, _) =>
    case Broadcast(_, _) =>
    case Unary(_, operand) => SizeIsShortestLeaf(operand);
    case Binary(_, l, r) => SizeIsShortestLeaf(l); SizeIsShortestLeaf(r);
  }

  /** Below its size a view never indexes a container out of range; the
      only failure left is a division by zero. */
  lemma {:induction false} AtWithinSize(e: Expr, i: nat)
    requires i < Size(e)
    ensures At(e, i) != Err(OutOfRange)
  {
    match e
    case Leaf(_, _) =>
    case Broadcast(_, _) =>
    case Unary(_, operand) => AtWithinSize(operand, i);
    case Binary(_, l, r) => AtWithinSize(l, i); AtWithinSize(r, i);
  }

  /** A view without division has every element defined. */
  predicate DivisionFree(e: Expr)
  {
    match e
    case Leaf(_, _) => true
    case Broadcast(_, _) => true
    case Unary(_, operand) => DivisionFree(operand)
    case Binary(op, l, r) => op != Divides && DivisionFree(l) && DivisionFree(r)
  }

  lemma {:induction false} DivisionFreeIsDefinedAt(e: Expr, i: nat)
    requires DivisionFree(e) && i < Size(e)
    ensures At(e, i).Ok?
  {
    match e
    case Leaf(_, _) =>
    case Broadcast(_, _) =>
    case Unary(_, operand) => DivisionFreeIsDefinedAt(operand, i);
    case Binary(_, l, r) => DivisionFreeIsDefinedAt(l, i); DivisionFreeIsDefinedAt(r, i);
  }

  lemma DivisionFreeIsDefined(e: Expr)
    requires DivisionFree(e)
    ensures Defined(e)
  {
    forall i: nat | i < Size(e) ensures At(e, i).Ok? {
      DivisionFreeIsDefinedAt(e, i);
    }
  }

  /** `apply(op)`: a unary view over `e`; nothing is computed. */
  function ApplyView(e: Expr, f: int -> int): (r: Expr)
    ensures Size(r) == Size(e) && ValueType(r) == ValueType(e)
    ensures forall i: nat :: At(e, i).Ok? ==> At(r, i) == Ok(f(At(e, i).value))
    ensures forall i: nat :: At(e, i).Err? ==> At(r, i) == At(e, i)
  {
    Unary(Apply(f), e)
  }

  /** `sqrt()`: `apply(root)`. Its elements have the type RootType of the
      view's element type; the view's own value_type is unchanged. */
  function SqrtView(e: Expr, sqrt: int -> int): (r: Expr)
    ensures Size(r) == Size(e) && ValueType(r) == ValueType(e)
    ensures forall i: nat :: At(e, i).Ok? ==> At(r, i) == Ok(sqrt(At(e, i).value))
    ensures forall i: nat :: At(e, i).Err? ==> At(r, i) == At(e, i)
  {
    Unary(Root(sqrt), e)
  }

  /** Unary `-`: `apply(std::negate)`. */
  function NegateView(e: Expr): (r: Expr)
    ensures Size(r) == Size(e) && ValueType(r) == ValueType(e)
    ensures forall i: nat :: At(e, i).Ok? ==> At(r, i) == Ok(-At(e, i).value)
    ensures forall i: nat :: At(e, i).Err? ==> At(r, i) == At(e, i)
  {
    Unary(Negate, e)
  }

  /** An operand of `+ - * /`: an array-like view, or a bare number. */
  datatype Operand = Array(view: Expr) | Number(kind: NumType, value: int)

  /** The operator overloads that compile: at least one operand is
      array-like, a bare number has a rank, and the operands' element types
      promote (`BasicType<0>` is declared but never defined). */
  predicate Operable(l: Operand, r: Operand)
  {
    && (l.Array? || r.Array?)
    && (l.Number? ==> Rank(l.kind) != 0)
    && (r.Number? ==> Rank(r.kind) != 0)
    && ReturnType(l, r).Some?
  }

  /** A number enters a binary view wrapped as a Scalar. */
  function AsView(o: Operand): Expr
  {
    match o
    case Array(e) => e
    case Number(kind, v) => Broadcast(kind, v)
  }

  function OperandType(o: Operand): Option<NumType>
  {
    match o
    case Array(e) => ValueType(e)
    case Number(kind, _) => Some(kind)
  }

  /** `ReturnType<T1, T2>`: the promoted element type of the operands. */
  function ReturnType(l: Operand, r: Operand): Option<NumType>
  {
    Promote(OperandType(l), OperandType(r))
  }

  /** `ZJType<op>::calculate`: a binary view over both operands, in order. */
  function Calculate(op: BinOp, l: Operand, r: Operand): (e: Expr)
    requires Operable(l, r)
    ensures Size(e) == Min(Size(AsView(l)), Size(AsView(r)))
    ensures ValueType(e) == ReturnType(l, r) && ValueType(e).Some?
    ensures forall i: nat :: At(AsView(l), i).Ok? && At(AsView(r), i).Ok? ==>
              At(e, i) == ApplyBinary(op, At(AsView(l), i).value, At(AsView(r), i).value)
    ensures l.Number? && Size(r.view) <= MaxSize ==> Size(e) == Size(r.view)
    ensures r.Number? && Size(l.view) <= MaxSize ==> Size(e) == Size(l.view)
  {
    Binary(op, AsView(l), AsView(r))
  }

  /** Both operands can be indexed at `i`. */
  predicate BothAt(l: Operand, r: Operand, i: nat)
  {
    At(AsView(l), i).Ok? && At(AsView(r), i).Ok?
  }

  /** `operator+`: element `i` is the sum of the operands' elements. */
  function Add(l: Operand, r: Operand): (e: Expr)
    requires Operable(l, r)
    ensures Size(e) == Min(Size(AsView(l)), Size(AsView(r))) && ValueType(e) == ReturnType(l, r)
    ensures forall i: nat :: BothAt(l, r, i) ==> At(e, i) == Ok(At(AsView(l), i).value + At(AsView(r), i).value)
  {
    Calculate(Plus, l, r)
  }

  /** `operator-`: element `i` is the left element minus the right one. */
  function Sub(l: Operand, r: Operand): (e: Expr)
    requires Operable(l, r)
    ensures Size(e) == Min(Size(AsView(l)), Size(AsView(r))) && ValueType(e) == ReturnType(l, r)
    ensures forall i: nat :: BothAt(l, r, i) ==> At(e, i) == Ok(At(AsView(l), i).value - At(AsView(r), i).value)
  {
    Calculate(Minus, l, r)
  }

  /** `operator*`: element `i` is the product of the operands' elements. */
  function Mul(l: Operand, r: Operand): (e: Expr)
    requires Operable(l, r)
    ensures Size(e) == Min(Size(AsView(l)), Size(AsView(r))) && ValueType(e) == ReturnType(l, r)
    ensures forall i: nat :: BothAt(l, r, i) ==> At(e, i) == Ok(At(AsView(l), i).value * At(AsView(r), i).value)
  {
    Calculate(Multiplies, l, r)
  }

  /** `operator/`: element `i` is the truncated quotient, and a zero
      divisor makes that element undefined. */
  function Div(l: Operand, r: Operand): (e: Expr)
    requires Operable(l, r)
    ensures Size(e) == Min(Size(AsView(l)), Size(AsView(r))) && ValueType(e) == ReturnType(l, r)
    ensures forall i: nat :: BothAt(l, r, i) ==>
              At(e, i) == if At(AsView(r), i).value == 0 then Err(DivideByZero)
                          else Ok(CDiv(At(AsView(l), i).value, At(AsView(r), i).value))
  {
    Calculate(Divides, l, r)
  }

  /** Two containers whose element types have no rank cannot be combined:
      their promotion would need `BasicType<0>`, which has no definition. */
  lemma UnrankedArraysAreNotOperable()
    ensures !Operable(Array(Leaf(Other, [1])), Array(Leaf(Other, [2])))
    ensures Operable(Array(Leaf(Other, [1])), Array(Leaf(Int, [2])))
  {
  }

  /** `n` copies of `x`, for the examples below. */
  function Fill(n: nat, x: int): (s: seq<int>)
    ensures |s| == n && forall i :: 0 <= i < n ==> s[i] == x
  {
    seq(n, _ => x)
  }

  /** Scalar broadcast keeps operand order: ten ones plus 1 is ten twos,
      and 1 minus ten ones is ten zeros (not ten zeros by accident of
      commuting: 1 minus ten twos is ten minus-ones). */
  lemma ScalarBroadcastExamples(i: nat)
    requires i < 10
    ensures Size(Add(Array(Leaf(Int, Fill(10, 1))), Number(Int, 1))) == 10
    ensures At(Add(Array(Leaf(Int, Fill(10, 1))), Number(Int, 1)), i) == Ok(2)
    ensures Size(Sub(Number(Int, 1), Array(Leaf(Int, Fill(10, 1))))) == 10
    ensures At(Sub(Number(Int, 1), Array(Leaf(Int, Fill(10, 1)))), i) == Ok(0)
    ensures At(Sub(Number(Int, 1), Array(Leaf(Int, Fill(10, 2)))), i) == Ok(-1)
    ensures At(Sub(Array(Leaf(Int, Fill(10, 2))), Number(Int, 1)), i) == Ok(1)
  {
  }

  /** `-((2 * (1 + x - y + 1)) / 1)` with `x` ten zeros and `y` twenty zeros
      has ten elements, each -4. */
  lemma OperatorsExample(i: nat)
    requires i < 10
    ensures var x := Array(Leaf(Int, Fill(10, 0)));
            var y := Array(Leaf(Int, Fill(20, 0)));
            var e := NegateView(Div(Array(Mul(Number(Int, 2), Array(Add(Array(Sub(Array(Add(Number(Int, 1), x)), y)), Number(Int, 1))))), Number(Int, 1)));
            Size(e) == 10 && At(e, i) == Ok(-4)
  {
  }

  /** The left fold `op(...op(op(acc, s[0]), s[1])..., s[n-1])`. */
  function FoldLeft(op: (int, int) -> int, acc: int, s: seq<int>): int
    decreases |s|
  {
    if s == [] then acc else FoldLeft(op, op(acc, s[0]), s[1..])
  }

  lemma {:induction false} FoldLeftSnoc(op: (int, int) -> int, acc: int, s: seq<int>, x: int)
    ensures FoldLeft(op, acc, s + [x]) == op(FoldLeft(op, acc, s), x)
    decreases |s|
  {
    if s != [] {
      assert (s + [x])[1..] == s[1..] + [x];
      FoldLeftSnoc(op, op(acc, s[0]), s[1..], x);
    }
  }

  /** What `accumulate(op)` returns for elements `s`: 0 when there are none,
      whatever `op` is, else the left fold starting from the first element. */
  function Accumulated(s: seq<int>, op: (int, int) -> int): int
  {
    if s == [] then 0 else FoldLeft(op, s[0], s[1..])
  }

  /** `accumulate(op)` over any container or view. */
  method Accumulate(e: Expr, op: (int, int) -> int) returns (res: int)
    requires Defined(e)
    ensures res == Accumulated(Values(e), op)
  {
    var n := Size(e);
    if n == 0 {
      return 0;
    }
    ghost var s := Values(e);
    res := At(e, 0).value;
    var k := 1;
    while k < n
      invariant 1 <= k <= n
      invariant res == FoldLeft(op, s[0], s[1..k])
    {
      FoldLeftSnoc(op, s[0], s[1..k], s[k]);
      assert s[1..k + 1] == s[1..k] + [s[k]];
      res := op(res, At(e, k).value);
      k := k + 1;
    }
    assert s[1..n] == s[1..];
  }

  function IntPlus(a: int, b: int): int { a + b }

  /** The sum of a sequence, defined independently of the fold. */
  function SeqSum(s: seq<int>): int
  {
    if s == [] then 0 else s[0] + SeqSum(s[1..])
  }

  lemma {:induction false} FoldPlusIsSum(acc: int, s: seq<int>)
    ensures FoldLeft(IntPlus, acc, s) == acc + SeqSum(s)
    decreases |s|
  {
    if s != [] {
      FoldPlusIsSum(acc + s[0], s[1..]);
    }
  }

  /** `sum()`: `accumulate(std::plus)`, which is the ordinary sum. */
  method Sum(e: Expr) returns (res: int)
    requires Defined(e)
    ensures res == SeqSum(Values(e))
  {
    res := Accumulate(e, IntPlus);
    ghost var s := Values(e);
    if s != [] {
      FoldPlusIsSum(s[0], s[1..]);
    }
  }

  function IntTimes(a: int, b: int): int { a * b }

  function IntMinus(a: int, b: int): int { a - b }

  /** The operation `AddPlus5` of the library's tests: `a + b + 5`. */
  function AddPlus5(a: int, b: int): int { a + b + 5 }

  /** The values `accumulate` gives in the library's tests: plus and times
      over 1..5, a single element, AddPlus5 over 0..4, the non-commutative
      left fold of subtraction, and the empty container (0 even for
      multiplication, whose identity is 1). */
  lemma AccumulatedExamples()
    ensures Accumulated([1, 2, 3, 4, 5], IntPlus) == 15
    ensures Accumulated([1, 2, 3, 4, 5], IntTimes) == 120
    ensures Accumulated([5], IntPlus) == 5
    ensures Accumulated([5], IntTimes) == 5
    ensures Accumulated([0, 1, 2, 3, 4], AddPlus5) == 30
    ensures Accumulated([1, 2, 3, 4, 5], IntMinus) == -13
    ensures Accumulated([], IntTimes) == 0
  {
    assert [1, 2, 3, 4, 5][1..] == [2, 3, 4, 5];
    assert [2, 3, 4, 5][1..] == [3, 4, 5];
    assert [3, 4, 5][1..] == [4, 5];
    assert [4, 5][1..] == [5];
    assert [0, 1, 2, 3, 4][1..] == [1, 2, 3, 4];
    assert [1, 2, 3, 4][1..] == [2, 3, 4];
    assert [2, 3, 4][1..] == [3, 4];
    assert [3, 4][1..] == [4];
    assert FoldLeft(IntTimes, 24, [5]) == 120;
    assert FoldLeft(IntTimes, 6, [4, 5]) == 120;
    assert FoldLeft(IntTimes, 2, [3, 4, 5]) == 120;
    assert FoldLeft(AddPlus5, 21, [4]) == 30;
    assert FoldLeft(AddPlus5, 13, [3, 4]) == 30;
    assert FoldLeft(AddPlus5, 6, [2, 3, 4]) == 30;
    assert FoldLeft(IntMinus, -8, [5]) == -13;
    assert FoldLeft(IntMinus, -4, [4, 5]) == -13;
    assert FoldLeft(IntMinus, -1, [3, 4, 5]) == -13;
  }

  /** A container view presents exactly the container's elements. */
  lemma LeafValues(kind: NumType, s: seq<int>)
    ensures Defined(Leaf(kind, s)) && Values(Leaf(kind, s)) == s
  {
  }
}
