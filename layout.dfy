/** Layout descriptor: a shape and a strides sequence of the same rank, and the
    offset function that maps a logical multi-index into a flat buffer.
    Logical indices are enumerated in row-major order (`Unravel`), which is
    how the assignment loops visit every index exactly once whatever the
    strides are. */
module Layout {

  /** `idx` is a valid multi-index of `shape`: one coordinate per axis, each
      below that axis's extent. */
  predicate InShape(shape: seq<nat>, idx: seq<nat>) {
    |idx| == |shape| && forall j :: 0 <= j < |idx| ==> idx[j] < shape[j]
  }

  /** Total element count: the product of the extents. */
  function Size(shape: seq<nat>): (n: nat) {
    if |shape| == 0 then 1 else shape[0] * Size(shape[1..])
  }

  /** Offset of a multi-index in the buffer: the sum of idx[j] * strides[j].
      The origin sits at the start of the buffer, and non-negative strides
      never step before it. */
  function Offset(strides: seq<int>, idx: seq<nat>): (r: int)
    requires |idx| == |strides|
    ensures (forall j :: 0 <= j < |idx| ==> idx[j] == 0) ==> r == 0
    ensures NonNegative(strides) ==> r >= 0
  {
    if |idx| == 0 then 0 else idx[0] * strides[0] + Offset(strides[1..], idx[1..])
  }

  /** Position of a multi-index in row-major logical order. */
  function Ravel(shape: seq<nat>, idx: seq<nat>): (k: nat)
    requires InShape(shape, idx)
    ensures k < Size(shape)
  {
    if |shape| == 0 then 0
    else
      var inner := Size(shape[1..]);
      var rest := Ravel(shape[1..], idx[1..]);
      MulAddBound(idx[0], shape[0], inner, rest);
      idx[0] * inner + rest
  }

  /** The multi-index at position k of row-major logical order. */
  function Unravel(shape: seq<nat>, k: nat): (idx: seq<nat>)
    requires k < Size(shape)
    ensures InShape(shape, idx)
  {
    if |shape| == 0 then []
    else
      var inner := Size(shape[1..]);
      QuotientBound(k, shape[0], inner);
      [k / inner] + Unravel(shape[1..], k % inner)
  }

  lemma MulAddBound(i: nat, n: nat, inner: nat, rest: nat)
    requires i < n && rest < inner
    ensures i * inner + rest < n * inner
  {
    assert (i + 1) * inner == i * inner + inner;
    assert i + 1 <= n;
    assert (i + 1) * inner <= n * inner;
  }

  lemma QuotientBound(k: nat, n: nat, inner: nat)
    requires k < n * inner
    ensures inner > 0 && k / inner < n
  {
  }

  /** Division by a positive divisor recovers quotient and remainder. */
  lemma DivModUnique(q: nat, d: nat, r: nat)
    requires 0 <= r < d
    ensures (q * d + r) / d == q && (q * d + r) % d == r
  {
    var k := q * d + r;
    var m := k / d - q;
    assert d * m == r - k % d by {
      assert k == d * (k / d) + k % d;
      assert d * (k / d) - d * q == d * m;
    }
    if m != 0 {
      MulAtLeast(d, m);
    }
  }

  lemma MulAtLeast(d: nat, m: int)
    requires m != 0
    ensures d * m >= d || d * m <= -(d as int)
  {
  }

  /** Unravel undoes Ravel: every multi-index of the shape is visited. */
  lemma {:induction false} UnravelRavel(shape: seq<nat>, idx: seq<nat>)
    requires InShape(shape, idx)
    ensures Unravel(shape, Ravel(shape, idx)) == idx
  {
    if |shape| > 0 {
      var inner := Size(shape[1..]);
      var rest := Ravel(shape[1..], idx[1..]);
      DivModUnique(idx[0], inner, rest);
      UnravelRavel(shape[1..], idx[1..]);
      assert idx == [idx[0]] + idx[1..];
    }
  }

  /** Ravel undoes Unravel: no position is visited twice. */
  lemma {:induction false} RavelUnravel(shape: seq<nat>, k: nat)
    requires k < Size(shape)
    ensures Ravel(shape, Unravel(shape, k)) == k
  {
    if |shape| > 0 {
      var inner := Size(shape[1..]);
      QuotientBound(k, shape[0], inner);
      var idx := Unravel(shape, k);
      assert idx[0] == k / inner && idx[1..] == Unravel(shape[1..], k % inner);
      RavelUnravel(shape[1..], k % inner);
      assert Ravel(shape, idx) == (k / inner) * inner + k % inner;
    }
  }

  /** A shape with a valid multi-index has at least one element. */
  lemma InShapeNonEmpty(shape: seq<nat>, idx: seq<nat>)
    requires InShape(shape, idx)
    ensures Size(shape) > 0
  {
    var _ := Ravel(shape, idx);
  }

  /** Every stride is non-negative. */
  predicate NonNegative(strides: seq<int>) {
    forall j :: 0 <= j < |strides| ==> strides[j] >= 0
  }

  /** Every valid multi-index lands inside a buffer of length n. */
  ghost predicate InBounds(shape: seq<nat>, strides: seq<int>, n: nat) {
    |strides| == |shape| &&
    forall idx :: InShape(shape, idx) ==> 0 <= Offset(strides, idx) < n
  }

  /** The layout is one-to-one: distinct multi-indices have distinct offsets,
      as in the row-major, column-major and permuted layouts. */
  ghost predicate OneToOne(shape: seq<nat>, strides: seq<int>) {
    |strides| == |shape| &&
    forall i, j :: InShape(shape, i) && InShape(shape, j) && Offset(strides, i) == Offset(strides, j) ==> i == j
  }

  /** Some multi-index of the shape addresses buffer position p. */
  ghost predicate Addressed(shape: seq<nat>, strides: seq<int>, p: int)
    requires |strides| == |shape|
  {
    exists idx :: InShape(shape, idx) && Offset(strides, idx) == p
  }

  /** The largest offset a non-degenerate shape reaches: the sum of
      (shape[j] - 1) * strides[j]. */
  function Span(shape: seq<nat>, strides: seq<int>): (r: int)
    requires |strides| == |shape|
  {
    if |shape| == 0 then 0 else (shape[0] - 1) * strides[0] + Span(shape[1..], strides[1..])
  }

  /** Buffer length a (shape, strides, fill) construction allocates:
      1 + Span, or nothing at all when the shape has no elements. */
  function BufferLength(shape: seq<nat>, strides: seq<int>): (n: nat)
    requires |strides| == |shape| && NonNegative(strides)
  {
    if Size(shape) == 0 then 0
    else
      SpanNonNegative(shape, strides);
      Span(shape, strides) + 1
  }

  lemma {:induction false} SpanNonNegative(shape: seq<nat>, strides: seq<int>)
    requires |strides| == |shape| && NonNegative(strides) && Size(shape) > 0
    ensures Span(shape, strides) >= 0
  {
    if |shape| > 0 {
      assert Size(shape[1..]) > 0;
      SpanNonNegative(shape[1..], strides[1..]);
    }
  }

  /** With non-negative strides, every offset of the shape lies in [0, Span]. */
  lemma {:induction false} OffsetWithinSpan(shape: seq<nat>, strides: seq<int>, idx: seq<nat>)
    requires |strides| == |shape| && NonNegative(strides) && InShape(shape, idx)
    ensures 0 <= Offset(strides, idx) <= Span(shape, strides)
  {
    if |shape| > 0 {
      OffsetWithinSpan(shape[1..], strides[1..], idx[1..]);
      MulMonotone(idx[0], shape[0] - 1, strides[0]);
      assert Offset(strides, idx) == idx[0] * strides[0] + Offset(strides[1..], idx[1..]);
      assert Span(shape, strides) == (shape[0] - 1) * strides[0] + Span(shape[1..], strides[1..]);
    }
  }

  lemma MulMonotone(a: nat, b: nat, c: nat)
    requires a <= b
    ensures 0 <= a * c <= b * c
  {
    assert b * c == a * c + (b - a) * c;
  }

  /** The (shape, strides) constructor's buffer holds every offset. */
  lemma BufferLengthInBounds(shape: seq<nat>, strides: seq<int>)
    requires |strides| == |shape| && NonNegative(strides)
    ensures InBounds(shape, strides, BufferLength(shape, strides))
  {
    forall idx | InShape(shape, idx)
      ensures 0 <= Offset(strides, idx) < BufferLength(shape, strides)
    {
      InShapeNonEmpty(shape, idx);
      OffsetWithinSpan(shape, strides, idx);
    }
  }

  /** Distinct positions of row-major order have distinct offsets in a
      one-to-one layout. */
  lemma UnravelOffsetsDistinct(shape: seq<nat>, strides: seq<int>)
    requires OneToOne(shape, strides)
    ensures forall j, k :: 0 <= j < Size(shape) && 0 <= k < Size(shape) && j != k ==>
      Offset(strides, Unravel(shape, j)) != Offset(strides, Unravel(shape, k))
  {
    forall j, k | 0 <= j < Size(shape) && 0 <= k < Size(shape) && j != k
      ensures Offset(strides, Unravel(shape, j)) != Offset(strides, Unravel(shape, k))
    {
      RavelUnravel(shape, j);
      RavelUnravel(shape, k);
    }
  }

  // Layout families

  /** Row-major (C) strides: the last axis varies fastest. */
  function RowMajorStrides(shape: seq<nat>): (strides: seq<int>)
    ensures |strides| == |shape| && NonNegative(strides)
  {
    if |shape| == 0 then [] else [Size(shape[1..]) as int] + RowMajorStrides(shape[1..])
  }

  /** Row-major offsets are exactly row-major logical positions. */
  lemma {:induction false} RowMajorOffset(shape: seq<nat>, idx: seq<nat>)
    requires InShape(shape, idx)
    ensures Offset(RowMajorStrides(shape), idx) == Ravel(shape, idx)
  {
    if |shape| > 0 {
      RowMajorOffset(shape[1..], idx[1..]);
    }
  }

  /** Row-major strides are a one-to-one layout whose constructor buffer has
      exactly Size(shape) elements. */
  lemma RowMajorIsLayout(shape: seq<nat>)
    ensures OneToOne(shape, RowMajorStrides(shape))
    ensures BufferLength(shape, RowMajorStrides(shape)) == Size(shape)
  {
    var strides := RowMajorStrides(shape);
    forall i, j | InShape(shape, i) && InShape(shape, j) && Offset(strides, i) == Offset(strides, j)
      ensures i == j
    {
      RowMajorOffset(shape, i);
      RowMajorOffset(shape, j);
      UnravelRavel(shape, i);
      UnravelRavel(shape, j);
    }
    if Size(shape) > 0 {
      RowMajorSpan(shape);
    }
  }

  lemma {:induction false} RowMajorSpan(shape: seq<nat>)
    requires Size(shape) > 0
    ensures Span(shape, RowMajorStrides(shape)) == Size(shape) - 1
  {
    if |shape| > 0 {
      assert Size(shape[1..]) > 0;
      RowMajorSpan(shape[1..]);
      assert (shape[0] - 1) * Size(shape[1..]) == Size(shape) - Size(shape[1..]);
    }
  }

  function Scale(c: nat, strides: seq<int>): (r: seq<int>)
    ensures |r| == |strides|
    ensures forall j :: 0 <= j < |r| ==> r[j] == c * strides[j]
    ensures NonNegative(strides) ==> NonNegative(r)
  {
    if |strides| == 0 then []
    else
      MulMonotone(0, c, if strides[0] < 0 then 0 else strides[0]);
      [c * strides[0]] + Scale(c, strides[1..])
  }

  /** Column-major (Fortran) strides: the first axis varies fastest. */
  function ColumnMajorStrides(shape: seq<nat>): (strides: seq<int>)
    ensures |strides| == |shape| && NonNegative(strides)
  {
    if |shape| == 0 then [] else [1] + Scale(shape[0], ColumnMajorStrides(shape[1..]))
  }

  /** Position of a multi-index in column-major logical order. */
  function ColumnRavel(shape: seq<nat>, idx: seq<nat>): (k: nat)
    requires InShape(shape, idx)
    ensures k < Size(shape)
  {
    if |shape| == 0 then 0
    else
      var rest := ColumnRavel(shape[1..], idx[1..]);
      ColumnBound(shape[0], Size(shape[1..]), idx[0], rest);
      idx[0] + shape[0] * rest
  }

  lemma ColumnBound(n: nat, inner: nat, i: nat, rest: nat)
    requires i < n && rest < inner
    ensures i + n * rest < n * inner
  {
    assert n * (rest + 1) <= n * inner;
  }

  lemma ScaleStep(c: int, i: int, s: int, rest: int)
    ensures i * (c * s) + c * rest == c * (i * s + rest)
  {
  }

  lemma {:induction false} OffsetScale(c: nat, strides: seq<int>, idx: seq<nat>)
    requires |idx| == |strides|
    ensures Offset(Scale(c, strides), idx) == c * Offset(strides, idx)
  {
    if |idx| > 0 {
      var rest := Offset(strides[1..], idx[1..]);
      OffsetScale(c, strides[1..], idx[1..]);
      assert Scale(c, strides)[1..] == Scale(c, strides[1..]);
      assert Offset(Scale(c, strides), idx) == idx[0] * (c * strides[0]) + c * rest;
      assert Offset(strides, idx) == idx[0] * strides[0] + rest;
      ScaleStep(c, idx[0], strides[0], rest);
    }
  }

  /** Column-major offsets are exactly column-major logical positions. */
  lemma {:induction false} ColumnMajorOffset(shape: seq<nat>, idx: seq<nat>)
    requires InShape(shape, idx)
    ensures Offset(ColumnMajorStrides(shape), idx) == ColumnRavel(shape, idx)
  {
    if |shape| > 0 {
      var inner := ColumnMajorStrides(shape[1..]);
      ColumnMajorOffset(shape[1..], idx[1..]);
      OffsetScale(shape[0], inner, idx[1..]);
      assert ColumnMajorStrides(shape)[1..] == Scale(shape[0], inner);
    }
  }

  /** Column-major order is one-to-one. */
  lemma {:induction false} ColumnRavelInjective(shape: seq<nat>, i: seq<nat>, j: seq<nat>)
    requires InShape(shape, i) && InShape(shape, j) && ColumnRavel(shape, i) == ColumnRavel(shape, j)
    ensures i == j
  {
    if |shape| > 0 {
      var ri, rj := ColumnRavel(shape[1..], i[1..]), ColumnRavel(shape[1..], j[1..]);
      DivModUnique(ri, shape[0], i[0]);
      DivModUnique(rj, shape[0], j[0]);
      assert i[0] + shape[0] * ri == ri * shape[0] + i[0];
      assert j[0] + shape[0] * rj == rj * shape[0] + j[0];
      ColumnRavelInjective(shape[1..], i[1..], j[1..]);
      assert i == [i[0]] + i[1..] && j == [j[0]] + j[1..];
    }
  }

  /** Column-major strides are a one-to-one layout whose constructor buffer
      has exactly Size(shape) elements. */
  lemma ColumnMajorIsLayout(shape: seq<nat>)
    ensures OneToOne(shape, ColumnMajorStrides(shape))
    ensures BufferLength(shape, ColumnMajorStrides(shape)) == Size(shape)
  {
    var strides := ColumnMajorStrides(shape);
    forall i, j | InShape(shape, i) && InShape(shape, j) && Offset(strides, i) == Offset(strides, j)
      ensures i == j
    {
      ColumnMajorOffset(shape, i);
      ColumnMajorOffset(shape, j);
      ColumnRavelInjective(shape, i, j);
    }
    if Size(shape) > 0 {
      ColumnMajorSpan(shape);
    }
  }

  lemma {:induction false} SpanScale(c: nat, shape: seq<nat>, strides: seq<int>)
    requires |strides| == |shape|
    ensures Span(shape, Scale(c, strides)) == c * Span(shape, strides)
  {
    if |shape| > 0 {
      var rest := Span(shape[1..], strides[1..]);
      SpanScale(c, shape[1..], strides[1..]);
      assert Scale(c, strides)[1..] == Scale(c, strides[1..]);
      assert Span(shape, Scale(c, strides)) == (shape[0] - 1) * (c * strides[0]) + c * rest;
      assert Span(shape, strides) == (shape[0] - 1) * strides[0] + rest;
      ScaleStep(c, shape[0] as int - 1, strides[0], rest);
    }
  }

  lemma {:induction false} ColumnMajorSpan(shape: seq<nat>)
    requires Size(shape) > 0
    ensures Span(shape, ColumnMajorStrides(shape)) == Size(shape) - 1
  {
    if |shape| > 0 {
      var inner := ColumnMajorStrides(shape[1..]);
      assert Size(shape[1..]) > 0;
      ColumnMajorSpan(shape[1..]);
      SpanScale(shape[0], shape[1..], inner);
      assert ColumnMajorStrides(shape)[1..] == Scale(shape[0], inner);
      assert (shape[0] - 1) + shape[0] * (Size(shape[1..]) - 1) == Size(shape) - 1;
    }
  }
}
