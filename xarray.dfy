/** The strided array container and its two scalar-assignment strategies:
    compound assignment (`a += b`, `-=`, `*=`, `/=`) rewrites the array's own
    buffer in place, and non-aliasing assignment (`noalias(a) = src OP b`)
    fills a pre-shaped destination through the destination's own offsets.
    In both, the strides of the destination never change. */
module XArray {
  import opened Ops
  import opened Layout

  /** Why a (shape, strides, fill) construction is refused. */
  datatype Error = RankMismatch | NegativeStride

  datatype Result<T> = Ok(value: T) | Err(error: Error)

  class StridedArray {
    const shape: seq<nat>
    const strides: seq<int>
    const buf: array<int>

    /** Strides match the rank, are non-negative, and every valid multi-index
        resolves to a position inside the buffer. */
    ghost predicate Valid() {
      |strides| == |shape| && NonNegative(strides) && InBounds(shape, strides, buf.Length)
    }

    /** The layout gives each multi-index its own buffer cell. */
    ghost predicate OneToOneLayout() {
      OneToOne(shape, strides)
    }

    /** Element at a multi-index, read through this array's offset function. */
    function Get(idx: seq<nat>): (x: int)
      reads buf
      requires Valid() && InShape(shape, idx)
    {
      buf[Offset(strides, idx)]
    }

    /** Element at position k of row-major logical order, the order in which
        the container's iterators (and so its `==`) visit elements. */
    function At(k: nat): (x: int)
      reads buf
      requires Valid() && k < Size(shape)
    {
      Get(Unravel(shape, k))
    }

    constructor Filled(shape: seq<nat>, strides: seq<int>, n: nat, fill: int)
      requires |strides| == |shape|
      ensures this.shape == shape && this.strides == strides
      ensures fresh(buf) && buf.Length == n
      ensures forall p :: 0 <= p < n ==> buf[p] == fill
    {
      this.shape := shape;
      this.strides := strides;
      buf := new int[n](_ => fill);
    }

    /** `xarray<int>(shape, strides, fill)`: an array with exactly that shape
        and those strides, every element equal to fill; refused when the ranks
        differ or a stride is negative. */
    static method Create(shape: seq<nat>, strides: seq<int>, fill: int) returns (r: Result<StridedArray>)
      ensures r.Err? ==> r.error == (if |strides| != |shape| then RankMismatch else NegativeStride)
      ensures r.Ok? <==> |strides| == |shape| && NonNegative(strides)
      ensures r.Ok? ==> r.value.shape == shape && r.value.strides == strides && r.value.Valid()
      ensures r.Ok? ==> fresh(r.value.buf)
      ensures r.Ok? ==> forall idx :: InShape(shape, idx) ==> r.value.Get(idx) == fill
    {
      if |strides| != |shape| {
        return Err(RankMismatch);
      }
      if exists j :: 0 <= j < |strides| && strides[j] < 0 {
        return Err(NegativeStride);
      }
      BufferLengthInBounds(shape, strides);
      var a := new StridedArray.Filled(shape, strides, BufferLength(shape, strides), fill);
      r := Ok(a);
    }

    /** `xarray<int> a = other`: an independent array with the same shape,
        strides and buffer contents. */
    constructor Copy(other: StridedArray)
      requires other.Valid()
      ensures shape == other.shape && strides == other.strides && Valid()
      ensures fresh(buf) && buf[..] == other.buf[..]
      ensures forall idx :: InShape(shape, idx) ==> Get(idx) == other.Get(idx)
    {
      shape := other.shape;
      strides := other.strides;
      buf := new int[other.buf.Length](p requires 0 <= p < other.buf.Length reads other.buf => other.buf[p]);
    }

    /** `a OP= b`: every element becomes its previous value OP b. The buffer is
        rewritten in place and cells no multi-index reaches are left alone;
        shape and strides are constant. */
    method CompoundAssign(op: Op, b: int)
      requires Valid() && OneToOneLayout() && Defined(op, b)
      modifies buf
      ensures Valid()
      ensures forall idx :: InShape(shape, idx) ==> Get(idx) == Apply(op, old(Get(idx)), b)
      ensures forall p :: 0 <= p < buf.Length && !Addressed(shape, strides, p) ==> buf[p] == old(buf[p])
    {
      var n := Size(shape);
      UnravelOffsetsDistinct(shape, strides);
      ghost var before := buf[..];
      var k := 0;
      while k < n
        invariant 0 <= k <= n
        invariant forall j :: 0 <= j < k ==> buf[Offset(strides, Unravel(shape, j))] == Apply(op, before[Offset(strides, Unravel(shape, j))], b)
        invariant forall j :: k <= j < n ==> buf[Offset(strides, Unravel(shape, j))] == before[Offset(strides, Unravel(shape, j))]
        invariant forall p :: 0 <= p < buf.Length && !Addressed(shape, strides, p) ==> buf[p] == before[p]
      {
        var idx := Unravel(shape, k);
        var p := Offset(strides, idx);
        buf[p] := Apply(op, buf[p], b);
        assert Addressed(shape, strides, p) by {
          assert InShape(shape, idx) && Offset(strides, idx) == p;
        }
        k := k + 1;
      }
      forall idx | InShape(shape, idx)
        ensures Get(idx) == Apply(op, old(Get(idx)), b)
      {
        UnravelRavel(shape, idx);
        var j := Ravel(shape, idx);
        assert buf[Offset(strides, Unravel(shape, j))] == Apply(op, before[Offset(strides, Unravel(shape, j))], b);
      }
    }

    /** `noalias(a) = src OP b`: every element of this destination becomes the
        source's element at the same multi-index OP b, written through this
        array's own offsets; the source, whose buffer the caller promises is
        distinct, is only read. */
    method NoaliasAssign(src: StridedArray, op: Op, b: int)
      requires Valid() && OneToOneLayout() && src.Valid() && Defined(op, b)
      requires src.shape == shape && src.buf != buf
      modifies buf
      ensures Valid()
      ensures unchanged(src.buf)
      ensures forall idx :: InShape(shape, idx) ==> Get(idx) == Eval(src, op, b, idx)
      ensures forall p :: 0 <= p < buf.Length && !Addressed(shape, strides, p) ==> buf[p] == old(buf[p])
    {
      var n := Size(shape);
      UnravelOffsetsDistinct(shape, strides);
      var k := 0;
      while k < n
        invariant 0 <= k <= n
        invariant forall j :: 0 <= j < k ==> At(j) == Apply(op, src.At(j), b)
        invariant forall p :: 0 <= p < buf.Length && !Addressed(shape, strides, p) ==> buf[p] == old(buf[p])
      {
        var idx := Unravel(shape, k);
        buf[Offset(strides, idx)] := Eval(src, op, b, idx);
        k := k + 1;
      }
      forall idx | InShape(shape, idx)
        ensures Get(idx) == Eval(src, op, b, idx)
      {
        UnravelRavel(shape, idx);
        assert At(Ravel(shape, idx)) == Apply(op, src.At(Ravel(shape, idx)), b);
      }
    }
  }

  /** The lazy node `src OP b` evaluated at one multi-index: the source's
      element there combined with the broadcast scalar. An addition or a
      multiplication by a non-zero scalar can be undone from the value. */
  function Eval(src: StridedArray, op: Op, b: int, idx: seq<nat>): (x: int)
    reads src.buf
    requires src.Valid() && InShape(src.shape, idx) && Defined(op, b)
    ensures op == Plus ==> Apply(Minus, x, b) == src.Get(idx)
    ensures op == Times && b != 0 ==> Apply(Div, x, b) == src.Get(idx)
  {
    var v := src.Get(idx);
    if b != 0 then
      ApplyInverse(v, b);
      Apply(op, v, b)
    else
      Apply(op, v, b)
  }

  /** `a1 == a2`: same shape and the same elements in row-major logical order,
      whatever either array's strides. */
  predicate ValueEqual(a1: StridedArray, a2: StridedArray)
    reads a1.buf, a2.buf
    requires a1.Valid() && a2.Valid()
  {
    a1.shape == a2.shape && forall k :: 0 <= k < Size(a1.shape) ==> a1.At(k) == a2.At(k)
  }

  /** `full_equal(a1, a2)`: equal strides and equal elements. */
  predicate FullEqual(a1: StridedArray, a2: StridedArray)
    reads a1.buf, a2.buf
    requires a1.Valid() && a2.Valid()
  {
    a1.strides == a2.strides && ValueEqual(a1, a2)
  }

  /** Arrays are equal element-wise exactly when they agree at every
      multi-index of their common shape. */
  lemma ValueEqualIff(a1: StridedArray, a2: StridedArray)
    requires a1.Valid() && a2.Valid()
    ensures ValueEqual(a1, a2) <==>
      a1.shape == a2.shape && forall idx :: InShape(a1.shape, idx) ==> a1.Get(idx) == a2.Get(idx)
  {
    if ValueEqual(a1, a2) {
      forall idx | InShape(a1.shape, idx) ensures a1.Get(idx) == a2.Get(idx) {
        UnravelRavel(a1.shape, idx);
        assert a1.At(Ravel(a1.shape, idx)) == a2.At(Ravel(a1.shape, idx));
      }
    }
  }

  /** Full equality is layout-sensitive: equal strides, and equal elements at
      every multi-index. */
  lemma FullEqualIff(a1: StridedArray, a2: StridedArray)
    requires a1.Valid() && a2.Valid()
    ensures FullEqual(a1, a2) <==>
      a1.strides == a2.strides && a1.shape == a2.shape &&
      forall idx :: InShape(a1.shape, idx) ==> a1.Get(idx) == a2.Get(idx)
  {
    ValueEqualIff(a1, a2);
  }
}
