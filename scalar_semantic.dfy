/** The scenarios the array-with-scalar tests drive the engine through. A test
    fixture is an array of arbitrary one-to-one layout (row-major,
    column-major, "central" or "unit"), and its expected array has the
    fixture's strides and, at every multi-index, the fixture's element OP b.
    Each method runs one test block and promises that the equality its check
    tests holds, and that the check therefore passes. */
module ScalarSemantic {
  import opened Ops
  import opened Layout
  import opened XArray

  /** `expected` is what `fixture OP b` must produce: the fixture's shape and
      strides, and each element combined with b. */
  ghost predicate ExpectedResult(expected: StridedArray, fixture: StridedArray, op: Op, b: int)
    reads expected.buf, fixture.buf
    requires expected.Valid() && fixture.Valid() && Defined(op, b)
  {
    expected.shape == fixture.shape && expected.strides == fixture.strides &&
    forall idx :: InShape(fixture.shape, idx) ==> expected.Get(idx) == Apply(op, fixture.Get(idx), b)
  }

  /** One block of the compound-assignment tests: copy the fixture, apply
      `a OP= b` to the copy and compare it with the expected array under full
      equality. The copy keeps the fixture's layout and the check passes. */
  method CompoundAssignCase(fixture: StridedArray, op: Op, b: int, expected: StridedArray)
    returns (a: StridedArray, pass: bool)
    requires fixture.Valid() && fixture.OneToOneLayout() && expected.Valid() && Defined(op, b)
    requires ExpectedResult(expected, fixture, op, b)
    ensures a.Valid() && a.shape == fixture.shape && a.strides == fixture.strides
    ensures a.buf != fixture.buf && a.buf != expected.buf
    ensures FullEqual(expected, a)
    ensures pass == FullEqual(expected, a)
  {
    a := new StridedArray.Copy(fixture);
    a.CompoundAssign(op, b);
    pass := FullEqual(expected, a);
    FullEqualIff(expected, a);
  }

  /** One block of the `noalias` tests: build a zero-filled destination with
      the fixture's shape and strides, assign `fixture OP b` to it without
      aliasing and compare it with the expected array under full equality.
      The fixture is left as it was and the check passes. */
  method NoaliasAssignCase(fixture: StridedArray, op: Op, b: int, expected: StridedArray)
    returns (a: StridedArray, pass: bool)
    requires fixture.Valid() && fixture.OneToOneLayout() && expected.Valid() && Defined(op, b)
    requires ExpectedResult(expected, fixture, op, b)
    ensures a.Valid() && a.shape == fixture.shape && a.strides == fixture.strides
    ensures a.buf != fixture.buf && a.buf != expected.buf
    ensures FullEqual(expected, a)
    ensures pass == FullEqual(expected, a)
  {
    var r := StridedArray.Create(fixture.shape, fixture.strides, 0);
    a := r.value;
    a.NoaliasAssign(fixture, op, b);
    pass := FullEqual(expected, a);
    FullEqualIff(expected, a);
  }

  /** The two strategies agree: `a OP= b` on a copy of the fixture and
      `noalias(d) = fixture OP b` into a fresh destination of the fixture's
      layout are fully equal. */
  method StrategiesAgree(fixture: StridedArray, op: Op, b: int)
    returns (viaCompound: StridedArray, viaNoalias: StridedArray, agree: bool)
    requires fixture.Valid() && fixture.OneToOneLayout() && Defined(op, b)
    ensures viaCompound.Valid() && viaNoalias.Valid()
    ensures viaCompound.strides == fixture.strides && viaNoalias.strides == fixture.strides
    ensures FullEqual(viaCompound, viaNoalias)
    ensures agree == FullEqual(viaCompound, viaNoalias)
  {
    viaCompound := new StridedArray.Copy(fixture);
    viaCompound.CompoundAssign(op, b);
    var r := StridedArray.Create(fixture.shape, fixture.strides, 0);
    viaNoalias := r.value;
    viaNoalias.NoaliasAssign(fixture, op, b);
    agree := FullEqual(viaCompound, viaNoalias);
    FullEqualIff(viaCompound, viaNoalias);
  }

  /** The outcome does not depend on layout: two fixtures holding the same
      elements under different strides give element-wise equal results, each
      in its own fixture's strides. */
  method LayoutIndependent(x: StridedArray, y: StridedArray, op: Op, b: int)
    returns (rx: StridedArray, ry: StridedArray, same: bool)
    requires x.Valid() && x.OneToOneLayout() && y.Valid() && y.OneToOneLayout() && Defined(op, b)
    requires ValueEqual(x, y)
    ensures rx.Valid() && ry.Valid()
    ensures rx.strides == x.strides && ry.strides == y.strides
    ensures ValueEqual(rx, ry)
    ensures same == ValueEqual(rx, ry)
  {
    ValueEqualIff(x, y);
    rx := new StridedArray.Copy(x);
    rx.CompoundAssign(op, b);
    ry := new StridedArray.Copy(y);
    ry.CompoundAssign(op, b);
    same := ValueEqual(rx, ry);
    ValueEqualIff(rx, ry);
  }
}
