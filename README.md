# xtensor array-with-scalar assignment engine, modelled in Dafny

This project models what xtensor's scalar-semantic tests require of its
strided array container `xarray<int>`:

- an array is a shape, a strides sequence of the same rank and a flat
  buffer, and the element at a multi-index lives at offset
  `sum of idx[j] * strides[j]`;
- `full_equal` compares strides as well as elements, so a result must match
  the expected array in its memory layout too;
- compound assignment `a += b`, `-=`, `*=`, `/=` with an `int` scalar rewrites
  the array's buffer in place and keeps its strides;
- `noalias(a) = src OP b` fills a destination that was built beforehand with
  an explicit `(shape, strides, 0)`, writing `src[idx] OP b` at every
  multi-index through the destination's own offsets.

Modules:

- `Ops` (`ops.dfy`): the operation tags `Plus | Minus | Times | Div`, their
  element-level meaning `Apply`, and C++'s truncating integer division.
- `Layout` (`layout.dfy`): shapes, strides, the offset function, the
  row-major enumeration of logical indices (`Ravel`/`Unravel`, proved mutually
  inverse), the buffer span of a (shape, strides) pair, and the row-major and
  column-major stride families, each proved to be a one-to-one layout.
- `XArray` (`xarray.dfy`): the class `StridedArray` (constant `shape`,
  `strides` and `buf: array<int>`), the `(shape, strides, fill)` construction
  `Create`, the copy constructor `Copy`, element access, the two assignment
  methods with their loops over logical indices, and `ValueEqual`/`FullEqual`.
- `ScalarSemantic` (`scalar_semantic.dfy`): one method per kind of test
  block, each proving that the test's full-equality check passes. It also
  holds the agreement of the two strategies and layout independence.

A test fixture is taken to be any valid array whose layout is one-to-one,
which covers the row-major, column-major, "central" and "unit" fixtures.
Its expected array is characterised by `ScalarSemantic.ExpectedResult`: it
has the fixture's shape and strides, and at each multi-index it holds the
fixture's element OP b.

The strides of an array cannot change. They are `const` fields, and both
assignment methods modify only `buf`. So "row-major stays row-major" holds by
construction. The test-block methods have no `modifies` clause, so the
fixtures they copy from or read are provably left as they were.

## Model

| member | source | states |
|---|---|---|
| `XArray.FullEqualIff` | test/test_xscalar_semantic.cpp:16-20 | `full_equal(a1, a2)` holds exactly when the strides are equal, the shapes are equal and the elements agree at every multi-index (both directions) |
| `XArray.ValueEqualIff` | test/test_xscalar_semantic.cpp:19 | the container's `==`, comparing shapes and then elements in row-major order, holds exactly when the shapes match and the elements agree at every multi-index, whatever the strides |
| `XArray.StridedArray.Create` | test/test_xscalar_semantic.cpp:160 | `xarray<int>(shape, strides, 0)` yields an array with exactly that shape and those strides, every element 0 and every multi-index in bounds; a rank mismatch or a negative stride is an error |
| `XArray.StridedArray.Copy` | test/test_xscalar_semantic.cpp:28 | `xarray<int> a = tester.ra` gives a fresh buffer with the same contents, the same shape and strides, and the same element at every multi-index |
| `XArray.StridedArray.CompoundAssign` | test/test_xscalar_semantic.cpp:22-152 | after `a OP= b` every element equals its previous value OP b, cells no multi-index reaches are untouched, and the array stays valid with its strides |
| `XArray.StridedArray.NoaliasAssign` | test/test_xscalar_semantic.cpp:154-284 | after `noalias(a) = src OP b` every element of `a` equals `src` at the same multi-index OP b, the source buffer is unchanged, and `a` keeps its pre-declared strides |
| `ScalarSemantic.CompoundAssignCase` | test/test_xscalar_semantic.cpp:26-31 | copying a fixture and applying `OP= b` gives an array with the fixture's shape and strides, in a buffer of its own, and `FullEqual(expected, a)` holds, so the returned check result is true; for any operation and any one-to-one layout |
| `ScalarSemantic.NoaliasAssignCase` | test/test_xscalar_semantic.cpp:158-163 | a zero-filled destination with the fixture's shape and strides, after `noalias(a) = fixture OP b`, satisfies `FullEqual(expected, a)`, so the returned check result is true |
| `ScalarSemantic.StrategiesAgree` | test/test_xscalar_semantic.cpp:158-163 | `a OP= b` on a copy of the fixture (line 30) and `noalias(a) = fixture OP b` (line 162) give arrays with `FullEqual(viaCompound, viaNoalias)`, both in the fixture's strides |
| `ScalarSemantic.LayoutIndependent` | test/test_xscalar_semantic.cpp:88-118 | two fixtures with the same elements under different strides give results with `ValueEqual(rx, ry)`, each in its own fixture's strides |
| `Ops.TruncDiv` | test/test_xscalar_semantic.cpp:121-152 | C++ `int` division: the remainder is smaller than the divisor in magnitude and has the dividend's sign, and the product of quotient and divisor never exceeds the dividend in magnitude |
| `Ops.Apply` | test/test_xscalar_semantic.cpp:24 | the functors `std::plus<>`, `std::minus<>`, `std::multiplies<>` and `std::divides<>` on `int` (lines 24, 57, 90, 123): `+`, `-` and `*` on integers, and for `Div` a quotient whose remainder is below the divisor and has the dividend's sign, as its ensures states |
| `Ops.TruncDivNonNegative` | test/test_xscalar_semantic.cpp:128 | on non-negative operands the truncating quotient is the ordinary quotient |
| `Ops.ApplyInverse` | test/test_xscalar_semantic.cpp:22-152 | per element, `/= b` undoes `*= b` and `-= b` undoes `+= b` |
| `Layout.Offset` | test/test_xscalar_semantic.cpp:160 | the offset `sum of idx[j]*strides[j]` through which every element is read and written; the origin is at offset 0 and non-negative strides give non-negative offsets; its bounds are pinned down by `OffsetWithinSpan`, and its values for the two canonical layouts by `RowMajorOffset` and `ColumnMajorOffset` |
| `XArray.Eval` | test/test_xscalar_semantic.cpp:161-282 | the lazy node `fixture OP b` evaluated at one multi-index, the source's element combined with the scalar; its ensures state that a `+ b` node is undone by `- b` and a `* b` node (b non-zero) by truncating `/ b`; what the destination receives from it is stated by `NoaliasAssign`'s ensures |
| `Layout.Ravel` | test/test_xscalar_semantic.cpp:19 | the row-major position of a valid multi-index lies below the element count |
| `Layout.Unravel` | test/test_xscalar_semantic.cpp:19 | each row-major position below the element count names a valid multi-index |
| `Layout.UnravelRavel` | test/test_xscalar_semantic.cpp:154-284 | every multi-index is reached by the row-major traversal the assignment loops use |
| `Layout.RavelUnravel` | test/test_xscalar_semantic.cpp:154-284 | no multi-index is reached twice by that traversal |
| `Layout.UnravelOffsetsDistinct` | test/test_xscalar_semantic.cpp:22-152 | in a one-to-one layout, distinct traversal positions write distinct buffer cells |
| `Layout.OffsetWithinSpan` | test/test_xscalar_semantic.cpp:160 | with non-negative strides every offset lies between 0 and the sum of `(shape[j]-1)*strides[j]` |
| `Layout.BufferLengthInBounds` | test/test_xscalar_semantic.cpp:160 | the buffer a `(shape, strides, fill)` construction allocates holds every offset of the shape |
| `Layout.RowMajorIsLayout` | test/test_xscalar_semantic.cpp:26-31 | row-major strides are one-to-one and need exactly as many cells as elements |
| `Layout.ColumnMajorIsLayout` | test/test_xscalar_semantic.cpp:33-38 | column-major strides are one-to-one and need exactly as many cells as elements |
| `Layout.RowMajorOffset` | test/test_xscalar_semantic.cpp:26-31 | under row-major strides the offset of a multi-index is its row-major position |
| `Layout.ColumnMajorOffset` | test/test_xscalar_semantic.cpp:33-38 | under column-major strides the offset of a multi-index is its column-major position |

## Left out

- The gtest harness (`TEST`, `SCOPED_TRACE`, `EXPECT_TRUE`): each test block is a method whose `pass` result is proved true.
- The fixture class `scalar_operation_tester` is not part of this model (its header, test_xsemantic.hpp, is not modelled). Its concrete strides for the "central" and "unit" layouts, its scalar `b` and its expected arrays are not modelled. Fixtures are arbitrary valid one-to-one layouts, and expected arrays are characterised by `ExpectedResult`.
- The headers `xarray.hpp` and `xnoalias.hpp` are not modelled as written. The engine is modelled from what the tests require of it.
- Expression templates: the lazy node `src OP b` is the pure function `XArray.Eval`. Evaluating it twice at one index gives the same value and has no side effect, because it is a function. Nested nodes are not modelled because the tests build none.
- Array-array operations, broadcasting and shape promotion: the tests do not exercise them.
- Machine `int` overflow: integers are unbounded.
- Division by zero: `Ops.Defined` excludes a zero divisor for `Div`.
- Runtime aliasing detection: `noalias` is the caller's promise. It is the precondition `src.buf != buf`.
- XArray.StridedArray.NoaliasAssign: requires the source to have the destination's shape. Resizing the destination on a shape mismatch is not modelled, because every test builds the destination with the source's shape.
- XArray.StridedArray.CompoundAssign: requires a one-to-one layout. With a layout that maps two multi-indices to one cell, a per-index traversal would combine that cell more than once. NoaliasAssign has the same requirement.
- XArray.StridedArray.Create: negative strides are refused with `NegativeStride`. Strides that step backwards need a base offset into the buffer, and the model does not have one.
- Traversal order: the assignment loops visit indices in row-major order. Other orders give the same result for a one-to-one layout, but the model does not prove that separately.
