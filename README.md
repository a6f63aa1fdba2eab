# Dense tensor builder — a Dafny model

This project models the `numerics` tensor library: a `Tensor<T>` is a flat
buffer `data` plus a `shape` (one extent per dimension, dimension 0 first).
Two factories build one. `fill` replicates a value over `product(shape)`
positions. `eye` zero-fills the buffer and then writes `one` at every
diagonal coordinate `[i, …, i]` with `i` below the largest extent. A private
`set` turns a coordinate into a flat offset and writes one element there.

The offset convention is the one the code uses. Dimension 0 is the
fastest-varying axis: `stride(0) = 1` and `stride(k) = stride(k-1) * shape[k-1]`.
This is the reverse of the usual last-axis-fastest layout; the model follows
the code.

Files and modules:

- `layout.dfy`, module `Layout`: the pure addressing logic. `Product` is the
  buffer size. `OffsetFold` is the `(sum, fac)` fold of `set`, step by step.
  `StridedSum` is the reference definition `Σ c[k] · Product(shape[..k])`.
  `MaxExtent` is `shape.iter().max()`, with `None` for the empty shape.
- `tensor.dfy`, module `Tensors`: the element capability `TensorNumber`
  (a `zero` and a `one`) and the class `Tensor` with an `array` buffer.
  `Fill` is a constructor. `Set` writes in place. `Eye` is a static method
  that builds the tensor with the source's loop. `FillData`,
  `DiagonalWrites` and `EyeData` are the specification functions that the
  buffers are proved equal to.
- `eye_shapes.dfy`, module `EyeShapes`: which shapes `eye` works on, and
  what the buffer of `eye` holds for them.

Failures of the source become explicit results, not preconditions:

- `max().unwrap()` panics on an empty shape. `Eye` returns `Err(EmptyShape)`.
- The indexing `self.data[true_idx]` panics on an offset past the end. `Set`
  returns `ok == false` and changes nothing. `Eye` then returns
  `Err(OutOfBounds(i))` for the first such diagonal index `i`.

The model proves that `eye` succeeds exactly on shapes of positive rank whose
extents are all equal, zero included (`EyeShapes.EyeDefinedIffUniform`). Every
other non-empty shape, for example `[2, 3]` or `[0, 3]`, sends the last diagonal
coordinate past the end of the buffer.

## Model

| member | source | states |
|---|---|---|
| `Layout.ProductZeroIff` | src/lib.rs:25-27 | about `Product`, the model of `shape.iter().product()`: the buffer size `product(shape)` is 0 exactly when some extent is 0 (the empty product is 1) |
| `Layout.OffsetFoldIsStridedSum` | src/lib.rs:54-61 | each step of the `(sum, fac)` fold keeps `sum` equal to the strided sum of the coordinates seen so far and `fac` equal to the current stride |
| `Layout.OffsetIsStridedSum` | src/lib.rs:51-61 | about `Offset` and `OffsetFold`, the model of the fold in `set`: the offset computed by `set` is `Σ c[k] · (shape[0] · … · shape[k-1])`, so dimension 0 has stride 1 |
| `Layout.StridedSumPrefixBelow` | src/lib.rs:51-61 | a coordinate with each entry below its extent has a strided sum, over its first n entries, below the product of the first n extents |
| `Layout.OffsetInBounds` | src/lib.rs:51-62 | a coordinate of the shape's rank with every entry below its extent has an offset below `product(shape)`, so the write in `set` is in bounds |
| `Layout.MaxExtent` | src/lib.rs:40 | the largest extent is `None` exactly for the empty shape; otherwise it is one of the extents and no extent exceeds it |
| `Tensors.FillData` | src/lib.rs:24-29 | the filled buffer has `product(shape)` elements, each equal to the fill value |
| `Tensors.Tensor.Fill` | src/lib.rs:24-30 | a fresh tensor that keeps an exact copy of the shape, with buffer `FillData(shape, value)` of length `product(shape)` |
| `Tensors.Tensor.Set` | src/lib.rs:50-63 | writes `value` at `Offset(shape, ti)` and changes nothing else (not the shape, not the buffer length). An offset past the end is reported (`ok == false`) and leaves the buffer unchanged |
| `Tensors.Tensor.Eye` | src/lib.rs:33-47 | succeeds exactly when `EyeDefined(shape)`, and then returns a fresh tensor with a copy of the shape and buffer `EyeData`. Fails with `EmptyShape` exactly on the empty shape, and otherwise with `OutOfBounds(i)` for the first diagonal index whose offset reaches `product(shape)` |
| `Tensors.DiagonalWrites` | src/lib.rs:41-45 | the buffer after the first n iterations of the diagonal loop (each writing `one` at `[i, …, i]`) keeps the buffer's length; `EyeData` is this after all iterations on the zero-filled buffer, and `EyeShapes.UniformWritesAt` gives its contents |
| `EyeShapes.LastDiagonalReach` | src/lib.rs:40-44 | when no extent exceeds m, the diagonal coordinate `[m-1, …, m-1]` reaches at least `product - 1`; it reaches at least `product` once some extent is below m |
| `EyeShapes.EyeDefinedIffUniform` | src/lib.rs:40-45 | `eye` can run to completion exactly for shapes of positive rank with all extents equal; empty and non-uniform shapes fail |
| `EyeShapes.EyeRejectsMixedExtents` | src/lib.rs:40-44 | `eye` fails on `[2, 3]` and on `[0, 3]` |
| `EyeShapes.ProductRepeat` | src/lib.rs:25 | the buffer of the uniform shape `[n, …, n]` of rank r has `n^r` elements |
| `EyeShapes.UniformStridedSum` | src/lib.rs:51-61 | on `[n, …, n]` the first q entries of `[i, …, i]` contribute `i · (1 + n + … + n^(q-1))` |
| `EyeShapes.DiagOffsetUniform` | src/lib.rs:41-44 | on `[n, …, n]` of rank r the i-th diagonal coordinate lies at offset `i · (1 + n + … + n^(r-1))` |
| `EyeShapes.UniformWritesAt` | src/lib.rs:42-45 | after the first w iterations of the diagonal loop on `[n, …, n]`, position j holds `one` exactly when it is one of the first w multiples of `1 + n + … + n^(r-1)`, and `zero` otherwise |
| `EyeShapes.EyeUniform` | src/lib.rs:33-46 | for `[n, …, n]` of rank r ≥ 1, `eye` succeeds with `n^r` elements: `one` at the positions `i · (1 + n + … + n^(r-1))` for `i < n`, and `zero` everywhere else |
| `EyeShapes.EyeVector` | src/lib.rs:33-46 | for rank 1, `eye([n])` is n copies of `one` |
| `EyeShapes.MatrixOffset` | src/lib.rs:51-61 | on `[n, n]` the cell `(row, col)` lies at offset `row + col · n` |
| `EyeShapes.EyeMatrix` | src/lib.rs:33-46 | `eye([n, n])` has `n · n` elements. The cell `(row, col)`, at offset `row + col · n`, holds `one` exactly when `row == col` |

## Left out

- The `TensorNumber` implementation for `f32` (`zero = 0.0`, `one = 1.0`). The element type is generic, and `TensorNumber<T>` carries its two values explicitly. A datatype holding the two values, passed explicitly, stands for the trait.
- The `Copy` bound, ownership and allocation, including allocation failure for huge products. These concern resources, not values.
- `usize` arithmetic. Extents, products and offsets are unbounded naturals, so overflow of `product(shape)` or of the offset fold is not modelled.
- Panics are modelled as error results (`Set` returns `false`; `Eye` returns `Err`), not as aborts. A panicking `eye` has written some diagonal elements before it stops. That partial buffer is never observable, so the model does not return it.
- `Tensors.Tensor.Set`: the fold reads `shape[pos - 1]` and would panic for a coordinate with more than `|shape| + 1` entries. The model requires `|ti| <= |shape| + 1` instead of modelling that panic. The only caller, `eye`, always passes exactly `|shape|` entries.
- The fields of `Tensor` are public in the source and could be reassigned by any caller. The model changes them only through `Fill`, `Set` and `Eye`.
- On an empty shape `eye` panics (`unwrap` of the maximum of no extents). The model follows the code and reports `EmptyShape`, rather than choosing a scalar result or a loop that does nothing.
