# add_one_cpu: stride-aware N-D element-wise increment

This project models `AddOne`, the test-fixture routine of the TVM FFI Julia
bindings. The routine computes `y = x + 1` over two tensor views of the same
shape. Each view has its own strides, so it works on full arrays, slices and
strided sub-views alike. It does four things:

- it keeps a per-dimension counter vector that starts at all zeros;
- it runs the outer loop exactly `numel` times, the product of the sizes;
- in each iteration it computes an offset for each view, as the dot product of the counter with that view's strides, and writes `y[y_offset] = x[x_offset] + 1`;
- it advances the counter by one odometer step in column-major order. Dimension 0 moves fastest; a dimension that reaches its size resets to 0 and carries into the next one.

The project has two modules:

- `TensorIndex` (`tensor_index.dfy`) holds the pure index arithmetic:
  - `Numel`;
  - the column-major numbering `Encode`, with its inverse `Decode`;
  - the odometer step `Next`;
  - the counter after k steps, `Visited`;
  - the stride dot product `Dot`;
  - the dense column-major strides `ColumnMajorStrides`.
- `AddOneCpu` (`add_one_cpu.dfy`) holds the routine itself, as methods over arrays:
  - `Offsets`, the inner offset loop;
  - `Increment`, the carry loop;
  - `Store`, the element write;
  - `Iteration`, one pass of the outer loop;
  - `AddOne`, the outer loop.

  It also holds the specification functions: `StepAt` gives the read and write positions of iteration k, and `AfterSteps` gives the output buffer after the first n iterations. Lemmas say what that buffer holds.

A view is modelled as a `View`: an `array<int>`, the position in it of the data pointer (`base`), the sizes and the strides. The buffer position of the element at a multi-index is `base + Dot(idx, strides)`. Strides may be zero or negative. Elements are integers and the operation is `+ 1`.

The caller's obligations become preconditions of `AddOne`. The routine checks none of them:

- `y` has `x`'s shape. The routine reads sizes from `x` only.
- Each view has one stride per dimension.
- Every multi-index of the shape lands inside both buffers.
- The two buffers are distinct.

## Model

| member | source | states |
|---|---|---|
| TensorIndex.Numel | fixtures/add_one_cpu.cc:50 | the element count `x.numel()`: the product of the sizes, 1 for rank 0 |
| TensorIndex.Next | fixtures/add_one_cpu.cc:68-74 | one pass of the carry loop as a function of the counter: dimension 0 is incremented; an entry that reaches its size becomes 0 and the carry moves to the next dimension; the first entry that stays below its size ends the pass |
| TensorIndex.Visited | fixtures/add_one_cpu.cc:53-74 | the counter vector at the start of outer iteration k: all zeros for k = 0, then one carry pass per iteration |
| TensorIndex.Dot | fixtures/add_one_cpu.cc:60-63 | an offset as the inner loop sums it: indices[i] * strides[i] added over dimensions 0 .. ndim - 1 |
| AddOneCpu.Address | fixtures/add_one_cpu.cc:66 | the buffer position `data + offset` that `x_data[x_offset]` and `y_data[y_offset]` denote: the view's base plus the dot product of the counter with its strides |
| AddOneCpu.AfterSteps | fixtures/add_one_cpu.cc:56-66 | the output buffer after the first n outer iterations: iteration k sets the output position of counter Visited(k) to the input element at the same counter plus one, and later writes overwrite earlier ones |
| TensorIndex.NumelPositive | fixtures/add_one_cpu.cc:50 | the element count is positive exactly when every size is positive, so it is 0 as soon as one size is 0 |
| TensorIndex.Decode | fixtures/add_one_cpu.cc:56-74 | the column-major decoding of any k lies inside the shape |
| TensorIndex.EncodeInRange | fixtures/add_one_cpu.cc:56-74 | the column-major position of an in-bounds counter lies in [0, numel) |
| TensorIndex.EncodeDecode | fixtures/add_one_cpu.cc:56-74 | decoding a position k < numel and re-encoding it gives back k |
| TensorIndex.DecodeEncode | fixtures/add_one_cpu.cc:56-74 | encoding an in-bounds counter and decoding the position gives back the counter |
| TensorIndex.EncodeInjective | fixtures/add_one_cpu.cc:56-74 | two in-bounds counters with the same column-major position are equal |
| TensorIndex.EncodeZeros | fixtures/add_one_cpu.cc:53 | the all-zero starting counter is at column-major position 0 |
| TensorIndex.NextAt | fixtures/add_one_cpu.cc:68-74 | after one carry step, entry j changes only if every lower entry overflowed; it then becomes entry j + 1, or 0 if that reaches the size |
| TensorIndex.NextStops | fixtures/add_one_cpu.cc:69-72 | when entries below i overflow and entry i does not, the step zeroes the entries below i, increments entry i and leaves the entries above i unchanged |
| TensorIndex.NextWraps | fixtures/add_one_cpu.cc:69-74 | when every entry overflows, the step resets the counter to all zeros |
| TensorIndex.NextInBounds | fixtures/add_one_cpu.cc:69-74 | the step keeps the counter inside the shape |
| TensorIndex.EncodeNext | fixtures/add_one_cpu.cc:68-74 | the step advances the column-major position by one, wrapping from numel - 1 back to 0 |
| TensorIndex.VisitedInBounds | fixtures/add_one_cpu.cc:53-74 | at every iteration the counter satisfies 0 <= indices[i] < size(i) in every dimension, when no size is 0 |
| TensorIndex.EncodeVisited | fixtures/add_one_cpu.cc:53-74 | the counter of iteration k < numel is at column-major position k |
| TensorIndex.VisitedIsDecode | fixtures/add_one_cpu.cc:56-74 | the counter of iteration k < numel is the column-major decoding of k |
| TensorIndex.VisitedWraps | fixtures/add_one_cpu.cc:69-74 | after exactly numel iterations the counter is back at all zeros |
| TensorIndex.VisitedExactlyOnce | fixtures/add_one_cpu.cc:56-74 | every in-bounds multi-index is the counter of exactly one of the iterations 0 .. numel - 1 |
| TensorIndex.DotHead | fixtures/add_one_cpu.cc:60-63 | the offset sum can be split at dimension 0 as well as at the last dimension |
| TensorIndex.ColumnMajorOffset | fixtures/add_one_cpu.cc:58-63 | with densely packed column-major strides, the offset of a counter is its column-major position, so the traversal walks such a buffer in memory order |
| AddOneCpu.StepAt | fixtures/add_one_cpu.cc:58-66 | the read and write positions of iteration k both lie inside their buffers |
| AddOneCpu.Offsets | fixtures/add_one_cpu.cc:58-63 | both offsets are the dot product of the counter vector with the view's own strides |
| AddOneCpu.Increment | fixtures/add_one_cpu.cc:68-74 | the carry loop leaves the counter at its odometer successor, so it agrees with the carry-step lemmas above |
| AddOneCpu.Store | fixtures/add_one_cpu.cc:66 | the write sets one output position to the input element plus one and changes nothing else |
| AddOneCpu.Iteration | fixtures/add_one_cpu.cc:57-74 | one outer iteration moves the loop state from after n writes to after n + 1 writes, with the counter at the next multi-index and the input untouched |
| AddOneCpu.AddOne | fixtures/add_one_cpu.cc:40-76 | the output buffer ends as the old one after all numel writes, in column-major order, through both views' strides |
| AddOneCpu.AfterStepsKeeps | fixtures/add_one_cpu.cc:56-66 | a position that none of the first n iterations writes keeps its old value |
| AddOneCpu.AfterStepsLastWrite | fixtures/add_one_cpu.cc:56-66 | the position written by iteration k keeps that write's value unless a later iteration writes it again |
| AddOneCpu.ResultOutsideView | fixtures/add_one_cpu.cc:66 | after AddOne, every output position that no multi-index of the output view reaches keeps its original value |
| AddOneCpu.ResultIsIncrement | fixtures/add_one_cpu.cc:56-74 | after AddOne, when the output view does not overlap itself, the output element at every multi-index is the input element at the same multi-index plus one |
| AddOneCpu.ColumnMajorInjective | fixtures/add_one_cpu.cc:58-63 | a densely packed column-major view never maps two multi-indices to one position |
| AddOneCpu.EmptyWritesNothing | fixtures/add_one_cpu.cc:50-56 | when some size is 0, nothing is written and the output is unchanged |
| AddOneCpu.ScalarWritesOnce | fixtures/add_one_cpu.cc:41-66 | for rank 0 there is exactly one write, at the data pointer of y, of the element at the data pointer of x plus one |

## Left out

- float32 arithmetic and the literal `1.0f` (line 66). Elements are integers and the operation is `+ 1`.
- The TensorView/DLPack container, `data_ptr()` and the pointer casts (lines 42-47). These are framework types. A view is an array, a base position, sizes and strides.
- The export macro `TVM_FFI_DLL_EXPORT_TYPED_FUNC` (line 78). It only registers the routine and has no behaviour of its own.
- Fixed-width integers. The model computes `int64_t` offsets, the counter entries, `numel` and the `int` loop variables as unbounded integers, so overflow of the offset sums or of the element count is not modelled.
- Aliasing between `x` and `y`, and concurrent calls. `AddOne` requires distinct buffers, so writes through an output that shares memory with the input are not modelled.
- Checks the routine does not make: shape agreement between `x` and `y`, dtype checks, null pointers, and offsets inside the buffers. They are stated as preconditions, and no validation error path is added.
- ResultIsIncrement: assumes the output view does not overlap itself. With a zero stride or overlapping strides in `y`, several iterations write the same position and the last one wins. AfterStepsLastWrite and AfterStepsKeeps state that general case.
- AddOne: the counter vector is local to the routine, so its final all-zero state is not part of `AddOne`'s postcondition. VisitedWraps states it about the counter sequence instead.
