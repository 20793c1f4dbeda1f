/**
 The stride-aware element-wise increment `add_one_cpu`: for every multi-index
 of the input's shape, in column-major order, read the input element at the
 offset given by the input's strides, add one, and store it in the output at
 the offset given by the output's strides.

 A view is a buffer, the position in it of the view's data pointer, and
 per-dimension sizes and strides in elements. Offsets are relative to the data
 pointer and may be negative; the buffer position of an element is the base
 plus its offset. Elements are integers and the operation is "+ 1".
 */
module AddOneCpu {
  import opened TensorIndex

  /** A non-owning tensor view over a buffer. */
  datatype View = View(data: array<int>, base: int, shape: seq<nat>, strides: seq<int>)

  /** Buffer position of the element at a multi-index. */
  function Address(v: View, idx: seq<int>): int
    requires |idx| == |v.strides|
  {
    v.base + Dot(idx, v.strides)
  }

  /** One stride per dimension, and every multi-index of the shape lands inside the buffer. */
  ghost predicate WellFormed(v: View)
  {
    && |v.strides| == |v.shape|
    && forall idx :: InBounds(idx, v.shape) ==> 0 <= Address(v, idx) < v.data.Length
  }

  /** What the caller of AddOne guarantees about the two views, except that
      their buffers are distinct: both well formed, and the output has the
      input's shape. */
  ghost predicate Compatible(x: View, y: View)
  {
    WellFormed(x) && WellFormed(y) && y.shape == x.shape
  }

  /** One step of the traversal: y[dst] := x[src] + 1, in buffer positions. */
  datatype Write = Write(src: int, dst: int)

  /** Step k of AddOne reads and writes at the addresses of the k-th
      multi-index in column-major order; both lie inside their buffers. */
  function StepAt(x: View, y: View, k: nat): (w: Write)
    requires Compatible(x, y) && k < Numel(x.shape)
    ensures 0 <= w.src < x.data.Length && 0 <= w.dst < y.data.Length
  {
    NumelPositive(x.shape);
    VisitedInBounds(x.shape, k);
    var idx := Visited(x.shape, k);
    Write(Address(x, idx), Address(y, idx))
  }

  /** The output buffer after the first n steps of AddOne, starting from ys
      and reading from xs. */
  function AfterSteps(x: View, y: View, xs: seq<int>, ys: seq<int>, n: nat): (r: seq<int>)
    requires Compatible(x, y) && n <= Numel(x.shape)
    requires |xs| == x.data.Length && |ys| == y.data.Length
    ensures |r| == |ys|
  {
    if n == 0 then ys
    else
      var w := StepAt(x, y, n - 1);
      AfterSteps(x, y, xs, ys, n - 1)[w.dst := xs[w.src] + 1]
  }

  // ---------------------------------------------------------------------
  // The routine

  /** The inner offset loop: both offsets are the dot product of the counter
      vector with the view's own strides. */
  method Offsets(indices: array<int>, xStrides: seq<int>, yStrides: seq<int>)
    returns (xOffset: int, yOffset: int)
    requires indices.Length == |xStrides| && indices.Length == |yStrides|
    ensures xOffset == Dot(indices[..], xStrides)
    ensures yOffset == Dot(indices[..], yStrides)
  {
    xOffset, yOffset := 0, 0;
    for i := 0 to indices.Length
      invariant xOffset == Dot(indices[..i], xStrides[..i])
      invariant yOffset == Dot(indices[..i], yStrides[..i])
    {
      assert indices[..i + 1][..i] == indices[..i];
      assert xStrides[..i + 1][..i] == xStrides[..i];
      assert yStrides[..i + 1][..i] == yStrides[..i];
      xOffset := xOffset + indices[i] * xStrides[i];
      yOffset := yOffset + indices[i] * yStrides[i];
    }
    assert indices[..] == indices[..indices.Length];
    assert xStrides == xStrides[..indices.Length] && yStrides == yStrides[..indices.Length];
  }

  /** The carry loop: advance the counter vector by one odometer step. */
  method Increment(indices: array<int>, shape: seq<nat>)
    requires indices.Length == |shape|
    modifies indices
    ensures indices[..] == Next(old(indices[..]), shape)
  {
    ghost var start := indices[..];
    var i := 0;
    while i < indices.Length
      invariant 0 <= i <= indices.Length
      invariant CarriesInto(start, shape, i)
      invariant forall j :: 0 <= j < i ==> indices[j] == 0
      invariant forall j :: i <= j < indices.Length ==> indices[j] == start[j]
    {
      indices[i] := indices[i] + 1;
      if indices[i] < shape[i] {
        NextStops(start, shape, i);
        assert indices[..] == Next(start, shape);
        break;
      }
      indices[i] := 0;
      i := i + 1;
    }
    if i == indices.Length {
      NextWraps(start, shape);
      assert indices[..] == Zeros(i);
    }
  }

  /** The element write: one read from the input buffer and one store into the output buffer. */
  method Store(src: array<int>, from: int, dst: array<int>, to: int)
    requires 0 <= from < src.Length && 0 <= to < dst.Length && src != dst
    modifies dst
    ensures dst[..] == old(dst[..])[to := src[from] + 1]
  {
    dst[to] := src[from] + 1;
  }

  /** The state of AddOne's main loop after `linear` iterations: the counter
      vector holds the `linear`-th multi-index, the input buffer is untouched
      and the output buffer has received the first `linear` writes. */
  ghost predicate Progress(x: View, y: View, indices: array<int>, linear: nat, xs: seq<int>, ys: seq<int>)
    reads indices, x.data, y.data
  {
    && Compatible(x, y)
    && linear <= Numel(x.shape)
    && indices.Length == |x.shape|
    && indices[..] == Visited(x.shape, linear)
    && x.data[..] == xs
    && |ys| == y.data.Length
    && y.data[..] == AfterSteps(x, y, xs, ys, linear)
  }

  /** One iteration of AddOne's main loop: the offsets of the current counter
      vector, y[yOffset] := x[xOffset] + 1, then the carry loop. */
  method Iteration(x: View, y: View, indices: array<int>, linear: nat, ghost xs: seq<int>, ghost ys: seq<int>)
    requires x.data != y.data && indices != x.data && indices != y.data
    requires Progress(x, y, indices, linear, xs, ys) && linear < Numel(x.shape)
    modifies indices, y.data
    ensures Progress(x, y, indices, linear + 1, xs, ys)
  {
    var xOffset, yOffset := Offsets(indices, x.strides, y.strides);
    ghost var step := StepAt(x, y, linear);
    assert step == Write(x.base + xOffset, y.base + yOffset);
    Store(x.data, x.base + xOffset, y.data, y.base + yOffset);
    AfterStepsNext(x, y, xs, ys, linear);
    ghost var after := y.data[..];
    Increment(indices, x.shape);
    assert y.data[..] == after;
  }

  /** y := x + 1 over every element of x's shape, through both views' strides:
      the output buffer is the old one after all Numel(x.shape) steps, in order. */
  method AddOne(x: View, y: View)
    requires Compatible(x, y)
    requires x.data != y.data
    modifies y.data
    ensures y.data[..] == AfterSteps(x, y, x.data[..], old(y.data[..]), Numel(x.shape))
  {
    var total := Numel(x.shape);
    var indices := new int[|x.shape|](_ => 0);
    ghost var xs, ys := x.data[..], y.data[..];
    assert indices[..] == Zeros(|x.shape|);
    var linear := 0;
    while linear < total
      invariant linear <= total
      invariant Progress(x, y, indices, linear, xs, ys)
    {
      Iteration(x, y, indices, linear, xs, ys);
      linear := linear + 1;
    }
  }

  /** One more step updates one position of the output buffer. */
  lemma AfterStepsNext(x: View, y: View, xs: seq<int>, ys: seq<int>, n: nat)
    requires Compatible(x, y) && n < Numel(x.shape)
    requires |xs| == x.data.Length && |ys| == y.data.Length
    ensures AfterSteps(x, y, xs, ys, n + 1) ==
      AfterSteps(x, y, xs, ys, n)[StepAt(x, y, n).dst := xs[StepAt(x, y, n).src] + 1]
  {
  }

  // ---------------------------------------------------------------------
  // What the writes leave in the output buffer

  /** No two multi-indices of the view share a buffer position. */
  ghost predicate Injective(v: View)
    requires |v.strides| == |v.shape|
  {
    forall a, b :: InBounds(a, v.shape) && InBounds(b, v.shape) && Address(v, a) == Address(v, b) ==> a == b
  }

  /** A position no step writes keeps its old value. */
  lemma {:induction false} AfterStepsKeeps(x: View, y: View, xs: seq<int>, ys: seq<int>, n: nat, p: int)
    requires Compatible(x, y) && n <= Numel(x.shape)
    requires |xs| == x.data.Length && |ys| == y.data.Length && 0 <= p < |ys|
    requires forall k :: 0 <= k < n ==> StepAt(x, y, k).dst != p
    ensures AfterSteps(x, y, xs, ys, n)[p] == ys[p]
  {
    if n > 0 {
      AfterStepsKeeps(x, y, xs, ys, n - 1, p);
    }
  }

  /** The position written by step k holds that step's value as long as no
      later step writes it again. */
  lemma {:induction false} AfterStepsLastWrite(x: View, y: View, xs: seq<int>, ys: seq<int>, n: nat, k: nat)
    requires Compatible(x, y) && k < n <= Numel(x.shape)
    requires |xs| == x.data.Length && |ys| == y.data.Length
    requires forall j :: k < j < n ==> StepAt(x, y, j).dst != StepAt(x, y, k).dst
    ensures AfterSteps(x, y, xs, ys, n)[StepAt(x, y, k).dst] == xs[StepAt(x, y, k).src] + 1
  {
    if k < n - 1 {
      AfterStepsLastWrite(x, y, xs, ys, n - 1, k);
    }
  }

  /** After AddOne, an output position outside the view is unchanged. */
  lemma ResultOutsideView(x: View, y: View, xs: seq<int>, ys: seq<int>, p: int)
    requires Compatible(x, y)
    requires |xs| == x.data.Length && |ys| == y.data.Length && 0 <= p < |ys|
    requires forall idx :: InBounds(idx, y.shape) ==> Address(y, idx) != p
    ensures AfterSteps(x, y, xs, ys, Numel(x.shape))[p] == ys[p]
  {
    forall k | 0 <= k < Numel(x.shape) ensures StepAt(x, y, k).dst != p {
      EncodeVisited(x.shape, k);
    }
    AfterStepsKeeps(x, y, xs, ys, Numel(x.shape), p);
  }

  /** After AddOne, when the output view does not overlap itself, every
      element of the output is the matching input element plus one. */
  lemma ResultIsIncrement(x: View, y: View, xs: seq<int>, ys: seq<int>, idx: seq<int>)
    requires Compatible(x, y) && Injective(y)
    requires |xs| == x.data.Length && |ys| == y.data.Length
    requires InBounds(idx, x.shape)
    ensures AfterSteps(x, y, xs, ys, Numel(x.shape))[Address(y, idx)] == xs[Address(x, idx)] + 1
  {
    var n := Numel(x.shape);
    VisitedExactlyOnce(idx, x.shape);
    var k :| 0 <= k < n && Visited(x.shape, k) == idx;
    forall j | k < j < n ensures StepAt(x, y, j).dst != StepAt(x, y, k).dst {
      EncodeVisited(x.shape, j);
    }
    AfterStepsLastWrite(x, y, xs, ys, n, k);
  }

  /** A densely packed column-major view never overlaps itself. */
  lemma ColumnMajorInjective(v: View)
    requires |v.strides| == |v.shape| && v.strides == ColumnMajorStrides(v.shape)
    ensures Injective(v)
  {
    forall a, b | InBounds(a, v.shape) && InBounds(b, v.shape) && Address(v, a) == Address(v, b)
      ensures a == b
    {
      ColumnMajorOffset(a, v.shape);
      ColumnMajorOffset(b, v.shape);
      EncodeInjective(a, b, v.shape);
    }
  }

  /** A shape with a zero-sized dimension has no elements: AddOne writes nothing. */
  lemma EmptyWritesNothing(x: View, y: View, xs: seq<int>, ys: seq<int>)
    requires Compatible(x, y) && !Positive(x.shape)
    requires |xs| == x.data.Length && |ys| == y.data.Length
    ensures AfterSteps(x, y, xs, ys, Numel(x.shape)) == ys
  {
    NumelPositive(x.shape);
  }

  /** A rank-0 tensor has one element, at the data pointer itself. */
  lemma ScalarWritesOnce(x: View, y: View, xs: seq<int>, ys: seq<int>)
    requires Compatible(x, y) && |x.shape| == 0
    requires |xs| == x.data.Length && |ys| == y.data.Length
    ensures 0 <= x.base < |xs| && 0 <= y.base < |ys|
    ensures AfterSteps(x, y, xs, ys, Numel(x.shape)) == ys[y.base := xs[x.base] + 1]
  {
    assert InBounds([], x.shape);
    assert Address(x, []) == x.base && Address(y, []) == y.base;
    assert Visited(x.shape, 0) == [];
  }
}
