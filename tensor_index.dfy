/**
 Index arithmetic of an N-dimensional tensor view: the number of elements of a
 shape, the column-major (first dimension fastest) numbering of the
 multi-indices of a shape, the odometer step that advances a multi-index by
 one position in that order, and the dot product of a multi-index with a view's
 strides that gives the element's offset from the view's data pointer.

 A shape is a sequence of per-dimension sizes; a multi-index (the counter
 vector of the traversal) is a sequence of integers with one entry per
 dimension. A rank-0 shape is the empty sequence: it has one element, and the
 empty multi-index addresses it.
 */
module TensorIndex {

  /** Number of elements of a shape: the product of its sizes (1 for rank 0). */
  function Numel(shape: seq<nat>): nat
  {
    if |shape| == 0 then 1 else shape[0] * Numel(shape[1..])
  }

  /** Every dimension has at least one position. */
  predicate Positive(shape: seq<nat>)
  {
    forall i :: 0 <= i < |shape| ==> shape[i] > 0
  }

  /** The counter vector lies inside the shape: one entry per dimension, each in [0, size). */
  predicate InBounds(idx: seq<int>, shape: seq<nat>)
  {
    |idx| == |shape| && forall i :: 0 <= i < |idx| ==> 0 <= idx[i] < shape[i]
  }

  /** The all-zero counter vector of rank n. */
  function Zeros(n: nat): (z: seq<int>)
    ensures |z| == n
    ensures forall i :: 0 <= i < n ==> z[i] == 0
  {
    seq(n, _ => 0)
  }

  /** The k-th multi-index of the shape in column-major order: dimension 0 is
      the least significant digit of k in the mixed radix given by the sizes. */
  function Decode(k: nat, shape: seq<nat>): (idx: seq<int>)
    requires Positive(shape)
    ensures InBounds(idx, shape)
    decreases |shape|
  {
    if |shape| == 0 then [] else [k % shape[0]] + Decode(k / shape[0], shape[1..])
  }

  /** The column-major position of a multi-index: the inverse of Decode. */
  function Encode(idx: seq<int>, shape: seq<nat>): int
    requires |idx| == |shape|
  {
    if |idx| == 0 then 0 else idx[0] + shape[0] * Encode(idx[1..], shape[1..])
  }

  /** Incrementing entry i of the counter reaches that dimension's size. */
  predicate Overflows(idx: seq<int>, shape: seq<nat>, i: nat)
    requires i < |idx| == |shape|
  {
    idx[i] + 1 >= shape[i]
  }

  /** Every dimension below j overflows, so the carry reaches dimension j. */
  predicate CarriesInto(idx: seq<int>, shape: seq<nat>, j: nat)
    requires j <= |idx| == |shape|
  {
    forall i :: 0 <= i < j ==> Overflows(idx, shape, i)
  }

  /** The odometer step: increment dimension 0; a dimension that reaches its
      size is reset to 0 and carries into the next one; the first dimension
      that does not reach its size ends the step. */
  function Next(idx: seq<int>, shape: seq<nat>): (r: seq<int>)
    requires |idx| == |shape|
    ensures |r| == |idx|
  {
    if |idx| == 0 then []
    else if idx[0] + 1 < shape[0] then [idx[0] + 1] + idx[1..]
    else [0] + Next(idx[1..], shape[1..])
  }

  /** Dot product of a multi-index with a stride vector, summed from
      dimension 0 upwards. */
  function Dot(idx: seq<int>, strides: seq<int>): int
    requires |idx| == |strides|
  {
    if |idx| == 0 then 0
    else Dot(idx[..|idx| - 1], strides[..|idx| - 1]) + idx[|idx| - 1] * strides[|idx| - 1]
  }

  /** The strides of a densely packed column-major buffer of the shape:
      dimension i steps over the product of the sizes below it. */
  function ColumnMajorStrides(shape: seq<nat>): (st: seq<int>)
    ensures |st| == |shape|
  {
    seq(|shape|, i requires 0 <= i < |shape| => Numel(shape[..i]))
  }

  // ---------------------------------------------------------------------
  // Arithmetic helpers

  lemma DivModUnique(k: int, s: int, r: int, q: int)
    requires s > 0 && 0 <= r < s && k == r + s * q
    ensures k % s == r && k / s == q
  {
    var q', r' := k / s, k % s;
    assert k == s * q' + r';
    assert s * (q - q') == r' - r;
    if q > q' {
      MulAtLeast(s, q - q');
    } else if q < q' {
      MulAtLeast(s, q' - q);
    }
  }

  lemma MulAtLeast(s: int, d: int)
    requires s > 0 && d >= 1
    ensures s * d >= s
  {
  }

  lemma MulMono(a: nat, b: int, c: int)
    requires b <= c
    ensures a * b <= a * c
  {
  }

  lemma DigitSplit(k: nat, s: nat, n: nat)
    requires s > 0 && k < s * n
    ensures k == k % s + s * (k / s) && k / s < n
  {
    var q := k / s;
    assert k == s * q + k % s;
    if q >= n {
      MulMono(s, n, q);
    }
  }

  // ---------------------------------------------------------------------
  // Number of elements

  /** A shape has no elements exactly when one of its sizes is 0. */
  lemma {:induction false} NumelPositive(shape: seq<nat>)
    ensures Numel(shape) > 0 <==> Positive(shape)
  {
    if |shape| > 0 {
      NumelPositive(shape[1..]);
      assert Positive(shape) <==> shape[0] > 0 && Positive(shape[1..]) by {
        if Positive(shape) {
          forall i | 0 <= i < |shape[1..]| ensures shape[1..][i] > 0 {
            assert shape[1..][i] == shape[i + 1];
          }
        }
        if shape[0] > 0 && Positive(shape[1..]) {
          forall i | 0 <= i < |shape| ensures shape[i] > 0 {
            if i > 0 { assert shape[i] == shape[1..][i - 1]; }
          }
        }
      }
    }
  }

  // ---------------------------------------------------------------------
  // Column-major numbering

  /** Encoding a counter inside the shape gives a position in [0, Numel). */
  lemma {:induction false} EncodeInRange(idx: seq<int>, shape: seq<nat>)
    requires InBounds(idx, shape)
    ensures 0 <= Encode(idx, shape) < Numel(shape)
  {
    if |idx| > 0 {
      var idx', shape' := idx[1..], shape[1..];
      assert InBounds(idx', shape') by {
        forall i | 0 <= i < |idx'| ensures 0 <= idx'[i] < shape'[i] {
          assert idx'[i] == idx[i + 1] && shape'[i] == shape[i + 1];
        }
      }
      EncodeInRange(idx', shape');
      var e := Encode(idx', shape');
      MulMono(shape[0], e, Numel(shape') - 1);
      assert shape[0] * (Numel(shape') - 1) == shape[0] * Numel(shape') - shape[0];
    }
  }

  /** Decode then Encode is the identity on the positions [0, Numel). */
  lemma {:induction false} EncodeDecode(k: nat, shape: seq<nat>)
    requires Positive(shape) && k < Numel(shape)
    ensures Encode(Decode(k, shape), shape) == k
    decreases |shape|
  {
    if |shape| > 0 {
      var s, shape' := shape[0], shape[1..];
      assert Positive(shape') by {
        forall i | 0 <= i < |shape'| ensures shape'[i] > 0 {
          assert shape'[i] == shape[i + 1];
        }
      }
      var d, q := k % s, k / s;
      DigitSplit(k, s, Numel(shape'));
      EncodeDecode(q, shape');
      var idx := Decode(k, shape);
      assert idx == [d] + Decode(q, shape');
      assert idx[1..] == Decode(q, shape');
      assert Encode(idx, shape) == d + s * Encode(Decode(q, shape'), shape');
    }
  }

  /** Encode then Decode is the identity on the counters inside the shape. */
  lemma {:induction false} DecodeEncode(idx: seq<int>, shape: seq<nat>)
    requires InBounds(idx, shape)
    ensures Positive(shape) && Encode(idx, shape) >= 0
    ensures Decode(Encode(idx, shape), shape) == idx
  {
    if |idx| > 0 {
      var idx', shape' := idx[1..], shape[1..];
      assert InBounds(idx', shape') by {
        forall i | 0 <= i < |idx'| ensures 0 <= idx'[i] < shape'[i] {
          assert idx'[i] == idx[i + 1] && shape'[i] == shape[i + 1];
        }
      }
      DecodeEncode(idx', shape');
      EncodeInRange(idx', shape');
      var e := Encode(idx', shape');
      DivModUnique(Encode(idx, shape), shape[0], idx[0], e);
      assert Positive(shape) by {
        forall i | 0 <= i < |shape| ensures shape[i] > 0 {
          assert 0 <= idx[i] < shape[i];
        }
      }
      assert Decode(Encode(idx, shape), shape) == [idx[0]] + idx';
    }
  }

  /** Encoding is injective on counters inside the shape. */
  lemma EncodeInjective(a: seq<int>, b: seq<int>, shape: seq<nat>)
    requires InBounds(a, shape) && InBounds(b, shape)
    requires Encode(a, shape) == Encode(b, shape)
    ensures a == b
  {
    DecodeEncode(a, shape);
    DecodeEncode(b, shape);
  }

  /** The all-zero counter is at position 0. */
  lemma {:induction false} EncodeZeros(shape: seq<nat>)
    ensures Encode(Zeros(|shape|), shape) == 0
  {
    if |shape| > 0 {
      EncodeZeros(shape[1..]);
      assert Zeros(|shape|)[1..] == Zeros(|shape| - 1);
    }
  }

  // ---------------------------------------------------------------------
  // The odometer step

  /** Entry j after the step: it changes exactly when the carry reaches it,
      becoming its increment, or 0 if that reaches the size; every other
      entry keeps its value. So dimension 0 is always incremented, and
      dimension j + 1 moves only when dimensions 0..j all overflowed and were
      reset to 0. */
  lemma {:induction false} NextAt(idx: seq<int>, shape: seq<nat>, j: nat)
    requires |idx| == |shape| && j < |idx|
    ensures Next(idx, shape)[j] ==
      if CarriesInto(idx, shape, j) then (if idx[j] + 1 < shape[j] then idx[j] + 1 else 0)
      else idx[j]
  {
    if j > 0 {
      var idx', shape' := idx[1..], shape[1..];
      if idx[0] + 1 < shape[0] {
        assert !Overflows(idx, shape, 0);
        assert !CarriesInto(idx, shape, j);
      } else {
        NextAt(idx', shape', j - 1);
        assert Next(idx, shape)[j] == Next(idx', shape')[j - 1];
        assert CarriesInto(idx, shape, j) <==> CarriesInto(idx', shape', j - 1) by {
          if CarriesInto(idx', shape', j - 1) {
            forall i | 0 <= i < j ensures Overflows(idx, shape, i) {
              if i > 0 {
                assert Overflows(idx', shape', i - 1);
              }
            }
          }
          if CarriesInto(idx, shape, j) {
            forall i | 0 <= i < j - 1 ensures Overflows(idx', shape', i) {
              assert Overflows(idx, shape, i + 1);
            }
          }
        }
      }
    }
  }

  /** When the carry reaches dimension i and i does not overflow, the step
      zeroes the dimensions below i, increments i and leaves the rest alone. */
  lemma NextStops(idx: seq<int>, shape: seq<nat>, i: nat)
    requires i < |idx| == |shape|
    requires CarriesInto(idx, shape, i) && !Overflows(idx, shape, i)
    ensures forall j :: 0 <= j < i ==> Next(idx, shape)[j] == 0
    ensures Next(idx, shape)[i] == idx[i] + 1
    ensures forall j :: i < j < |idx| ==> Next(idx, shape)[j] == idx[j]
  {
    forall j | 0 <= j < |idx|
      ensures Next(idx, shape)[j] == if j < i then 0 else if j == i then idx[i] + 1 else idx[j]
    {
      NextAt(idx, shape, j);
      if j < i {
        assert Overflows(idx, shape, j);
      } else if j > i {
        assert !CarriesInto(idx, shape, j) by {
          assert !Overflows(idx, shape, i);
        }
      }
    }
  }

  /** When every dimension overflows, the step wraps the counter to all zeros. */
  lemma NextWraps(idx: seq<int>, shape: seq<nat>)
    requires |idx| == |shape| && CarriesInto(idx, shape, |idx|)
    ensures Next(idx, shape) == Zeros(|idx|)
  {
    var r := Next(idx, shape);
    forall j | 0 <= j < |idx| ensures r[j] == 0 {
      NextAt(idx, shape, j);
      assert Overflows(idx, shape, j);
    }
  }

  /** The step keeps the counter inside the shape. */
  lemma NextInBounds(idx: seq<int>, shape: seq<nat>)
    requires InBounds(idx, shape)
    ensures InBounds(Next(idx, shape), shape)
  {
    var r := Next(idx, shape);
    forall j | 0 <= j < |r| ensures 0 <= r[j] < shape[j] {
      NextAt(idx, shape, j);
    }
  }

  /** The step advances the column-major position of a counter by one,
      and from the last position it returns to position 0. */
  lemma {:induction false} EncodeNext(idx: seq<int>, shape: seq<nat>)
    requires InBounds(idx, shape)
    ensures Encode(Next(idx, shape), shape) ==
      if Encode(idx, shape) + 1 < Numel(shape) then Encode(idx, shape) + 1 else 0
  {
    if |idx| > 0 {
      var s, idx', shape' := shape[0], idx[1..], shape[1..];
      assert InBounds(idx', shape') by {
        forall i | 0 <= i < |idx'| ensures 0 <= idx'[i] < shape'[i] {
          assert idx'[i] == idx[i + 1] && shape'[i] == shape[i + 1];
        }
      }
      EncodeInRange(idx', shape');
      var e, n := Encode(idx', shape'), Numel(shape');
      assert Encode(idx, shape) == idx[0] + s * e;
      if idx[0] + 1 < s {
        var r := [idx[0] + 1] + idx';
        assert Next(idx, shape) == r;
        assert r[1..] == idx';
        assert Encode(r, shape) == idx[0] + 1 + s * e;
        NoCarryBelow(s, idx[0], e, n);
      } else {
        var t := Next(idx', shape');
        var r := [0] + t;
        assert Next(idx, shape) == r;
        assert r[1..] == t;
        assert Encode(r, shape) == s * Encode(t, shape');
        EncodeNext(idx', shape');
        CarryBelow(s, e, n);
      }
    }
  }

  lemma NoCarryBelow(s: int, d: int, e: int, n: int)
    requires 0 <= d && d + 1 < s && 0 <= e < n
    ensures d + 1 + s * e < s * n
  {
    MulMono(s, e, n - 1);
  }

  lemma CarryBelow(s: int, e: int, n: int)
    requires s > 0 && 0 <= e < n
    ensures s - 1 + s * e + 1 == s * (e + 1)
    ensures s * (e + 1) < s * n <==> e + 1 < n
  {
    if e + 1 < n {
      MulMono(s, e + 1, n - 1);
    }
  }

  // ---------------------------------------------------------------------
  // The traversal

  /** The counter after k odometer steps from the all-zero counter: the
      multi-index that iteration k of the traversal visits. */
  function Visited(shape: seq<nat>, k: nat): (idx: seq<int>)
    ensures |idx| == |shape|
  {
    if k == 0 then Zeros(|shape|) else Next(Visited(shape, k - 1), shape)
  }

  /** The counter starts inside the shape and every step keeps it there. */
  lemma {:induction false} VisitedInBounds(shape: seq<nat>, k: nat)
    requires Positive(shape)
    ensures InBounds(Visited(shape, k), shape)
  {
    if k > 0 {
      VisitedInBounds(shape, k - 1);
      NextInBounds(Visited(shape, k - 1), shape);
    }
  }

  /** Within the first Numel iterations, the counter of iteration k is at
      column-major position k. */
  lemma {:induction false} EncodeVisited(shape: seq<nat>, k: nat)
    requires k < Numel(shape)
    ensures Positive(shape) && InBounds(Visited(shape, k), shape)
    ensures Encode(Visited(shape, k), shape) == k
  {
    NumelPositive(shape);
    VisitedInBounds(shape, k);
    if k == 0 {
      EncodeZeros(shape);
    } else {
      EncodeVisited(shape, k - 1);
      EncodeNext(Visited(shape, k - 1), shape);
    }
  }

  /** At iteration k < Numel the counter is the column-major decoding of k. */
  lemma VisitedIsDecode(shape: seq<nat>, k: nat)
    requires k < Numel(shape)
    ensures Positive(shape)
    ensures Visited(shape, k) == Decode(k, shape)
  {
    EncodeVisited(shape, k);
    DecodeEncode(Visited(shape, k), shape);
  }

  /** After exactly Numel iterations the counter is back at all zeros. */
  lemma VisitedWraps(shape: seq<nat>)
    ensures Visited(shape, Numel(shape)) == Zeros(|shape|)
  {
    NumelPositive(shape);
    if Numel(shape) > 0 {
      var m: nat := Numel(shape) - 1;
      var last := Visited(shape, m);
      assert Visited(shape, m + 1) == Next(last, shape);
      EncodeVisited(shape, m);
      EncodeNext(last, shape);
      NextInBounds(last, shape);
      EncodeZeros(shape);
      EncodeInjective(Next(last, shape), Zeros(|shape|), shape);
    }
  }

  /** Iterations 0 .. Numel - 1 visit every multi-index of the shape, each
      exactly once. */
  lemma VisitedExactlyOnce(idx: seq<int>, shape: seq<nat>)
    requires InBounds(idx, shape)
    ensures exists k :: 0 <= k < Numel(shape) && Visited(shape, k) == idx
    ensures forall k1, k2 ::
      (0 <= k1 < Numel(shape) && 0 <= k2 < Numel(shape) &&
       Visited(shape, k1) == idx && Visited(shape, k2) == idx) ==> k1 == k2
  {
    EncodeInRange(idx, shape);
    var k := Encode(idx, shape);
    EncodeVisited(shape, k);
    EncodeInjective(Visited(shape, k), idx, shape);
    forall k1, k2 |
      0 <= k1 < Numel(shape) && 0 <= k2 < Numel(shape) &&
      Visited(shape, k1) == idx && Visited(shape, k2) == idx
      ensures k1 == k2
    {
      EncodeVisited(shape, k1);
      EncodeVisited(shape, k2);
    }
  }

  // ---------------------------------------------------------------------
  // Offsets

  /** The dot product split at dimension 0 instead of at the last dimension. */
  lemma {:induction false} DotHead(idx: seq<int>, strides: seq<int>)
    requires 0 < |idx| == |strides|
    ensures Dot(idx, strides) == idx[0] * strides[0] + Dot(idx[1..], strides[1..])
  {
    var n := |idx|;
    if n > 1 {
      DotHead(idx[..n - 1], strides[..n - 1]);
      assert idx[..n - 1][1..] == idx[1..][..n - 2];
      assert strides[..n - 1][1..] == strides[1..][..n - 2];
    }
  }

  /** The dot product is linear in the strides. */
  lemma {:induction false} DotScale(idx: seq<int>, strides: seq<int>, c: int)
    requires |idx| == |strides|
    ensures Dot(idx, seq(|strides|, i requires 0 <= i < |strides| => c * strides[i])) == c * Dot(idx, strides)
  {
    var n := |idx|;
    var scaled := seq(n, i requires 0 <= i < n => c * strides[i]);
    if n > 0 {
      var prefix := seq(n - 1, i requires 0 <= i < n - 1 => c * strides[..n - 1][i]);
      assert scaled[..n - 1] == prefix;
      DotScale(idx[..n - 1], strides[..n - 1], c);
      calc {
        Dot(idx, scaled);
        Dot(idx[..n - 1], prefix) + idx[n - 1] * (c * strides[n - 1]);
        c * Dot(idx[..n - 1], strides[..n - 1]) + c * (idx[n - 1] * strides[n - 1]);
        c * Dot(idx, strides);
      }
    }
  }

  /** With the strides of a densely packed column-major buffer, the offset of
      a counter is its column-major position: the traversal then walks the
      buffer in memory order. */
  lemma {:induction false} ColumnMajorOffset(idx: seq<int>, shape: seq<nat>)
    requires |idx| == |shape|
    ensures Dot(idx, ColumnMajorStrides(shape)) == Encode(idx, shape)
  {
    if |idx| > 0 {
      var st, shape' := ColumnMajorStrides(shape), shape[1..];
      var st' := ColumnMajorStrides(shape');
      assert st[0] == 1 by { assert shape[..0] == []; }
      assert st[1..] == seq(|st'|, i requires 0 <= i < |st'| => shape[0] * st'[i]) by {
        forall i | 0 <= i < |st'| ensures st[1..][i] == shape[0] * st'[i] {
          assert shape[..i + 1][1..] == shape'[..i];
        }
      }
      DotHead(idx, st);
      DotScale(idx[1..], st', shape[0]);
      ColumnMajorOffset(idx[1..], shape');
    }
  }
}
