/**
  * Row-major conversion between points and indices (src/arr.js:101-133):
  * `Arr.pointToIndex` and `Arr.indexToPoint`. Axis 0 is the outermost axis,
  * the last axis varies fastest.
  */
module Coordinates {

  import opened Arith
  import opened Reductions

  /** `p` is a point of the grid `dims`: one coordinate per axis, each in `[0, dims[a])`. */
  ghost predicate ValidPoint(p: seq<int>, dims: seq<int>)
  {
    |p| == |dims| && forall a :: 0 <= a < |dims| ==> 0 <= p[a] < dims[a]
  }

  /** The row-major index of `p`: the sum of `p[a] * Product(dims[a+1..])`. */
  function Linear(p: seq<int>, dims: seq<int>): int
    requires |p| == |dims|
    decreases |dims|
  {
    if dims == [] then 0 else p[0] * Product(dims[1..]) + Linear(p[1..], dims[1..])
  }

  /**
    * The point of `index`: on each axis, from the first, the quotient by the
    * number of cells below that axis, carrying on with what is left over.
    */
  function Delinear(index: int, dims: seq<int>): (p: seq<int>)
    requires forall a :: 0 <= a < |dims| ==> dims[a] > 0
    ensures |p| == |dims|
    decreases |dims|
  {
    if dims == [] then []
    else
      ProductPositive(dims[1..]);
      var multiplier := Product(dims[1..]);
      var factor := index / multiplier;
      [factor] + Delinear(index - factor * multiplier, dims[1..])
  }

  /**
    * `Arr.pointToIndex`: from the last axis to the first, adds the coordinate
    * times a running multiplier and then multiplies the axis size into it.
    */
  method PointToIndex(point: seq<int>, dimensions: seq<int>) returns (index: int)
    requires |point| == |dimensions|
    ensures index == Linear(point, dimensions)
  {
    var multiplier := 1;
    index := 0;
    var i := |dimensions| - 1;
    while i >= 0
      invariant -1 <= i < |dimensions|
      invariant multiplier == Product(dimensions[i + 1..])
      invariant index == Linear(point[i + 1..], dimensions[i + 1..])
    {
      assert dimensions[i..][1..] == dimensions[i + 1..];
      assert point[i..][1..] == point[i + 1..];
      index := index + multiplier * point[i];
      multiplier := multiplier * dimensions[i];
      i := i - 1;
    }
    assert point[0..] == point && dimensions[0..] == dimensions;
  }

  /**
    * `Arr.indexToPoint`: starts from `prod(dimensions)` and divides one axis
    * size out of the multiplier per axis; the floor of the remaining index by
    * the multiplier is the coordinate, and its multiple is subtracted.
    */
  method IndexToPoint(index: int, dimensions: seq<int>) returns (point: seq<int>)
    requires forall a :: 0 <= a < |dimensions| ==> dimensions[a] > 0
    ensures point == Delinear(index, dimensions)
  {
    var multiplier := Prod(dimensions);
    point := [];
    var rest := index;
    for i := 0 to |dimensions|
      invariant i < |dimensions| ==> multiplier == Product(dimensions[i..])
      invariant point + Delinear(rest, dimensions[i..]) == Delinear(index, dimensions)
    {
      assert dimensions[i..][1..] == dimensions[i + 1..];
      ProductPositive(dimensions[i + 1..]);
      DivModUnique(Product(dimensions[i + 1..]), dimensions[i], 0);
      assert multiplier == dimensions[i] * Product(dimensions[i + 1..]);
      multiplier := multiplier / dimensions[i];
      assert multiplier == Product(dimensions[i + 1..]);
      var factor := rest / multiplier;
      assert Delinear(rest, dimensions[i..]) == [factor] + Delinear(rest - factor * multiplier, dimensions[i + 1..]);
      point := point + [factor];
      rest := rest - factor * multiplier;
    }
    assert dimensions[|dimensions|..] == [];
  }

  // ---------------------------------------------------------------------
  // Properties
  // ---------------------------------------------------------------------

  /** The index of a valid point lies in `[0, Product(dims))`. */
  lemma {:induction false} LinearBounds(p: seq<int>, dims: seq<int>)
    requires ValidPoint(p, dims)
    ensures 0 <= Linear(p, dims) < Product(dims)
    decreases |dims|
  {
    if dims != [] {
      var m := Product(dims[1..]);
      assert ValidPoint(p[1..], dims[1..]) by {
        forall a | 0 <= a < |dims| - 1 ensures 0 <= p[1..][a] < dims[1..][a] {
          assert p[1..][a] == p[a + 1] && dims[1..][a] == dims[a + 1];
        }
      }
      LinearBounds(p[1..], dims[1..]);
      var rest := Linear(p[1..], dims[1..]);
      MulMono(0, p[0], m);
      RowBound(p[0], rest, m);
      MulMono(p[0] + 1, dims[0], m);
    }
  }

  /** Round trip from a point: `indexToPoint(pointToIndex(p)) == p`. */
  lemma {:induction false} PointRoundTrip(p: seq<int>, dims: seq<int>)
    requires ValidPoint(p, dims)
    ensures Delinear(Linear(p, dims), dims) == p
    decreases |dims|
  {
    if dims != [] {
      var m := Product(dims[1..]);
      LinearBounds(p[1..], dims[1..]);
      var rest := Linear(p[1..], dims[1..]);
      DivModUnique(p[0], m, rest);
      PointRoundTrip(p[1..], dims[1..]);
      assert p == [p[0]] + p[1..];
    }
  }

  /** Round trip from an index in range: its point is valid and maps back to it. */
  lemma {:induction false} IndexRoundTrip(index: int, dims: seq<int>)
    requires forall a :: 0 <= a < |dims| ==> dims[a] > 0
    requires 0 <= index < Product(dims)
    ensures ValidPoint(Delinear(index, dims), dims)
    ensures Linear(Delinear(index, dims), dims) == index
    decreases |dims|
  {
    if dims != [] {
      ProductPositive(dims[1..]);
      var m := Product(dims[1..]);
      var factor := index / m;
      var rest := index - factor * m;
      assert index == factor * m + index % m;
      assert rest == index % m;
      if factor >= dims[0] {
        MulMono(dims[0], factor, m);
      }
      if factor < 0 {
        MulMono(factor, -1, m);
      }
      IndexRoundTrip(rest, dims[1..]);
      var p := Delinear(index, dims);
      assert p[1..] == Delinear(rest, dims[1..]);
    }
  }

  /** Distinct valid points have distinct indices. */
  lemma LinearInjective(p: seq<int>, q: seq<int>, dims: seq<int>)
    requires forall a :: 0 <= a < |dims| ==> dims[a] > 0
    requires ValidPoint(p, dims) && ValidPoint(q, dims)
    requires Linear(p, dims) == Linear(q, dims)
    ensures p == q
  {
    PointRoundTrip(p, dims);
    PointRoundTrip(q, dims);
  }

  /** `pointToIndex([3,4],[10,20]) == 64` and `pointToIndex([9,19],[10,20]) == 199`. */
  lemma LinearExamples()
    ensures Linear([3, 4], [10, 20]) == 64
    ensures Linear([9, 19], [10, 20]) == 199
    ensures Delinear(64, [10, 20]) == [3, 4]
  {
  }
}
