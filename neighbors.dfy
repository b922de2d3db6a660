/**
  * Neighbour enumeration (src/arr.js:225-267): `Arr.neighbors`, with its
  * local `mod` and `expand`, and the order-preserving `_.uniq` it ends with.
  *
  * The candidates are built axis by axis, from the last axis to the first:
  * each partial point is extended at the front by every retained coordinate
  * of the axis. The first axis is expanded last, so in the result the first
  * axis varies fastest and the last axis slowest.
  */
module Neighborhood {

  import opened Arith
  import opened Reductions
  import opened Coordinates

  // ---------------------------------------------------------------------
  // One axis
  // ---------------------------------------------------------------------

  /**
    * The local `mod(m, n)`: `((m % n) + n) % n` with JavaScript's remainder.
    * For a positive modulus it lands in `[0, n)`.
    */
  function Mod(m: int, n: int): (r: int)
    requires n != 0
    ensures n > 0 ==> 0 <= r < n
  {
    JsRem(JsRem(m, n) + n, n)
  }

  /** For a positive modulus, `mod` is the true (Euclidean) modulo, never negative. */
  lemma ModIsEuclidean(m: int, n: int)
    requires n > 0
    ensures Mod(m, n) == m % n
    ensures 0 <= Mod(m, n) < n
  {
    if m >= 0 {
      ModOfNonNegative(m, n);
    } else {
      ModOfNegative(m, n);
    }
  }

  lemma ModOfNonNegative(m: int, n: int)
    requires n > 0 && m >= 0
    ensures Mod(m, n) == m % n
  {
    var r := m % n;
    assert JsRem(m, n) == r;
    DivModUnique(1, n, r);
    assert JsRem(r + n, n) == (r + n) % n;
  }

  lemma ModOfNegative(m: int, n: int)
    requires n > 0 && m < 0
    ensures Mod(m, n) == m % n
  {
    var s := (-m) % n;
    assert JsRem(m, n) == -s;
    assert JsRem(n - s, n) == (n - s) % n;
    NegatedRemainder(m, n);
    if s == 0 {
      DivModUnique(1, n, 0);
    } else {
      ModSmall(n - s, n);
    }
  }

  /** The Euclidean remainder of `m` from that of `-m`. */
  lemma NegatedRemainder(m: int, n: int)
    requires n > 0
    ensures m % n == if (-m) % n == 0 then 0 else n - (-m) % n
  {
    var s := (-m) % n;
    var q := (-m) / n;
    assert -m == q * n + s;
    if s == 0 {
      assert m == (-q) * n + 0;
      DivModUnique(-q, n, 0);
    } else {
      assert m == (-q - 1) * n + (n - s);
      DivModUnique(-q - 1, n, n - s);
    }
  }

  /** `Math.ceil(x / 2)` for an integer `x`. */
  function CeilHalf(x: int): (r: int)
    ensures x <= 2 * r <= x + 1
  {
    if x % 2 == 0 then x / 2 else x / 2 + 1
  }

  /**
    * `Math.min(radius, maxRadius)`, where `maxRadius` is half the axis
    * (rounded up) when wrapping and the whole axis otherwise.
    */
  function EffectiveRadius(radius: int, dimensionLength: int, wrap: bool): (e: int)
    ensures var maxRadius := if wrap then CeilHalf(dimensionLength - 1) else dimensionLength - 1;
      e <= radius && e <= maxRadius && (e == radius || e == maxRadius)
  {
    var maxRadius := if wrap then CeilHalf(dimensionLength - 1) else dimensionLength - 1;
    if radius < maxRadius then radius else maxRadius
  }

  /** What offset `j` contributes: itself inside the axis, its `mod` when wrapping, else nothing. */
  function Retained(j: int, dimensionLength: int, wrap: bool): seq<int>
    requires dimensionLength > 0
  {
    if 0 <= j < dimensionLength then [j]
    else if wrap then [Mod(j, dimensionLength)]
    else []
  }

  /** The retained coordinates for `j` from `lo` to `hi` inclusive, in that order. */
  function Window(lo: int, hi: int, dimensionLength: int, wrap: bool): seq<int>
    requires dimensionLength > 0
    decreases hi - lo + 1
  {
    if hi < lo then [] else Window(lo, hi - 1, dimensionLength, wrap) + Retained(hi, dimensionLength, wrap)
  }

  /** The coordinates `expand` produces on one axis around `pos`. */
  function AxisCoords(pos: int, dimensionLength: int, radius: int, wrap: bool): seq<int>
    requires dimensionLength > 0
  {
    var e := EffectiveRadius(radius, dimensionLength, wrap);
    Window(pos - e, pos + e, dimensionLength, wrap)
  }

  /** Each coordinate of `cs` put in front of `neighbor`, in the order of `cs`. */
  function Prefixed(cs: seq<int>, neighbor: seq<int>): (r: seq<seq<int>>)
    ensures |r| == |cs|
    ensures forall t :: 0 <= t < |r| ==> r[t] == [cs[t]] + neighbor
  {
    seq(|cs|, t requires 0 <= t < |cs| => [cs[t]] + neighbor)
  }

  lemma PrefixedAppend(a: seq<int>, b: seq<int>, neighbor: seq<int>)
    ensures Prefixed(a + b, neighbor) == Prefixed(a, neighbor) + Prefixed(b, neighbor)
  {
  }

  /** One more offset `j` adds, after the window before it, the partial point it retains, if any. */
  lemma WindowStep(lo: int, j: int, dimensionLength: int, wrap: bool, neighbor: seq<int>)
    requires dimensionLength > 0 && lo <= j
    ensures Prefixed(Window(lo, j, dimensionLength, wrap), neighbor) ==
      Prefixed(Window(lo, j - 1, dimensionLength, wrap), neighbor) +
      if 0 <= j < dimensionLength then [[j] + neighbor]
      else if wrap then [[Mod(j, dimensionLength)] + neighbor]
      else []
  {
    var done := Window(lo, j - 1, dimensionLength, wrap);
    var kept := Retained(j, dimensionLength, wrap);
    PrefixedAppend(done, kept, neighbor);
    if kept == [] {
      assert done + kept == done;
    } else {
      assert Prefixed(kept, neighbor) == [[kept[0]] + neighbor];
    }
  }

  /**
    * The function `expand(pos, dimensionLength)` returns, applied to one
    * partial point `neighbor`: a copy of `neighbor` with each retained
    * coordinate of the window `pos - effectiveRadius .. pos + effectiveRadius`
    * put in front.
    */
  method Expand(pos: int, dimensionLength: int, radius: int, wrap: bool, neighbor: seq<int>)
    returns (expansions: seq<seq<int>>)
    requires dimensionLength > 0
    ensures expansions == Prefixed(AxisCoords(pos, dimensionLength, radius, wrap), neighbor)
  {
    expansions := [];
    var maxRadius := if wrap then CeilHalf(dimensionLength - 1) else dimensionLength - 1;
    var effectiveRadius := if radius < maxRadius then radius else maxRadius;
    ghost var lo, hi := pos - effectiveRadius, pos + effectiveRadius;
    assert AxisCoords(pos, dimensionLength, radius, wrap) == Window(lo, hi, dimensionLength, wrap);
    var j := pos - effectiveRadius;
    while j <= pos + effectiveRadius
      invariant lo <= j && (j <= hi + 1 || j == lo)
      invariant expansions == Prefixed(Window(lo, j - 1, dimensionLength, wrap), neighbor)
      decreases hi - j
    {
      WindowStep(lo, j, dimensionLength, wrap, neighbor);
      var k := j;
      if j < 0 || j >= dimensionLength {
        if wrap {
          k := Mod(j, dimensionLength);
        } else {
          j := j + 1;
          continue;
        }
      }
      expansions := expansions + [[k] + neighbor];
      j := j + 1;
    }
    assert j - 1 == hi || hi < lo;
  }

  // ---------------------------------------------------------------------
  // All axes
  // ---------------------------------------------------------------------

  /** `_.flatten(_.map(ns, expand), true)`: every partial point expanded, in order. */
  function ExpandEach(ns: seq<seq<int>>, cs: seq<int>): seq<seq<int>>
  {
    if ns == [] then [] else ExpandEach(ns[..|ns| - 1], cs) + Prefixed(cs, ns[|ns| - 1])
  }

  /**
    * The candidate points for the axes of `dims` (with centre `p`): the
    * axes after the first are expanded first, then the first axis.
    */
  function Box(p: seq<int>, dims: seq<int>, radius: int, wrap: bool): (b: seq<seq<int>>)
    requires |p| == |dims|
    requires forall a :: 0 <= a < |dims| ==> dims[a] > 0
    ensures forall k :: 0 <= k < |b| ==> |b[k]| == |dims|
    decreases |dims|
  {
    if dims == [] then [[]]
    else
      var inner := Box(p[1..], dims[1..], radius, wrap);
      var b := ExpandEach(inner, AxisCoords(p[0], dims[0], radius, wrap));
      assert forall x :: x in b ==> |x| == |dims| by {
        forall x | x in b ensures |x| == |dims| {
          ExpandEachMembers(inner, AxisCoords(p[0], dims[0], radius, wrap), x);
        }
      }
      b
  }

  /** The index of every candidate point (the `_.map` with `pointToIndex`). */
  function Indices(cs: seq<seq<int>>, dims: seq<int>): (r: seq<int>)
    requires forall k :: 0 <= k < |cs| ==> |cs[k]| == |dims|
    ensures |r| == |cs|
    ensures forall k :: 0 <= k < |r| ==> r[k] == Linear(cs[k], dims)
  {
    seq(|cs|, k requires 0 <= k < |cs| => Linear(cs[k], dims))
  }

  /** No value occurs twice. */
  ghost predicate Distinct(s: seq<int>)
  {
    forall i, j :: 0 <= i < j < |s| ==> s[i] != s[j]
  }

  /** `_.uniq`: the first occurrence of every value, in order. */
  function Uniq(s: seq<int>): (u: seq<int>)
    ensures forall x :: x in u <==> x in s
    ensures Distinct(u)
    decreases |s|
  {
    if s == [] then []
    else
      var init := s[..|s| - 1];
      assert s == init + [s[|s| - 1]];
      if s[|s| - 1] in init then Uniq(init) else Uniq(init) + [s[|s| - 1]]
  }

  /** `_.uniq` leaves a sequence without repeats as it is. */
  lemma {:induction false} UniqOfDistinct(s: seq<int>)
    requires Distinct(s)
    ensures Uniq(s) == s
    decreases |s|
  {
    if s != [] {
      var init := s[..|s| - 1];
      assert s == init + [s[|s| - 1]];
      assert s[|s| - 1] !in init;
      UniqOfDistinct(init);
    }
  }

  /** `_.uniq` keeps only the first occurrence: a value seen before is dropped. */
  lemma UniqDropsRepeat(s: seq<int>, x: int)
    requires x in s
    ensures Uniq(s + [x]) == Uniq(s)
  {
  }

  /** What `Arr.neighbors(index, radius, dims, wrap)` returns. */
  function NeighborsOf(index: int, radius: int, dims: seq<int>, wrap: bool): seq<int>
    requires forall a :: 0 <= a < |dims| ==> dims[a] > 0
  {
    var p := Delinear(index, dims);
    Uniq(Indices(Box(p, dims, radius, wrap), dims))
  }

  /**
    * `Arr.neighbors`: converts the index to a point, expands the candidate
    * points axis by axis from the last, maps them to indices and drops
    * repeated indices.
    */
  method Neighbors(index: int, radius: int, dimensions: seq<int>, wrap: bool) returns (result: seq<int>)
    requires forall a :: 0 <= a < |dimensions| ==> dimensions[a] > 0
    ensures result == NeighborsOf(index, radius, dimensions, wrap)
  {
    var point := IndexToPoint(index, dimensions);
    var neighbors: seq<seq<int>> := [[]];
    var i := |dimensions| - 1;
    while i >= 0
      invariant -1 <= i < |dimensions|
      invariant neighbors == Box(point[i + 1..], dimensions[i + 1..], radius, wrap)
    {
      BoxStep(point, dimensions, radius, wrap, i);
      neighbors := ExpandAll(point[i], dimensions[i], radius, wrap, neighbors);
      i := i - 1;
    }
    assert point[0..] == point && dimensions[0..] == dimensions;
    var indices := PointsToIndices(neighbors, dimensions);
    result := Uniq(indices);
  }

  /** The candidates for the axes from `i` are those from `i + 1` expanded along axis `i`. */
  lemma BoxStep(p: seq<int>, dims: seq<int>, radius: int, wrap: bool, i: int)
    requires |p| == |dims| && 0 <= i < |dims|
    requires forall a :: 0 <= a < |dims| ==> dims[a] > 0
    ensures Box(p[i..], dims[i..], radius, wrap) ==
      ExpandEach(Box(p[i + 1..], dims[i + 1..], radius, wrap), AxisCoords(p[i], dims[i], radius, wrap))
  {
    assert p[i..][1..] == p[i + 1..] && dims[i..][1..] == dims[i + 1..];
  }

  /** `_.flatten(_.map(neighbors, expand(pos, dimensionLength)), true)` on one axis. */
  method ExpandAll(pos: int, dimensionLength: int, radius: int, wrap: bool, neighbors: seq<seq<int>>)
    returns (expanded: seq<seq<int>>)
    requires dimensionLength > 0
    ensures expanded == ExpandEach(neighbors, AxisCoords(pos, dimensionLength, radius, wrap))
  {
    ghost var coords := AxisCoords(pos, dimensionLength, radius, wrap);
    expanded := [];
    for k := 0 to |neighbors|
      invariant expanded == ExpandEach(neighbors[..k], coords)
    {
      var expansions := Expand(pos, dimensionLength, radius, wrap, neighbors[k]);
      assert neighbors[..k + 1][..k] == neighbors[..k];
      expanded := expanded + expansions;
    }
    assert neighbors[..|neighbors|] == neighbors;
  }

  /** The `_.map` of the candidate points with `pointToIndex`. */
  method PointsToIndices(points: seq<seq<int>>, dimensions: seq<int>) returns (indices: seq<int>)
    requires forall k :: 0 <= k < |points| ==> |points[k]| == |dimensions|
    ensures indices == Indices(points, dimensions)
  {
    indices := [];
    for k := 0 to |points|
      invariant indices == Indices(points[..k], dimensions)
    {
      var idx := PointToIndex(points[k], dimensions);
      indices := indices + [idx];
    }
    assert points[..|points|] == points;
  }

  // ---------------------------------------------------------------------
  // Membership, axis by axis
  // ---------------------------------------------------------------------

  /** Offset `j` yields coordinate `k` on an axis of length `n`. */
  predicate Hits(j: int, k: int, n: int, wrap: bool)
    requires n > 0
  {
    0 <= k < n && if wrap then j % n == k else j == k
  }

  lemma RetainedMembers(j: int, n: int, wrap: bool, k: int)
    requires n > 0
    ensures k in Retained(j, n, wrap) <==> Hits(j, k, n, wrap)
  {
    ModIsEuclidean(j, n);
    if 0 <= j < n {
      ModSmall(j, n);
    }
  }

  lemma {:induction false} WindowMembers(lo: int, hi: int, n: int, wrap: bool, k: int)
    requires n > 0
    ensures k in Window(lo, hi, n, wrap) <==> exists j :: lo <= j <= hi && Hits(j, k, n, wrap)
    decreases hi - lo + 1
  {
    if hi >= lo {
      WindowMembers(lo, hi - 1, n, wrap, k);
      RetainedMembers(hi, n, wrap, k);
      if exists j :: lo <= j <= hi && Hits(j, k, n, wrap) {
        var j :| lo <= j <= hi && Hits(j, k, n, wrap);
        if j < hi {
          assert lo <= j <= hi - 1 && Hits(j, k, n, wrap);
        }
      }
    }
  }

  /** Every coordinate of an axis lies on the axis. */
  lemma AxisCoordsInRange(pos: int, n: int, radius: int, wrap: bool, k: int)
    requires n > 0 && k in AxisCoords(pos, n, radius, wrap)
    ensures 0 <= k < n
  {
    var e := EffectiveRadius(radius, n, wrap);
    WindowMembers(pos - e, pos + e, n, wrap, k);
  }

  lemma {:induction false} ExpandEachMembers(ns: seq<seq<int>>, cs: seq<int>, x: seq<int>)
    ensures x in ExpandEach(ns, cs) <==> |x| >= 1 && x[0] in cs && x[1..] in ns
    decreases |ns|
  {
    if ns != [] {
      var init, last := ns[..|ns| - 1], ns[|ns| - 1];
      ExpandEachMembers(init, cs, x);
      assert ns == init + [last];
      if x in Prefixed(cs, last) {
        var t :| 0 <= t < |cs| && Prefixed(cs, last)[t] == x;
        assert x[0] == cs[t] && x[1..] == last;
      }
      if |x| >= 1 && x[0] in cs && x[1..] == last {
        var t :| 0 <= t < |cs| && cs[t] == x[0];
        assert Prefixed(cs, last)[t] == [x[0]] + x[1..] == x;
      }
    }
  }

  /** A candidate is any point whose every coordinate is one its axis produces. */
  lemma {:induction false} BoxMembers(p: seq<int>, dims: seq<int>, radius: int, wrap: bool, c: seq<int>)
    requires |p| == |dims|
    requires forall a :: 0 <= a < |dims| ==> dims[a] > 0
    ensures c in Box(p, dims, radius, wrap) <==>
      |c| == |dims| && forall a :: 0 <= a < |dims| ==> c[a] in AxisCoords(p[a], dims[a], radius, wrap)
    decreases |dims|
  {
    if dims == [] {
      assert c in [[]] <==> c == [];
    } else {
      var inner := Box(p[1..], dims[1..], radius, wrap);
      ExpandEachMembers(inner, AxisCoords(p[0], dims[0], radius, wrap), c);
      if |c| >= 1 {
        BoxMembers(p[1..], dims[1..], radius, wrap, c[1..]);
        if |c| == |dims| && c[0] in AxisCoords(p[0], dims[0], radius, wrap) {
          assert (forall a :: 0 <= a < |dims| - 1 ==> c[1..][a] in AxisCoords(p[1..][a], dims[1..][a], radius, wrap))
             <==> (forall a :: 1 <= a < |dims| ==> c[a] in AxisCoords(p[a], dims[a], radius, wrap)) by {
            forall a | 0 <= a < |dims| - 1
              ensures c[1..][a] == c[a + 1] && p[1..][a] == p[a + 1] && dims[1..][a] == dims[a + 1]
            {
            }
          }
        }
      }
    }
  }

  /** On every axis, the coordinate of `q` is one the axis produces around `p`. */
  ghost predicate InWindows(p: seq<int>, q: seq<int>, dims: seq<int>, radius: int, wrap: bool)
    requires |p| == |q| == |dims| && forall a :: 0 <= a < |dims| ==> dims[a] > 0
  {
    forall a :: 0 <= a < |dims| ==> q[a] in AxisCoords(p[a], dims[a], radius, wrap)
  }

  /**
    * The result of `neighbors` is exactly the set of indices in range whose
    * point has, on every axis, a coordinate that axis produces around the centre.
    */
  lemma NeighborsMembers(index: int, radius: int, dims: seq<int>, wrap: bool, r: int)
    requires forall a :: 0 <= a < |dims| ==> dims[a] > 0
    ensures r in NeighborsOf(index, radius, dims, wrap) <==>
      0 <= r < Product(dims) && InWindows(Delinear(index, dims), Delinear(r, dims), dims, radius, wrap)
  {
    var p := Delinear(index, dims);
    var box := Box(p, dims, radius, wrap);
    var ids := Indices(box, dims);
    if r in NeighborsOf(index, radius, dims, wrap) {
      assert r in ids;
      var k :| 0 <= k < |ids| && ids[k] == r;
      var c := box[k];
      BoxMembers(p, dims, radius, wrap, c);
      assert ValidPoint(c, dims) by {
        forall a | 0 <= a < |dims| ensures 0 <= c[a] < dims[a] {
          AxisCoordsInRange(p[a], dims[a], radius, wrap, c[a]);
        }
      }
      LinearBounds(c, dims);
      PointRoundTrip(c, dims);
    }
    if 0 <= r < Product(dims) && InWindows(p, Delinear(r, dims), dims, radius, wrap) {
      var q := Delinear(r, dims);
      IndexRoundTrip(r, dims);
      BoxMembers(p, dims, radius, wrap, q);
      var k :| 0 <= k < |box| && box[k] == q;
      assert ids[k] == r;
    }
  }

  // ---------------------------------------------------------------------
  // What the caller gets
  // ---------------------------------------------------------------------

  /** Every neighbour is an index of the grid, and none is repeated. */
  lemma NeighborsInRange(index: int, radius: int, dims: seq<int>, wrap: bool)
    requires forall a :: 0 <= a < |dims| ==> dims[a] > 0
    ensures forall r :: r in NeighborsOf(index, radius, dims, wrap) ==> 0 <= r < Product(dims)
    ensures Distinct(NeighborsOf(index, radius, dims, wrap))
  {
    forall r | r in NeighborsOf(index, radius, dims, wrap) ensures 0 <= r < Product(dims) {
      NeighborsMembers(index, radius, dims, wrap, r);
    }
  }

  /** With a non-negative radius an axis produces the centre's own coordinate. */
  lemma CenterOnAxis(pos: int, n: int, radius: int, wrap: bool)
    requires 0 <= pos < n && radius >= 0
    ensures pos in AxisCoords(pos, n, radius, wrap)
  {
    var e := EffectiveRadius(radius, n, wrap);
    ModSmall(pos, n);
    assert Hits(pos, pos, n, wrap);
    WindowMembers(pos - e, pos + e, n, wrap, pos);
  }

  /** With a non-negative radius the centre is its own neighbour. */
  lemma NeighborsContainsCenter(index: int, radius: int, dims: seq<int>, wrap: bool)
    requires forall a :: 0 <= a < |dims| ==> dims[a] > 0
    requires 0 <= index < Product(dims) && radius >= 0
    ensures index in NeighborsOf(index, radius, dims, wrap)
  {
    var p := Delinear(index, dims);
    IndexRoundTrip(index, dims);
    forall a | 0 <= a < |dims| ensures p[a] in AxisCoords(p[a], dims[a], radius, wrap) {
      CenterOnAxis(p[a], dims[a], radius, wrap);
    }
    NeighborsMembers(index, radius, dims, wrap, index);
  }

  /** Without wrapping, an axis produces exactly the coordinates within `radius` of the centre. */
  lemma NoWrapAxis(pos: int, n: int, radius: int, k: int)
    requires 0 <= pos < n
    ensures k in AxisCoords(pos, n, radius, false) <==> 0 <= k < n && Abs(k - pos) <= radius
  {
    var e := EffectiveRadius(radius, n, false);
    WindowMembers(pos - e, pos + e, n, false, k);
    if 0 <= k < n && Abs(k - pos) <= radius {
      assert Hits(k, k, n, false);
    }
  }

  /** The distance between two coordinates of an axis of length `n` joined end to end. */
  function TorusDistance(x: int, y: int, n: int): (d: int)
    requires n > 0
    ensures 0 <= d < n
  {
    var forward, backward := (x - y) % n, (y - x) % n;
    if forward < backward then forward else backward
  }

  /** A window offset from `pos` by `o` lands at toroidal distance at most `|o|`. */
  lemma WindowDistance(pos: int, n: int, j: int, k: int)
    requires n > 0 && 0 <= k < n && j % n == k
    ensures TorusDistance(k, pos, n) <= Abs(j - pos)
  {
    var q := j / n;
    assert k == j + (-q) * n;
    ModShift(j - pos, -q, n);
    ModShift(pos - j, q, n);
    assert pos - k == (pos - j) + q * n;
    if j >= pos {
      ModAtMost(j - pos, n);
    } else {
      ModAtMost(pos - j, n);
    }
  }

  /** An offset `j` congruent to `k` inside the window puts `k` in the window. */
  lemma WindowHit(lo: int, hi: int, n: int, k: int, j: int, q: int)
    requires n > 0 && 0 <= k < n && lo <= j <= hi && j == k + q * n
    ensures k in Window(lo, hi, n, true)
  {
    ModShift(k, q, n);
    ModSmall(k, n);
    assert Hits(j, k, n, true);
    WindowMembers(lo, hi, n, true, k);
  }

  lemma WrapAxisSound(pos: int, n: int, radius: int, k: int)
    requires n > 0 && k in AxisCoords(pos, n, radius, true)
    ensures 0 <= k < n && TorusDistance(k, pos, n) <= radius
  {
    var e := EffectiveRadius(radius, n, true);
    WindowMembers(pos - e, pos + e, n, true, k);
    var j :| pos - e <= j <= pos + e && Hits(j, k, n, true);
    WindowDistance(pos, n, j, k);
  }

  /** Stepping forward to `k` within the window reaches it. */
  lemma ForwardHit(pos: int, n: int, e: int, k: int)
    requires n > 0 && 0 <= k < n && (k - pos) % n <= e
    ensures k in Window(pos - e, pos + e, n, true)
  {
    var q := (k - pos) / n;
    assert k - pos == q * n + (k - pos) % n;
    assert pos + (k - pos) % n == k + (-q) * n;
    WindowHit(pos - e, pos + e, n, k, pos + (k - pos) % n, -q);
  }

  /** Stepping backward to `k` within the window reaches it. */
  lemma BackwardHit(pos: int, n: int, e: int, k: int)
    requires n > 0 && 0 <= k < n && (pos - k) % n <= e
    ensures k in Window(pos - e, pos + e, n, true)
  {
    var q := (pos - k) / n;
    assert pos - k == q * n + (pos - k) % n;
    WindowHit(pos - e, pos + e, n, k, pos - (pos - k) % n, q);
  }

  /** A window spanning at least `n` offsets reaches every coordinate. */
  lemma SpanningHit(lo: int, hi: int, n: int, k: int)
    requires n > 0 && 0 <= k < n && hi - lo >= n - 1
    ensures k in Window(lo, hi, n, true)
  {
    var q := (k - lo) / n;
    assert k - lo == q * n + (k - lo) % n;
    assert lo + (k - lo) % n == k + (-q) * n;
    WindowHit(lo, hi, n, k, lo + (k - lo) % n, -q);
  }

  lemma WrapAxisComplete(pos: int, n: int, radius: int, k: int)
    requires n > 0 && 0 <= k < n
    ensures TorusDistance(k, pos, n) <= radius ==> k in AxisCoords(pos, n, radius, true)
  {
    var e := EffectiveRadius(radius, n, true);
    if TorusDistance(k, pos, n) <= radius {
      if e == CeilHalf(n - 1) {
        SpanningHit(pos - e, pos + e, n, k);
      } else if (k - pos) % n <= (pos - k) % n {
        ForwardHit(pos, n, e, k);
      } else {
        BackwardHit(pos, n, e, k);
      }
    }
  }

  /**
    * With wrapping, an axis produces exactly the coordinates within toroidal
    * distance `radius` of the centre: the window is capped at half the axis,
    * and a capped window already covers the whole axis.
    */
  lemma WrapAxis(pos: int, n: int, radius: int, k: int)
    requires n > 0
    ensures k in AxisCoords(pos, n, radius, true) <==> 0 <= k < n && TorusDistance(k, pos, n) <= radius
  {
    if k in AxisCoords(pos, n, radius, true) {
      WrapAxisSound(pos, n, radius, k);
    }
    if 0 <= k < n && TorusDistance(k, pos, n) <= radius {
      WrapAxisComplete(pos, n, radius, k);
    }
  }

  /**
    * Without wrapping, the neighbours are exactly the indices whose point is
    * within `radius` of the centre on every axis.
    */
  lemma NeighborsNoWrap(index: int, radius: int, dims: seq<int>, r: int)
    requires forall a :: 0 <= a < |dims| ==> dims[a] > 0
    requires 0 <= index < Product(dims)
    ensures r in NeighborsOf(index, radius, dims, false) <==>
      0 <= r < Product(dims) && WithinRadius(Delinear(index, dims), Delinear(r, dims), radius)
  {
    var p, q := Delinear(index, dims), Delinear(r, dims);
    NeighborsMembers(index, radius, dims, false, r);
    IndexRoundTrip(index, dims);
    if 0 <= r < Product(dims) {
      IndexRoundTrip(r, dims);
      PointsNoWrap(p, q, dims, radius);
    }
  }

  /** On every axis, `q` is within `radius` of `p`. */
  ghost predicate WithinRadius(p: seq<int>, q: seq<int>, radius: int)
    requires |p| == |q|
  {
    forall a :: 0 <= a < |p| ==> Abs(q[a] - p[a]) <= radius
  }

  /** Between valid points, lying in every unwrapped window is being within `radius` on every axis. */
  lemma PointsNoWrap(p: seq<int>, q: seq<int>, dims: seq<int>, radius: int)
    requires ValidPoint(p, dims) && ValidPoint(q, dims)
    ensures InWindows(p, q, dims, radius, false) <==> WithinRadius(p, q, radius)
  {
    forall a | 0 <= a < |dims|
      ensures q[a] in AxisCoords(p[a], dims[a], radius, false) <==> Abs(q[a] - p[a]) <= radius
    {
      NoWrapAxis(p[a], dims[a], radius, q[a]);
    }
  }

  /**
    * With wrapping, the neighbours are exactly the indices whose point is
    * within toroidal distance `radius` of the centre on every axis.
    */
  lemma NeighborsWrap(index: int, radius: int, dims: seq<int>, r: int)
    requires forall a :: 0 <= a < |dims| ==> dims[a] > 0
    ensures r in NeighborsOf(index, radius, dims, true) <==>
      0 <= r < Product(dims) && WithinRing(Delinear(index, dims), Delinear(r, dims), dims, radius)
  {
    var p, q := Delinear(index, dims), Delinear(r, dims);
    NeighborsMembers(index, radius, dims, true, r);
    if 0 <= r < Product(dims) {
      IndexRoundTrip(r, dims);
      PointsWrap(p, q, dims, radius);
    }
  }

  /** On every axis, `q` is within ring distance `radius` of `p`. */
  ghost predicate WithinRing(p: seq<int>, q: seq<int>, dims: seq<int>, radius: int)
    requires |p| == |q| == |dims| && forall a :: 0 <= a < |dims| ==> dims[a] > 0
  {
    forall a :: 0 <= a < |dims| ==> TorusDistance(q[a], p[a], dims[a]) <= radius
  }

  /** For a valid point `q`, lying in every wrapped window is being within ring distance `radius` on every axis. */
  lemma PointsWrap(p: seq<int>, q: seq<int>, dims: seq<int>, radius: int)
    requires |p| == |dims| && ValidPoint(q, dims)
    requires forall a :: 0 <= a < |dims| ==> dims[a] > 0
    ensures InWindows(p, q, dims, radius, true) <==> WithinRing(p, q, dims, radius)
  {
    forall a | 0 <= a < |dims|
      ensures q[a] in AxisCoords(p[a], dims[a], radius, true) <==> TorusDistance(q[a], p[a], dims[a]) <= radius
    {
      WrapAxis(p[a], dims[a], radius, q[a]);
    }
  }

  // ---------------------------------------------------------------------
  // Worked cases
  // ---------------------------------------------------------------------

  lemma DelinearOnLine(index: int, n: int)
    requires n > 0
    ensures Delinear(index, [n]) == [index]
  {
  }

  lemma BoxOnLine(pos: int, n: int, radius: int, wrap: bool)
    requires n > 0
    ensures Box([pos], [n], radius, wrap) == Prefixed(AxisCoords(pos, n, radius, wrap), [])
  {
    var e: seq<seq<int>> := [[]];
    assert e[..0] == [];
    assert [pos][1..] == [] && [n][1..] == [];
    assert ExpandEach(e, AxisCoords(pos, n, radius, wrap)) == ExpandEach([], AxisCoords(pos, n, radius, wrap)) + Prefixed(AxisCoords(pos, n, radius, wrap), []);
  }

  lemma IndicesOnLine(cs: seq<int>, n: int)
    ensures Indices(Prefixed(cs, []), [n]) == cs
  {
    var ids := Indices(Prefixed(cs, []), [n]);
    forall k | 0 <= k < |cs| ensures ids[k] == cs[k] {
      assert Prefixed(cs, [])[k] == [cs[k]];
      assert [cs[k]][1..] == [] && [n][1..] == [];
      assert Linear([cs[k]], [n]) == cs[k] * Product([]) + Linear([], []);
    }
  }

  /** On a single axis, the neighbours are the axis window with repeats dropped. */
  lemma NeighborsOnLine(index: int, radius: int, n: int, wrap: bool)
    requires n > 0
    ensures NeighborsOf(index, radius, [n], wrap) == Uniq(AxisCoords(index, n, radius, wrap))
  {
    DelinearOnLine(index, n);
    BoxOnLine(index, n, radius, wrap);
    IndicesOnLine(AxisCoords(index, n, radius, wrap), n);
  }

  lemma LineWindowNoWrap(n: int)
    requires n >= 3
    ensures AxisCoords(0, n, 2, false) == [0, 1, 2]
  {
    assert EffectiveRadius(2, n, false) == 2;
    assert Window(-2, -1, n, false) == [];
    assert Window(-2, 0, n, false) == [0];
    assert Window(-2, 1, n, false) == [0, 1];
  }

  lemma UniqZeroOneTwo()
    ensures Uniq([0, 1, 2]) == [0, 1, 2]
  {
    assert [0, 1, 2][..2] == [0, 1] && [0, 1][..1] == [0];
  }

  /** On a line of 10 without wrapping, radius 2 around 0 gives 0, 1, 2. */
  lemma NeighborsLineExample()
    ensures NeighborsOf(0, 2, [10], false) == [0, 1, 2]
  {
    NeighborsOnLine(0, 2, 10, false);
    LineWindowNoWrap(10);
    UniqZeroOneTwo();
  }

  /** When wrapping, position `t` of the window holds offset `lo + t` reduced modulo the axis. */
  lemma {:induction false} WrapWindowAt(lo: int, hi: int, n: int)
    requires n > 0 && lo <= hi + 1
    ensures |Window(lo, hi, n, true)| == hi - lo + 1
    ensures forall t :: 0 <= t <= hi - lo ==> Window(lo, hi, n, true)[t] == (lo + t) % n
    decreases hi - lo + 1
  {
    if lo <= hi {
      WrapWindowAt(lo, hi - 1, n);
      ModIsEuclidean(hi, n);
      if 0 <= hi < n {
        ModSmall(hi, n);
      }
      assert Retained(hi, n, true) == [hi % n];
    }
  }

  /** Two numbers less than `n` apart have different remainders by `n`. */
  lemma ModDistinct(x: int, y: int, n: int)
    requires n > 0 && x < y < x + n
    ensures x % n != y % n
  {
    if x % n == y % n {
      var d := y / n - x / n;
      assert y - x == d * n;
      if d >= 1 {
        MulMono(1, d, n);
      } else {
        MulMono(d, 0, n);
      }
    }
  }

  /** A wrapped window no wider than the axis has no repeats. */
  lemma WrapWindowDistinct(lo: int, hi: int, n: int)
    requires n > 0 && hi - lo < n
    ensures Distinct(Window(lo, hi, n, true))
  {
    if lo <= hi + 1 {
      WrapWindowAt(lo, hi, n);
      var w := Window(lo, hi, n, true);
      forall s, t | 0 <= s < t < |w| ensures w[s] != w[t] {
        ModDistinct(lo + s, lo + t, n);
      }
    }
  }

  /**
    * On a ring whose effective radius spans less than one turn, `_.uniq`
    * drops nothing from the window.
    */
  lemma RingWindowUnique(pos: int, n: int, radius: int)
    requires n > 0 && 2 * EffectiveRadius(radius, n, true) < n
    ensures Uniq(AxisCoords(pos, n, radius, true)) == AxisCoords(pos, n, radius, true)
  {
    var e := EffectiveRadius(radius, n, true);
    WrapWindowDistinct(pos - e, pos + e, n);
    UniqOfDistinct(AxisCoords(pos, n, radius, true));
  }

  /** The first ten offsets of the capped window, `-2 .. 7` on a ring of 10. */
  lemma CappedWindowHead()
    ensures Window(-2, 7, 10, true) == [8, 9, 0, 1, 2, 3, 4, 5, 6, 7]
  {
  }

  lemma LineWindowWrap()
    ensures AxisCoords(0, 10, 2, true) == [8, 9, 0, 1, 2]
  {
  }

  /** On a ring of 10, radius 2 around 0 reaches back over the edge to 8 and 9. */
  lemma NeighborsRingExample()
    ensures NeighborsOf(0, 2, [10], true) == [8, 9, 0, 1, 2]
  {
    NeighborsOnLine(0, 2, 10, true);
    LineWindowWrap();
    RingWindowUnique(0, 10, 2);
  }

  lemma LineWindowWrapCapped()
    ensures AxisCoords(3, 10, 100, true) == [8, 9, 0, 1, 2, 3, 4, 5, 6, 7, 8]
  {
    assert EffectiveRadius(100, 10, true) == 5;
    CappedWindowHead();
    assert Window(-2, 8, 10, true) == Window(-2, 7, 10, true) + Retained(8, 10, true);
  }

  lemma UniqCappedWindow()
    ensures Uniq([8, 9, 0, 1, 2, 3, 4, 5, 6, 7, 8]) == [8, 9, 0, 1, 2, 3, 4, 5, 6, 7]
  {
    var once := [8, 9, 0, 1, 2, 3, 4, 5, 6, 7];
    assert once + [8] == [8, 9, 0, 1, 2, 3, 4, 5, 6, 7, 8];
    UniqDropsRepeat(once, 8);
    CappedWindowHead();
    WrapWindowDistinct(-2, 7, 10);
    UniqOfDistinct(once);
  }

  /**
    * On a ring of 10, a radius of 100 around 3 is capped at 5: the window
    * runs from -2 to 8, and the second 8 it produces is dropped.
    */
  lemma NeighborsRingCappedExample()
    ensures NeighborsOf(3, 100, [10], true) == [8, 9, 0, 1, 2, 3, 4, 5, 6, 7]
  {
    NeighborsOnLine(3, 100, 10, true);
    LineWindowWrapCapped();
    UniqCappedWindow();
  }

  lemma ExpandEachThree(x: seq<int>, y: seq<int>, z: seq<int>, cs: seq<int>)
    ensures ExpandEach([x, y, z], cs) == Prefixed(cs, x) + Prefixed(cs, y) + Prefixed(cs, z)
  {
    var ns := [x, y, z];
    assert ns[..2] == [x, y] && ns[..2][..1] == [x] && ns[..2][..1][..0] == [];
    assert ExpandEach([x], cs) == ExpandEach([], cs) + Prefixed(cs, x);
    assert ExpandEach([x, y], cs) == ExpandEach([x], cs) + Prefixed(cs, y);
    assert ExpandEach(ns, cs) == ExpandEach([x, y], cs) + Prefixed(cs, z);
  }

  /** On two axes, the second axis is expanded first, then the first. */
  lemma BoxOnGrid(p0: int, p1: int, n0: int, n1: int, radius: int, wrap: bool)
    requires n0 > 0 && n1 > 0
    ensures Box([p0, p1], [n0, n1], radius, wrap)
      == ExpandEach(Prefixed(AxisCoords(p1, n1, radius, wrap), []), AxisCoords(p0, n0, radius, wrap))
  {
    assert [p0, p1][1..] == [p1] && [n0, n1][1..] == [n1];
    BoxOnLine(p1, n1, radius, wrap);
  }

  lemma GridBox()
    ensures Box([0, 0], [20, 10], 2, false) == Prefixed([0, 1, 2], [0]) + Prefixed([0, 1, 2], [1]) + Prefixed([0, 1, 2], [2])
  {
    BoxOnGrid(0, 0, 20, 10, 2, false);
    LineWindowNoWrap(10);
    LineWindowNoWrap(20);
    var pr := Prefixed([0, 1, 2], []);
    assert pr[0] == [0] && pr[1] == [1] && pr[2] == [2];
    assert pr == [[0], [1], [2]];
    ExpandEachThree([0], [1], [2], [0, 1, 2]);
  }

  lemma GridIndices()
    ensures Indices(Prefixed([0, 1, 2], [0]) + Prefixed([0, 1, 2], [1]) + Prefixed([0, 1, 2], [2]), [20, 10])
      == [0, 10, 20, 1, 11, 21, 2, 12, 22]
  {
  }

  /**
    * On a 20 x 10 grid without wrapping, radius 2 around index 0: the first
    * axis varies fastest in the result, because it is expanded last.
    */
  lemma NeighborsGridExample()
    ensures NeighborsOf(0, 2, [20, 10], false) == [0, 10, 20, 1, 11, 21, 2, 12, 22]
  {
    GridOrigin();
    GridBox();
    GridIndices();
    GridUniq();
  }

  lemma GridOrigin()
    ensures Delinear(0, [20, 10]) == [0, 0]
  {
  }

  lemma GridUniq()
    ensures Uniq([0, 10, 20, 1, 11, 21, 2, 12, 22]) == [0, 10, 20, 1, 11, 21, 2, 12, 22]
  {
    UniqOfDistinct([0, 10, 20, 1, 11, 21, 2, 12, 22]);
  }
}
