/**
  * Grouping and reshaping (src/arr.js:34-92): `Arr.group`, `Arr.reshape`
  * and `Arr.reduceDimensions`.
  */
module Grouping {

  import opened Arith
  import opened Reductions
  import opened NestedArrays

  // ---------------------------------------------------------------------
  // group
  // ---------------------------------------------------------------------

  /** Consecutive runs of `n` elements of `s`, the last run holding what is left. */
  function Chunks<T>(s: seq<T>, n: int): seq<seq<T>>
    requires n > 0
    decreases |s|
  {
    if |s| == 0 then []
    else if |s| <= n then [s]
    else [s[..n]] + Chunks(s[n..], n)
  }

  /**
    * `groups` splits `s` into runs of `n`: read in order they give back `s`,
    * no run is empty or longer than `n`, and every run but the last is full.
    */
  ghost predicate IsChunking<T>(groups: seq<seq<T>>, s: seq<T>, n: int)
  {
    && Concat(groups) == s
    && (forall k :: 0 <= k < |groups| ==> 0 < |groups[k]| <= n)
    && (forall k :: 0 <= k < |groups| - 1 ==> |groups[k]| == n)
  }

  /** `Chunks` is such a split. */
  lemma {:induction false} ChunksIsChunking<T>(s: seq<T>, n: int)
    requires n > 0
    ensures IsChunking(Chunks(s, n), s, n)
    decreases |s|
  {
    if |s| > n {
      ChunksIsChunking(s[n..], n);
      assert s == s[..n] + s[n..];
    }
  }

  /** There is only one such split, so `IsChunking` is a complete description of `group`. */
  lemma {:induction false} ChunkingUnique<T>(g1: seq<seq<T>>, g2: seq<seq<T>>, s: seq<T>, n: int)
    requires IsChunking(g1, s, n) && IsChunking(g2, s, n)
    ensures g1 == g2
    decreases |g1|
  {
    if g1 != [] && g2 != [] {
      var m := |g1[0]|;
      assert s == g1[0] + Concat(g1[1..]) == g2[0] + Concat(g2[1..]);
      assert m == |g2[0]|;
      assert g1[0] == s[..m] == g2[0];
      assert Concat(g1[1..]) == s[m..] == Concat(g2[1..]);
      ChunkingUnique(g1[1..], g2[1..], s[m..], n);
      assert g1 == [g1[0]] + g1[1..];
      assert g2 == [g2[0]] + g2[1..];
    }
  }

  /** Appending a run after a prefix whose length is a multiple of `n` appends that run. */
  lemma {:induction false} ChunksSnoc<T>(s: seq<T>, c: seq<T>, n: int)
    requires n > 0 && |s| % n == 0 && 0 < |c| <= n
    ensures Chunks(s + c, n) == Chunks(s, n) + [c]
    decreases |s|
  {
    if s == [] {
      assert s + c == c;
    } else {
      DivModUnique(|s| / n - 1, n, 0);
      assert |s| >= n;
      ModShift(|s| - n, 1, n);
      assert (s + c)[..n] == s[..n];
      assert (s + c)[n..] == s[n..] + c;
      ChunksSnoc(s[n..], c, n);
    }
  }

  /** A sequence of `n * m` elements splits into exactly `m` full runs. */
  lemma {:induction false} ChunksExact<T>(s: seq<T>, n: int, m: nat)
    requires n > 0 && |s| == n * m
    ensures |Chunks(s, n)| == m
    ensures forall k :: 0 <= k < m ==> |Chunks(s, n)[k]| == n
    decreases m
  {
    if m > 1 {
      assert |s[n..]| == n * (m - 1);
      ChunksExact(s[n..], n, m - 1);
    }
  }

  /** Every element of a run is an element of the input. */
  lemma ChunksMembers<T>(s: seq<T>, n: int, k: int, x: T)
    requires n > 0 && 0 <= k < |Chunks(s, n)| && x in Chunks(s, n)[k]
    ensures x in s
  {
    ChunksIsChunking(s, n);
    ConcatMembers(Chunks(s, n), k, x);
  }

  /** The library's test cases (test/arr_test.js): 6 and 7 numbers in runs of 2. */
  lemma GroupExamples()
    ensures Chunks([1, 2, 3, 4, 5, 6], 2) == [[1, 2], [3, 4], [5, 6]]
    ensures Chunks([1, 2, 3, 4, 5, 6, 7], 2) == [[1, 2], [3, 4], [5, 6], [7]]
  {
    assert Chunks([5, 6], 2) == [[5, 6]];
    assert [3, 4, 5, 6][..2] == [3, 4] && [3, 4, 5, 6][2..] == [5, 6];
    assert Chunks([3, 4, 5, 6], 2) == [[3, 4], [5, 6]];
    assert [1, 2, 3, 4, 5, 6][..2] == [1, 2] && [1, 2, 3, 4, 5, 6][2..] == [3, 4, 5, 6];
    assert Chunks([7], 2) == [[7]];
    assert [5, 6, 7][..2] == [5, 6] && [5, 6, 7][2..] == [7];
    assert Chunks([5, 6, 7], 2) == [[5, 6], [7]];
    assert [3, 4, 5, 6, 7][..2] == [3, 4] && [3, 4, 5, 6, 7][2..] == [5, 6, 7];
    assert Chunks([3, 4, 5, 6, 7], 2) == [[3, 4], [5, 6], [7]];
    assert [1, 2, 3, 4, 5, 6, 7][..2] == [1, 2] && [1, 2, 3, 4, 5, 6, 7][2..] == [3, 4, 5, 6, 7];
  }

  /**
    * With a run of `c` elements open after a multiple of `n`, the position `i`
    * is a multiple of `n` exactly when the run is full.
    */
  lemma RunFull(i: int, c: int, n: int)
    requires n > 0 && 1 <= c <= n && c <= i && (i - c) % n == 0
    ensures i % n == 0 <==> c == n
  {
    var q := (i - c) / n;
    assert i - c == q * n;
    if c == n {
      DivModUnique(q + 1, n, 0);
    } else {
      DivModUnique(q, n, c);
    }
  }

  /** Closing the open run `c` that ends at `i` adds it as the next run of `s[..i]`. */
  lemma CloseRun<T>(s: seq<T>, i: int, c: seq<T>, n: int)
    requires n > 0 && |c| == n && n <= i <= |s|
    requires (i - n) % n == 0 && c == s[i - n..i]
    ensures Chunks(s[..i], n) == Chunks(s[..i - n], n) + [c]
  {
    assert s[..i - n] + c == s[..i];
    ChunksSnoc(s[..i - n], c, n);
  }

  /** A slice extended by the element after it. */
  lemma SliceSnoc<T>(s: seq<T>, lo: int, hi: int)
    requires 0 <= lo <= hi < |s|
    ensures s[lo..hi + 1] == s[lo..hi] + [s[hi]]
  {
  }

  /**
    * `Arr.group`: walks the array once, closing the current run whenever the
    * position is a positive multiple of `numPerGroup`, and keeps a non-empty
    * final run.
    */
  method Group<T>(elements: seq<T>, numPerGroup: int) returns (result: seq<seq<T>>)
    requires numPerGroup > 0
    ensures result == Chunks(elements, numPerGroup)
  {
    result := [];
    var current: seq<T> := [];
    for i := 0 to |elements|
      invariant i == 0 ==> current == []
      invariant i > 0 ==> 1 <= |current| <= numPerGroup
      invariant |current| <= i
      invariant (i - |current|) % numPerGroup == 0
      invariant current == elements[i - |current|..i]
      invariant result == Chunks(elements[..i - |current|], numPerGroup)
    {
      if i > 0 {
        RunFull(i, |current|, numPerGroup);
      }
      if i > 0 && i % numPerGroup == 0 {
        CloseRun(elements, i, current, numPerGroup);
        result := result + [current];
        current := [];
      }
      SliceSnoc(elements, i - |current|, i);
      current := current + [elements[i]];
    }
    if |current| > 0 {
      assert elements[..|elements| - |current|] + current == elements;
      ChunksSnoc(elements[..|elements| - |current|], current, numPerGroup);
      result := result + [current];
    } else {
      assert elements[..|elements|] == elements;
    }
  }

  // ---------------------------------------------------------------------
  // reshape
  // ---------------------------------------------------------------------

  ghost predicate AllPositive(dims: seq<int>)
  {
    forall i :: 0 <= i < |dims| ==> dims[i] > 0
  }

  /**
    * The grouping passes of `reshape`: the axes after the first are grouped
    * first (the last axis innermost), then the result is grouped in runs of
    * `dims[0]`, each run becoming one array.
    */
  function Regroup(s: seq<Nested>, dims: seq<int>): seq<Nested>
    requires forall i :: 0 <= i < |dims| ==> dims[i] > 0
    decreases |dims|
  {
    if dims == [] then s
    else Wrap(Chunks(Regroup(s, dims[1..]), dims[0]))
  }

  /** What `Arr.reshape(elements, dims)` returns. */
  function Reshaped(elements: seq<Nested>, dims: seq<int>): seq<Nested>
    requires forall i :: 0 <= i < |dims| ==> dims[i] > 0
  {
    FlattenOnce(Regroup(Leaves(Flatten(elements)), dims))
  }

  /**
    * `Arr.reshape`: flattens the array, groups it by every axis from the last
    * to the first, and flattens the outermost level.
    */
  method Reshape(elements: seq<Nested>, dimensions: seq<int>) returns (r: seq<Nested>)
    requires forall i :: 0 <= i < |dimensions| ==> dimensions[i] > 0
    ensures r == Reshaped(elements, dimensions)
  {
    var flattened := Leaves(Flatten(elements));
    var result := flattened;
    var i := |dimensions| - 1;
    while i >= 0
      invariant -1 <= i < |dimensions|
      invariant result == Regroup(flattened, dimensions[i + 1..])
    {
      assert dimensions[i..][1..] == dimensions[i + 1..];
      var groups := Group(result, dimensions[i]);
      result := Wrap(groups);
      i := i - 1;
    }
    assert dimensions[0..] == dimensions;
    r := FlattenOnce(result);
  }

  lemma {:induction false} RegroupFlatten(s: seq<Nested>, dims: seq<int>)
    requires AllPositive(dims)
    ensures Flatten(Regroup(s, dims)) == Flatten(s)
    decreases |dims|
  {
    if dims != [] {
      var inner := Regroup(s, dims[1..]);
      RegroupFlatten(s, dims[1..]);
      FlattenWrap(Chunks(inner, dims[0]));
      ChunksIsChunking(inner, dims[0]);
    }
  }

  /** `reshape` keeps every number of the input, in the input's order, whatever the dimensions. */
  lemma ReshapePreservesOrder(elements: seq<Nested>, dims: seq<int>)
    requires AllPositive(dims)
    ensures Flatten(Reshaped(elements, dims)) == Flatten(elements)
  {
    var leaves := Leaves(Flatten(elements));
    FlattenOnceFlatten(Regroup(leaves, dims));
    RegroupFlatten(leaves, dims);
    FlattenLeaves(Flatten(elements));
  }

  /** `Product(dims) * m` numbers regroup into `m` full arrays of shape `dims`. */
  lemma {:induction false} RegroupShape(s: seq<Nested>, dims: seq<int>, m: nat)
    requires AllPositive(dims)
    requires forall k :: 0 <= k < |s| ==> s[k].Leaf?
    requires |s| == Product(dims) * m
    ensures |Regroup(s, dims)| == m
    ensures forall k :: 0 <= k < m ==> Shaped(Regroup(s, dims)[k], dims)
    decreases |dims|
  {
    if dims != [] {
      var n := dims[0];
      assert Product(dims) * m == Product(dims[1..]) * (n * m);
      RegroupShape(s, dims[1..], n * m);
      var inner := Regroup(s, dims[1..]);
      ChunksExact(inner, n, m);
      var groups := Chunks(inner, n);
      forall k | 0 <= k < m ensures Shaped(Regroup(s, dims)[k], dims) {
        assert Regroup(s, dims)[k] == Node(groups[k]);
        forall t | 0 <= t < n ensures Shaped(groups[k][t], dims[1..]) {
          ChunksMembers(inner, n, k, groups[k][t]);
        }
      }
    }
  }

  /**
    * When the input holds exactly `Product(dims)` numbers, `reshape` returns a
    * full array of shape `dims`; with the order lemma above and `ShapedUnique`
    * this fixes the result completely.
    */
  lemma ReshapeShape(elements: seq<Nested>, dims: seq<int>)
    requires AllPositive(dims) && |dims| >= 1
    requires |Flatten(elements)| == Product(dims)
    ensures Shaped(Node(Reshaped(elements, dims)), dims)
  {
    var leaves := Leaves(Flatten(elements));
    RegroupShape(leaves, dims, 1);
    var top := Regroup(leaves, dims);
    assert top == [top[0]];
    assert FlattenOnce(top) == top[0].kids + FlattenOnce([]);
  }

  /** `reshape` is determined by its two promises: the numbers in order, and the shape. */
  lemma ReshapeCharacterized(elements: seq<Nested>, dims: seq<int>, r: seq<Nested>)
    requires AllPositive(dims) && |dims| >= 1
    requires |Flatten(elements)| == Product(dims)
    requires Shaped(Node(r), dims) && Flatten(r) == Flatten(elements)
    ensures r == Reshaped(elements, dims)
  {
    ReshapeShape(elements, dims);
    ReshapePreservesOrder(elements, dims);
    ShapedUnique(Node(r), Node(Reshaped(elements, dims)), dims);
  }

  /** A two-level array literal: each row of numbers as one array. */
  function Rows(rows: seq<seq<int>>): (r: seq<Nested>)
    ensures |r| == |rows|
    ensures forall k :: 0 <= k < |r| ==> r[k] == Node(Leaves(rows[k]))
  {
    Wrap(seq(|rows|, k requires 0 <= k < |rows| => Leaves(rows[k])))
  }

  lemma {:induction false} FlattenRows(rows: seq<seq<int>>)
    ensures Flatten(Rows(rows)) == Concat(rows)
    decreases |rows|
  {
    if rows != [] {
      assert Rows(rows)[1..] == Rows(rows[1..]);
      FlattenLeaves(rows[0]);
      FlattenRows(rows[1..]);
    }
  }

  lemma ShapedRows(rows: seq<seq<int>>, n: int)
    requires forall k :: 0 <= k < |rows| ==> |rows[k]| == n
    ensures Shaped(Node(Rows(rows)), [|rows|, n])
  {
  }

  /** The library's test cases for `reshape` on six numbers. */
  lemma ReshapeExamples()
    ensures Reshaped(Rows([[1, 2], [3, 4], [5, 6]]), [6]) == Leaves([1, 2, 3, 4, 5, 6])
    ensures Reshaped(Rows([[1, 2], [3, 4], [5, 6]]), [1, 6]) == Rows([[1, 2, 3, 4, 5, 6]])
    ensures Reshaped(Leaves([1, 2, 3, 4, 5, 6]), [6]) == Leaves([1, 2, 3, 4, 5, 6])
  {
    var numbers := [1, 2, 3, 4, 5, 6];
    var rows := [[1, 2], [3, 4], [5, 6]];
    FlattenRows(rows);
    assert Concat(rows) == [1, 2] + ([3, 4] + ([5, 6] + Concat([]))) by {
      assert rows[1..] == [[3, 4], [5, 6]] && rows[1..][1..] == [[5, 6]];
    }
    FlattenLeaves(numbers);
    assert [1, 6][1..] == [6];
    assert Product([6]) == 6 && Product([1, 6]) == 6;
    ReshapeCharacterized(Rows(rows), [6], Leaves(numbers));
    ReshapeCharacterized(Leaves(numbers), [6], Leaves(numbers));
    FlattenRows([numbers]);
    ShapedRows([numbers], 6);
    ReshapeCharacterized(Rows(rows), [1, 6], Rows([numbers]));
  }

  /** The `n` consecutive numbers from `a`. */
  function Range(a: int, n: nat): (r: seq<int>)
    ensures |r| == n
    ensures forall k :: 0 <= k < n ==> r[k] == a + k
  {
    seq(n, k requires 0 <= k < n => a + k)
  }

  lemma RangeSplit(a: int, m: nat, n: nat)
    ensures Range(a, m) + Range(a + m, n) == Range(a, m + n)
  {
  }

  /** The 3 x 8 input of the 4 x 3 x 2 test case: `1..24` in rows of 8. */
  function ThreeByEight(): seq<Nested>
  {
    Rows([Range(1, 8), Range(9, 8), Range(17, 8)])
  }

  /** Three rows of two numbers from `a` on. */
  function Pairs(a: int): seq<Nested>
  {
    Rows([Range(a, 2), Range(a + 2, 2), Range(a + 4, 2)])
  }

  /** The 4 x 3 x 2 expected result: four blocks of three pairs. */
  function FourByThreeByTwo(): seq<Nested>
  {
    Wrap([Pairs(1), Pairs(7), Pairs(13), Pairs(19)])
  }

  /** Three consecutive rows hold the numbers of all three in order. */
  lemma ThreeRangesNumbers(a: int, n: nat)
    ensures Flatten(Rows([Range(a, n), Range(a + n, n), Range(a + 2 * n, n)])) == Range(a, 3 * n)
  {
    var rows := [Range(a, n), Range(a + n, n), Range(a + 2 * n, n)];
    FlattenRows(rows);
    assert rows[1..] == [rows[1], rows[2]] && rows[1..][1..] == [rows[2]];
    assert Concat(rows[1..][1..]) == rows[2] + Concat([]);
    assert Concat(rows[1..]) == rows[1] + Concat(rows[1..][1..]);
    RangeSplit(a + n, n, n);
    RangeSplit(a, n, 2 * n);
  }

  lemma ThreeByEightNumbers()
    ensures Flatten(ThreeByEight()) == Range(1, 24)
  {
    ThreeRangesNumbers(1, 8);
  }

  /** Two groups concatenate to the first followed by the second. */
  lemma ConcatPair<T>(x: seq<T>, y: seq<T>)
    ensures Concat([x, y]) == x + y
  {
    assert [x, y][1..] == [y] && [y][1..] == [];
    assert Concat([y]) == y + Concat([]);
  }

  /** Four arrays wrapped as one hold their numbers one after the other. */
  lemma FlattenWrapFour(b1: seq<Nested>, b2: seq<Nested>, b3: seq<Nested>, b4: seq<Nested>)
    ensures Flatten(Wrap([b1, b2, b3, b4])) == Flatten(b1) + Flatten(b2) + Flatten(b3) + Flatten(b4)
  {
    FlattenWrap([b1, b2, b3, b4]);
    assert [b1, b2, b3, b4] == [b1, b2] + [b3, b4];
    ConcatAppend([b1, b2], [b3, b4]);
    ConcatPair(b1, b2);
    ConcatPair(b3, b4);
    FlattenAppend(b1 + b2, b3 + b4);
    FlattenAppend(b1, b2);
    FlattenAppend(b3, b4);
  }

  lemma FourByThreeByTwoShape()
    ensures Shaped(Node(FourByThreeByTwo()), [4, 3, 2])
  {
    var dims := [4, 3, 2];
    assert dims[1..] == [3, 2];
    PairsShape(1);
    PairsShape(7);
    PairsShape(13);
    PairsShape(19);
  }

  lemma ProductFourThreeTwo()
    ensures Product([4, 3, 2]) == 24
  {
  }

  /** The library's 4 x 3 x 2 test case: `1..24` in rows of 8, reshaped. */
  lemma ReshapeExample432()
    ensures Reshaped(ThreeByEight(), [4, 3, 2]) == FourByThreeByTwo()
  {
    ProductFourThreeTwo();
    ThreeByEightNumbers();
    FourByThreeByTwoNumbers();
    FourByThreeByTwoShape();
    ReshapeCharacterized(ThreeByEight(), [4, 3, 2], FourByThreeByTwo());
  }

  lemma PairsNumbers(a: int)
    ensures Flatten(Pairs(a)) == Range(a, 6)
  {
    ThreeRangesNumbers(a, 2);
  }

  lemma PairsShape(a: int)
    ensures Shaped(Node(Pairs(a)), [3, 2])
  {
    ShapedRows([Range(a, 2), Range(a + 2, 2), Range(a + 4, 2)], 2);
  }

  lemma FourByThreeByTwoNumbers()
    ensures Flatten(FourByThreeByTwo()) == Range(1, 24)
  {
    FlattenWrapFour(Pairs(1), Pairs(7), Pairs(13), Pairs(19));
    PairsNumbers(1);
    PairsNumbers(7);
    PairsNumbers(13);
    PairsNumbers(19);
    RangeSplit(1, 6, 6);
    RangeSplit(1, 12, 6);
    RangeSplit(1, 18, 6);
  }

  // ---------------------------------------------------------------------
  // reduceDimensions
  // ---------------------------------------------------------------------

  /** What `Arr.reduceDimensions(dims, n)` returns: the last kept axis absorbs the rest. */
  function Reduced(dims: seq<int>, n: int): (r: seq<int>)
    requires 1 <= n <= |dims|
    ensures |r| == n
    ensures forall i :: 0 <= i < n - 1 ==> r[i] == dims[i]
    ensures Product(r) == Product(dims)
    ensures Prod(r) == Prod(dims)
  {
    var r := dims[..n - 1] + [Product(dims[n - 1..])];
    ProductAppend(dims[..n - 1], [Product(dims[n - 1..])]);
    ProductAppend(dims[..n - 1], dims[n - 1..]);
    assert dims[..n - 1] + dims[n - 1..] == dims;
    r
  }

  /**
    * `Arr.reduceDimensions`: copies the first `numDimensions` sizes, then
    * multiplies every later size into the last copied one.
    */
  method ReduceDimensions(dimensions: seq<int>, numDimensions: int) returns (result: seq<int>)
    requires 1 <= numDimensions <= |dimensions|
    ensures result == Reduced(dimensions, numDimensions)
  {
    result := [];
    for i := 0 to numDimensions
      invariant result == dimensions[..i]
    {
      result := result + [dimensions[i]];
    }
    var last := numDimensions - 1;
    assert dimensions[last..numDimensions] == [dimensions[last]];
    for j := numDimensions to |dimensions|
      invariant |result| == numDimensions
      invariant result[..last] == dimensions[..last]
      invariant result[last] == Product(dimensions[last..j])
    {
      assert dimensions[last..j + 1] == dimensions[last..j] + [dimensions[j]];
      ProductSnoc(dimensions[last..j], dimensions[j]);
      result := result[last := result[last] * dimensions[j]];
    }
    assert dimensions[last..|dimensions|] == dimensions[last..];
    assert result == result[..last] + [result[last]];
  }

  /** The library's test cases for `reduceDimensions`. */
  lemma ReduceDimensionsExamples()
    ensures Reduced([4, 3, 2], 2) == [4, 6]
    ensures Reduced([4, 3, 2], 1) == [24]
    ensures Reduced([10, 4, 3, 2], 2) == [10, 24]
    ensures Reduced([4, 3, 2], 3) == [4, 3, 2]
  {
  }
}
