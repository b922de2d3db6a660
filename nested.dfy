/**
  * Nested JavaScript arrays of numbers, and the two flattening operations of
  * the underscore library that `Arr` relies on: `_.flatten(xs)` (all the way
  * down to the numbers) and `_.flatten(xs, true)` (one level).
  */
module NestedArrays {

  import opened Reductions

  /** An element of a nested array: a number, or an array of elements. */
  datatype Nested = Leaf(v: int) | Node(kids: seq<Nested>)

  /** `_.flatten(xs)`: the numbers of `xs`, left to right, at any depth. */
  function Flatten(xs: seq<Nested>): seq<int>
    decreases xs
  {
    if xs == [] then [] else FlattenElem(xs[0]) + Flatten(xs[1..])
  }

  /** The numbers of one element, left to right. */
  function FlattenElem(x: Nested): seq<int>
    decreases x
  {
    match x
    case Leaf(v) => [v]
    case Node(kids) => Flatten(kids)
  }

  /** `_.flatten(xs, true)`: arrays among the elements are spliced in, numbers are kept. */
  function FlattenOnce(xs: seq<Nested>): seq<Nested>
  {
    if xs == [] then []
    else (match xs[0] case Leaf(_) => [xs[0]] case Node(kids) => kids) + FlattenOnce(xs[1..])
  }

  /** One level of concatenation of a sequence of sequences. */
  function Concat<T>(ss: seq<seq<T>>): seq<T>
  {
    if ss == [] then [] else ss[0] + Concat(ss[1..])
  }

  /** A flat array of numbers as a nested array. */
  function Leaves(xs: seq<int>): (r: seq<Nested>)
    ensures |r| == |xs|
    ensures forall k :: 0 <= k < |r| ==> r[k] == Leaf(xs[k])
  {
    seq(|xs|, k requires 0 <= k < |xs| => Leaf(xs[k]))
  }

  /** Each group of `gs` as one array element. */
  function Wrap(gs: seq<seq<Nested>>): (r: seq<Nested>)
    ensures |r| == |gs|
    ensures forall k :: 0 <= k < |r| ==> r[k] == Node(gs[k])
  {
    seq(|gs|, k requires 0 <= k < |gs| => Node(gs[k]))
  }

  // ---------------------------------------------------------------------
  // Flattening facts
  // ---------------------------------------------------------------------

  lemma {:induction false} FlattenAppend(a: seq<Nested>, b: seq<Nested>)
    ensures Flatten(a + b) == Flatten(a) + Flatten(b)
    decreases |a|
  {
    if a == [] {
      assert a + b == b;
    } else {
      assert (a + b)[1..] == a[1..] + b;
      FlattenAppend(a[1..], b);
    }
  }

  lemma {:induction false} ConcatAppend<T>(a: seq<seq<T>>, b: seq<seq<T>>)
    ensures Concat(a + b) == Concat(a) + Concat(b)
    decreases |a|
  {
    if a == [] {
      assert a + b == b;
    } else {
      assert (a + b)[1..] == a[1..] + b;
      ConcatAppend(a[1..], b);
    }
  }

  /** Deep flattening of plain numbers gives the numbers back. */
  lemma {:induction false} FlattenLeaves(xs: seq<int>)
    ensures Flatten(Leaves(xs)) == xs
    decreases |xs|
  {
    if xs != [] {
      assert Leaves(xs)[1..] == Leaves(xs[1..]);
      FlattenLeaves(xs[1..]);
    }
  }

  /** Wrapping groups as arrays adds nesting but no numbers and no reordering. */
  lemma {:induction false} FlattenWrap(gs: seq<seq<Nested>>)
    ensures Flatten(Wrap(gs)) == Flatten(Concat(gs))
    decreases |gs|
  {
    if gs != [] {
      assert Wrap(gs)[1..] == Wrap(gs[1..]);
      FlattenWrap(gs[1..]);
      FlattenAppend(gs[0], Concat(gs[1..]));
    }
  }

  /** Flattening one level first does not change the numbers or their order. */
  lemma {:induction false} FlattenOnceFlatten(xs: seq<Nested>)
    ensures Flatten(FlattenOnce(xs)) == Flatten(xs)
    decreases |xs|
  {
    if xs != [] {
      FlattenOnceFlatten(xs[1..]);
      var head := match xs[0] case Leaf(_) => [xs[0]] case Node(kids) => kids;
      FlattenAppend(head, FlattenOnce(xs[1..]));
      if xs[0].Leaf? {
        assert Flatten(head) == FlattenElem(xs[0]) + Flatten([]);
      }
    }
  }

  lemma {:induction false} ConcatMembers<T>(ss: seq<seq<T>>, j: int, x: T)
    requires 0 <= j < |ss| && x in ss[j]
    ensures x in Concat(ss)
    decreases |ss|
  {
    if j > 0 {
      ConcatMembers(ss[1..], j - 1, x);
    }
  }

  // ---------------------------------------------------------------------
  // Shapes
  // ---------------------------------------------------------------------

  /**
    * `x` is a full `dims[0]` x `dims[1]` x ... array: for empty `dims` a
    * number, otherwise an array of `dims[0]` elements of shape `dims[1..]`.
    */
  predicate Shaped(x: Nested, dims: seq<int>)
    decreases x
  {
    if dims == [] then x.Leaf?
    else x.Node? && |x.kids| == dims[0] && forall k :: 0 <= k < |x.kids| ==> Shaped(x.kids[k], dims[1..])
  }

  lemma {:induction false} FlattenUniformLength(xs: seq<Nested>, size: int)
    requires forall k :: 0 <= k < |xs| ==> |FlattenElem(xs[k])| == size
    ensures |Flatten(xs)| == |xs| * size
    decreases |xs|
  {
    if xs != [] {
      FlattenUniformLength(xs[1..], size);
    }
  }

  /** A full array of shape `dims` holds exactly `Product(dims)` numbers. */
  lemma {:induction false} ShapedLength(x: Nested, dims: seq<int>)
    requires Shaped(x, dims)
    ensures |FlattenElem(x)| == Product(dims)
    decreases x
  {
    if dims != [] {
      forall k | 0 <= k < |x.kids| ensures |FlattenElem(x.kids[k])| == Product(dims[1..]) {
        ShapedLength(x.kids[k], dims[1..]);
      }
      FlattenUniformLength(x.kids, Product(dims[1..]));
    }
  }

  /** Two full arrays of the same shape holding the same numbers in the same order are equal. */
  lemma {:induction false} ShapedUnique(x: Nested, y: Nested, dims: seq<int>)
    requires Shaped(x, dims) && Shaped(y, dims)
    requires FlattenElem(x) == FlattenElem(y)
    ensures x == y
    decreases x
  {
    if dims != [] {
      ShapedListUnique(x.kids, y.kids, dims[1..]);
    }
  }

  lemma {:induction false} ShapedListUnique(xs: seq<Nested>, ys: seq<Nested>, dims: seq<int>)
    requires |xs| == |ys|
    requires forall k :: 0 <= k < |xs| ==> Shaped(xs[k], dims) && Shaped(ys[k], dims)
    requires Flatten(xs) == Flatten(ys)
    ensures xs == ys
    decreases xs
  {
    if xs != [] {
      ShapedLength(xs[0], dims);
      ShapedLength(ys[0], dims);
      var n := |FlattenElem(xs[0])|;
      assert FlattenElem(xs[0]) == Flatten(xs)[..n] == Flatten(ys)[..n] == FlattenElem(ys[0]);
      assert Flatten(xs[1..]) == Flatten(xs)[n..] == Flatten(ys)[n..] == Flatten(ys[1..]);
      ShapedUnique(xs[0], ys[0], dims);
      ShapedListUnique(xs[1..], ys[1..], dims);
      assert xs == [xs[0]] + xs[1..];
      assert ys == [ys[0]] + ys[1..];
    }
  }
}
