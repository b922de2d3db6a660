/**
  * The integer reductions of `Arr`: `sum`, `prod`, `manhattanDistance`,
  * `max` and `min` (src/arr.js:142-197).
  *
  * `Total` and `Product` are the textbook reference definitions (the empty
  * product is 1); the library's `sum` and `prod` are left folds seeded with
  * the first element, and `prod` of an empty array is 0.
  */
module Reductions {

  import opened Arith

  // ---------------------------------------------------------------------
  // Reference definitions
  // ---------------------------------------------------------------------

  /** The mathematical sum of `s`. */
  function Total(s: seq<int>): int
  {
    if s == [] then 0 else s[0] + Total(s[1..])
  }

  /** The mathematical product of `s`; the empty product is 1. */
  function Product(s: seq<int>): int
  {
    if s == [] then 1 else s[0] * Product(s[1..])
  }

  lemma {:induction false} TotalAppend(s: seq<int>, t: seq<int>)
    ensures Total(s + t) == Total(s) + Total(t)
  {
    if s != [] {
      assert (s + t)[1..] == s[1..] + t;
      TotalAppend(s[1..], t);
    } else {
      assert s + t == t;
    }
  }

  lemma {:induction false} ProductAppend(s: seq<int>, t: seq<int>)
    ensures Product(s + t) == Product(s) * Product(t)
  {
    if s != [] {
      assert (s + t)[1..] == s[1..] + t;
      ProductAppend(s[1..], t);
      assert Product(s + t) == s[0] * (Product(s[1..]) * Product(t));
    } else {
      assert s + t == t;
    }
  }

  /** Appending one factor, the step of every running product in the library. */
  lemma ProductSnoc(s: seq<int>, x: int)
    ensures Product(s + [x]) == Product(s) * x
  {
    ProductAppend(s, [x]);
  }

  /** A product of positive factors is positive. */
  lemma {:induction false} ProductPositive(s: seq<int>)
    requires forall i :: 0 <= i < |s| ==> s[i] > 0
    ensures Product(s) > 0
  {
    if s != [] {
      ProductPositive(s[1..]);
    }
  }

  // ---------------------------------------------------------------------
  // `_.reduce` without a seed
  // ---------------------------------------------------------------------

  function Add(p: int, n: int): int { p + n }

  function Mul(p: int, n: int): int { p * n }

  /** Left fold of `f` over `s`, starting from `acc`. */
  function FoldLeft(f: (int, int) -> int, acc: int, s: seq<int>): int
    decreases |s|
  {
    if s == [] then acc else FoldLeft(f, f(acc, s[0]), s[1..])
  }

  lemma {:induction false} FoldAddIsTotal(acc: int, s: seq<int>)
    ensures FoldLeft(Add, acc, s) == acc + Total(s)
    decreases |s|
  {
    if s != [] {
      FoldAddIsTotal(acc + s[0], s[1..]);
    }
  }

  lemma {:induction false} FoldMulIsProduct(acc: int, s: seq<int>)
    ensures FoldLeft(Mul, acc, s) == acc * Product(s)
    decreases |s|
  {
    if s != [] {
      FoldMulIsProduct(acc * s[0], s[1..]);
      assert acc * s[0] * Product(s[1..]) == acc * (s[0] * Product(s[1..]));
    }
  }

  // ---------------------------------------------------------------------
  // sum and prod
  // ---------------------------------------------------------------------

  /**
    * `Arr.sum`: 0 for an empty array, otherwise `_.reduce` with `+`; it is
    * the mathematical sum, the empty case included.
    */
  function Sum(s: seq<int>): (r: int)
    ensures r == Total(s)
  {
    if |s| == 0 then 0
    else
      FoldAddIsTotal(s[0], s[1..]);
      FoldLeft(Add, s[0], s[1..])
  }

  /**
    * `Arr.prod`: 0 (not 1) for an empty array, otherwise `_.reduce` with `*`;
    * it is the mathematical product on non-empty input.
    */
  function Prod(s: seq<int>): (r: int)
    ensures r == if s == [] then 0 else Product(s)
  {
    if |s| == 0 then 0
    else
      FoldMulIsProduct(s[0], s[1..]);
      FoldLeft(Mul, s[0], s[1..])
  }

  /** The empty-array guards, `sum([]) == 0` and `prod([]) == 0`, and one non-empty case of each. */
  lemma ReductionExamples()
    ensures Sum([]) == 0 && Prod([]) == 0
    ensures Prod([3, 4, 5]) == 60 && Sum([3, 4, 5]) == 12
  {
  }

  // ---------------------------------------------------------------------
  // manhattanDistance
  // ---------------------------------------------------------------------

  /** The per-axis absolute differences `|p1[i] - p2[i]|` (the `_.map` step). */
  function AbsDiffs(p1: seq<int>, p2: seq<int>): (d: seq<int>)
    requires |p1| == |p2|
    ensures |d| == |p1|
  {
    seq(|p1|, i requires 0 <= i < |p1| => Abs(p1[i] - p2[i]))
  }

  /**
    * `Arr.manhattanDistance`: the sum of the per-axis absolute differences,
    * which is never negative.
    */
  function ManhattanDistance(p1: seq<int>, p2: seq<int>): (d: int)
    requires |p1| == |p2|
    ensures d == Total(AbsDiffs(p1, p2))
    ensures d >= 0
  {
    TotalNonNegative(AbsDiffs(p1, p2));
    Sum(AbsDiffs(p1, p2))
  }

  lemma {:induction false} TotalNonNegative(s: seq<int>)
    requires forall i :: 0 <= i < |s| ==> s[i] >= 0
    ensures Total(s) >= 0
    ensures Total(s) == 0 <==> forall i :: 0 <= i < |s| ==> s[i] == 0
  {
    if s != [] {
      TotalNonNegative(s[1..]);
      if Total(s) == 0 {
        forall i | 0 <= i < |s| ensures s[i] == 0 {
          if i > 0 { assert s[i] == s[1..][i - 1]; }
        }
      }
    }
  }

  /** The distance is never negative, and it is 0 exactly for identical points. */
  lemma ManhattanNonNegative(p1: seq<int>, p2: seq<int>)
    requires |p1| == |p2|
    ensures ManhattanDistance(p1, p2) >= 0
    ensures ManhattanDistance(p1, p2) == 0 <==> p1 == p2
  {
    var d := AbsDiffs(p1, p2);
    TotalNonNegative(d);
    assert ManhattanDistance(p1, p2) == Total(d);
    if Total(d) == 0 {
      forall i | 0 <= i < |p1| ensures p1[i] == p2[i] {
        assert d[i] == 0;
      }
      assert p1 == p2;
    }
    if p1 == p2 {
      forall i | 0 <= i < |d| ensures d[i] == 0 {
        assert d[i] == Abs(p1[i] - p2[i]);
      }
    }
  }

  /** The distance does not depend on the order of the two points. */
  lemma ManhattanSymmetric(p1: seq<int>, p2: seq<int>)
    requires |p1| == |p2|
    ensures ManhattanDistance(p1, p2) == ManhattanDistance(p2, p1)
  {
    assert AbsDiffs(p1, p2) == AbsDiffs(p2, p1);
  }

  lemma {:induction false} TotalMonotone(s: seq<int>, t: seq<int>, u: seq<int>)
    requires |s| == |t| == |u|
    requires forall i :: 0 <= i < |s| ==> s[i] <= t[i] + u[i]
    ensures Total(s) <= Total(t) + Total(u)
  {
    if s != [] {
      TotalMonotone(s[1..], t[1..], u[1..]);
    }
  }

  /** The distance obeys the triangle inequality. */
  lemma ManhattanTriangle(p: seq<int>, q: seq<int>, r: seq<int>)
    requires |p| == |q| == |r|
    ensures ManhattanDistance(p, r) <= ManhattanDistance(p, q) + ManhattanDistance(q, r)
  {
    TotalMonotone(AbsDiffs(p, r), AbsDiffs(p, q), AbsDiffs(q, r));
  }

  // ---------------------------------------------------------------------
  // max and min
  // ---------------------------------------------------------------------

  /**
    * A number extended with the two infinities, which is what
    * `Math.max.apply` and `Math.min.apply` return for an empty array.
    */
  datatype Extended = NegInf | Finite(value: int) | PosInf

  /** `Arr.max`: `-Infinity` for an empty array, otherwise its largest element. */
  function Max(s: seq<int>): (m: Extended)
    ensures m == NegInf <==> s == []
    ensures m != PosInf
    ensures m.Finite? ==> m.value in s && forall i :: 0 <= i < |s| ==> s[i] <= m.value
  {
    if s == [] then NegInf
    else if |s| == 1 then Finite(s[0])
    else
      var rest := Max(s[1..]).value;
      if s[0] < rest then Finite(rest) else Finite(s[0])
  }

  /** `Arr.min`: `Infinity` for an empty array, otherwise its smallest element. */
  function Min(s: seq<int>): (m: Extended)
    ensures m == PosInf <==> s == []
    ensures m != NegInf
    ensures m.Finite? ==> m.value in s && forall i :: 0 <= i < |s| ==> m.value <= s[i]
  {
    if s == [] then PosInf
    else if |s| == 1 then Finite(s[0])
    else
      var rest := Min(s[1..]).value;
      if rest < s[0] then Finite(rest) else Finite(s[0])
  }
}
