/**
  * `Arr.areEqualSets` (src/arr.js:276-278): both arrays are sorted in place,
  * then compared element by element.
  */
module SetEquality {

  /** Non-decreasing: every earlier element is at most every later one. */
  ghost predicate Sorted(s: seq<int>)
  {
    forall k, l :: 0 <= k < l < |s| ==> s[k] <= s[l]
  }

  /** The first element of a sorted sequence is at most each of its elements. */
  lemma SortedFirstIsLeast(s: seq<int>, x: int)
    requires Sorted(s) && x in multiset(s)
    ensures s[0] <= x
  {
  }

  /** Two sorted sequences holding the same elements are the same sequence. */
  lemma {:induction false} SortedUnique(s: seq<int>, t: seq<int>)
    requires Sorted(s) && Sorted(t)
    requires multiset(s) == multiset(t)
    ensures s == t
    decreases |s|
  {
    assert |s| == |multiset(s)| == |multiset(t)| == |t|;
    if s != [] {
      SortedFirstIsLeast(t, s[0]);
      SortedFirstIsLeast(s, t[0]);
      SameTails(s, t);
      SortedTail(s);
      SortedTail(t);
      SortedUnique(s[1..], t[1..]);
      assert s == [s[0]] + s[1..] && t == [t[0]] + t[1..];
    }
  }

  /** Removing the same first element from two sequences with the same elements leaves the same elements. */
  lemma SameTails(s: seq<int>, t: seq<int>)
    requires s != [] && t != [] && s[0] == t[0]
    requires multiset(s) == multiset(t)
    ensures multiset(s[1..]) == multiset(t[1..])
  {
    assert s == [s[0]] + s[1..] && t == [t[0]] + t[1..];
    assert multiset(s[1..]) == multiset(s) - multiset{s[0]};
    assert multiset(t[1..]) == multiset(t) - multiset{t[0]};
  }

  /** The tail of a sorted sequence is sorted. */
  lemma SortedTail(s: seq<int>)
    requires Sorted(s) && s != []
    ensures Sorted(s[1..])
  {
    forall k, l | 0 <= k < l < |s| - 1 ensures s[1..][k] <= s[1..][l] {
      assert s[1..][k] == s[k + 1] && s[1..][l] == s[l + 1];
    }
  }

  /**
    * The state of insertion at position `j` while moving `s[i]` down:
    * `s[..i + 1]` is sorted apart from position `j`, and `s[j]` is below
    * every element after it up to `i`.
    */
  ghost predicate Inserting(s: seq<int>, i: int, j: int)
    requires 0 <= j <= i < |s|
  {
    (forall k, l :: 0 <= k < l <= i && k != j && l != j ==> s[k] <= s[l]) &&
    (forall l :: j < l <= i ==> s[j] < s[l])
  }

  /** Insertion starts at `j == i` once `s[..i]` is sorted. */
  lemma InsertStart(s: seq<int>, i: int)
    requires 0 <= i < |s|
    requires forall k, l :: 0 <= k < l < i ==> s[k] <= s[l]
    ensures Inserting(s, i, i)
  {
  }

  /** Exchanging `s[j - 1] > s[j]` moves insertion to `j - 1` and keeps the multiset. */
  lemma InsertSwap(s: seq<int>, i: int, j: int)
    requires 0 < j <= i < |s| && Inserting(s, i, j) && s[j - 1] > s[j]
    ensures Inserting(s[j - 1 := s[j]][j := s[j - 1]], i, j - 1)
    ensures multiset(s[j - 1 := s[j]][j := s[j - 1]]) == multiset(s)
  {
    var t := s[j - 1 := s[j]][j := s[j - 1]];
    assert forall l :: j - 1 < l <= i ==> t[j - 1] < t[l];
  }

  /** Insertion stops with `s[..i + 1]` sorted once `s[j]` has nothing larger before it. */
  lemma InsertDone(s: seq<int>, i: int, j: int)
    requires 0 <= j <= i < |s| && Inserting(s, i, j)
    requires j == 0 || s[j - 1] <= s[j]
    ensures forall k, l :: 0 <= k < l <= i ==> s[k] <= s[l]
  {
    forall k, l | 0 <= k < l <= i ensures s[k] <= s[l] {
      if l == j && k < j - 1 {
        assert s[k] <= s[j - 1];
      }
    }
  }

  /**
    * `array.sort()` on numbers, as an insertion sort in place: afterwards
    * `a` is sorted and holds the same elements.
    */
  method Sort(a: array<int>)
    modifies a
    ensures Sorted(a[..])
    ensures multiset(a[..]) == multiset(old(a[..]))
  {
    for i := 0 to a.Length
      invariant forall k, l :: 0 <= k < l < i ==> a[k] <= a[l]
      invariant multiset(a[..]) == multiset(old(a[..]))
    {
      Insert(a, i);
    }
  }

  /**
    * Moves `a[i]` down into the sorted prefix `a[..i]`, leaving `a[..i + 1]`
    * sorted with the same elements and `a[i + 1..]` untouched.
    */
  method Insert(a: array<int>, i: int)
    requires 0 <= i < a.Length
    requires forall k, l :: 0 <= k < l < i ==> a[k] <= a[l]
    modifies a
    ensures forall k, l :: 0 <= k < l <= i ==> a[k] <= a[l]
    ensures multiset(a[..]) == multiset(old(a[..]))
    ensures a[i + 1..] == old(a[i + 1..])
  {
    var j := i;
    InsertStart(a[..], i);
    while j > 0 && a[j - 1] > a[j]
      invariant 0 <= j <= i
      invariant Inserting(a[..], i, j)
      invariant multiset(a[..]) == multiset(old(a[..]))
      invariant a[i + 1..] == old(a[i + 1..])
    {
      ghost var before := a[..];
      InsertSwap(before, i, j);
      a[j - 1], a[j] := a[j], a[j - 1];
      assert a[..] == before[j - 1 := before[j]][j := before[j - 1]];
      j := j - 1;
    }
    InsertDone(a[..], i, j);
  }

  /**
    * `Arr.areEqualSets(array1, array2)`, on arrays `first` and `second`: true exactly when the two arrays
    * hold the same elements with the same multiplicities. Both arrays are
    * left sorted, with their elements kept.
    */
  method AreEqualSets(first: array<int>, second: array<int>) returns (eq: bool)
    modifies first, second
    ensures eq <==> multiset(old(first[..])) == multiset(old(second[..]))
    ensures Sorted(first[..]) && multiset(first[..]) == multiset(old(first[..]))
    ensures Sorted(second[..]) && multiset(second[..]) == multiset(old(second[..]))
  {
    Sort(first);
    Sort(second);
    eq := first[..] == second[..];
    if multiset(first[..]) == multiset(second[..]) {
      SortedUnique(first[..], second[..]);
    }
  }
}
