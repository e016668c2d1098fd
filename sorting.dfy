/**
 * The in-place sort that both `Sort` operations delegate to. In Go it is
 * `sort.Slice` from the standard library, which is not part of this model:
 * the contract below is what the library promises (the slice ends up ordered
 * by `less` and holds the same elements), and the body is an insertion sort
 * standing in for it. Stability is NOT promised, as `sort.Slice` does not
 * promise it.
 */
module Sorting {

  /**
   * What `sort.Slice` demands of its `less` function among the values being
   * sorted: a strict weak order on `vals`, here asymmetric and negatively
   * transitive. Values outside `vals` are not constrained.
   */
  ghost predicate StrictWeakOrderOn<E>(less: (E, E) -> bool, vals: multiset<E>)
  {
    && (forall x, y :: x in vals && y in vals && less(x, y) ==> !less(y, x))
    && (forall x, y, z :: x in vals && y in vals && z in vals && less(x, z) ==> less(x, y) || less(y, z))
  }

  /** Any two different values are comparable (with a strict weak order: a strict total order). */
  ghost predicate Connected<E(!new)>(less: (E, E) -> bool)
  {
    forall x, y :: x != y ==> less(x, y) || less(y, x)
  }

  /** No element of `s` is `less` than an element before it. */
  ghost predicate Ordered<E>(s: seq<E>, less: (E, E) -> bool)
  {
    forall i, j :: 0 <= i < j < |s| ==> !less(s[j], s[i])
  }

  /** Reorders `a` in place so that it is ordered by `less`, keeping its elements. */
  method SortSlice<E>(a: array<E>, less: (E, E) -> bool)
    requires StrictWeakOrderOn(less, multiset(a[..]))
    modifies a
    ensures Ordered(a[..], less)
    ensures multiset(a[..]) == old(multiset(a[..]))
  {
    for i := 0 to a.Length
      invariant OrderedBelow(a[..], i, less)
      invariant multiset(a[..]) == old(multiset(a[..]))
    {
      Sink(a, i, less);
    }
  }

  /** Positions `0..n` of `s` are ordered by `less`. */
  ghost predicate OrderedBelow<E>(s: seq<E>, n: int, less: (E, E) -> bool)
  {
    forall k, l :: 0 <= k < l < n && l < |s| ==> !less(s[l], s[k])
  }

  /** Moves `a[i]` towards the front past every greater element, so that `a[..i + 1]` becomes ordered. */
  method Sink<E>(a: array<E>, i: int, less: (E, E) -> bool)
    requires 0 <= i < a.Length
    requires StrictWeakOrderOn(less, multiset(a[..]))
    requires OrderedBelow(a[..], i, less)
    modifies a
    ensures OrderedBelow(a[..], i + 1, less)
    ensures multiset(a[..]) == old(multiset(a[..]))
  {
    ghost var vals := multiset(a[..]);
    var j := i;
    while 0 < j && less(a[j], a[j - 1])
      invariant 0 <= j <= i
      invariant Sinking(a[..], i, j, less)
      invariant multiset(a[..]) == vals
    {
      ghost var before := a[..];
      Swap(a, j - 1, j);
      SwapKeepsSinking(before, a[..], i, j, less, vals);
      j := j - 1;
    }
    SunkIsOrdered(a[..], i, j, less, vals);
  }

  /**
   * The inner loop's invariant: apart from the sinking element at `j`,
   * positions `0..i` are ordered, and the sinking element is less than
   * everything it has passed.
   */
  ghost predicate Sinking<E>(s: seq<E>, i: int, j: int, less: (E, E) -> bool)
    requires 0 <= j <= i < |s|
  {
    && (forall k, l :: 0 <= k < l <= i && k != j && l != j ==> !less(s[l], s[k]))
    && (forall l :: j < l <= i ==> less(s[j], s[l]))
  }

  /** Swapping the sinking element with a greater left neighbour keeps the inner loop's invariants. */
  lemma SwapKeepsSinking<E>(s: seq<E>, t: seq<E>, i: int, j: int, less: (E, E) -> bool, vals: multiset<E>)
    requires StrictWeakOrderOn(less, vals)
    requires 0 < j <= i < |s| && multiset(s) == vals
    requires Sinking(s, i, j, less) && less(s[j], s[j - 1])
    requires t == s[j - 1 := s[j]][j := s[j - 1]]
    ensures Sinking(t, i, j - 1, less)
  {
    ElementsAreValues(s, vals);
  }

  /**
   * Once the element at `j` has stopped sinking, positions `0..i` are
   * ordered: it is not less than its left neighbour, and it is less than
   * everything it has passed.
   */
  lemma SunkIsOrdered<E>(s: seq<E>, i: int, j: int, less: (E, E) -> bool, vals: multiset<E>)
    requires StrictWeakOrderOn(less, vals)
    requires 0 <= j <= i < |s| && multiset(s) == vals
    requires Sinking(s, i, j, less)
    requires j == 0 || !less(s[j], s[j - 1])
    ensures OrderedBelow(s, i + 1, less)
  {
    ElementsAreValues(s, vals);
  }

  /** Exchanges `a[x]` and `a[y]`. */
  method Swap<E>(a: array<E>, x: int, y: int)
    requires 0 <= x < y < a.Length
    modifies a
    ensures a[..] == old(a[..])[x := old(a[y])][y := old(a[x])]
    ensures multiset(a[..]) == old(multiset(a[..]))
  {
    a[x], a[y] := a[y], a[x];
    SwapKeepsElements(old(a[..]), x, y);
  }

  /** Exchanging two positions keeps the elements. */
  lemma SwapKeepsElements<E>(s: seq<E>, x: int, y: int)
    requires 0 <= x < y < |s|
    ensures multiset(s[x := s[y]][y := s[x]]) == multiset(s)
  {
    var t := s[x := s[y]][y := s[x]];
    assert s == s[..x] + [s[x]] + s[x + 1..y] + [s[y]] + s[y + 1..];
    assert t == s[..x] + [s[y]] + s[x + 1..y] + [s[x]] + s[y + 1..];
  }

  /** Every element of a sequence is one of the values of its multiset. */
  lemma ElementsAreValues<E>(s: seq<E>, vals: multiset<E>)
    requires multiset(s) == vals
    ensures forall k :: 0 <= k < |s| ==> s[k] in vals
  {
  }

  /**
   * When `less` relates any two different values, a multiset has only one
   * ordered arrangement, so the result of sorting is determined by the
   * input's elements alone.
   */
  lemma {:induction false} OrderedArrangementUnique<E(!new)>(s: seq<E>, t: seq<E>, less: (E, E) -> bool)
    requires Connected(less)
    requires Ordered(s, less) && Ordered(t, less)
    requires multiset(s) == multiset(t)
    ensures s == t
  {
    if s != [] {
      OrderedHeadsEqual(s, t, less);
      assert s == [s[0]] + s[1..];
      assert t == [t[0]] + t[1..];
      assert multiset(s) == multiset{s[0]} + multiset(s[1..]);
      assert multiset(t) == multiset{t[0]} + multiset(t[1..]);
      assert multiset(s[1..]) == multiset(s) - multiset{s[0]};
      assert multiset(t[1..]) == multiset(t) - multiset{t[0]};
      OrderedArrangementUnique(s[1..], t[1..], less);
    }
  }

  /** Two ordered arrangements of one non-empty multiset start with the same value. */
  lemma OrderedHeadsEqual<E(!new)>(s: seq<E>, t: seq<E>, less: (E, E) -> bool)
    requires Connected(less)
    requires Ordered(s, less) && Ordered(t, less)
    requires multiset(s) == multiset(t) && s != []
    ensures t != [] && s[0] == t[0]
  {
    assert s[0] in multiset(t);
    assert t[0] in multiset(s);
    var k :| 0 <= k < |t| && t[k] == s[0];
    var m :| 0 <= m < |s| && s[m] == t[0];
    // Otherwise s[0] comes after t[0] in t and t[0] after s[0] in s, so neither is less.
  }
}
