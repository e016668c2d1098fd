/**
 * `Collection[E]` of collection.go: a Go slice type with value receivers. A
 * collection is modelled as the `seq<E>` it holds, each receiver method as a
 * module-level method taking the receiver first. The append loops are loops
 * here, each proved to build the specification function of module Sequences.
 * Go's method forms `Map` and `FlatMap` are named MapSame and FlatMapSame,
 * since a module cannot hold them beside the free `Map` and `FlatMap`.
 */
module Collections {
  import opened Sequences
  import Sorting

  /** Keeps the elements satisfying `f`, in order. */
  method Filter<E>(c: seq<E>, f: E -> bool) returns (filtered: seq<E>)
    ensures filtered == Filtered(c, f)
  {
    filtered := [];
    for i := 0 to |c|
      invariant filtered == Filtered(c[..i], f)
    {
      assert c[..i + 1][..i] == c[..i];
      var e := c[i];
      if f(e) {
        filtered := filtered + [e];
      }
    }
    assert c[..|c|] == c;
  }

  /** True iff every element satisfies `f`; the scan stops at the first that does not. */
  function AllMatch<E>(c: seq<E>, f: E -> bool): (all: bool)
    ensures all <==> forall k :: 0 <= k < |c| ==> f(c[k])
  {
    if c == [] then true
    else if !f(c[0]) then false
    else AllMatch(c[1..], f)
  }

  /** True iff some element satisfies `f`; the scan stops at the first that does. */
  function AnyMatch<E>(c: seq<E>, f: E -> bool): (any: bool)
    ensures any <==> exists k :: 0 <= k < |c| && f(c[k])
  {
    if c == [] then false
    else if f(c[0]) then true
    else
      assert forall k :: 1 <= k < |c| ==> c[k] == c[1..][k - 1];
      AnyMatch(c[1..], f)
  }

  /** Method `Map`: the same-type form, delegating to the free Map. */
  method MapSame<E>(c: seq<E>, f: E -> E) returns (mapped: seq<E>)
    ensures |mapped| == |c| && forall i :: 0 <= i < |c| ==> mapped[i] == f(c[i])
  {
    mapped := Map(c, f);
  }

  /** Method `FlatMap`: the same-type form, delegating to the free FlatMap. */
  method FlatMapSame<E>(c: seq<E>, f: E -> seq<E>) returns (mapped: seq<E>)
    ensures mapped == FlatMapped(c, f)
  {
    mapped := FlatMap(c, f);
  }

  /** Method `MapString`: maps every element to a string, delegating to the free Map. */
  method MapString<E>(c: seq<E>, f: E -> string) returns (mapped: seq<string>)
    ensures |mapped| == |c| && forall i :: 0 <= i < |c| ==> mapped[i] == f(c[i])
  {
    mapped := Map(c, f);
  }

  /** Left fold from `initial`, combining the accumulator with each element in order. */
  method Reduce<E>(c: seq<E>, initial: E, f: (E, E) -> E) returns (result: E)
    ensures result == FoldLeft(c, initial, f)
  {
    // Go reassigns its parameter `initial`; a Dafny parameter is immutable.
    result := initial;
    for i := 0 to |c|
      invariant result == FoldLeft(c[..i], initial, f)
    {
      assert c[..i + 1][..i] == c[..i];
      result := f(result, c[i]);
    }
    assert c[..|c|] == c;
  }

  /**
   * Sorts the receiver's backing array in place with `sort.Slice` and returns
   * that same storage: the caller's array is reordered.
   */
  method Sort<E>(c: array<E>, compare: (E, E) -> bool) returns (sorted: array<E>)
    requires Sorting.StrictWeakOrderOn(compare, multiset(c[..]))
    modifies c
    ensures sorted == c
    ensures Sorting.Ordered(c[..], compare)
    ensures multiset(c[..]) == old(multiset(c[..]))
  {
    Sorting.SortSlice(c, compare);
    sorted := c;
  }

  /** The receiver's elements followed by `b`'s. */
  method Concat<E>(c: seq<E>, b: seq<E>) returns (concat: seq<E>)
    ensures concat == c + b
  {
    concat := [];
    for i := 0 to |c|
      invariant concat == c[..i]
    {
      concat := concat + [c[i]];
    }
    for i := 0 to |b|
      invariant concat == c + b[..i]
    {
      concat := concat + [b[i]];
    }
  }

  /** For each element of the receiver, one copy per equal element of `b`. */
  method Intersect<E(==)>(c: seq<E>, b: seq<E>) returns (intersect: seq<E>)
    ensures intersect == Intersection(c, b)
  {
    intersect := [];
    for i := 0 to |c|
      invariant intersect == Intersection(c[..i], b)
    {
      assert c[..i + 1][..i] == c[..i];
      var x := c[i];
      for j := 0 to |b|
        invariant intersect == Intersection(c[..i], b) + Copies(x, b[..j])
      {
        assert b[..j + 1][..j] == b[..j];
        assert Copies(x, b[..j + 1]) == Copies(x, b[..j]) + (if b[j] == x then [x] else []);
        if x == b[j] {
          intersect := intersect + [x];
        }
      }
      assert b[..|b|] == b;
      assert Intersection(c[..i + 1], b) == Intersection(c[..i], b) + Copies(x, b);
    }
    assert c[..|c|] == c;
  }

  /** Drops every element equal to an earlier one, tracking the values seen so far. */
  method Distinct<E(==, !new)>(c: seq<E>) returns (distinct: seq<E>)
    ensures distinct == Deduplicated(c)
  {
    distinct := [];
    var seen: set<E> := {};
    for i := 0 to |c|
      invariant distinct == Deduplicated(c[..i])
      invariant forall x :: x in seen <==> x in c[..i]
    {
      assert c[..i + 1][..i] == c[..i];
      assert c[..i + 1] == c[..i] + [c[i]];
      var e := c[i];
      if e in seen {
        continue;
      }
      seen := seen + {e};
      distinct := distinct + [e];
    }
    assert c[..|c|] == c;
  }

  /** Applies `o` to every element, in order; the element type may change. */
  method Map<E, B>(stream: seq<E>, o: E -> B) returns (mapped: seq<B>)
    ensures mapped == Mapped(stream, o)
  {
    mapped := [];
    for i := 0 to |stream|
      invariant mapped == Mapped(stream[..i], o)
    {
      assert stream[..i + 1][..i] == stream[..i];
      mapped := mapped + [o(stream[i])];
    }
    assert stream[..|stream|] == stream;
  }

  /** Concatenates `o(e)` for every element `e`, in order; the element type may change. */
  method FlatMap<E, B>(stream: seq<E>, o: E -> seq<B>) returns (mapped: seq<B>)
    ensures mapped == FlatMapped(stream, o)
  {
    mapped := [];
    for i := 0 to |stream|
      invariant mapped == FlatMapped(stream[..i], o)
    {
      assert stream[..i + 1][..i] == stream[..i];
      var toFlatten := o(stream[i]);
      for j := 0 to |toFlatten|
        invariant mapped == FlatMapped(stream[..i], o) + toFlatten[..j]
      {
        mapped := mapped + [toFlatten[j]];
      }
      assert toFlatten[..|toFlatten|] == toFlatten;
    }
    assert stream[..|stream|] == stream;
  }
}
