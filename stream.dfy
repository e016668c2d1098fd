/**
 * `Stream[E]` of stream.go: the earlier revision of the same container, with
 * no `FlatMap` and no `Intersect`. It declares its own free `Map`, so it is an
 * alternative to collection.go, not part of one package with it. Modelled as
 * Collections is: the receiver is a `seq<E>`, each receiver method a
 * module-level method, Go's method `Map` is named MapSame. The specification
 * functions are the shared ones of module Sequences.
 */
module Streams {
  import opened Sequences
  import Sorting

  /** Keeps the elements satisfying `f`, in order. */
  method Filter<E>(s: seq<E>, f: E -> bool) returns (filtered: seq<E>)
    ensures filtered == Filtered(s, f)
  {
    filtered := [];
    for i := 0 to |s|
      invariant filtered == Filtered(s[..i], f)
    {
      assert s[..i + 1][..i] == s[..i];
      var e := s[i];
      if f(e) {
        filtered := filtered + [e];
      }
    }
    assert s[..|s|] == s;
  }

  /** True iff every element satisfies `f`; the scan stops at the first that does not. */
  function AllMatch<E>(s: seq<E>, f: E -> bool): (all: bool)
    ensures all <==> forall k :: 0 <= k < |s| ==> f(s[k])
  {
    if s == [] then true
    else if !f(s[0]) then false
    else AllMatch(s[1..], f)
  }

  /** True iff some element satisfies `f`; the scan stops at the first that does. */
  function AnyMatch<E>(s: seq<E>, f: E -> bool): (any: bool)
    ensures any <==> exists k :: 0 <= k < |s| && f(s[k])
  {
    if s == [] then false
    else if f(s[0]) then true
    else
      assert forall k :: 1 <= k < |s| ==> s[k] == s[1..][k - 1];
      AnyMatch(s[1..], f)
  }

  /** Method `Map`: the same-type form, delegating to the free Map. */
  method MapSame<E>(s: seq<E>, f: E -> E) returns (mapped: seq<E>)
    ensures |mapped| == |s| && forall i :: 0 <= i < |s| ==> mapped[i] == f(s[i])
  {
    mapped := Map(s, f);
  }

  /** Method `MapString`: maps every element to a string, delegating to the free Map. */
  method MapString<E>(s: seq<E>, f: E -> string) returns (mapped: seq<string>)
    ensures |mapped| == |s| && forall i :: 0 <= i < |s| ==> mapped[i] == f(s[i])
  {
    mapped := Map(s, f);
  }

  /** Left fold from `initial`, combining the accumulator with each element in order. */
  method Reduce<E>(s: seq<E>, initial: E, f: (E, E) -> E) returns (result: E)
    ensures result == FoldLeft(s, initial, f)
  {
    // Go reassigns its parameter `initial`; a Dafny parameter is immutable.
    result := initial;
    for i := 0 to |s|
      invariant result == FoldLeft(s[..i], initial, f)
    {
      assert s[..i + 1][..i] == s[..i];
      result := f(result, s[i]);
    }
    assert s[..|s|] == s;
  }

  /**
   * Sorts the receiver's backing array in place with `sort.Slice` and returns
   * that same storage: the caller's array is reordered.
   */
  method Sort<E>(s: array<E>, compare: (E, E) -> bool) returns (sorted: array<E>)
    requires Sorting.StrictWeakOrderOn(compare, multiset(s[..]))
    modifies s
    ensures sorted == s
    ensures Sorting.Ordered(s[..], compare)
    ensures multiset(s[..]) == old(multiset(s[..]))
  {
    Sorting.SortSlice(s, compare);
    sorted := s;
  }

  /** The receiver's elements followed by `b`'s. */
  method Concat<E>(s: seq<E>, b: seq<E>) returns (concat: seq<E>)
    ensures concat == s + b
  {
    concat := [];
    for i := 0 to |s|
      invariant concat == s[..i]
    {
      concat := concat + [s[i]];
    }
    for i := 0 to |b|
      invariant concat == s + b[..i]
    {
      concat := concat + [b[i]];
    }
  }

  /** Drops every element equal to an earlier one, tracking the values seen so far. */
  method Distinct<E(==, !new)>(s: seq<E>) returns (distinct: seq<E>)
    ensures distinct == Deduplicated(s)
  {
    distinct := [];
    var seen: set<E> := {};
    for i := 0 to |s|
      invariant distinct == Deduplicated(s[..i])
      invariant forall x :: x in seen <==> x in s[..i]
    {
      assert s[..i + 1][..i] == s[..i];
      assert s[..i + 1] == s[..i] + [s[i]];
      var e := s[i];
      if e in seen {
        continue;
      }
      seen := seen + {e};
      distinct := distinct + [e];
    }
    assert s[..|s|] == s;
  }

  /** Applies `o` to every element, in order; the element type may change. */
  method Map<E, B>(stream: seq<E>, o: E -> B) returns (mapped: seq<B>)
    ensures mapped == Mapped(stream, o)
  {
    mapped := [];
    for i := 0 to |stream|
      invariant mapped == Mapped(stream[..i], o)
    {
      assert stream[..i + 1][..i] == stream[..i];
      mapped := mapped + [o(stream[i])];
    }
    assert stream[..|stream|] == stream;
  }
}
