/**
 * Specification functions shared by both revisions of the container
 * (collection.go and stream.go). Every function here is defined by recursion
 * on the LAST element, so that it follows the append loops of the Go code:
 * after `i` rounds a loop has built `Spec(c[..i])`.
 */
module Sequences {

  /** The elements of `s` that satisfy `f`, in their original order. */
  function Filtered<E>(s: seq<E>, f: E -> bool): (r: seq<E>)
    ensures |r| <= |s|
    ensures forall k :: 0 <= k < |r| ==> f(r[k])
  {
    if s == [] then []
    else Filtered(s[..|s| - 1], f) + (if f(s[|s| - 1]) then [s[|s| - 1]] else [])
  }

  /** The positions of `s` whose element satisfies `f`, in increasing order. */
  function Matching<E>(s: seq<E>, f: E -> bool): (idx: seq<nat>)
    ensures forall k :: 0 <= k < |idx| ==> idx[k] < |s| && f(s[idx[k]])
    ensures forall k, l :: 0 <= k < l < |idx| ==> idx[k] < idx[l]
    ensures forall i :: 0 <= i < |s| && f(s[i]) ==> i in idx
  {
    if s == [] then []
    else
      var p := s[..|s| - 1];
      assert forall i :: 0 <= i < |p| ==> p[i] == s[i];
      Matching(p, f) + (if f(s[|s| - 1]) then [|s| - 1] else [])
  }

  /**
   * Filtering picks exactly the elements at the matching positions: the
   * result is the subsequence of `s` made of every element satisfying `f`,
   * and of nothing else.
   */
  lemma {:induction false} FilteredPicksMatching<E>(s: seq<E>, f: E -> bool)
    ensures |Filtered(s, f)| == |Matching(s, f)|
    ensures forall k :: 0 <= k < |Filtered(s, f)| ==> Filtered(s, f)[k] == s[Matching(s, f)[k]]
  {
    if s != [] {
      var p := s[..|s| - 1];
      FilteredPicksMatching(p, f);
      assert forall i :: 0 <= i < |p| ==> p[i] == s[i];
    }
  }

  /** Filtering distributes over concatenation. */
  lemma {:induction false} FilteredAppend<E>(s: seq<E>, t: seq<E>, f: E -> bool)
    ensures Filtered(s + t, f) == Filtered(s, f) + Filtered(t, f)
  {
    if t != [] {
      var q := t[..|t| - 1];
      assert (s + t)[..|s + t| - 1] == s + q;
      FilteredAppend(s, q, f);
    } else {
      assert s + t == s;
    }
  }

  /** A strict left fold: `f` is applied to the accumulator and each element in index order. */
  function FoldLeft<E, A>(s: seq<E>, init: A, f: (A, E) -> A): A
  {
    if s == [] then init else f(FoldLeft(s[..|s| - 1], init, f), s[|s| - 1])
  }

  /** Folding `s + t` is folding `t` starting from the fold of `s`. */
  lemma {:induction false} FoldLeftAppend<E, A>(s: seq<E>, t: seq<E>, init: A, f: (A, E) -> A)
    ensures FoldLeft(s + t, init, f) == FoldLeft(t, FoldLeft(s, init, f), f)
  {
    if t == [] {
      assert s + t == s;
    } else {
      var q := t[..|t| - 1];
      assert (s + t)[..|s + t| - 1] == s + q;
      FoldLeftAppend(s, q, init, f);
    }
  }

  /** The first element is combined with the initial value first (left, not right, fold). */
  lemma FoldLeftFirst<E, A>(x: E, s: seq<E>, init: A, f: (A, E) -> A)
    ensures FoldLeft([x] + s, init, f) == FoldLeft(s, f(init, x), f)
  {
    FoldLeftAppend([x], s, init, f);
    assert [x][..0] == [];
  }

  /** `o` applied to every element, in order. */
  function Mapped<E, B>(s: seq<E>, o: E -> B): (r: seq<B>)
    ensures |r| == |s|
    ensures forall i :: 0 <= i < |s| ==> r[i] == o(s[i])
  {
    if s == [] then [] else Mapped(s[..|s| - 1], o) + [o(s[|s| - 1])]
  }

  /** Mapping `g` and then `h` is mapping their composition. */
  lemma MappedFusion<E, B, C>(s: seq<E>, g: E -> B, h: B -> C, gh: E -> C)
    requires forall x :: gh(x) == h(g(x))
    ensures Mapped(Mapped(s, g), h) == Mapped(s, gh)
  {
  }

  /** The in-order concatenation of `o(x)` for every element `x` of `s`. */
  function FlatMapped<E, B>(s: seq<E>, o: E -> seq<B>): seq<B>
  {
    if s == [] then [] else FlatMapped(s[..|s| - 1], o) + o(s[|s| - 1])
  }

  /** The sum of the lengths of the inner sequences. */
  function TotalLength<B>(ss: seq<seq<B>>): nat
  {
    if ss == [] then 0 else TotalLength(ss[..|ss| - 1]) + |ss[|ss| - 1]|
  }

  /** The flat-mapped sequence is as long as all the pieces together. */
  lemma {:induction false} FlatMappedLength<E, B>(s: seq<E>, o: E -> seq<B>)
    ensures |FlatMapped(s, o)| == TotalLength(Mapped(s, o))
  {
    if s != [] {
      var p := s[..|s| - 1];
      FlatMappedLength(p, o);
      assert Mapped(s, o)[..|s| - 1] == Mapped(p, o);
    }
  }

  /** Flat-mapping distributes over concatenation. */
  lemma {:induction false} FlatMappedAppend<E, B>(s: seq<E>, t: seq<E>, o: E -> seq<B>)
    ensures FlatMapped(s + t, o) == FlatMapped(s, o) + FlatMapped(t, o)
  {
    if t == [] {
      assert s + t == s;
    } else {
      var q := t[..|t| - 1];
      assert (s + t)[..|s + t| - 1] == s + q;
      FlatMappedAppend(s, q, o);
    }
  }

  /** Flat-mapping with one-element pieces is mapping. */
  lemma {:induction false} FlatMappedSingletons<E, B>(s: seq<E>, o: E -> seq<B>, g: E -> B)
    requires forall x :: o(x) == [g(x)]
    ensures FlatMapped(s, o) == Mapped(s, g)
  {
    if s != [] {
      FlatMappedSingletons(s[..|s| - 1], o, g);
    }
  }

  /** Flat-mapping is the left fold that appends each piece to the accumulator. */
  lemma {:induction false} FlatMappedIsFold<E, B>(s: seq<E>, o: E -> seq<B>, step: (seq<B>, E) -> seq<B>)
    requires forall acc, x :: step(acc, x) == acc + o(x)
    ensures FlatMapped(s, o) == FoldLeft(s, [], step)
  {
    if s != [] {
      FlatMappedIsFold(s[..|s| - 1], o, step);
    }
  }

  /** `s` holds no value twice. */
  predicate NoDuplicates<E(==)>(s: seq<E>)
  {
    forall i, j :: 0 <= i < j < |s| ==> s[i] != s[j]
  }

  /** One copy of `x` for every element of `b` equal to it, in `b`'s order. */
  function Copies<E(==)>(x: E, b: seq<E>): seq<E>
  {
    if b == [] then [] else Copies(x, b[..|b| - 1]) + (if b[|b| - 1] == x then [x] else [])
  }

  /** `x` is copied as many times as it occurs in `b`, and nothing else is. */
  lemma {:induction false} CopiesCount<E>(x: E, b: seq<E>)
    ensures multiset(Copies(x, b)) == multiset{}[x := multiset(b)[x]]
  {
    if b != [] {
      var p := b[..|b| - 1];
      assert b == p + [b[|b| - 1]];
      CopiesCount(x, p);
    }
  }

  /** With a duplicate-free `b`, `x` is copied once if it occurs in `b`, and not at all otherwise. */
  lemma {:induction false} CopiesOfDistinct<E>(x: E, b: seq<E>)
    requires NoDuplicates(b)
    ensures Copies(x, b) == if x in b then [x] else []
  {
    if b != [] {
      var p := b[..|b| - 1];
      assert b == p + [b[|b| - 1]];
      assert NoDuplicates(p);
      CopiesOfDistinct(x, p);
      if b[|b| - 1] == x {
        assert x !in p;
      }
    }
  }

  /**
   * For each element `x` of `c`, in `c`'s order, one copy of `x` per element
   * of `b` equal to it: a filter of `c`, not a set intersection.
   */
  function Intersection<E(==)>(c: seq<E>, b: seq<E>): seq<E>
  {
    if c == [] then [] else Intersection(c[..|c| - 1], b) + Copies(c[|c| - 1], b)
  }

  /** Each value occurs in the intersection as often as in `c` times as often as in `b`. */
  lemma {:induction false} IntersectionCounts<E>(c: seq<E>, b: seq<E>, z: E)
    ensures multiset(Intersection(c, b))[z] == multiset(c)[z] * multiset(b)[z]
  {
    if c != [] {
      var p, y := c[..|c| - 1], c[|c| - 1];
      assert c == p + [y];
      IntersectionCounts(p, b, z);
      var m, n := multiset(p)[z], multiset(b)[z];
      var k := if z == y then 1 else 0;
      CopiesCount(y, b);
      assert multiset(c) == multiset(p) + multiset{y};
      assert multiset(c)[z] == m + k;
      calc {
        multiset(Intersection(c, b))[z];
        multiset(Intersection(p, b))[z] + multiset(Copies(y, b))[z];
        m * n + k * n;
        { Distribute(m, k, n); }
        (m + k) * n;
        multiset(c)[z] * multiset(b)[z];
      }
    }
  }

  lemma Distribute(m: int, k: int, n: int)
    ensures m * n + k * n == (m + k) * n
  {
  }

  /** Every element of the intersection occurs in both inputs, and every element common to both occurs in it. */
  lemma IntersectionMembers<E>(c: seq<E>, b: seq<E>, x: E)
    ensures x in Intersection(c, b) <==> x in c && x in b
  {
    IntersectionCounts(c, b, x);
    var m, n := multiset(c)[x], multiset(b)[x];
    Positive(m, n);
  }

  lemma Positive(m: nat, n: nat)
    ensures m * n > 0 <==> m > 0 && n > 0
  {
    if m > 0 && n > 0 {
      assert m * n >= n;
    }
  }

  /** Against a duplicate-free `b`, the intersection keeps exactly the elements of `c` found in `b`, in `c`'s order. */
  lemma {:induction false} IntersectionOfDistinct<E>(c: seq<E>, b: seq<E>, inB: E -> bool)
    requires NoDuplicates(b)
    requires forall x :: inB(x) <==> x in b
    ensures Intersection(c, b) == Filtered(c, inB)
  {
    if c != [] {
      IntersectionOfDistinct(c[..|c| - 1], b, inB);
      CopiesOfDistinct(c[|c| - 1], b);
    }
  }

  /** The position at which `x` first occurs in `s`. */
  function FirstIndex<E(==)>(s: seq<E>, x: E): (i: nat)
    requires x in s
    ensures i < |s| && s[i] == x && x !in s[..i]
  {
    if s[0] == x then 0
    else
      var i := FirstIndex(s[1..], x);
      assert s[..i + 1] == [s[0]] + s[1..][..i];
      i + 1
  }

  /** Any position holding the first occurrence of `x` is the one FirstIndex gives. */
  lemma FirstIndexUnique<E>(s: seq<E>, x: E, i: nat)
    requires i < |s| && s[i] == x && x !in s[..i]
    ensures FirstIndex(s, x) == i
  {
    var j := FirstIndex(s, x);
    assert s[..j][..] == s[..j];
  }

  /** Appending elements does not move the first occurrence of a value already present. */
  lemma FirstIndexPrefix<E>(p: seq<E>, q: seq<E>, x: E)
    requires x in p
    ensures FirstIndex(p + q, x) == FirstIndex(p, x)
  {
    var i := FirstIndex(p, x);
    assert (p + q)[..i] == p[..i];
    FirstIndexUnique(p + q, x, i);
  }

  /** The elements of `s` with every repeated occurrence after the first dropped. */
  function Deduplicated<E(==, !new)>(s: seq<E>): (r: seq<E>)
    ensures forall x :: x in r <==> x in s
    ensures NoDuplicates(r)
  {
    if s == [] then []
    else
      var p := s[..|s| - 1];
      var x := s[|s| - 1];
      assert s == p + [x];
      if x in p then Deduplicated(p) else Deduplicated(p) + [x]
  }

  /** The deduplicated elements come in the order of their first occurrences in `s`. */
  lemma {:induction false} DeduplicatedKeepsFirstOccurrenceOrder<E(!new)>(s: seq<E>)
    ensures forall i, j :: 0 <= i < j < |Deduplicated(s)| ==>
      FirstIndex(s, Deduplicated(s)[i]) < FirstIndex(s, Deduplicated(s)[j])
  {
    if s != [] {
      var p := s[..|s| - 1];
      var x := s[|s| - 1];
      assert s == p + [x];
      var r, rp := Deduplicated(s), Deduplicated(p);
      DeduplicatedKeepsFirstOccurrenceOrder(p);
      forall i, j | 0 <= i < j < |r|
        ensures FirstIndex(s, r[i]) < FirstIndex(s, r[j])
      {
        assert rp[i] in p;
        FirstIndexPrefix(p, [x], rp[i]);
        if j < |rp| {
          assert rp[j] in p;
          FirstIndexPrefix(p, [x], rp[j]);
        } else {
          assert x !in p && r[j] == x;
          assert s[..|p|] == p;
          FirstIndexUnique(s, x, |p|);
        }
      }
    }
  }

  /** A sequence without duplicates is its own deduplication. */
  lemma {:induction false} DeduplicatedOfDistinct<E(!new)>(s: seq<E>)
    requires NoDuplicates(s)
    ensures Deduplicated(s) == s
  {
    if s != [] {
      var p := s[..|s| - 1];
      assert s == p + [s[|s| - 1]];
      assert NoDuplicates(p);
      DeduplicatedOfDistinct(p);
    }
  }

  /** Deduplicating twice is deduplicating once. */
  lemma DeduplicatedIdempotent<E(!new)>(s: seq<E>)
    ensures Deduplicated(Deduplicated(s)) == Deduplicated(s)
  {
    DeduplicatedOfDistinct(Deduplicated(s));
  }
}
