/**
 * Properties relating the container operations to each other and to the
 * predicate and function wrappers they are called with.
 */
module Laws {
  import opened Sequences
  import opened Functions
  import Collections

  /** Filtering with `True` keeps everything. */
  lemma {:induction false} FilterTrueKeepsAll<E>(s: seq<E>)
    ensures Filtered(s, True()) == s
  {
    if s != [] {
      FilterTrueKeepsAll(s[..|s| - 1]);
      assert s == s[..|s| - 1] + [s[|s| - 1]];
    }
  }

  /** Filtering with `False` keeps nothing. */
  lemma FilterFalseKeepsNone<E>(s: seq<E>)
    ensures Filtered(s, False()) == []
  {
  }

  /** Filtering by `p` and then by `q` is filtering by `p.And(q)`. */
  lemma {:induction false} FilterAndFusion<E>(s: seq<E>, p: Predicate<E>, q: Predicate<E>)
    ensures Filtered(Filtered(s, p), q) == Filtered(s, And(p, q))
  {
    if s != [] {
      var rest, x := s[..|s| - 1], s[|s| - 1];
      FilterAndFusion(rest, p, q);
      FilteredAppend(Filtered(rest, p), if p(x) then [x] else [], q);
    }
  }

  /** Every element goes to exactly one of `Filter(p)` and `Filter(p.Negate())`. */
  lemma {:induction false} FilterNegatePartition<E>(s: seq<E>, p: Predicate<E>)
    ensures multiset(Filtered(s, p)) + multiset(Filtered(s, Negate(p))) == multiset(s)
  {
    if s != [] {
      var rest := s[..|s| - 1];
      FilterNegatePartition(rest, p);
      assert s == rest + [s[|s| - 1]];
    }
  }

  /** AllMatch holds exactly when filtering drops nothing. */
  lemma {:induction false} AllMatchIffFilterKeepsAll<E>(s: seq<E>, f: Predicate<E>)
    ensures Collections.AllMatch(s, f) <==> Filtered(s, f) == s
  {
    if s != [] {
      var rest := s[..|s| - 1];
      AllMatchIffFilterKeepsAll(rest, f);
      assert s == rest + [s[|s| - 1]];
      if Collections.AllMatch(s, f) {
        assert Collections.AllMatch(rest, f);
      }
    }
  }

  /** AnyMatch holds exactly when filtering keeps something. */
  lemma AnyMatchIffFilterKeepsSome<E>(s: seq<E>, f: Predicate<E>)
    ensures Collections.AnyMatch(s, f) <==> Filtered(s, f) != []
  {
    FilteredPicksMatching(s, f);
    if Collections.AnyMatch(s, f) {
      var k :| 0 <= k < |s| && f(s[k]);
      assert k in Matching(s, f);
    }
  }

  /** AllMatch is the negation of AnyMatch of the negated predicate. */
  lemma AllMatchIsNotAnyMatchNegated<E>(s: seq<E>, f: Predicate<E>)
    ensures Collections.AllMatch(s, f) == !Collections.AnyMatch(s, Negate(f))
  {
  }

  /** Mapping with Identity changes nothing. */
  lemma MapIdentity<E>(s: seq<E>)
    ensures Mapped(s, Identity()) == s
  {
  }

  /** Mapping with `Compose(g, h)` is mapping `g` and then `h`. */
  lemma MapCompose<E, B, C>(s: seq<E>, g: Function<E, B>, h: Function<B, C>)
    ensures Mapped(s, Compose(g, h)) == Mapped(Mapped(s, g), h)
  {
    MappedFusion(s, g, h, Compose(g, h));
  }
}
