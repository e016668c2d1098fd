/**
 * The concrete cases of the Go tests, as clients of the model: each method
 * calls the modelled operation and its postcondition is the value the test
 * expects, so the operation's contract alone must determine that value.
 */
module Scenarios {
  import opened Sequences
  import opened Functions
  import Sorting
  import Collections

  method FilterScenario() returns (r: seq<int>)
    ensures r == [2, 3]
  {
    r := Collections.Filter([1, 2, 3], e => e >= 2);
    assert [1, 2, 3][..2] == [1, 2] && [1, 2][..1] == [1];
  }

  method MapScenario() returns (r: seq<int>)
    ensures r == [2, 3, 4]
  {
    r := Collections.MapSame([1, 2, 3], e => e + 1);
  }

  method FlatMapScenario() returns (r: seq<int>)
    ensures r == [1, 1, 2, 1, 2, 3]
  {
    r := Collections.FlatMapSame([1, 2, 3], e => if 0 <= e <= 3 then [1, 2, 3][..e] else []);
    assert [1, 2, 3][..2] == [1, 2] && [1, 2][..1] == [1];
  }

  method ReduceScenario() returns (r: string)
    ensures r == "abc"
  {
    r := Collections.Reduce(["a", "b", "c"], "", (sub, e) => sub + e);
    assert ["a", "b", "c"][..2] == ["a", "b"] && ["a", "b"][..1] == ["a"];
  }

  method ConcatScenario() returns (r: seq<int>)
    ensures r == [1, 2, 3, 4]
  {
    r := Collections.Concat([1, 2], [3, 4]);
  }

  method IntersectScenario() returns (r: seq<int>)
    ensures r == [2, 3]
  {
    var b := [2, 3, 4];
    r := Collections.Intersect([1, 2, 3], b);
    var inB := (x: int) => x in b;
    assert NoDuplicates(b);
    IntersectionOfDistinct([1, 2, 3], b, inB);
    assert !inB(1) && inB(2) && inB(3);
    assert [1, 2, 3][..2] == [1, 2] && [1, 2][..1] == [1];
    assert Filtered([1], inB) == [];
    assert Filtered([1, 2], inB) == [2];
  }

  /** Intersect is not a set intersection: one copy per equal element of the argument. */
  method IntersectKeepsDuplicates() returns (r: seq<int>)
    ensures r == [1, 1]
  {
    r := Collections.Intersect([1], [1, 1]);
    assert [1][..0] == [] && [1, 1][..1] == [1];
  }

  method DistinctScenario() returns (r: seq<int>)
    ensures r == [1, 2, 3, 4]
  {
    r := Collections.Distinct([1, 1, 2, 2, 3, 4, 4]);
    var s := [1, 1, 2, 2, 3, 4, 4];
    assert Deduplicated(s[..1]) == [1] by { assert s[..1][..0] == []; }
    assert Deduplicated(s[..2]) == [1] by { assert s[..2][..1] == s[..1]; }
    assert Deduplicated(s[..3]) == [1, 2] by { assert s[..3][..2] == s[..2]; }
    assert Deduplicated(s[..4]) == [1, 2] by { assert s[..4][..3] == s[..3]; }
    assert Deduplicated(s[..5]) == [1, 2, 3] by { assert s[..5][..4] == s[..4]; }
    assert Deduplicated(s[..6]) == [1, 2, 3, 4] by { assert s[..6][..5] == s[..5]; }
    assert Deduplicated(s) == [1, 2, 3, 4] by { assert s[..6] == s[..|s| - 1]; }
  }

  /** `<` on integers is a strict weak order on any values, relating any two different ones. */
  lemma IntLessIsTotal(less: (int, int) -> bool, vals: multiset<int>)
    requires forall i, j :: less(i, j) == (i < j)
    ensures Sorting.StrictWeakOrderOn(less, vals) && Sorting.Connected(less)
  {
  }

  /**
   * Sort asks for a strict weak order only among the values being sorted: this
   * comparator orders 3, 1, 2 like `<`, yet relates -1 to itself.
   */
  lemma OrderOnSortedValuesOnly(less: (int, int) -> bool)
    requires forall i, j :: less(i, j) == (i < 0 || j < 0 || i < j)
    ensures Sorting.StrictWeakOrderOn(less, multiset([3, 1, 2]))
    ensures less(-1, -1)
  {
  }

  method SortScenario() returns (r: seq<int>)
    ensures r == [1, 2, 3]
  {
    var a := new int[3];
    a[0], a[1], a[2] := 3, 1, 2;
    assert a[..] == [3, 1, 2];
    var less := (i: int, j: int) => i < j;
    IntLessIsTotal(less, multiset(a[..]));
    var sorted := Collections.Sort(a, less);
    r := sorted[..];
    OnlyOrderedArrangement(r, less);
  }

  /** The only arrangement of 3, 1, 2 ordered by `<` is 1, 2, 3. */
  lemma OnlyOrderedArrangement(r: seq<int>, less: (int, int) -> bool)
    requires forall i, j :: less(i, j) == (i < j)
    requires Sorting.Ordered(r, less) && multiset(r) == multiset([3, 1, 2])
    ensures r == [1, 2, 3]
  {
    IntLessIsTotal(less, multiset(r));
    assert multiset([3, 1, 2]) == multiset([1, 2, 3]);
    assert Sorting.Ordered([1, 2, 3], less);
    Sorting.OrderedArrangementUnique(r, [1, 2, 3], less);
  }

  /** `len` composed with `"my" +` gives 3 on "a"; `len` and then `+ 1` gives 2. */
  lemma FunctionScenario()
    ensures Precompose((e: string) => |e|, (e: string) => "my" + e)("a") == 3
    ensures AndThen((e: string) => |e|, (n: int) => n + 1)("a") == 2
  {
  }

  /** The length of the first element, failing on an empty list. */
  lemma ComposeEScenario(first: FunctionE<seq<string>, string>, len: FunctionE<string, int>)
    requires forall l :: first(l) == if l == [] then Returned("", Fault(0)) else Returned(l[0], Nil)
    requires forall s :: len(s) == Returned(|s|, Nil)
    ensures ComposeE(first, len, 0)(["abc", "bd"]) == Returned(3, Nil)
    ensures ComposeE(first, len, 0)([]) == Returned(0, Fault(0))
  {
  }
}
