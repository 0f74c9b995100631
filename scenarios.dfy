/**
 * The concrete cases the collection's test suite asserts, each proved of the
 * model: construction, membership, length, iteration in both directions,
 * indexing, slicing, index/count, `+`, `*`, repr, equality and hashing.
 * Each case first settles what the constructor builds from the test's input
 * and then states the assertion about that collection.
 */
module Scenarios {
  import opened Results
  import opened Ordering
  import opened SortedFrozenSets
  import Cursors
  import Rendering

  /** Building from input whose distinct values, ascending, are `expected` gives exactly `expected`. */
  lemma BuildGives(input: seq<int>, expected: seq<int>)
    requires StrictlyIncreasing(expected)
    requires Elements(expected) == Elements(input)
    ensures Build(input) == SortedFrozenSet(expected)
  {
    CanonicalUnique(Build(input).items, expected);
  }

  /** The constructor with empty input or no input at all. */
  lemma ConstructEmptyScenario()
    ensures Build([]) == Empty
  {
    BuildGives([], []);
  }

  /** The constructor with ascending input keeps it as it is. */
  lemma ConstructNonEmptyScenario()
    ensures Build([2, 4, 9]) == SortedFrozenSet([2, 4, 9])
  {
    BuildGives([2, 4, 9], [2, 4, 9]);
  }

  /** The constructor sorts and collapses the duplicate 1. */
  lemma ConstructDeduplicatesScenario()
    ensures Build([7, 2, 1, 1, 9]) == SortedFrozenSet([1, 2, 7, 9])
  {
    BuildGives([7, 2, 1, 1, 9], [1, 2, 7, 9]);
  }

  /** The collection the membership cases query. */
  lemma ContainerBuildScenario()
    ensures Build([3, 4, 6, 9]) == SortedFrozenSet([3, 4, 6, 9])
  {
    BuildGives([3, 4, 6, 9], [3, 4, 6, 9]);
  }

  /** `in` and `not in` on SortedFrozenSet([3, 4, 6, 9]). */
  lemma ContainerScenarios()
    ensures var s := SortedFrozenSet([3, 4, 6, 9]);
            Contains(s, 3) && !Contains(s, 5) && !Contains(s, 7) && Contains(s, 9)
  {
    assert 5 !in [3, 4, 6, 9] && 7 !in [3, 4, 6, 9];
    assert [3, 4, 6, 9][0] == 3 && [3, 4, 6, 9][3] == 9;
  }

  /** len of the empty collection, of one element, and of range(17). */
  lemma SizedScenarios()
    ensures Len(Empty) == 0
    ensures Build([38]) == SortedFrozenSet([38]) && Len(SortedFrozenSet([38])) == 1
    ensures Len(Build(seq(17, i => i))) == 17
  {
    var r := seq(17, i => i);
    DistinctCount(r);
    LenOfBuild(r);
    BuildGives([38], [38]);
  }

  /** iter over SortedFrozenSet([7, 2, 1, 1, 9]) yields 1, 2, 7, 9 and then signals the end. */
  method IterationScenario() returns (s: SortedFrozenSet, outs: seq<Option<int>>)
    ensures s == Build([7, 2, 1, 1, 9])
    ensures outs == [Some(1), Some(2), Some(7), Some(9), None]
  {
    ConstructDeduplicatesScenario();
    s := SortedFrozenSet([1, 2, 7, 9]);
    outs := Cursors.Iterate(s, 5);
  }

  /** reversed(SortedFrozenSet([1, 3, 5, 7])) yields 7, 5, 3, 1 and then signals the end. */
  method ReversedScenario() returns (s: SortedFrozenSet, outs: seq<Option<int>>)
    ensures s == Build([1, 3, 5, 7])
    ensures outs == [Some(7), Some(5), Some(3), Some(1), None]
  {
    BuildGives([1, 3, 5, 7], [1, 3, 5, 7]);
    s := SortedFrozenSet([1, 3, 5, 7]);
    outs := Cursors.IterateReversed(s, 5);
  }

  /** Integer indexing of SortedFrozenSet([1, 4, 9, 13, 15]), from both ends and just outside. */
  lemma IndexingScenarios()
    ensures Build([1, 4, 9, 13, 15]) == SortedFrozenSet([1, 4, 9, 13, 15])
    ensures var s := SortedFrozenSet([1, 4, 9, 13, 15]);
            && At(s, 0) == Ok(1) && At(s, 4) == Ok(15) && At(s, 5) == Err(IndexError)
            && At(s, -1) == Ok(15) && At(s, -5) == Ok(1) && At(s, -6) == Err(IndexError)
  {
    BuildGives([1, 4, 9, 13, 15], [1, 4, 9, 13, 15]);
  }

  /** s[:2] on SortedFrozenSet([1, 4, 9, 13, 15]) is its first two elements. */
  lemma SlicePrefixScenario()
    ensures Slice(SortedFrozenSet([1, 4, 9, 13, 15]), None, Some(2), None) == Build([1, 4])
  {
    BuildGives([1, 4], [1, 4]);
    var s := SortedFrozenSet([1, 4, 9, 13, 15]);
    assert SliceBounds(5, None, Some(2)) == (0, 2);
    assert Pick(s.items, 0, 2, 1) == [1, 4];
  }

  /** s[3:] is everything from position 3 on. */
  lemma SliceSuffixScenario()
    ensures Slice(SortedFrozenSet([1, 4, 9, 13, 15]), Some(3), None, None) == Build([13, 15])
  {
    BuildGives([13, 15], [13, 15]);
    var s := SortedFrozenSet([1, 4, 9, 13, 15]);
    assert SliceBounds(5, Some(3), None) == (3, 5);
    assert Pick(s.items, 3, 5, 1) == [13, 15];
  }

  /** s[10:], starting past the end, is empty. */
  lemma SlicePastEndScenario()
    ensures Slice(SortedFrozenSet([1, 4, 9, 13, 15]), Some(10), None, None) == Build([])
  {
    BuildGives([], []);
    var s := SortedFrozenSet([1, 4, 9, 13, 15]);
    assert SliceBounds(5, Some(10), None) == (5, 5);
    assert Pick(s.items, 5, 5, 1) == [];
  }

  /** s[1:4] is the middle run. */
  lemma SliceMiddleScenario()
    ensures Slice(SortedFrozenSet([1, 4, 9, 13, 15]), Some(1), Some(4), None) == Build([4, 9, 13])
  {
    BuildGives([4, 9, 13], [4, 9, 13]);
    var s := SortedFrozenSet([1, 4, 9, 13, 15]);
    assert SliceBounds(5, Some(1), Some(4)) == (1, 4);
    assert Pick(s.items, 1, 4, 1) == [4, 9, 13];
  }

  /** s[0:5:2] takes every other element, and s[:] is s itself. */
  lemma SliceSteppedScenario()
    ensures var s := SortedFrozenSet([1, 4, 9, 13, 15]);
            && Slice(s, Some(0), Some(5), Some(2)) == Build([1, 9, 15])
            && Slice(s, None, None, None) == s
  {
    BuildGives([1, 9, 15], [1, 9, 15]);
    var s := SortedFrozenSet([1, 4, 9, 13, 15]);
    var stepped := Slice(s, Some(0), Some(5), Some(2));
    assert |stepped.items| == 3;
    assert stepped.items[0] == s.items[0] && stepped.items[1] == s.items[2] && stepped.items[2] == s.items[4];
    SliceFull(s);
  }

  /** index on SortedFrozenSet([1, 5, 8, 9]): a present and an absent value. */
  lemma IndexScenarios()
    ensures Build([1, 5, 8, 9]) == SortedFrozenSet([1, 5, 8, 9])
    ensures Index(SortedFrozenSet([1, 5, 8, 9]), 5) == Ok(1)
    ensures Index(SortedFrozenSet([1, 5, 8, 9]), 10) == Err(ValueError)
  {
    BuildGives([1, 5, 8, 9], [1, 5, 8, 9]);
  }

  /** The collection the count cases query. */
  lemma CountBuildScenario()
    ensures Build([1, 5, 7, 9]) == SortedFrozenSet([1, 5, 7, 9])
  {
    BuildGives([1, 5, 7, 9], [1, 5, 7, 9]);
  }

  /** count on SortedFrozenSet([1, 5, 7, 9]): an absent and a present value. */
  lemma CountScenarios()
    ensures Count(SortedFrozenSet([1, 5, 7, 9]), 12) == 0
    ensures Count(SortedFrozenSet([1, 5, 7, 9]), 9) == 1
  {
    assert 12 !in [1, 5, 7, 9];
    assert [1, 5, 7, 9][3] == 9;
  }

  /** `+` of disjoint collections, on the sets the constructor builds. */
  lemma AddDisjointScenario()
    ensures Add(Frozen(Build([1, 2, 3])), Frozen(Build([4, 5, 6]))) == Ok(Build([1, 2, 3, 4, 5, 6]))
  {
    BuildGives([1, 2, 3], [1, 2, 3]);
    BuildGives([4, 5, 6], [4, 5, 6]);
    BuildGives([1, 2, 3, 4, 5, 6], [1, 2, 3, 4, 5, 6]);
    AddDisjointLiteral();
  }

  lemma AddDisjointLiteral()
    ensures Add(Frozen(SortedFrozenSet([1, 2, 3])), Frozen(SortedFrozenSet([4, 5, 6])))
            == Ok(SortedFrozenSet([1, 2, 3, 4, 5, 6]))
  {
    var a, b := SortedFrozenSet([1, 2, 3]), SortedFrozenSet([4, 5, 6]);
    UnionOfSeparated(a, b);
    assert a.items + b.items == [1, 2, 3, 4, 5, 6];
  }

  /** `+` of a collection with itself. */
  lemma AddEqualScenario()
    ensures Add(Frozen(Build([7, 8, 9])), Frozen(Build([7, 8, 9]))) == Ok(Build([7, 8, 9]))
  {
    BuildGives([7, 8, 9], [7, 8, 9]);
    UnionIdempotent(SortedFrozenSet([7, 8, 9]));
  }

  /** `+` of overlapping collections keeps the shared values once. */
  lemma AddOverlappingScenario()
    ensures Add(Frozen(Build([1, 2, 3])), Frozen(Build([3, 4, 5]))) == Ok(Build([1, 2, 3, 4, 5]))
  {
    BuildGives([1, 2, 3], [1, 2, 3]);
    BuildGives([3, 4, 5], [3, 4, 5]);
    BuildGives([1, 2, 3, 4, 5], [1, 2, 3, 4, 5]);
    AddOverlappingLiteral();
  }

  lemma AddOverlappingLiteral()
    ensures Add(Frozen(SortedFrozenSet([1, 2, 3])), Frozen(SortedFrozenSet([3, 4, 5])))
            == Ok(SortedFrozenSet([1, 2, 3, 4, 5]))
  {
    assert Merge([3], [3, 4, 5]) == [3] + Merge([], [4, 5]);
    assert Merge([2, 3], [3, 4, 5]) == [2, 3, 4, 5];
    assert Merge([1, 2, 3], [3, 4, 5]) == [1, 2, 3, 4, 5];
  }

  /** `+` with a tuple on either side is a type error. */
  lemma AddForeignScenario()
    ensures Add(Frozen(SortedFrozenSet([1, 2, 3])), Foreign([4, 5, 6])) == Err(TypeError)
    ensures Add(Foreign([1, 2, 3]), Frozen(SortedFrozenSet([4, 5, 6]))) == Err(TypeError)
  {
  }

  /** `*` by zero, a negative and a large count; `n * s` is the same operation. */
  lemma RepeatScenarios()
    ensures Repeat(SortedFrozenSet([1, 2, 3]), 0) == Build([])
    ensures Repeat(SortedFrozenSet([4, 5, 6]), -1) == Build([])
    ensures Repeat(SortedFrozenSet([7, 8, 9]), 1000) == SortedFrozenSet([7, 8, 9])
  {
    BuildGives([], []);
  }

  /** repr of the empty collection. */
  lemma ReprEmptyScenario()
    ensures Rendering.Repr(Empty) == "SortedFrozenSet()"
  {
  }

  /** repr of SortedFrozenSet([12, 18, 39]) shows the list of its elements. */
  lemma ReprScenario()
    ensures Rendering.Repr(SortedFrozenSet([12, 18, 39])) == "SortedFrozenSet([12, 18, 39])"
  {
    assert Rendering.Digits(12) == "12";
    assert Rendering.Digits(18) == "18";
    assert Rendering.Digits(39) == "39";
  }

  /** `==` and `!=` between collections built from permuted or different input, against a list, and with itself. */
  lemma EqualityScenarios()
    ensures Build([9, 8, 7]) == SortedFrozenSet([7, 8, 9])
    ensures var s789, s456, s123 := SortedFrozenSet([7, 8, 9]), SortedFrozenSet([4, 5, 6]), SortedFrozenSet([1, 2, 3]);
            && Equal(s789, Frozen(s789))
            && !Equal(s789, Frozen(s456))
            && !Equal(s123, Foreign([1, 2, 3]))
            && Equal(s456, Frozen(s456))
            && NotEqual(s123, Frozen(s456))
            && !NotEqual(s789, Frozen(s789))
            && NotEqual(s456, Foreign([4, 5, 6]))
            && !NotEqual(s123, Frozen(s123))
  {
    BuildGives([9, 8, 7], [7, 8, 9]);
  }

  /**
   * Two collections built from [5, 2, 1, 4] hash alike, whatever the tuple
   * hash: both hash as the ascending tuple (1, 2, 4, 5).
   */
  lemma HashScenario(tupleHash: seq<int> -> int)
    ensures Hash(Build([5, 2, 1, 4]), tupleHash) == tupleHash([1, 2, 4, 5])
  {
    BuildGives([5, 2, 1, 4], [1, 2, 4, 5]);
  }
}
