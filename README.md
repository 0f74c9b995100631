# SortedFrozenSet in Dafny

A model of `SortedFrozenSet`, an immutable collection of integers that is
always kept in ascending order without duplicates. The model covers each
Python protocol the collection implements:

- construction from a list, which sorts and drops duplicates;
- `in` and `not in`, and `len`;
- `iter` and `reversed`;
- integer indexing, with negative indices and `IndexError`;
- slicing with a positive step, with out-of-range bounds clamped;
- `index`, which raises `ValueError` for an absent value, and `count`;
- `+`, a merge-union that raises `TypeError` for an operand of another type;
- `*` on either side;
- `==` and `!=`, including against another type;
- `hash`, consistent with `==`;
- `repr`.

The collection is a value: every operation returns a new one or a plain
answer.

Layout:

- `results.dfy`, module `Results`: `Option`, `Result` and the three Python
  exceptions the collection raises.
- `ordering.dfy`, module `Ordering`: the invariant (strictly increasing), the
  value set `Elements`, and the canonical-form lemma. Two strictly increasing
  sequences with the same values are the same sequence.
- `construction.dfy`, module `Construction`: insertion sort and run
  collapsing, which together give the canonical form of any input.
- `sorted_frozen_set.dfy`, module `SortedFrozenSets`: the collection and its
  operations, each a function whose contract states what the operation
  promises, plus lemmas relating operations to each other and to construction.
- `cursors.dfy`, module `Cursors`: the forward and reverse iterators, as
  classes whose position advances with each `Next`, and methods that drain
  them.
- `rendering.dfy`, module `Rendering`: `repr`.
- `scenarios.dfy`, module `Scenarios`: each assertion of the test suite,
  proved of the model.

The implementation module (`sorted_frozen_set.py`) is not part of this
model. The behaviour modelled is the one its test suite,
`test_sorted_frozen_set.py`, asserts.

Errors are values. `Err(IndexError)`, `Err(ValueError)` and
`Err(TypeError)` stand for the exceptions. `None` from a cursor's `Next`
stands for `StopIteration`. The other operand of `+`, `==` or `!=`, on either side of `+`, is
`Operand.Frozen` when it is a collection and `Operand.Foreign`, carrying its
integers, when it is a value of another type such as a list or a tuple.

## Model

| member | source | states |
|---|---|---|
| Ordering.CanonicalUnique | test_sorted_frozen_set.py:227-228 | Two strictly increasing sequences holding the same values are identical. This is why collections built from permuted input are equal. |
| Ordering.SameLeast | test_sorted_frozen_set.py:227-228 | Helper of `Ordering.CanonicalUnique`, its induction step: two strictly increasing sequences with the same nonempty contents share their least element, and their remainders hold the same values. |
| Ordering.SameElementsIffEqual | test_sorted_frozen_set.py:227-231 | Canonical sequences are equal exactly when they hold the same values, in both directions. |
| Ordering.HeadIsLeast | test_sorted_frozen_set.py:65-70 | Helper of `Ordering.CanonicalUnique` and `SortedFrozenSets.MergeStep`: the first element of a canonical sequence is below all later ones and does not recur. |
| Ordering.DistinctCount | test_sorted_frozen_set.py:51-57 | A canonical sequence has as many distinct values as positions. |
| Ordering.Multiplicity | test_sorted_frozen_set.py:153-159 | In a canonical sequence every value occurs once or not at all. |
| Ordering.RankAt | test_sorted_frozen_set.py:143-145 | The element at position p has exactly p smaller elements. |
| Ordering.ReversedAt | test_sorted_frozen_set.py:130-136 | Reading backwards puts position k at len - 1 - k. |
| Ordering.ReversedElements | test_sorted_frozen_set.py:130-140 | Reading backwards keeps exactly the same values. |
| Ordering.ReversedDescending | test_sorted_frozen_set.py:130-140 | Reading a canonical sequence backwards gives a strictly descending one. |
| Construction.InsertSorted | test_sorted_frozen_set.py:62-63 | Insertion keeps a sorted sequence sorted and adds exactly one occurrence of the value. |
| Construction.SortSorted | test_sorted_frozen_set.py:62-63 | Sorting gives an ascending permutation of the input, as a multiset. |
| Construction.CollapseStrict | test_sorted_frozen_set.py:62-70 | Collapsing runs of a sorted sequence gives a strictly increasing one with the same values. |
| SortedFrozenSets.Build | test_sorted_frozen_set.py:8-20 | The constructor yields a valid collection holding exactly the input's values. Empty and absent input give the empty collection. |
| SortedFrozenSets.BuildFromItems | test_sorted_frozen_set.py:11-12 | Rebuilding from a collection's own elements gives the same collection. |
| SortedFrozenSets.BuildRespectsElements | test_sorted_frozen_set.py:227-231 | Two inputs build the same collection exactly when they hold the same values. |
| SortedFrozenSets.Len | test_sorted_frozen_set.py:41-57 | len is the number of distinct values held. |
| SortedFrozenSets.LenOfBuild | test_sorted_frozen_set.py:51-57 | The length of a built collection is the number of distinct values in the input. |
| SortedFrozenSets.BisectLeft | test_sorted_frozen_set.py:143-150 | Binary search returns the boundary: everything before it is below x and everything from it on is not. |
| SortedFrozenSets.LowerBound | test_sorted_frozen_set.py:143-150 | Bisection within a window keeps that boundary property. |
| SortedFrozenSets.Contains | test_sorted_frozen_set.py:23-38 | `x in s` holds exactly when x is an element; `not in` is its negation. |
| SortedFrozenSets.Index | test_sorted_frozen_set.py:142-150 | index succeeds exactly for a present value. It returns the position holding it, which is its count of smaller elements. Otherwise it gives ValueError. |
| SortedFrozenSets.Count | test_sorted_frozen_set.py:152-159 | count is the value's multiplicity, at most 1, and is 1 exactly when the value is present. It never fails. |
| SortedFrozenSets.At | test_sorted_frozen_set.py:89-108 | s[i] succeeds exactly for -len <= i < len, and is IndexError otherwise. The element returned has i (or len + i) smaller elements. |
| SortedFrozenSets.IndexThenAt | test_sorted_frozen_set.py:143-145 | Indexing with the position index returns gives the value back. |
| SortedFrozenSets.AtThenIndex | test_sorted_frozen_set.py:90-104 | index of s[i] is the normalised i. |
| SortedFrozenSets.Clamp | test_sorted_frozen_set.py:117-118 | A slice bound is clamped into [0, len]. |
| SortedFrozenSets.SliceBounds | test_sorted_frozen_set.py:111-121 | Omitted bounds default to the ends, and the resulting positions lie within [0, len]. |
| SortedFrozenSets.PickAt | test_sorted_frozen_set.py:123-124 | The k-th element selected is the one at position lo + k*step, below hi. |
| SortedFrozenSets.PickLength | test_sorted_frozen_set.py:123-124 | The selection is empty exactly when lo >= hi, and its last position is the final lo + k*step below hi. |
| SortedFrozenSets.PickSelects | test_sorted_frozen_set.py:123-124 | The selection takes exactly the positions lo, lo + step, ... below hi, in order. |
| SortedFrozenSets.MulStrictlyMonotone | test_sorted_frozen_set.py:123-124 | Helper of `SortedFrozenSets.SelectionAscending`, an arithmetic fact: for a positive step, i < j implies i*step < j*step. |
| SortedFrozenSets.SelectionAscending | test_sorted_frozen_set.py:111-127 | A selection from a canonical sequence is canonical and holds only elements of it. |
| SortedFrozenSets.Slice | test_sorted_frozen_set.py:110-127 | s[start:stop:step] is a valid collection holding only elements of s. It holds exactly the elements at the clamped positions lo, lo + step, ... below hi. It never fails. |
| SortedFrozenSets.SliceFull | test_sorted_frozen_set.py:126-127 | s[:] equals s. |
| SortedFrozenSets.SliceContiguous | test_sorted_frozen_set.py:111-121 | With the default step, a slice is the contiguous run of elements between the clamped bounds, or empty. |
| SortedFrozenSets.MergeStep | test_sorted_frozen_set.py:171-174 | Helper of `SortedFrozenSets.MergeUnion`: one merge step emits the smaller head (a shared head once), and it is below everything left. |
| SortedFrozenSets.MergeUnion | test_sorted_frozen_set.py:162-174 | Merging two canonical sequences gives the canonical sequence of their combined values. |
| SortedFrozenSets.PrependBelowAll | test_sorted_frozen_set.py:162-165 | Helper of `SortedFrozenSets.MergeUnion`: a value below all of a canonical sequence can head it. |
| SortedFrozenSets.Union | test_sorted_frozen_set.py:161-174 | The union is a valid collection holding exactly the values of both. |
| SortedFrozenSets.Add | test_sorted_frozen_set.py:161-186 | `+` succeeds exactly when both operands are collections, giving their union. A tuple on either side is TypeError. |
| SortedFrozenSets.UnionIsBuildOfConcatenation | test_sorted_frozen_set.py:171-174 | s + t equals the collection built from s's elements followed by t's. |
| SortedFrozenSets.UnionCommutes | test_sorted_frozen_set.py:162-174 | s + t equals t + s. |
| SortedFrozenSets.UnionIdempotent | test_sorted_frozen_set.py:167-169 | s + s equals s. |
| SortedFrozenSets.UnionOfSeparated | test_sorted_frozen_set.py:162-165 | When all of s lies below all of t, s + t is s's elements followed by t's. |
| SortedFrozenSets.Repeat | test_sorted_frozen_set.py:188-211 | s * n and n * s are valid collections. They hold s's values for n > 0 and nothing for n <= 0. |
| SortedFrozenSets.RepeatListElements | test_sorted_frozen_set.py:189-199 | A list repeated n times holds the list's values for n > 0 and nothing otherwise. |
| SortedFrozenSets.RepeatIsBuildOfRepeatedList | test_sorted_frozen_set.py:189-211 | s * n equals the collection built from s's element list repeated n times. |
| SortedFrozenSets.Equal | test_sorted_frozen_set.py:225-238 | `==` holds exactly for a collection with the same values, which is the same element sequence. It never holds for another type. |
| SortedFrozenSets.NotEqual | test_sorted_frozen_set.py:241-254 | `!=` holds for any other type and for a collection whose values differ. |
| SortedFrozenSets.Hash | test_sorted_frozen_set.py:257-263 | hash(s) is a function of the ascending element sequence only: any valid collection holding the same values gets the same hash from the same tuple hash. |
| SortedFrozenSets.HashConsistentWithEquality | test_sorted_frozen_set.py:257-263 | Collections with the same values are `==` and hash alike, whatever the tuple hash. |
| Cursors.ForwardCursor.constructor | test_sorted_frozen_set.py:65-66 | A fresh `iter(s)` walks s's elements and has handed out nothing. |
| Cursors.ForwardCursor.Next | test_sorted_frozen_set.py:65-74 | next hands out the next element, larger than every earlier one. It signals the end exactly when all have been handed out, and keeps doing so. |
| Cursors.ReverseCursor.constructor | test_sorted_frozen_set.py:130-132 | A fresh `reversed(s)` has handed out nothing. |
| Cursors.ReverseCursor.Next | test_sorted_frozen_set.py:130-140 | next hands out the next element downwards, smaller than every earlier one. It signals the end exactly when all have been handed out. |
| Cursors.Iterate | test_sorted_frozen_set.py:65-74 | The k-th call of next on `iter(s)` gives s[k] while k < len, then the end. |
| Cursors.IterateReversed | test_sorted_frozen_set.py:130-140 | The k-th call of next on `reversed(s)` gives s[len-1-k] while k < len, then the end. |
| Cursors.ToList | test_sorted_frozen_set.py:76-81 | A for loop over s visits exactly s's elements, ascending. |
| Cursors.ToListReversed | test_sorted_frozen_set.py:130-140 | Draining `reversed(s)` gives s's elements in strictly descending order. |
| Rendering.Digits | test_sorted_frozen_set.py:220-222 | Decimal notation is nonempty, all digits, with no leading zero. |
| Rendering.DigitsRoundTrip | test_sorted_frozen_set.py:220-222 | Reading the decimal notation back gives the number. |
| Rendering.Repr | test_sorted_frozen_set.py:214-222 | repr has the form `SortedFrozenSet(...)`, and is `SortedFrozenSet()` exactly for the empty collection. |
| Scenarios.BuildGives | test_sorted_frozen_set.py:8-20 | Input whose distinct values, ascending, are `expected` builds exactly `expected`. |
| Scenarios.ConstructEmptyScenario | test_sorted_frozen_set.py:8-9 | SortedFrozenSet([]) and SortedFrozenSet() are the empty collection. |
| Scenarios.ConstructNonEmptyScenario | test_sorted_frozen_set.py:11-12 | SortedFrozenSet([2, 4, 9]) holds 2, 4, 9. |
| Scenarios.ConstructDeduplicatesScenario | test_sorted_frozen_set.py:62-63 | SortedFrozenSet([7, 2, 1, 1, 9]) holds 1, 2, 7, 9. |
| Scenarios.ContainerBuildScenario | test_sorted_frozen_set.py:25-26 | The membership fixture is SortedFrozenSet([3, 4, 6, 9]). |
| Scenarios.ContainerScenarios | test_sorted_frozen_set.py:28-38 | 3 and 9 are in it; 5 and 7 are not. |
| Scenarios.SizedScenarios | test_sorted_frozen_set.py:43-57 | The lengths are 0, 1 and 17. |
| Scenarios.IterationScenario | test_sorted_frozen_set.py:62-74 | iter yields 1, 2, 7, 9, then the end. |
| Scenarios.ReversedScenario | test_sorted_frozen_set.py:130-140 | reversed yields 7, 5, 3, 1, then the end. |
| Scenarios.IndexingScenarios | test_sorted_frozen_set.py:86-108 | s[0], s[4], s[-1] and s[-5] give 1, 15, 15, 1; s[5] and s[-6] give IndexError. |
| Scenarios.SlicePrefixScenario | test_sorted_frozen_set.py:111-112 | s[:2] equals the collection the constructor builds from [1, 4]. |
| Scenarios.SliceSuffixScenario | test_sorted_frozen_set.py:114-115 | s[3:] equals the collection built from [13, 15]. |
| Scenarios.SlicePastEndScenario | test_sorted_frozen_set.py:117-118 | s[10:] equals the collection built with no elements. |
| Scenarios.SliceMiddleScenario | test_sorted_frozen_set.py:120-121 | s[1:4] equals the collection built from [4, 9, 13]. |
| Scenarios.SliceSteppedScenario | test_sorted_frozen_set.py:123-127 | s[0:5:2] equals the collection built from [1, 9, 15], and s[:] is s. |
| Scenarios.IndexScenarios | test_sorted_frozen_set.py:143-150 | index(5) is 1; index(10) is ValueError. |
| Scenarios.CountBuildScenario | test_sorted_frozen_set.py:153-154 | The count fixture is SortedFrozenSet([1, 5, 7, 9]). |
| Scenarios.CountScenarios | test_sorted_frozen_set.py:153-159 | count(12) is 0 and count(9) is 1. |
| Scenarios.AddDisjointScenario | test_sorted_frozen_set.py:162-165 | The collections built from [1, 2, 3] and [4, 5, 6] add to the one built from [1, 2, 3, 4, 5, 6]. |
| Scenarios.AddDisjointLiteral | test_sorted_frozen_set.py:162-165 | Helper of `Scenarios.AddDisjointScenario`: the same sum on the canonical sequences themselves. |
| Scenarios.AddEqualScenario | test_sorted_frozen_set.py:167-169 | The collection built from [7, 8, 9], added to itself, equals itself. |
| Scenarios.AddOverlappingScenario | test_sorted_frozen_set.py:171-174 | The collections built from [1, 2, 3] and [3, 4, 5] add to the one built from [1, 2, 3, 4, 5]. |
| Scenarios.AddOverlappingLiteral | test_sorted_frozen_set.py:171-174 | Helper of `Scenarios.AddOverlappingScenario`: the same sum on the canonical sequences themselves. |
| Scenarios.AddForeignScenario | test_sorted_frozen_set.py:176-186 | A tuple on either side of `+` gives TypeError. |
| Scenarios.RepeatScenarios | test_sorted_frozen_set.py:189-211 | Multiplying by 0 or -1 gives the empty collection, and by 1000 gives s. |
| Scenarios.ReprEmptyScenario | test_sorted_frozen_set.py:216-218 | repr of the empty collection is `SortedFrozenSet()`. |
| Scenarios.ReprScenario | test_sorted_frozen_set.py:220-222 | repr of [12, 18, 39] is `SortedFrozenSet([12, 18, 39])`. |
| Scenarios.EqualityScenarios | test_sorted_frozen_set.py:227-254 | The eight `==`/`!=` cases, including permuted input and a list operand. |
| Scenarios.HashScenario | test_sorted_frozen_set.py:259-263 | For any tuple hash, the hash of SortedFrozenSet([5, 2, 1, 4]) is that tuple hash applied to the ascending sequence [1, 2, 4, 5], so both sides of the test agree. |

## Left out

- Elements are integers only. The collection accepts any totally ordered, hashable type, but the tests use only integers.
- The concrete hash value is left out. `Hash` takes the runtime's tuple hash as a parameter, and what is proved is that the hash depends only on the collection's values and is consistent with `==`.
- Slicing with a negative or zero step is left out. `Slice` requires a positive step. The tests use only positive steps, and the behaviour for other steps is not pinned down.
- Construction from a one-shot iterator (test_sorted_frozen_set.py:14-17) is not modelled separately. An iterator's contents are modelled as the same `seq<int>` a list would give.
- `Cursors.ToList`: the for-loop test at test_sorted_frozen_set.py:76-81 iterates over its own `expected` list, not over the collection, so it asserts nothing about the collection. `ToList` models the for loop over the collection that the test evidently means.
- Exceptions are values rather than control flow. Python's raising and catching, and the unittest fixtures and runner, are not modelled.
- `Rendering.Repr`: it states the shape of the text and when it is the empty form. It does not state that the text parses back to the elements; the decimal notation of each element has its own round-trip lemma, `Rendering.DigitsRoundTrip`.
- The model keeps the elements in the `items` field of the datatype; how the collection stores them internally is not modelled.
