/**
 * SortedFrozenSet: an immutable collection of integers kept in ascending
 * order without duplicates. Every Python protocol method of the collection
 * (`in`, `len`, `[]`, `index`, `count`, `+`, `*`, `==`, `!=`, `hash`) is a
 * function here; none of them changes its receiver, and every derived
 * collection is a new value.
 */
module SortedFrozenSets {
  import opened Results
  import opened Ordering
  import Construction

  /** The collection: its elements in ascending order. */
  datatype SortedFrozenSet = SortedFrozenSet(items: seq<int>)

  /** The invariant every instance keeps from construction on. */
  ghost predicate Valid(s: SortedFrozenSet) {
    StrictlyIncreasing(s.items)
  }

  /**
   * The other operand of `+`, `==` and `!=`: either another collection or a
   * value of some other type (a list or a tuple of integers).
   */
  datatype Operand = Frozen(fs: SortedFrozenSet) | Foreign(values: seq<int>)

  ghost predicate WellFormed(o: Operand) {
    o.Frozen? ==> Valid(o.fs)
  }

  /** The collection built with no argument. */
  const Empty: SortedFrozenSet := SortedFrozenSet([])

  // ---------------------------------------------------------------------
  // Construction
  // ---------------------------------------------------------------------

  /**
   * SortedFrozenSet(input): sorts the input, then collapses duplicates.
   * The result holds exactly the input's values, ascending, once each.
   */
  function Build(input: seq<int>): (r: SortedFrozenSet)
    ensures Valid(r)
    ensures Elements(r.items) == Elements(input)
  {
    var sorted := Construction.Sort(input);
    Construction.SortSorted(input);
    Construction.SameElements(sorted, input);
    Construction.CollapseStrict(sorted);
    SortedFrozenSet(Construction.Collapse(sorted))
  }

  /** Rebuilding from the elements an instance iterates over gives the same instance. */
  lemma BuildFromItems(s: SortedFrozenSet)
    requires Valid(s)
    ensures Build(s.items) == s
  {
    CanonicalUnique(Build(s.items).items, s.items);
  }

  /** Two inputs build the same collection exactly when they hold the same values. */
  lemma BuildRespectsElements(x: seq<int>, y: seq<int>)
    ensures Build(x) == Build(y) <==> Elements(x) == Elements(y)
  {
    if Elements(x) == Elements(y) {
      CanonicalUnique(Build(x).items, Build(y).items);
    }
  }

  // ---------------------------------------------------------------------
  // Sized and container protocols
  // ---------------------------------------------------------------------

  /** len(s): the number of distinct values the collection holds. */
  function Len(s: SortedFrozenSet): (n: nat)
    requires Valid(s)
    ensures n == |Elements(s.items)|
  {
    DistinctCount(s.items);
    |s.items|
  }

  /** The length of a built collection is the number of distinct input values. */
  lemma LenOfBuild(input: seq<int>)
    ensures Len(Build(input)) == |Elements(input)|
  {
  }

  /**
   * Binary search (bisect_left) within [lo, hi): the first position whose
   * element is not below x.
   */
  function LowerBound(items: seq<int>, x: int, lo: nat, hi: nat): (p: nat)
    requires NonDecreasing(items)
    requires lo <= hi <= |items|
    requires forall k :: 0 <= k < lo ==> items[k] < x
    requires forall k :: hi <= k < |items| ==> x <= items[k]
    ensures lo <= p <= hi
    ensures forall k :: 0 <= k < p ==> items[k] < x
    ensures forall k :: p <= k < |items| ==> x <= items[k]
    decreases hi - lo
  {
    if lo == hi then
      lo
    else
      var mid := (lo + hi) / 2;
      if items[mid] < x then LowerBound(items, x, mid + 1, hi) else LowerBound(items, x, lo, mid)
  }

  /** bisect_left over the whole sequence. */
  function BisectLeft(items: seq<int>, x: int): (p: nat)
    requires NonDecreasing(items)
    ensures p <= |items|
    ensures forall k :: 0 <= k < p ==> items[k] < x
    ensures forall k :: p <= k < |items| ==> x <= items[k]
  {
    LowerBound(items, x, 0, |items|)
  }

  /** `x in s`; `x not in s` is its negation. */
  function Contains(s: SortedFrozenSet, x: int): (b: bool)
    requires Valid(s)
    ensures b <==> x in s.items
  {
    var p := BisectLeft(s.items, x);
    p < |s.items| && s.items[p] == x
  }

  // ---------------------------------------------------------------------
  // Sequence protocol: index, count, integer indexing, slicing
  // ---------------------------------------------------------------------

  /**
   * s.index(x): the position of x, which is the number of smaller elements;
   * ValueError when x is absent.
   */
  function Index(s: SortedFrozenSet, x: int): (r: Result<nat>)
    requires Valid(s)
    ensures r.Ok? <==> x in s.items
    ensures r.Ok? ==> r.value < |s.items| && s.items[r.value] == x
    ensures r.Ok? ==> r.value == CountBelow(s.items, x)
    ensures r.Err? ==> r.error == ValueError
  {
    var p := BisectLeft(s.items, x);
    if p < |s.items| && s.items[p] == x then
      RankAt(s.items, p);
      Ok(p)
    else
      Err(ValueError)
  }

  /** s.count(x): how many times x occurs, never more than once; it never fails. */
  function Count(s: SortedFrozenSet, x: int): (n: nat)
    requires Valid(s)
    ensures n == multiset(s.items)[x]
    ensures n <= 1
    ensures n == 1 <==> Contains(s, x)
  {
    Multiplicity(s.items, x);
    if Contains(s, x) then 1 else 0
  }

  /**
   * s[i] for an integer i: non-negative i counts from the front, negative i
   * from the back; anything outside [-len, len) is an IndexError, never clamped.
   */
  function At(s: SortedFrozenSet, i: int): (r: Result<int>)
    requires Valid(s)
    ensures r.Ok? <==> -|s.items| <= i < |s.items|
    ensures r.Err? ==> r.error == IndexError
    ensures r.Ok? ==> r.value in s.items
    ensures r.Ok? ==> CountBelow(s.items, r.value) == if 0 <= i then i else |s.items| + i
  {
    var n := |s.items|;
    if 0 <= i < n then
      RankAt(s.items, i);
      Ok(s.items[i])
    else if -n <= i < 0 then
      RankAt(s.items, n + i);
      Ok(s.items[n + i])
    else
      Err(IndexError)
  }

  /** Looking a present value up and indexing with the answer gives the value back. */
  lemma IndexThenAt(s: SortedFrozenSet, x: int)
    requires Valid(s) && x in s.items
    ensures Index(s, x).Ok? && At(s, Index(s, x).value) == Ok(x)
  {
  }

  /** Indexing and then looking the element up gives the (normalised) index back. */
  lemma AtThenIndex(s: SortedFrozenSet, i: int)
    requires Valid(s) && -|s.items| <= i < |s.items|
    ensures At(s, i).Ok?
    ensures Index(s, At(s, i).value) == Ok(if 0 <= i then i else |s.items| + i)
  {
  }

  /** One bound of a slice as Python's slice.indices computes it for a positive step. */
  function Clamp(i: int, len: nat): (c: nat)
    ensures c <= len
  {
    if i < 0 then (if i + len < 0 then 0 else i + len)
    else if i > len then len
    else i
  }

  /** The start and stop positions of s[start:stop] once defaults and clamping apply. */
  function SliceBounds(len: nat, start: Option<int>, stop: Option<int>): (b: (nat, nat))
    ensures b.0 <= len && b.1 <= len
  {
    (if start.None? then 0 else Clamp(start.value, len),
     if stop.None? then len else Clamp(stop.value, len))
  }

  /**
   * `r` holds, in order, the elements of `items` at positions lo, lo + step,
   * lo + 2 * step, ..., every position below hi and no other.
   */
  ghost predicate Selects(r: seq<int>, items: seq<int>, lo: nat, hi: nat, step: nat) {
    && (|r| == 0 <==> hi <= lo)
    && (|r| > 0 ==> lo + (|r| - 1) * step < hi)
    && hi <= lo + |r| * step
    && hi <= |items|
    && forall k :: 0 <= k < |r| ==> lo + k * step < hi && r[k] == items[lo + k * step]
  }

  /** The elements at positions lo, lo + step, ... below hi. */
  function Pick(items: seq<int>, lo: nat, hi: nat, step: nat): seq<int>
    requires hi <= |items| && step > 0
    decreases hi - lo
  {
    if hi <= lo then [] else [items[lo]] + Pick(items, lo + step, hi, step)
  }

  lemma {:induction false} PickAt(items: seq<int>, lo: nat, hi: nat, step: nat, k: nat)
    requires hi <= |items| && step > 0
    requires k < |Pick(items, lo, hi, step)|
    ensures lo + k * step < hi && Pick(items, lo, hi, step)[k] == items[lo + k * step]
    decreases k
  {
    if k > 0 {
      PickAt(items, lo + step, hi, step, k - 1);
      assert lo + step + (k - 1) * step == lo + k * step;
    }
  }

  lemma {:induction false} PickLength(items: seq<int>, lo: nat, hi: nat, step: nat)
    requires hi <= |items| && step > 0
    ensures var n := |Pick(items, lo, hi, step)|;
            && (n == 0 <==> hi <= lo)
            && (n > 0 ==> lo + (n - 1) * step < hi)
            && hi <= lo + n * step
    decreases hi - lo
  {
    if lo < hi {
      PickLength(items, lo + step, hi, step);
      var n := |Pick(items, lo + step, hi, step)|;
      assert |Pick(items, lo, hi, step)| == n + 1;
      MulSucc(n, step);
      if n > 0 {
        MulSucc(n - 1, step);
      }
    }
  }

  /** (n + 1) * step == n * step + step. */
  lemma MulSucc(n: nat, step: nat)
    ensures (n + 1) * step == n * step + step
  {
  }

  /** Pick selects exactly the positions lo, lo + step, ... below hi. */
  lemma PickSelects(items: seq<int>, lo: nat, hi: nat, step: nat)
    requires hi <= |items| && step > 0
    ensures Selects(Pick(items, lo, hi, step), items, lo, hi, step)
  {
    PickLength(items, lo, hi, step);
    var r := Pick(items, lo, hi, step);
    forall k | 0 <= k < |r| ensures lo + k * step < hi && r[k] == items[lo + k * step] {
      PickAt(items, lo, hi, step, k);
    }
  }

  lemma {:induction false} MulStrictlyMonotone(i: nat, j: nat, step: nat)
    requires i < j && step > 0
    ensures i * step < j * step
    decreases j - i
  {
    if j > i + 1 {
      MulStrictlyMonotone(i, j - 1, step);
    }
    assert j * step == (j - 1) * step + step;
  }

  /** Selecting positions in increasing order from an ascending sequence keeps it ascending. */
  lemma SelectionAscending(r: seq<int>, items: seq<int>, lo: nat, hi: nat, step: nat)
    requires StrictlyIncreasing(items) && step > 0
    requires Selects(r, items, lo, hi, step)
    ensures StrictlyIncreasing(r)
    ensures Elements(r) <= Elements(items)
  {
    forall i, j | 0 <= i < j < |r| ensures r[i] < r[j] {
      MulStrictlyMonotone(i, j, step);
    }
    forall x | x in Elements(r) ensures x in Elements(items) {
      var k :| 0 <= k < |r| && r[k] == x;
      assert items[lo + k * step] == x;
    }
  }

  /**
   * s[start:stop:step] for a positive step: a new collection of the elements
   * at the selected positions, out-of-range bounds clamped; it never fails.
   */
  function Slice(s: SortedFrozenSet, start: Option<int>, stop: Option<int>, step: Option<int>): (r: SortedFrozenSet)
    requires Valid(s)
    requires step.None? || step.value > 0
    ensures Valid(r)
    ensures Elements(r.items) <= Elements(s.items)
    ensures var (lo, hi) := SliceBounds(|s.items|, start, stop);
            Selects(r.items, s.items, lo, hi, if step.None? then 1 else step.value)
  {
    var (lo, hi) := SliceBounds(|s.items|, start, stop);
    var st := if step.None? then 1 else step.value;
    PickSelects(s.items, lo, hi, st);
    SelectionAscending(Pick(s.items, lo, hi, st), s.items, lo, hi, st);
    SortedFrozenSet(Pick(s.items, lo, hi, st))
  }

  /** s[:] is s itself. */
  lemma SliceFull(s: SortedFrozenSet)
    requires Valid(s)
    ensures Slice(s, None, None, None) == s
  {
    var r := Slice(s, None, None, None);
    assert |r.items| == |s.items|;
    assert forall k :: 0 <= k < |r.items| ==> r.items[k] == s.items[k];
  }

  /** With the default step a slice is the contiguous run of positions lo .. hi - 1. */
  lemma SliceContiguous(s: SortedFrozenSet, start: Option<int>, stop: Option<int>)
    requires Valid(s)
    ensures var (lo, hi) := SliceBounds(|s.items|, start, stop);
            Slice(s, start, stop, None).items == if lo < hi then s.items[lo..hi] else []
  {
    var (lo, hi) := SliceBounds(|s.items|, start, stop);
    var r := Slice(s, start, stop, None);
    if lo < hi {
      assert |r.items| == hi - lo;
      assert forall k :: 0 <= k < |r.items| ==> r.items[k] == s.items[lo..hi][k];
    }
  }

  // ---------------------------------------------------------------------
  // Concatenation and repetition
  // ---------------------------------------------------------------------

  /** Linear merge of two ascending sequences that emits a value both hold only once. */
  function Merge(a: seq<int>, b: seq<int>): seq<int>
    decreases |a| + |b|
  {
    if a == [] then b
    else if b == [] then a
    else if a[0] < b[0] then [a[0]] + Merge(a[1..], b)
    else if b[0] < a[0] then [b[0]] + Merge(a, b[1..])
    else [a[0]] + Merge(a[1..], b[1..])
  }

  /** Merging two ascending sequences gives the ascending sequence of their combined values. */
  lemma {:induction false} MergeUnion(a: seq<int>, b: seq<int>)
    requires StrictlyIncreasing(a) && StrictlyIncreasing(b)
    ensures StrictlyIncreasing(Merge(a, b))
    ensures Elements(Merge(a, b)) == Elements(a) + Elements(b)
    decreases |a| + |b|
  {
    if a != [] && b != [] {
      var h, a', b' := MergeStep(a, b);
      MergeUnion(a', b');
      PrependBelowAll(h, Merge(a', b'));
    }
  }

  /** One step of the merge: the smaller head goes first, and it is below everything left. */
  lemma MergeStep(a: seq<int>, b: seq<int>) returns (h: int, a': seq<int>, b': seq<int>)
    requires StrictlyIncreasing(a) && StrictlyIncreasing(b) && a != [] && b != []
    ensures StrictlyIncreasing(a') && StrictlyIncreasing(b')
    ensures |a'| + |b'| < |a| + |b|
    ensures Merge(a, b) == [h] + Merge(a', b')
    ensures Elements(a) + Elements(b) == {h} + Elements(a') + Elements(b')
    ensures forall y :: y in Elements(a') + Elements(b') ==> h < y
  {
    HeadIsLeast(a);
    HeadIsLeast(b);
    h := if a[0] <= b[0] then a[0] else b[0];
    a' := if a[0] <= b[0] then a[1..] else a;
    b' := if b[0] <= a[0] then b[1..] else b;
    if a[0] > b[0] {
      forall y | y in Elements(a) ensures h < y {
        var k :| 0 <= k < |a| && a[k] == y;
        if k > 0 {
          assert a[k] in Elements(a[1..]) by { assert a[1..][k - 1] == a[k]; }
        }
      }
    } else if a[0] < b[0] {
      forall y | y in Elements(b) ensures h < y {
        var k :| 0 <= k < |b| && b[k] == y;
        if k > 0 {
          assert b[k] in Elements(b[1..]) by { assert b[1..][k - 1] == b[k]; }
        }
      }
    }
  }

  lemma PrependBelowAll(h: int, rest: seq<int>)
    requires StrictlyIncreasing(rest)
    requires forall y :: y in Elements(rest) ==> h < y
    ensures StrictlyIncreasing([h] + rest)
    ensures Elements([h] + rest) == {h} + Elements(rest)
  {
    forall y | y in rest ensures h < y {
      assert y in Elements(rest);
    }
    PrependIncreasing(h, rest);
    ElementsCons(h, rest);
  }

  /** The union of two collections, computed by merging. */
  function Union(a: SortedFrozenSet, b: SortedFrozenSet): (r: SortedFrozenSet)
    requires Valid(a) && Valid(b)
    ensures Valid(r)
    ensures Elements(r.items) == Elements(a.items) + Elements(b.items)
  {
    MergeUnion(a.items, b.items);
    SortedFrozenSet(Merge(a.items, b.items))
  }

  /**
   * `left + right`, where at least one side is a collection: the union when
   * both are; TypeError when the other side is some other type.
   */
  function Add(left: Operand, right: Operand): (r: Result<SortedFrozenSet>)
    requires left.Frozen? || right.Frozen?
    requires WellFormed(left) && WellFormed(right)
    ensures r.Ok? <==> left.Frozen? && right.Frozen?
    ensures r.Err? ==> r.error == TypeError
    ensures r.Ok? ==> Valid(r.value) && Elements(r.value.items) == Elements(left.fs.items) + Elements(right.fs.items)
  {
    if left.Frozen? && right.Frozen? then Ok(Union(left.fs, right.fs)) else Err(TypeError)
  }

  /** The union is the collection built from the two element lists laid end to end. */
  lemma UnionIsBuildOfConcatenation(a: SortedFrozenSet, b: SortedFrozenSet)
    requires Valid(a) && Valid(b)
    ensures Union(a, b) == Build(a.items + b.items)
  {
    assert Elements(a.items + b.items) == Elements(a.items) + Elements(b.items);
    CanonicalUnique(Union(a, b).items, Build(a.items + b.items).items);
  }

  /** The order of the operands does not change the union. */
  lemma UnionCommutes(a: SortedFrozenSet, b: SortedFrozenSet)
    requires Valid(a) && Valid(b)
    ensures Union(a, b) == Union(b, a)
  {
    CanonicalUnique(Union(a, b).items, Union(b, a).items);
  }

  /** s + s == s. */
  lemma UnionIdempotent(a: SortedFrozenSet)
    requires Valid(a)
    ensures Union(a, a) == a
  {
    CanonicalUnique(Union(a, a).items, a.items);
  }

  /** When every element of a lies below every element of b, the union is a's elements followed by b's. */
  lemma UnionOfSeparated(a: SortedFrozenSet, b: SortedFrozenSet)
    requires Valid(a) && Valid(b)
    requires forall x, y :: x in a.items && y in b.items ==> x < y
    ensures Union(a, b).items == a.items + b.items
  {
    var c := a.items + b.items;
    forall i, j | 0 <= i < j < |c| ensures c[i] < c[j] {
      if i < |a.items| && |a.items| <= j {
        assert c[i] in a.items && c[j] in b.items;
      }
    }
    assert Elements(c) == Elements(a.items) + Elements(b.items);
    CanonicalUnique(Union(a, b).items, c);
  }

  /** `s * n` and `n * s`: the empty collection for n <= 0, s itself otherwise. */
  function Repeat(s: SortedFrozenSet, n: int): (r: SortedFrozenSet)
    requires Valid(s)
    ensures Valid(r)
    ensures Elements(r.items) == if n > 0 then Elements(s.items) else {}
  {
    if n > 0 then s else Empty
  }

  /** Python's list repetition `xs * n`: n copies laid end to end, none for n <= 0. */
  function RepeatList(xs: seq<int>, n: int): seq<int>
    decreases n
  {
    if n <= 0 then [] else xs + RepeatList(xs, n - 1)
  }

  lemma {:induction false} RepeatListElements(xs: seq<int>, n: int)
    ensures Elements(RepeatList(xs, n)) == if n > 0 then Elements(xs) else {}
    decreases n
  {
    if n > 0 {
      RepeatListElements(xs, n - 1);
      assert Elements(xs + RepeatList(xs, n - 1)) == Elements(xs) + Elements(RepeatList(xs, n - 1));
    }
  }

  /** Repeating a collection is building one from its element list repeated. */
  lemma RepeatIsBuildOfRepeatedList(s: SortedFrozenSet, n: int)
    requires Valid(s)
    ensures Repeat(s, n) == Build(RepeatList(s.items, n))
  {
    RepeatListElements(s.items, n);
    CanonicalUnique(Repeat(s, n).items, Build(RepeatList(s.items, n)).items);
  }

  // ---------------------------------------------------------------------
  // Equality and hashing
  // ---------------------------------------------------------------------

  /** `s == other`: true exactly for a collection holding the same values; never for another type. */
  function Equal(s: SortedFrozenSet, other: Operand): (eq: bool)
    requires Valid(s) && WellFormed(other)
    ensures eq <==> other.Frozen? && Elements(s.items) == Elements(other.fs.items)
    ensures eq <==> other.Frozen? && s.items == other.fs.items
  {
    if other.Frozen? then
      SameElementsIffEqual(s.items, other.fs.items);
      s.items == other.fs.items
    else
      false
  }

  /** `s != other`: the negation of `==`, so true for any value of another type. */
  function NotEqual(s: SortedFrozenSet, other: Operand): (ne: bool)
    requires Valid(s) && WellFormed(other)
    ensures ne <==> other.Foreign? || Elements(s.items) != Elements(other.fs.items)
  {
    !Equal(s, other)
  }

  /**
   * hash(s): the tuple hash of the elements in ascending order. The tuple
   * hash itself belongs to the runtime and is a parameter here.
   */
  function Hash(s: SortedFrozenSet, tupleHash: seq<int> -> int): (h: int)
    requires Valid(s)
    ensures forall t :: Valid(t) && Elements(t.items) == Elements(s.items) ==> h == tupleHash(t.items)
  {
    forall t | Valid(t) && Elements(t.items) == Elements(s.items) ensures t.items == s.items {
      CanonicalUnique(t.items, s.items);
    }
    tupleHash(s.items)
  }

  /** Collections holding the same values hash alike, whatever the tuple hash. */
  lemma HashConsistentWithEquality(a: SortedFrozenSet, b: SortedFrozenSet, tupleHash: seq<int> -> int)
    requires Valid(a) && Valid(b)
    requires Elements(a.items) == Elements(b.items)
    ensures Equal(a, Frozen(b))
    ensures Hash(a, tupleHash) == Hash(b, tupleHash)
  {
    CanonicalUnique(a.items, b.items);
  }
}
