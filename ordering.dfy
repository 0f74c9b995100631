/**
 * Facts about sequences of integers in ascending order: the invariant of the
 * collection (strictly increasing, hence duplicate-free) and the lemma that
 * makes the representation canonical — two strictly increasing sequences with
 * the same elements are the same sequence.
 */
module Ordering {

  /** The collection's invariant: every element is smaller than every later one. */
  ghost predicate StrictlyIncreasing(s: seq<int>) {
    forall i, j :: 0 <= i < j < |s| ==> s[i] < s[j]
  }

  /** Sorted, duplicates allowed: what sorting alone produces. */
  ghost predicate NonDecreasing(s: seq<int>) {
    forall i, j :: 0 <= i < j < |s| ==> s[i] <= s[j]
  }

  /** Every element is smaller than every earlier one. */
  ghost predicate StrictlyDecreasing(s: seq<int>) {
    forall i, j :: 0 <= i < j < |s| ==> s[i] > s[j]
  }

  /** The set of values a sequence holds. */
  function Elements(s: seq<int>): set<int> {
    set x | x in s
  }

  /** How many elements of `s` lie strictly below `v`. */
  function CountBelow(s: seq<int>, v: int): nat {
    if s == [] then 0 else (if s[0] < v then 1 else 0) + CountBelow(s[1..], v)
  }

  /** The sequence read back to front. */
  function Reversed(s: seq<int>): seq<int> {
    if s == [] then [] else Reversed(s[1..]) + [s[0]]
  }

  /** The values of a sequence with a head in front. */
  lemma ElementsCons(h: int, t: seq<int>)
    ensures Elements([h] + t) == {h} + Elements(t)
  {
    assert forall x :: x in [h] + t <==> x == h || x in t;
  }

  /** A sorted sequence stays sorted under a head no larger than any of its elements. */
  lemma PrependNonDecreasing(h: int, t: seq<int>)
    requires NonDecreasing(t)
    requires forall y :: y in t ==> h <= y
    ensures NonDecreasing([h] + t)
  {
    forall i, j | 0 <= i < j < |t| + 1 ensures ([h] + t)[i] <= ([h] + t)[j] {
      if i == 0 {
        assert t[j - 1] in t;
      }
    }
  }

  /** A strictly increasing sequence stays so under a head below all of its elements. */
  lemma PrependIncreasing(h: int, t: seq<int>)
    requires StrictlyIncreasing(t)
    requires forall y :: y in t ==> h < y
    ensures StrictlyIncreasing([h] + t)
  {
    forall i, j | 0 <= i < j < |t| + 1 ensures ([h] + t)[i] < ([h] + t)[j] {
      if i == 0 {
        assert t[j - 1] in t;
      }
    }
  }

  /** The first element of a strictly increasing sequence is its least one, and it does not recur. */
  lemma HeadIsLeast(s: seq<int>)
    requires StrictlyIncreasing(s) && s != []
    ensures StrictlyIncreasing(s[1..])
    ensures forall x :: x in s[1..] ==> s[0] < x
    ensures Elements(s) == {s[0]} + Elements(s[1..])
    ensures s[0] !in Elements(s[1..])
  {
    forall x | x in s[1..] ensures s[0] < x {
      var k :| 0 <= k < |s[1..]| && s[1..][k] == x;
      assert s[k + 1] == x;
    }
    assert s == [s[0]] + s[1..];
  }

  /**
   * Canonical form: a finite set of integers has exactly one strictly
   * increasing arrangement, so equal contents mean equal sequences.
   */
  lemma {:induction false} CanonicalUnique(a: seq<int>, b: seq<int>)
    requires StrictlyIncreasing(a) && StrictlyIncreasing(b)
    requires Elements(a) == Elements(b)
    ensures a == b
    decreases |a|
  {
    if a != [] || b != [] {
      SameLeast(a, b);
      CanonicalUnique(a[1..], b[1..]);
      assert a == [a[0]] + a[1..] && b == [b[0]] + b[1..];
    }
  }

  /** Two strictly increasing sequences with the same nonempty contents start alike and continue with the same contents. */
  lemma SameLeast(a: seq<int>, b: seq<int>)
    requires StrictlyIncreasing(a) && StrictlyIncreasing(b)
    requires Elements(a) == Elements(b)
    requires a != [] || b != []
    ensures a != [] && b != [] && a[0] == b[0]
    ensures Elements(a[1..]) == Elements(b[1..])
  {
    assert a != [] ==> a[0] in Elements(b);
    assert b != [] ==> b[0] in Elements(a);
    HeadIsLeast(a);
    HeadIsLeast(b);
    assert a[0] in Elements(b) && b[0] in Elements(a);
  }

  /** Strictly increasing sequences are equal exactly when they hold the same values. */
  lemma SameElementsIffEqual(a: seq<int>, b: seq<int>)
    requires StrictlyIncreasing(a) && StrictlyIncreasing(b)
    ensures a == b <==> Elements(a) == Elements(b)
  {
    if Elements(a) == Elements(b) {
      CanonicalUnique(a, b);
    }
  }

  /** A strictly increasing sequence has as many distinct values as positions. */
  lemma {:induction false} DistinctCount(s: seq<int>)
    requires StrictlyIncreasing(s)
    ensures |Elements(s)| == |s|
  {
    if s != [] {
      HeadIsLeast(s);
      DistinctCount(s[1..]);
    }
  }

  /** In a strictly increasing sequence every value occurs at most once. */
  lemma {:induction false} Multiplicity(s: seq<int>, x: int)
    requires StrictlyIncreasing(s)
    ensures multiset(s)[x] == if x in s then 1 else 0
  {
    if s != [] {
      HeadIsLeast(s);
      Multiplicity(s[1..], x);
      assert s == [s[0]] + s[1..];
      assert multiset(s) == multiset{s[0]} + multiset(s[1..]);
    }
  }

  /** No element of `s` lies below `v` when all of them are at least `v`. */
  lemma {:induction false} NoneBelow(s: seq<int>, v: int)
    requires forall x :: x in s ==> v <= x
    ensures CountBelow(s, v) == 0
  {
    if s != [] {
      assert s[0] in s;
      assert forall x :: x in s[1..] ==> x in s;
      NoneBelow(s[1..], v);
    }
  }

  /** The element at position p of a strictly increasing sequence has exactly p smaller elements. */
  lemma {:induction false} RankAt(s: seq<int>, p: nat)
    requires StrictlyIncreasing(s) && p < |s|
    ensures CountBelow(s, s[p]) == p
  {
    HeadIsLeast(s);
    if p == 0 {
      NoneBelow(s[1..], s[0]);
    } else {
      RankAt(s[1..], p - 1);
    }
  }

  /** Reading a sequence backwards puts position k at |s| - 1 - k. */
  lemma {:induction false} ReversedAt(s: seq<int>, k: nat)
    requires k < |s|
    ensures |Reversed(s)| == |s| && Reversed(s)[k] == s[|s| - 1 - k]
  {
    ReversedLength(s);
    if k < |s| - 1 {
      ReversedAt(s[1..], k);
    }
  }

  lemma {:induction false} ReversedLength(s: seq<int>)
    ensures |Reversed(s)| == |s|
  {
    if s != [] {
      ReversedLength(s[1..]);
    }
  }

  /** Reading a sequence backwards keeps its values. */
  lemma {:induction false} ReversedElements(s: seq<int>)
    ensures forall x :: x in Reversed(s) <==> x in s
  {
    if s != [] {
      ReversedElements(s[1..]);
      assert s == [s[0]] + s[1..];
    }
  }

  /** Reading an ascending sequence backwards gives a descending one. */
  lemma ReversedDescending(s: seq<int>)
    requires StrictlyIncreasing(s)
    ensures StrictlyDecreasing(Reversed(s))
  {
    ReversedLength(s);
    forall i, j | 0 <= i < j < |s| ensures Reversed(s)[i] > Reversed(s)[j] {
      ReversedAt(s, i);
      ReversedAt(s, j);
    }
  }
}
