/**
 * Building the canonical contents from arbitrary input: sort first, then
 * collapse each run of equal neighbours into one element. The functions
 * compute; the lemmas beside them state what they compute.
 */
module Construction {
  import opened Ordering

  /** Places `x` into a sorted sequence before the first element not below it. */
  function Insert(s: seq<int>, x: int): seq<int> {
    if s == [] || x <= s[0] then [x] + s else [s[0]] + Insert(s[1..], x)
  }

  /** Insertion keeps a sorted sequence sorted and adds exactly one occurrence of `x`. */
  lemma {:induction false} InsertSorted(s: seq<int>, x: int)
    requires NonDecreasing(s)
    ensures NonDecreasing(Insert(s, x))
    ensures multiset(Insert(s, x)) == multiset(s) + multiset{x}
  {
    if s != [] && s[0] < x {
      var rest := Insert(s[1..], x);
      InsertSorted(s[1..], x);
      assert s == [s[0]] + s[1..];
      forall y | y in rest ensures s[0] <= y {
        assert y in multiset(rest);
        if y != x {
          assert y in s[1..];
          var k :| 0 <= k < |s[1..]| && s[1..][k] == y;
          assert s[k + 1] == y;
        }
      }
      PrependNonDecreasing(s[0], rest);
    }
  }

  /** Insertion sort. */
  function Sort(s: seq<int>): seq<int> {
    if s == [] then [] else Insert(Sort(s[1..]), s[0])
  }

  /** Sorting yields an ascending rearrangement of the input. */
  lemma {:induction false} SortSorted(s: seq<int>)
    ensures NonDecreasing(Sort(s))
    ensures multiset(Sort(s)) == multiset(s)
  {
    if s != [] {
      SortSorted(s[1..]);
      InsertSorted(Sort(s[1..]), s[0]);
      assert s == [s[0]] + s[1..];
    }
  }

  /** Drops every element equal to its successor. */
  function Collapse(s: seq<int>): seq<int> {
    if |s| <= 1 then s
    else if s[0] == s[1] then Collapse(s[1..])
    else [s[0]] + Collapse(s[1..])
  }

  /** Collapsing a sorted sequence leaves each of its values exactly once, ascending. */
  lemma {:induction false} CollapseStrict(s: seq<int>)
    requires NonDecreasing(s)
    ensures StrictlyIncreasing(Collapse(s))
    ensures Elements(Collapse(s)) == Elements(s)
  {
    if |s| > 1 {
      var rest := Collapse(s[1..]);
      CollapseStrict(s[1..]);
      assert s == [s[0]] + s[1..];
      ElementsCons(s[0], s[1..]);
      if s[0] != s[1] {
        forall y | y in rest ensures s[0] < y {
          assert y in Elements(rest);
          var k :| 0 <= k < |s[1..]| && s[1..][k] == y;
          assert s[1] <= s[k + 1] == y;
        }
        PrependIncreasing(s[0], rest);
        ElementsCons(s[0], rest);
      }
    }
  }

  /** Equal multisets of values hold the same values. */
  lemma SameElements(a: seq<int>, b: seq<int>)
    requires multiset(a) == multiset(b)
    ensures Elements(a) == Elements(b)
  {
    forall x ensures x in a <==> x in b {
      assert x in a <==> x in multiset(a);
      assert x in b <==> x in multiset(b);
    }
  }
}
