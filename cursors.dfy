/**
 * The iterators of the collection: `iter(s)` walks the elements upwards and
 * `reversed(s)` walks them downwards. Each is a cursor object whose position
 * advances with every `next`; past the last element `next` reports the end
 * (Python raises StopIteration) and keeps doing so. A cursor only reads the
 * collection, so any number of them can run over one collection.
 */
module Cursors {
  import opened Results
  import opened Ordering
  import SortedFrozenSets

  /** The iterator `iter(s)` returns. */
  class ForwardCursor {
    const items: seq<int>
    var position: nat

    ghost predicate Valid()
      reads this
    {
      position <= |items| && StrictlyIncreasing(items)
    }

    /** The elements handed out so far. */
    ghost function Yielded(): seq<int>
      reads this
      requires Valid()
    {
      items[..position]
    }

    constructor (s: SortedFrozenSets.SortedFrozenSet)
      requires SortedFrozenSets.Valid(s)
      ensures Valid() && items == s.items && Yielded() == []
    {
      items := s.items;
      position := 0;
    }

    /** `next(it)`: the next larger element, or None once all have been handed out. */
    method Next() returns (r: Option<int>)
      requires Valid()
      modifies this
      ensures Valid()
      ensures r.None? <==> old(Yielded()) == items
      ensures r.None? ==> Yielded() == old(Yielded())
      ensures r.Some? ==> Yielded() == old(Yielded()) + [r.value]
      ensures r.Some? ==> forall y :: y in old(Yielded()) ==> y < r.value
    {
      if position == |items| {
        assert items[..position] == items;
        r := None;
      } else {
        assert |items[..position]| != |items|;
        r := Some(items[position]);
        position := position + 1;
        assert items[..position] == items[..position - 1] + [items[position - 1]];
      }
    }
  }

  /** The iterator `reversed(s)` returns: its own downward traversal, not a forward one read back. */
  class ReverseCursor {
    const items: seq<int>
    /** The elements not yet handed out are items[..remaining]. */
    var remaining: nat

    ghost predicate Valid()
      reads this
    {
      remaining <= |items| && StrictlyIncreasing(items)
    }

    /** The elements handed out so far, in the order they came. */
    ghost function Yielded(): seq<int>
      reads this
      requires Valid()
    {
      ReversedLength(items);
      Reversed(items)[..|items| - remaining]
    }

    constructor (s: SortedFrozenSets.SortedFrozenSet)
      requires SortedFrozenSets.Valid(s)
      ensures Valid() && items == s.items && Yielded() == []
    {
      items := s.items;
      remaining := |s.items|;
    }

    /** `next(it)`: the next smaller element, or None once all have been handed out. */
    method Next() returns (r: Option<int>)
      requires Valid()
      modifies this
      ensures Valid()
      ensures r.None? <==> old(Yielded()) == Reversed(items)
      ensures r.None? ==> Yielded() == old(Yielded())
      ensures r.Some? ==> Yielded() == old(Yielded()) + [r.value]
      ensures r.Some? ==> forall y :: y in old(Yielded()) ==> r.value < y
    {
      ReversedLength(items);
      if remaining == 0 {
        r := None;
      } else {
        var n := |items| - remaining;
        ReversedAt(items, n);
        r := Some(items[remaining - 1]);
        remaining := remaining - 1;
        assert Reversed(items)[..n + 1] == Reversed(items)[..n] + [Reversed(items)[n]];
        forall y | y in Reversed(items)[..n] ensures r.value < y {
          var k :| 0 <= k < n && Reversed(items)[..n][k] == y;
          ReversedAt(items, k);
        }
      }
    }
  }

  /** Calling `next` on a fresh `iter(s)` a given number of times: the elements upwards, then the end marker. */
  method Iterate(s: SortedFrozenSets.SortedFrozenSet, calls: nat) returns (outs: seq<Option<int>>)
    requires SortedFrozenSets.Valid(s)
    ensures |outs| == calls
    ensures forall k :: 0 <= k < calls ==> outs[k] == if k < |s.items| then Some(s.items[k]) else None
  {
    var it := new ForwardCursor(s);
    outs := [];
    while |outs| < calls
      invariant it.Valid() && it.items == s.items
      invariant |outs| <= calls
      invariant it.Yielded() == s.items[..if |outs| < |s.items| then |outs| else |s.items|]
      invariant forall k :: 0 <= k < |outs| ==> outs[k] == if k < |s.items| then Some(s.items[k]) else None
    {
      var r := it.Next();
      outs := outs + [r];
    }
  }

  /** Calling `next` on a fresh `reversed(s)` a given number of times: the elements downwards, then the end marker. */
  method IterateReversed(s: SortedFrozenSets.SortedFrozenSet, calls: nat) returns (outs: seq<Option<int>>)
    requires SortedFrozenSets.Valid(s)
    ensures |outs| == calls
    ensures forall k :: 0 <= k < calls ==> outs[k] == if k < |s.items| then Some(s.items[|s.items| - 1 - k]) else None
  {
    var it := new ReverseCursor(s);
    outs := [];
    ReversedLength(s.items);
    while |outs| < calls
      invariant it.Valid() && it.items == s.items
      invariant |outs| <= calls
      invariant it.Yielded() == Reversed(s.items)[..if |outs| < |s.items| then |outs| else |s.items|]
      invariant forall k :: 0 <= k < |outs| ==> outs[k] == if k < |s.items| then Some(s.items[|s.items| - 1 - k]) else None
    {
      var r := it.Next();
      if |outs| < |s.items| {
        ReversedAt(s.items, |outs|);
        assert Reversed(s.items)[..|outs| + 1] == Reversed(s.items)[..|outs|] + [Reversed(s.items)[|outs|]];
      }
      outs := outs + [r];
    }
  }

  /** `list(s)`: drains a fresh `iter(s)` until it reports the end; the result is the elements in ascending order. */
  method ToList(s: SortedFrozenSets.SortedFrozenSet) returns (xs: seq<int>)
    requires SortedFrozenSets.Valid(s)
    ensures xs == s.items
    ensures StrictlyIncreasing(xs)
  {
    var it := new ForwardCursor(s);
    xs := [];
    var done := false;
    while !done
      invariant it.Valid() && it.items == s.items
      invariant xs == it.Yielded()
      invariant done ==> xs == s.items
      decreases |s.items| - |xs|, if done then 0 else 1
    {
      var r := it.Next();
      match r
      case Some(v) => xs := xs + [v];
      case None => done := true;
    }
  }

  /** `list(reversed(s))`: drains a fresh `reversed(s)`; the result is the elements in descending order. */
  method ToListReversed(s: SortedFrozenSets.SortedFrozenSet) returns (xs: seq<int>)
    requires SortedFrozenSets.Valid(s)
    ensures xs == Reversed(s.items)
    ensures StrictlyDecreasing(xs)
  {
    var it := new ReverseCursor(s);
    xs := [];
    var done := false;
    ReversedLength(s.items);
    while !done
      invariant it.Valid() && it.items == s.items
      invariant xs == it.Yielded()
      invariant done ==> xs == Reversed(s.items)
      decreases |s.items| - |xs|, if done then 0 else 1
    {
      var r := it.Next();
      match r
      case Some(v) => xs := xs + [v];
      case None => done := true;
    }
    ReversedDescending(s.items);
  }
}
