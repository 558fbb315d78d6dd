/** The in-place merging of adjacent list entries. */
module MergeAdjacent {

  /** What the merging leaves of a list: a merged entry is compared again with the entry that follows it. */
  function Merge<T>(items: seq<T>, adjacent: (T, T) -> bool, merged: (T, T) -> T): (r: seq<T>)
    ensures items != [] ==> r != []
    ensures |r| <= |items|
    decreases |items|
  {
    if |items| <= 1 then items
    else if adjacent(items[0], items[1]) then Merge([merged(items[0], items[1])] + items[2..], adjacent, merged)
    else [items[0]] + Merge(items[1..], adjacent, merged)
  }

  class MutableList<T> {
    var items: seq<T>

    constructor (items: seq<T>)
      ensures this.items == items
    {
      this.items := items;
    }

    /** Erases the two entries at it and inserts x instead. */
    method EraseAndInsert(it: nat, x: T)
      requires it + 2 <= |items|
      modifies this
      ensures items == old(items)[..it] + ([x] + old(items)[it + 2..])
    {
      items := items[..it] + items[it + 2..];
      items := items[..it] + [x] + items[it..];
    }

    method ReplaceAdjacentWithMerged(adjacent: (T, T) -> bool, merged: (T, T) -> T)
      modifies this
      ensures items == Merge(old(items), adjacent, merged)
    {
      ghost var done, rest := [], items;
      var it := 0;
      while it != |items|
        invariant items == done + rest && |done| == it
        invariant Merge(old(items), adjacent, merged) == done + Merge(rest, adjacent, merged)
        decreases |items| - it
      {
        var next := it + 1;
        if next == |items| {
          return;
        }
        assert items[it] == rest[0] && items[next] == rest[1];
        if adjacent(items[it], items[next]) {
          var mergedValue := merged(items[it], items[next]);
          EraseAndInsert(it, mergedValue);
          ReplacePair(done, rest, mergedValue);
          rest := [mergedValue] + rest[2..];
        } else {
          it := next;
          MoveOn(done, rest, Merge(rest[1..], adjacent, merged));
          done, rest := done + [rest[0]], rest[1..];
        }
      }
    }
  }

  lemma ReplacePair<T>(done: seq<T>, rest: seq<T>, x: T)
    requires |rest| >= 2
    ensures (done + rest)[..|done|] + ([x] + (done + rest)[|done| + 2..]) == done + ([x] + rest[2..])
  {
    assert (done + rest)[..|done|] == done && (done + rest)[|done| + 2..] == rest[2..];
  }

  lemma MoveOn<T>(done: seq<T>, rest: seq<T>, tail: seq<T>)
    requires rest != []
    ensures done + rest == (done + [rest[0]]) + rest[1..]
    ensures done + ([rest[0]] + tail) == (done + [rest[0]]) + tail
  {
  }

  ghost predicate NoneAdjacent<T>(items: seq<T>, adjacent: (T, T) -> bool) {
    forall i :: 0 < i < |items| ==> !adjacent(items[i - 1], items[i])
  }

  /** If merging keeps the left end of an entry, no two neighbours in the result are adjacent, and the left end of the
      list stays. */
  lemma {:induction false} MergeLeavesNoneAdjacent<T(!new)>(items: seq<T>, adjacent: (T, T) -> bool,
                                                            merged: (T, T) -> T)
    requires forall a, b, x :: adjacent(x, merged(a, b)) == adjacent(x, a)
    ensures NoneAdjacent(Merge(items, adjacent, merged), adjacent)
    ensures items != [] ==> forall x :: adjacent(x, Merge(items, adjacent, merged)[0]) == adjacent(x, items[0])
    decreases |items|
  {
    if |items| > 1 {
      if adjacent(items[0], items[1]) {
        MergeLeavesNoneAdjacent([merged(items[0], items[1])] + items[2..], adjacent, merged);
      } else {
        MergeLeavesNoneAdjacent(items[1..], adjacent, merged);
      }
    }
  }

  lemma {:induction false} MergeNothing<T>(items: seq<T>, adjacent: (T, T) -> bool, merged: (T, T) -> T)
    requires NoneAdjacent(items, adjacent)
    ensures Merge(items, adjacent, merged) == items
    decreases |items|
  {
    if |items| > 1 {
      assert !adjacent(items[0], items[1]);
      forall i | 0 < i < |items[1..]|
        ensures !adjacent(items[1..][i - 1], items[1..][i])
      {
        assert !adjacent(items[i], items[i + 1]);
      }
      MergeNothing(items[1..], adjacent, merged);
    }
  }

  /** A second pass changes nothing. */
  lemma MergeIsIdempotent<T(!new)>(items: seq<T>, adjacent: (T, T) -> bool, merged: (T, T) -> T)
    requires forall a, b, x :: adjacent(x, merged(a, b)) == adjacent(x, a)
    ensures Merge(Merge(items, adjacent, merged), adjacent, merged) == Merge(items, adjacent, merged)
  {
    MergeLeavesNoneAdjacent(items, adjacent, merged);
    MergeNothing(Merge(items, adjacent, merged), adjacent, merged);
  }
}
