/** Sorting an array so that each element follows the one before it. */
module FollowSort {
  /** The first n elements form a chain. */
  ghost predicate IsChain<T>(s: seq<T>, n: nat, follows: (T, T) -> bool) {
    n <= |s| && forall k :: 0 < k < n ==> follows(s[k], s[k - 1])
  }

  ghost predicate Distinct<T>(s: seq<T>) {
    forall i, j :: 0 <= i < j < |s| ==> s[i] != s[j]
  }

  ghost predicate SameElements<T>(c: seq<T>, s: seq<T>) {
    |c| == |s| && (forall k :: 0 <= k < |c| ==> c[k] in s) && (forall k :: 0 <= k < |s| ==> s[k] in c)
  }

  /** The elements can be arranged in one chain. */
  ghost predicate FormsChain<T(!new)>(s: seq<T>, follows: (T, T) -> bool) {
    exists c: seq<T> :: SameElements(c, s) && IsChain(c, |c|, follows)
  }

  /** No element has two followers or two predecessors. */
  ghost predicate Unambiguous<T>(s: seq<T>, follows: (T, T) -> bool) {
    forall i, j, k :: 0 <= i < |s| && 0 <= j < |s| && 0 <= k < |s| ==>
      && (follows(s[i], s[k]) && follows(s[j], s[k]) ==> s[i] == s[j])
      && (follows(s[k], s[i]) && follows(s[k], s[j]) ==> s[i] == s[j])
  }

  function Swapped<T>(s: seq<T>, i: nat, j: nat): (r: seq<T>)
    requires i < |s| && j < |s|
    ensures |r| == |s| && multiset(r) == multiset(s)
  {
    s[i := s[j]][j := s[i]]
  }

  /** The elements up to index last, moved up by one, with the last of them in front. */
  function Rotated<T>(s: seq<T>, last: nat): (r: seq<T>)
    requires last < |s|
    ensures |r| == |s| && multiset(r) == multiset(s)
    ensures forall k :: 0 <= k < |s| ==> r[k] == s[if k == 0 then last else if k <= last then k - 1 else k]
  {
    var r := [s[last]] + s[..last] + s[last + 1..];
    assert s == s[..last] + [s[last]] + s[last + 1..];
    r
  }

  method RotateRight<T>(a: array<T>, last: nat)
    requires last < a.Length
    modifies a
    ensures a[..] == Rotated(old(a[..]), last)
  {
    var begin := 0;
    while begin != last
      invariant begin <= last
      invariant forall k :: 0 <= k < a.Length ==>
                  a[k] == if begin == 0 then old(a[k])
                          else if k == 0 then old(a[last])
                          else if k < begin then old(a[k - 1])
                          else if k == last then old(a[begin - 1])
                          else old(a[k])
    {
      a[begin], a[last] := a[last], a[begin];
      begin := begin + 1;
    }
  }

  lemma DistinctByMultiset<T>(s: seq<T>, r: seq<T>)
    requires Distinct(s) && multiset(r) == multiset(s)
    ensures Distinct(r) && SameElements(r, s)
  {
    CountOfDistinct(s);
    assert |multiset(r)| == |multiset(s)|;
    forall i, j | 0 <= i < j < |r|
      ensures r[i] != r[j]
    {
      if r[i] == r[j] {
        TwiceCounted(r, i, j);
      }
    }
    forall k | 0 <= k < |r|
      ensures r[k] in s
    {
      assert r[k] in multiset(r);
    }
    forall k | 0 <= k < |s|
      ensures s[k] in r
    {
      assert s[k] in multiset(s);
    }
  }

  lemma {:induction false} CountOfDistinct<T>(s: seq<T>)
    requires Distinct(s)
    ensures forall x :: x in s ==> multiset(s)[x] == 1
  {
    if s != [] {
      CountOfDistinct(s[1..]);
      assert s == [s[0]] + s[1..];
      assert s[0] !in s[1..];
    }
  }

  lemma TwiceCounted<T>(s: seq<T>, i: nat, j: nat)
    requires i < j < |s| && s[i] == s[j]
    ensures multiset(s)[s[i]] >= 2
  {
    assert s == s[..j] + ([s[j]] + s[j + 1..]);
    assert s[i] in s[..j];
  }

  /** No element between the chain and index it fits an end of the chain. */
  ghost predicate NoneFits<T>(s: seq<T>, n: nat, it: nat, follows: (T, T) -> bool)
    requires 0 < n <= it <= |s|
  {
    forall k :: n <= k < it ==> !follows(s[k], s[n - 1]) && !follows(s[0], s[k])
  }

  /** Two neighbours in c of which just one is among the first n elements of s. */
  lemma {:induction false} Crossing<T>(c: seq<T>, s: seq<T>, n: nat, i: nat, j: nat) returns (k: nat)
    requires n <= |s| && i < |c| && j < |c|
    requires c[i] in s[..n] && c[j] !in s[..n]
    ensures k + 1 < |c| && (c[k] in s[..n] <==> c[k + 1] !in s[..n])
    decreases if i < j then j - i else i - j
  {
    if i < j {
      if c[i + 1] in s[..n] {
        k := Crossing(c, s, n, i + 1, j);
      } else {
        k := i;
      }
    } else {
      assert i > j;
      if c[i - 1] in s[..n] {
        k := Crossing(c, s, n, i - 1, j);
      } else {
        k := i - 1;
      }
    }
  }

  lemma IndexOf<T>(s: seq<T>, n: nat, x: T) returns (p: nat)
    requires n <= |s| && x in s
    ensures p < |s| && s[p] == x && (p < n <==> x in s[..n])
  {
    if q: nat :| q < n && s[q] == x {
      p := q;
      assert s[..n][q] == x;
    } else {
      p :| p < |s| && s[p] == x;
    }
  }

  lemma ChainNeighbours<T>(s: seq<T>, n: nat, p: nat, follows: (T, T) -> bool)
    requires IsChain(s, n, follows)
    ensures p + 1 < n ==> follows(s[p + 1], s[p])
    ensures 0 < p < n ==> follows(s[p], s[p - 1])
  {
  }

  /** While elements are left over, one of them fits an end of the chain. */
  lemma CanBeExtended<T(!new)>(s: seq<T>, n: nat, follows: (T, T) -> bool)
    requires 0 < n < |s| && IsChain(s, n, follows)
    requires Distinct(s) && Unambiguous(s, follows) && FormsChain(s, follows)
    ensures !NoneFits(s, n, |s|, follows)
  {
    var c: seq<T> :| SameElements(c, s) && IsChain(c, |c|, follows);
    var i := IndexOf(c, 0, s[0]);
    var j := IndexOf(c, 0, s[n]);
    assert s[..n][0] == s[0];
    assert s[n] !in s[..n];
    var k := Crossing(c, s, n, i, j);
    assert follows(c[k + 1], c[k]);
    var p := IndexOf(s, n, c[k]);
    var q := IndexOf(s, n, c[k + 1]);
    ChainNeighbours(s, n, p, follows);
    ChainNeighbours(s, n, q, follows);
  }

  lemma ArrangementsOfPermutation<T(!new)>(s: seq<T>, r: seq<T>, follows: (T, T) -> bool)
    requires Distinct(s) && multiset(r) == multiset(s) && Unambiguous(s, follows)
    ensures Distinct(r) && Unambiguous(r, follows) && (FormsChain(s, follows) <==> FormsChain(r, follows))
  {
    DistinctByMultiset(s, r);
    assert |r| == |multiset(r)| == |multiset(s)| == |s|;
    forall i, j, k | 0 <= i < |r| && 0 <= j < |r| && 0 <= k < |r|
      ensures follows(r[i], r[k]) && follows(r[j], r[k]) ==> r[i] == r[j]
      ensures follows(r[k], r[i]) && follows(r[k], r[j]) ==> r[i] == r[j]
    {
      var i' := IndexOf(s, 0, r[i]);
      var j' := IndexOf(s, 0, r[j]);
      var k' := IndexOf(s, 0, r[k]);
    }
    forall c: seq<T>
      ensures SameElements(c, s) <==> SameElements(c, r)
    {
      SameElementsOf(c, s, r);
    }
  }

  lemma SameElementsOf<T>(c: seq<T>, s: seq<T>, r: seq<T>)
    requires SameElements(r, s)
    ensures SameElements(c, s) <==> SameElements(c, r)
  {
    assert forall x :: x in s <==> x in r;
    assert SameElements(c, s) ==> forall x :: x in c <==> x in s;
  }

  lemma ExtendedChain<T>(s: seq<T>, n: nat, it: nat, follows: (T, T) -> bool)
    requires 0 < n <= it < |s| && IsChain(s, n, follows)
    ensures follows(s[it], s[n - 1]) ==> IsChain(Swapped(s, it, n), n + 1, follows)
    ensures follows(s[0], s[it]) ==> IsChain(Rotated(Swapped(s, it, n), n), n + 1, follows)
    ensures NoneFits(s, n, it, follows) && !follows(s[it], s[n - 1]) && !follows(s[0], s[it]) ==>
            NoneFits(s, n, it + 1, follows)
  {
  }

  method Swap<T>(a: array<T>, i: nat, j: nat)
    requires i < a.Length && j < a.Length
    modifies a
    ensures a[..] == Swapped(old(a[..]), i, j)
  {
    a[i], a[j] := a[j], a[i];
  }

  /** Sorts the array. It terminates on every array, keeps the elements, and returns false (where the original throws)
      only if they are not in a chain. If no element has two followers or two predecessors, it finds a chain exactly if
      there is one. */
  method Sort<T(!new)>(a: array<T>, follows: (T, T) -> bool) returns (continuous: bool)
    requires a.Length > 0
    modifies a
    ensures multiset(a[..]) == multiset(old(a[..]))
    ensures continuous ==> IsChain(a[..], a.Length, follows)
    ensures Distinct(old(a[..])) && Unambiguous(old(a[..]), follows) ==>
            (continuous <==> FormsChain(old(a[..]), follows))
  {
    hide Distinct, Unambiguous, FormsChain, IsChain, NoneFits, Swapped, Rotated;
    var sorted := 0;
    var swapped := true;
    SingleChain(a[..], follows);
    while swapped
      invariant sorted < a.Length && multiset(a[..]) == multiset(old(a[..]))
      invariant IsChain(a[..], sorted + 1, follows)
      invariant !swapped ==> NoneFits(a[..], sorted + 1, a.Length, follows)
      decreases a.Length - sorted, if swapped then 1 else 0
    {
      swapped := false;
      ghost var first := sorted;
      NoneBetween(a[..], sorted + 1, follows);
      for it := sorted + 1 to a.Length
        invariant first <= sorted < it && multiset(a[..]) == multiset(old(a[..]))
        invariant IsChain(a[..], sorted + 1, follows)
        invariant swapped <==> first < sorted
        invariant !swapped ==> NoneFits(a[..], sorted + 1, it, follows)
      {
        ExtendedChain(a[..], sorted + 1, it, follows);
        if follows(a[it], a[sorted]) {
          sorted := sorted + 1;
          Swap(a, it, sorted);
          swapped := true;
        } else if follows(a[0], a[it]) {
          sorted := sorted + 1;
          Swap(a, it, sorted);
          RotateRight(a, sorted);
          swapped := true;
        }
      }
    }
    continuous := sorted + 1 == a.Length;
    if Distinct(old(a[..])) && Unambiguous(old(a[..]), follows) {
      Outcome(old(a[..]), a[..], sorted + 1, follows);
    }
  }

  lemma SingleChain<T>(s: seq<T>, follows: (T, T) -> bool)
    ensures s != [] ==> IsChain(s, 1, follows)
  {
  }

  lemma NoneBetween<T>(s: seq<T>, n: nat, follows: (T, T) -> bool)
    requires 0 < n <= |s|
    ensures NoneFits(s, n, n, follows)
  {
  }

  lemma Outcome<T(!new)>(s: seq<T>, r: seq<T>, n: nat, follows: (T, T) -> bool)
    requires Distinct(s) && Unambiguous(s, follows) && multiset(r) == multiset(s)
    requires 0 < n <= |r| && IsChain(r, n, follows) && NoneFits(r, n, |r|, follows)
    ensures n == |r| <==> FormsChain(s, follows)
  {
    ArrangementsOfPermutation(s, r, follows);
    if n == |r| {
      assert SameElements(r, r);
    } else if FormsChain(r, follows) {
      CanBeExtended(r, n, follows);
    }
  }
}
