/** Where the sorting of a curve network starts, and when the sorted network is in ascending order. */
module NetworkOrder {
  import opened CurveNetwork

  /** The scans for a maximum start from the smallest positive normal number, the scans for a minimum from the
      largest. */
  datatype Limits = Limits(tiny: real, huge: real) {
    predicate Valid() { 0.0 < tiny < huge }

    /** No parameter is beyond the largest number. */
    ghost predicate IsFinite(n: Network) {
      forall i :: 0 <= i < |n.P| && i < |n.G| ==> Covers(n.P[i]) && Covers(n.G[i])
    }

    ghost predicate Covers(s: seq<real>) {
      forall k :: 0 <= k < |s| ==> s[k] <= huge
    }
  }

  /** Index and value of the first strict minimum among the first n entries, starting from (0, start). */
  function MinScan(s: seq<real>, n: nat, start: real): (nat, real)
    requires n <= |s|
  {
    if n == 0 then (0, start)
    else
      var (k, low) := MinScan(s, n - 1, start);
      if s[n - 1] < low then (n - 1, s[n - 1]) else (k, low)
  }

  function MaxScan(s: seq<real>, n: nat, start: real): (nat, real)
    requires n <= |s|
  {
    if n == 0 then (0, start)
    else
      var (k, high) := MaxScan(s, n - 1, start);
      if s[n - 1] > high then (n - 1, s[n - 1]) else (k, high)
  }

  function ArgMin(s: seq<real>, limits: Limits): nat { MinScan(s, |s|, limits.huge).0 }

  function ArgMax(s: seq<real>, limits: Limits): nat { MaxScan(s, |s|, limits.tiny).0 }

  ghost predicate IsMinimum(s: seq<real>, k: nat) {
    k < |s| && forall m :: 0 <= m < |s| ==> s[k] <= s[m]
  }

  ghost predicate IsMaximum(s: seq<real>, k: nat) {
    k < |s| && forall m :: 0 <= m < |s| ==> s[m] <= s[k]
  }

  lemma {:induction false} MinScanned(s: seq<real>, n: nat, start: real)
    requires n <= |s|
    ensures var (k, low) := MinScan(s, n, start);
            && low <= start && (forall m :: 0 <= m < n ==> low <= s[m])
            && (if low < start then k < n && s[k] == low else k == 0)
  {
    if n > 0 {
      MinScanned(s, n - 1, start);
    }
  }

  lemma {:induction false} MaxScanned(s: seq<real>, n: nat, start: real)
    requires n <= |s|
    ensures var (k, high) := MaxScan(s, n, start);
            && high >= start && (forall m :: 0 <= m < n ==> high >= s[m])
            && (if high > start then k < n && s[k] == high else k == 0)
  {
    if n > 0 {
      MaxScanned(s, n - 1, start);
    }
  }

  lemma ArgMinIsMinimum(s: seq<real>, limits: Limits)
    requires s != [] && limits.Covers(s)
    ensures IsMinimum(s, ArgMin(s, limits))
  {
    MinScanned(s, |s|, limits.huge);
  }

  /** Some entry exceeds the starting value of the scan, or the first entry is a maximum. */
  ghost predicate HasFindableMaximum(s: seq<real>, limits: Limits) {
    (exists k :: 0 <= k < |s| && s[k] > limits.tiny) || IsMaximum(s, 0)
  }

  /** Otherwise the scan for the maximum gives 0, which is none. */
  lemma ArgMaxIsMaximum(s: seq<real>, limits: Limits)
    requires s != []
    ensures IsMaximum(s, ArgMax(s, limits)) <==> HasFindableMaximum(s, limits)
    ensures !HasFindableMaximum(s, limits) ==> ArgMax(s, limits) == 0
  {
    MaxScanned(s, |s|, limits.tiny);
  }

  lemma FiniteLines(n: Network, i: nat, j: nat, limits: Limits)
    requires n.Valid() && limits.IsFinite(n) && i < |n.profiles| && j < |n.guides|
    ensures limits.Covers(n.P[i]) && limits.Covers(Column(n.G, j))
  {
    forall k | 0 <= k < |n.profiles|
      ensures Column(n.G, j)[k] <= limits.huge
    {
      assert limits.Covers(n.G[k]);
    }
  }

  // ----- the start of the network -----

  /** Profile i starts on a guide that starts on profile i. */
  predicate StartsAt(n: Network, i: nat, limits: Limits)
    requires n.Valid() && i < |n.profiles|
  {
    var j := ArgMin(n.P[i], limits);
    j < |n.guides| && ArgMin(Column(n.G, j), limits) == i
  }

  /** Profile i starts on a guide that ends on profile i. */
  predicate StartsAtEnd(n: Network, i: nat, limits: Limits)
    requires n.Valid() && i < |n.profiles|
  {
    var j := ArgMin(n.P[i], limits);
    j < |n.guides| && ArgMax(Column(n.G, j), limits) == i
  }

  ghost predicate HasStart(n: Network, limits: Limits)
    requires n.Valid()
  {
    exists i: nat :: i < |n.profiles| && (StartsAt(n, i, limits) || StartsAtEnd(n, i, limits))
  }

  // ----- the order that sorting is to bring out -----

  predicate RunsUp(s: seq<real>, rank: seq<int>, up: bool)
    requires |rank| == |s|
  {
    forall j, k :: 0 <= j < |s| && 0 <= k < |s| && rank[j] < rank[k] ==> if up then s[j] < s[k] else s[k] < s[j]
  }

  predicate Injective(rank: seq<int>) {
    forall j, k :: 0 <= j < k < |rank| ==> rank[j] != rank[k]
  }

  /** A hidden order of the guides in which the parameters along each profile rise or fall, and one of the profiles. */
  datatype Order = Order(guideRank: seq<int>, profileRank: seq<int>, profileUp: seq<bool>, guideUp: seq<bool>)

  ghost predicate HasOrder(n: Network, a: Order) {
    && n.Valid()
    && |a.guideRank| == |a.guideUp| == |n.guides| && |a.profileRank| == |a.profileUp| == |n.profiles|
    && Injective(a.guideRank) && Injective(a.profileRank)
    && (forall i :: 0 <= i < |n.profiles| ==> RunsUp(n.P[i], a.guideRank, a.profileUp[i]))
    && (forall j :: 0 <= j < |n.guides| ==> RunsUp(Column(n.G, j), a.profileRank, a.guideUp[j]))
  }

  ghost predicate IsLeast(rank: seq<int>, i: nat) {
    i < |rank| && forall k :: 0 <= k < |rank| && k != i ==> rank[i] < rank[k]
  }

  ghost predicate IsGreatest(rank: seq<int>, i: nat) {
    i < |rank| && forall k :: 0 <= k < |rank| && k != i ==> rank[k] < rank[i]
  }

  lemma {:induction false} ExtremeRanks(rank: seq<int>, n: nat) returns (lo: nat, hi: nat)
    requires 0 < n <= |rank| && Injective(rank)
    ensures IsLeast(rank[..n], lo) && IsGreatest(rank[..n], hi)
  {
    if n == 1 {
      lo, hi := 0, 0;
    } else {
      lo, hi := ExtremeRanks(rank, n - 1);
      assert rank[lo] != rank[n - 1] && rank[hi] != rank[n - 1];
      assert forall k :: 0 <= k < n - 1 ==> rank[..n][k] == rank[..n - 1][k];
      lo, hi := if rank[n - 1] < rank[lo] then n - 1 else lo, if rank[hi] < rank[n - 1] then n - 1 else hi;
    }
  }

  /** The least parameter along a curve is at one end of the order. */
  lemma LeastOfRun(s: seq<real>, rank: seq<int>, up: bool, lo: nat, hi: nat, limits: Limits)
    requires |s| == |rank| && RunsUp(s, rank, up) && IsLeast(rank, lo) && IsGreatest(rank, hi) && limits.Covers(s)
    ensures ArgMin(s, limits) == if up then lo else hi
  {
    ArgMinIsMinimum(s, limits);
  }

  lemma GreatestOfRun(s: seq<real>, rank: seq<int>, up: bool, lo: nat, hi: nat, limits: Limits)
    requires |s| == |rank| && RunsUp(s, rank, up) && IsLeast(rank, lo) && IsGreatest(rank, hi)
    ensures ArgMax(s, limits) == (if up then hi else lo) || ArgMax(s, limits) == 0
    ensures HasFindableMaximum(s, limits) ==> ArgMax(s, limits) == if up then hi else lo
    ensures !HasFindableMaximum(s, limits) ==> ArgMax(s, limits) == 0
  {
    ArgMaxIsMaximum(s, limits);
  }

  /** A network with a hidden order always has a start: its first or its last profile in that order, or, if the scans
      for a maximum fail on the guides where both of these start, the first profile of all. */
  lemma OrderedNetworkStarts(n: Network, a: Order, limits: Limits)
    requires HasOrder(n, a) && |n.profiles| > 0 && |n.guides| > 0 && limits.IsFinite(n)
    ensures HasStart(n, limits)
  {
    hide Limits.Covers, RunsUp, Injective, IsLeast, IsGreatest, HasFindableMaximum, ArgMin, ArgMax, Limits.IsFinite;
    var lo, hi := ExtremeRanks(a.profileRank, |n.profiles|);
    var first, last := ExtremeRanks(a.guideRank, |n.guides|);
    assert a.profileRank[..|n.profiles|] == a.profileRank && a.guideRank[..|n.guides|] == a.guideRank;
    var j, k, l := ArgMin(n.P[lo], limits), ArgMin(n.P[hi], limits), ArgMin(n.P[0], limits);
    StartOfProfile(n, a, limits, lo, lo, hi, first, last);
    StartOfProfile(n, a, limits, hi, lo, hi, first, last);
    StartOfProfile(n, a, limits, 0, lo, hi, first, last);
    if a.guideUp[j] {
      assert StartsAt(n, lo, limits);
    } else if !a.guideUp[k] {
      assert StartsAt(n, hi, limits);
    } else if HasFindableMaximum(Column(n.G, j), limits) {
      assert StartsAtEnd(n, lo, limits);
    } else if HasFindableMaximum(Column(n.G, k), limits) {
      assert StartsAtEnd(n, hi, limits);
    } else {
      assert l == j || l == k;
      assert StartsAtEnd(n, 0, limits);
    }
  }

  /** A profile starts on the first or the last guide; which profiles the scans find there. */
  lemma StartOfProfile(n: Network, a: Order, limits: Limits, i: nat, lo: nat, hi: nat, first: nat, last: nat)
    requires HasOrder(n, a) && limits.IsFinite(n) && i < |n.profiles|
    requires IsLeast(a.profileRank, lo) && IsGreatest(a.profileRank, hi) && IsLeast(a.guideRank, first)
             && IsGreatest(a.guideRank, last)
    ensures var j := ArgMin(n.P[i], limits);
            && (j == first || j == last) && j < |n.guides|
            && ArgMin(Column(n.G, j), limits) == (if a.guideUp[j] then lo else hi)
            && ArgMax(Column(n.G, j), limits)
               == if HasFindableMaximum(Column(n.G, j), limits) then if a.guideUp[j] then hi else lo else 0
  {
    hide Limits.Covers, RunsUp, Injective, HasFindableMaximum, ArgMin, ArgMax, Limits.IsFinite;
    FiniteLines(n, i, first, limits);
    LeastOfRun(n.P[i], a.guideRank, a.profileUp[i], first, last, limits);
    var j := ArgMin(n.P[i], limits);
    FiniteLines(n, i, j, limits);
    LeastOfRun(Column(n.G, j), a.profileRank, a.guideUp[j], lo, hi, limits);
    GreatestOfRun(Column(n.G, j), a.profileRank, a.guideUp[j], lo, hi, limits);
  }

  predicate InOrder(s: seq<real>) {
    forall j, k :: 0 <= j < k < |s| ==> s[j] <= s[k]
  }

  predicate StrictlyAscending(s: seq<real>) {
    forall j, k :: 0 <= j < k < |s| ==> s[j] < s[k]
  }

  predicate EndsInOrder(s: seq<real>) {
    s != [] ==> s[0] <= s[|s| - 1]
  }

  function Picked<T>(s: seq<T>, from: seq<nat>): (r: seq<T>)
    requires forall i :: 0 <= i < |from| ==> from[i] < |s|
    ensures |r| == |from| && forall i :: 0 <= i < |r| ==> r[i] == s[from[i]]
  {
    seq(|from|, i requires 0 <= i < |from| => s[from[i]])
  }

  function Directions(up: seq<bool>, from: seq<nat>, turned: seq<bool>): (r: seq<bool>)
    requires |turned| == |from| && forall i :: 0 <= i < |from| ==> from[i] < |up|
    ensures |r| == |from| && forall i :: 0 <= i < |r| ==> r[i] == (up[from[i]] != turned[i])
  {
    seq(|from|, i requires 0 <= i < |from| => up[from[i]] != turned[i])
  }

  function OrderAfter(a: Order, t: Trace): Order
    requires |t.profileTurned| == |t.profileFrom| && |t.guideTurned| == |t.guideFrom|
    requires forall i :: 0 <= i < |t.profileFrom| ==>
               t.profileFrom[i] < |a.profileRank| && t.profileFrom[i] < |a.profileUp|
    requires forall j :: 0 <= j < |t.guideFrom| ==> t.guideFrom[j] < |a.guideRank| && t.guideFrom[j] < |a.guideUp|
  {
    Order(Picked(a.guideRank, t.guideFrom), Picked(a.profileRank, t.profileFrom),
          Directions(a.profileUp, t.profileFrom, t.profileTurned), Directions(a.guideUp, t.guideFrom, t.guideTurned))
  }

  lemma InjectivePicked(rank: seq<int>, from: seq<nat>)
    requires Injective(rank) && IsPermutation(from, |rank|)
    ensures Injective(Picked(rank, from))
  {
    forall j, k | 0 <= j < k < |from|
      ensures rank[from[j]] != rank[from[k]]
    {
      assert from[j] < from[k] || from[k] < from[j];
    }
  }

  lemma RunsUpReflected(s: seq<real>, rank: seq<int>, up: bool, from: seq<nat>, turned: bool, o: real, s': seq<real>)
    requires |rank| == |s| && RunsUp(s, rank, up) && IsPermutation(from, |s|)
    requires |s'| == |s| && forall k :: 0 <= k < |s'| ==> s'[k] == Reflect(s[from[k]], turned, o)
    ensures RunsUp(s', Picked(rank, from), up != turned)
  {
    forall j, k | 0 <= j < |s'| && 0 <= k < |s'| && rank[from[j]] < rank[from[k]]
      ensures if up != turned then s'[j] < s'[k] else s'[k] < s'[j]
    {
      assert if up then s[from[j]] < s[from[k]] else s[from[k]] < s[from[j]];
    }
  }

  /** Permuting and reversing the curves keeps a hidden order, with the directions of reversed curves exchanged. */
  lemma OrderSurvives(n0: Network, n: Network, t: Trace, a: Order)
    requires Rearranged(n0, n, t) && HasOrder(n0, a)
    ensures HasOrder(n, OrderAfter(a, t))
  {
    InjectivePicked(a.guideRank, t.guideFrom);
    InjectivePicked(a.profileRank, t.profileFrom);
    forall i | 0 <= i < |n.profiles|
      ensures RunsUp(n.P[i], Picked(a.guideRank, t.guideFrom),
                     Directions(a.profileUp, t.profileFrom, t.profileTurned)[i])
    {
      assert ProfileFits(n0, n, t, i);
      var k := t.profileFrom[i];
      RunsUpReflected(n0.P[k], a.guideRank, a.profileUp[k], t.guideFrom, t.profileTurned[i], t.profileSum[i], n.P[i]);
    }
    forall j | 0 <= j < |n.guides|
      ensures RunsUp(Column(n.G, j), Picked(a.profileRank, t.profileFrom),
                     Directions(a.guideUp, t.guideFrom, t.guideTurned)[j])
    {
      assert GuideFits(n0, n, t, j);
      var k := t.guideFrom[j];
      RunsUpReflected(Column(n0.G, k), a.profileRank, a.guideUp[k], t.profileFrom, t.guideTurned[j], t.guideSum[j],
                      Column(n.G, j));
    }
  }

  /** One ascending line settles the order; another line in the same order then ascends if its ends do. */
  lemma AscendingTogether(s: seq<real>, s': seq<real>, rank: seq<int>, up: bool, up': bool)
    requires |s| == |s'| == |rank| && Injective(rank) && RunsUp(s, rank, up) && RunsUp(s', rank, up')
    requires InOrder(s) && EndsInOrder(s')
    ensures StrictlyAscending(s')
  {
    forall j, k | 0 <= j < k < |s|
      ensures if up then rank[j] < rank[k] else rank[k] < rank[j]
    {
      assert rank[j] != rank[k] && s[j] <= s[k];
    }
    if |s| > 1 {
      assert if up then rank[0] < rank[|s| - 1] else rank[|s| - 1] < rank[0];
      assert up == up';
    }
  }

  lemma StrictIsInOrder(s: seq<real>)
    requires StrictlyAscending(s)
    ensures InOrder(s)
  {
  }

  /** Where row 0 of a rearranged network with a hidden order is in order, every profile that runs from its lesser end
      ascends. */
  lemma ProfilesBringOutOrder(n0: Network, n: Network, t: Trace, a: Order)
    requires HasOrder(n0, a) && Rearranged(n0, n, t) && |n.profiles| > 0 && InOrder(n.P[0])
    requires forall i :: 1 <= i < |n.profiles| ==> EndsInOrder(n.P[i])
    ensures forall i :: 0 <= i < |n.profiles| ==> StrictlyAscending(n.P[i])
  {
    hide InOrder, StrictlyAscending, RunsUp;
    OrderSurvives(n0, n, t, a);
    var b := OrderAfter(a, t);
    InOrderEnds(n.P[0]);
    forall i | 0 <= i < |n.profiles|
      ensures StrictlyAscending(n.P[i])
    {
      AscendingTogether(n.P[0], n.P[i], b.guideRank, b.profileUp[0], b.profileUp[i]);
    }
  }

  lemma InOrderEnds(s: seq<real>)
    requires InOrder(s)
    ensures EndsInOrder(s)
  {
  }

  lemma GuidesBringOutOrder(n0: Network, n: Network, t: Trace, a: Order)
    requires HasOrder(n0, a) && Rearranged(n0, n, t) && |n.guides| > 0 && InOrder(Column(n.G, 0))
    requires forall j :: 1 <= j < |n.guides| ==> EndsInOrder(Column(n.G, j))
    ensures forall j :: 0 <= j < |n.guides| ==> StrictlyAscending(Column(n.G, j))
  {
    hide InOrder, StrictlyAscending, RunsUp;
    OrderSurvives(n0, n, t, a);
    var b := OrderAfter(a, t);
    InOrderEnds(Column(n.G, 0));
    forall j | 0 <= j < |n.guides|
      ensures StrictlyAscending(Column(n.G, j))
    {
      AscendingTogether(Column(n.G, 0), Column(n.G, j), b.profileRank, b.guideUp[0], b.guideUp[j]);
    }
  }
}
