/** A network of profile and guide curves as a value: what sorting it may do, and what follows from that. */
module CurveNetwork {
  import opened Geometry

  /** What a curve handle stands for: nothing, or a curve over a parameter range, possibly reversed. */
  datatype CurveValue =
    | Missing
    | CurveValue(first: real, last: real, geometry: real -> Point, reversed: bool)
  {
    function At(t: real): Point
      requires CurveValue?
    {
      geometry(if reversed then first + last - t else t)
    }

    function Reversed(): CurveValue {
      if Missing? then this else this.(reversed := !reversed)
    }
  }

  type Matrix = seq<seq<real>>

  predicate HasSize(m: Matrix, rows: nat, columns: nat) {
    |m| == rows && forall i :: 0 <= i < rows ==> |m[i]| == columns
  }

  function Column(m: Matrix, j: nat): (c: seq<real>)
    requires forall i :: 0 <= i < |m| ==> j < |m[i]|
    ensures |c| == |m| && forall i :: 0 <= i < |c| ==> c[i] == m[i][j]
  {
    seq(|m|, i requires 0 <= i < |m| => m[i][j])
  }

  function Exchanged<T>(s: seq<T>, i: nat, j: nat): (r: seq<T>)
    requires i < |s| && j < |s|
    ensures |r| == |s|
    ensures forall k :: 0 <= k < |s| ==> r[k] == s[if k == i then j else if k == j then i else k]
  {
    s[i := s[j]][j := s[i]]
  }

  function ColumnsExchanged(m: Matrix, i: nat, j: nat): (r: Matrix)
    requires forall k :: 0 <= k < |m| ==> i < |m[k]| && j < |m[k]|
    ensures |r| == |m| && forall k :: 0 <= k < |m| ==> r[k] == Exchanged(m[k], i, j)
  {
    seq(|m|, k requires 0 <= k < |m| => Exchanged(m[k], i, j))
  }

  /** o - x for every entry of a row */
  function RowReflected(s: seq<real>, o: real): (r: seq<real>)
    ensures |r| == |s| && forall k :: 0 <= k < |s| ==> r[k] == -s[k] + o
  {
    seq(|s|, k requires 0 <= k < |s| => -s[k] + o)
  }

  function ColumnReflected(m: Matrix, j: nat, o: real): (r: Matrix)
    requires forall k :: 0 <= k < |m| ==> j < |m[k]|
    ensures |r| == |m| && forall k :: 0 <= k < |m| ==> r[k] == m[k][j := -m[k][j] + o]
  {
    seq(|m|, k requires 0 <= k < |m| => m[k][j := -m[k][j] + o])
  }

  /** P[i][j] is the parameter on profile i where it meets guide j, G[i][j] the one on guide j. */
  datatype Network = Network(profiles: seq<CurveValue>, guides: seq<CurveValue>, P: Matrix, G: Matrix,
                             profileNames: seq<string>, guideNames: seq<string>)
  {
    predicate Valid() {
      && HasSize(P, |profiles|, |guides|) && HasSize(G, |profiles|, |guides|)
      && |profileNames| == |profiles| && |guideNames| == |guides|
    }

    function ProfilesSwapped(i: nat, j: nat): (r: Network)
      requires Valid() && i < |profiles| && j < |profiles|
      ensures r.Valid() && |r.profiles| == |profiles| && |r.guides| == |guides|
    {
      Network(Exchanged(profiles, i, j), guides, Exchanged(P, i, j), Exchanged(G, i, j), Exchanged(profileNames, i, j),
              guideNames)
    }

    function GuidesSwapped(i: nat, j: nat): (r: Network)
      requires Valid() && i < |guides| && j < |guides|
      ensures r.Valid() && |r.profiles| == |profiles| && |r.guides| == |guides|
    {
      Network(profiles, Exchanged(guides, i, j), ColumnsExchanged(P, i, j), ColumnsExchanged(G, i, j),
              profileNames, Exchanged(guideNames, i, j))
    }

    function ProfileReversed(i: nat, o: real): (r: Network)
      requires Valid() && i < |profiles|
      ensures r.Valid()
    {
      this.(profiles := profiles[i := profiles[i].Reversed()], P := P[i := RowReflected(P[i], o)],
            profileNames := profileNames[i := "-" + profileNames[i]])
    }

    function GuideReversed(j: nat, o: real): (r: Network)
      requires Valid() && j < |guides|
      ensures r.Valid()
    {
      this.(guides := guides[j := guides[j].Reversed()], G := ColumnReflected(G, j, o),
            guideNames := guideNames[j := "-" + guideNames[j]])
    }

    /** Wherever both curves exist, they meet at the recorded parameters. */
    ghost predicate Meets() {
      Valid() && forall i, j :: 0 <= i < |profiles| && 0 <= j < |guides| ==> MeetsAt(i, j)
    }

    predicate MeetsAt(i: nat, j: nat)
      requires Valid() && i < |profiles| && j < |guides|
    {
      profiles[i].CurveValue? && guides[j].CurveValue? ==> profiles[i].At(P[i][j]) == guides[j].At(G[i][j])
    }
  }

  // ----- how a sorted network relates to the original one -----

  /** Where each curve came from, whether it was reversed, and about which sum of parameters. */
  datatype Trace = Trace(profileFrom: seq<nat>, guideFrom: seq<nat>, profileTurned: seq<bool>, guideTurned: seq<bool>,
                         profileSum: seq<real>, guideSum: seq<real>)

  predicate IsPermutation(s: seq<nat>, n: nat) {
    && |s| == n
    && (forall i :: 0 <= i < n ==> s[i] < n)
    && (forall i, j :: 0 <= i < j < n ==> s[i] != s[j])
  }

  function Turn(c: CurveValue, turned: bool): CurveValue {
    if turned then c.Reversed() else c
  }

  function Reflect(x: real, turned: bool, o: real): real {
    if turned then -x + o else x
  }

  function Name(s: string, turned: bool): string {
    if turned then "-" + s else s
  }

  predicate TurnsAbout(c: CurveValue, turned: bool, o: real) {
    turned && c.CurveValue? ==> o == c.first + c.last
  }

  ghost predicate TraceFits(t: Trace, n: Network) {
    && IsPermutation(t.profileFrom, |n.profiles|) && IsPermutation(t.guideFrom, |n.guides|)
    && |t.profileTurned| == |t.profileSum| == |n.profiles|
    && |t.guideTurned| == |t.guideSum| == |n.guides|
  }

  ghost predicate ProfileFits(n0: Network, n: Network, t: Trace, i: nat)
    requires n0.Valid() && n.Valid() && TraceFits(t, n0) && |n.profiles| == |n0.profiles| && |n.guides| == |n0.guides|
             && i < |n.profiles|
  {
    var k := t.profileFrom[i];
    && n.profiles[i] == Turn(n0.profiles[k], t.profileTurned[i])
    && n.profileNames[i] == Name(n0.profileNames[k], t.profileTurned[i])
    && TurnsAbout(n0.profiles[k], t.profileTurned[i], t.profileSum[i])
    && forall j :: 0 <= j < |n.guides| ==>
         n.P[i][j] == Reflect(n0.P[k][t.guideFrom[j]], t.profileTurned[i], t.profileSum[i])
  }

  ghost predicate GuideFits(n0: Network, n: Network, t: Trace, j: nat)
    requires n0.Valid() && n.Valid() && TraceFits(t, n0) && |n.profiles| == |n0.profiles| && |n.guides| == |n0.guides|
             && j < |n.guides|
  {
    var k := t.guideFrom[j];
    && n.guides[j] == Turn(n0.guides[k], t.guideTurned[j])
    && n.guideNames[j] == Name(n0.guideNames[k], t.guideTurned[j])
    && TurnsAbout(n0.guides[k], t.guideTurned[j], t.guideSum[j])
    && forall i :: 0 <= i < |n.profiles| ==>
         n.G[i][j] == Reflect(n0.G[t.profileFrom[i]][k], t.guideTurned[j], t.guideSum[j])
  }

  /** n is n0 with its curves permuted, and each reversed at most once, exactly as t says. */
  ghost predicate Rearranged(n0: Network, n: Network, t: Trace) {
    && n0.Valid() && n.Valid() && TraceFits(t, n0) && |n.profiles| == |n0.profiles| && |n.guides| == |n0.guides|
    && (forall i :: 0 <= i < |n.profiles| ==> ProfileFits(n0, n, t, i))
    && (forall j :: 0 <= j < |n.guides| ==> GuideFits(n0, n, t, j))
  }

  function Identity(n: nat): (s: seq<nat>)
    ensures |s| == n && forall i :: 0 <= i < n ==> s[i] == i
  {
    seq(n, i requires 0 <= i => i)
  }

  function NoTurns(n: nat): (s: seq<bool>)
    ensures |s| == n && forall i :: 0 <= i < n ==> !s[i]
  {
    seq(n, i => false)
  }

  function NoSums(n: nat): (s: seq<real>)
    ensures |s| == n
  {
    seq(n, i => 0.0)
  }

  function Start(n: Network): Trace {
    var p, g := |n.profiles|, |n.guides|;
    Trace(Identity(p), Identity(g), NoTurns(p), NoTurns(g), NoSums(p), NoSums(g))
  }

  lemma StartFits(n: Network)
    requires n.Valid()
    ensures Rearranged(n, n, Start(n))
  {
  }

  function SwapProfilesIn(t: Trace, i: nat, j: nat): Trace
    requires |t.profileFrom| == |t.profileTurned| == |t.profileSum| && i < |t.profileFrom| && j < |t.profileFrom|
  {
    t.(profileFrom := Exchanged(t.profileFrom, i, j), profileTurned := Exchanged(t.profileTurned, i, j),
       profileSum := Exchanged(t.profileSum, i, j))
  }

  function SwapGuidesIn(t: Trace, i: nat, j: nat): Trace
    requires |t.guideFrom| == |t.guideTurned| == |t.guideSum| && i < |t.guideFrom| && j < |t.guideFrom|
  {
    t.(guideFrom := Exchanged(t.guideFrom, i, j), guideTurned := Exchanged(t.guideTurned, i, j),
       guideSum := Exchanged(t.guideSum, i, j))
  }

  lemma ProfileAfterSwap(n0: Network, n: Network, t: Trace, i: nat, j: nat, k: nat)
    requires Rearranged(n0, n, t) && i < |n.profiles| && j < |n.profiles| && k < |n.profiles|
    ensures ProfileFits(n0, n.ProfilesSwapped(i, j), SwapProfilesIn(t, i, j), k)
  {
    assert ProfileFits(n0, n, t, if k == i then j else if k == j then i else k);
  }

  lemma GuideAfterSwap(n0: Network, n: Network, t: Trace, i: nat, j: nat, k: nat)
    requires Rearranged(n0, n, t) && i < |n.guides| && j < |n.guides| && k < |n.guides|
    ensures GuideFits(n0, n.GuidesSwapped(i, j), SwapGuidesIn(t, i, j), k)
  {
    assert GuideFits(n0, n, t, if k == i then j else if k == j then i else k);
  }

  lemma SwapProfilesKeeps(n0: Network, n: Network, t: Trace, i: nat, j: nat)
    requires Rearranged(n0, n, t) && i < |n.profiles| && j < |n.profiles|
    ensures Rearranged(n0, n.ProfilesSwapped(i, j), SwapProfilesIn(t, i, j))
  {
    var m, u := n.ProfilesSwapped(i, j), SwapProfilesIn(t, i, j);
    forall k | 0 <= k < |m.profiles|
      ensures ProfileFits(n0, m, u, k)
    {
      ProfileAfterSwap(n0, n, t, i, j, k);
    }
    forall k | 0 <= k < |m.guides|
      ensures GuideFits(n0, m, u, k)
    {
      assert GuideFits(n0, n, t, k);
    }
  }

  lemma SwapGuidesKeeps(n0: Network, n: Network, t: Trace, i: nat, j: nat)
    requires Rearranged(n0, n, t) && i < |n.guides| && j < |n.guides|
    ensures Rearranged(n0, n.GuidesSwapped(i, j), SwapGuidesIn(t, i, j))
  {
    var m, u := n.GuidesSwapped(i, j), SwapGuidesIn(t, i, j);
    forall k | 0 <= k < |m.guides|
      ensures GuideFits(n0, m, u, k)
    {
      GuideAfterSwap(n0, n, t, i, j, k);
    }
    forall k | 0 <= k < |m.profiles|
      ensures ProfileFits(n0, m, u, k)
    {
      assert ProfileFits(n0, n, t, k);
    }
  }

  lemma ReverseProfileKeeps(n0: Network, n: Network, t: Trace, i: nat, o: real)
    requires Rearranged(n0, n, t) && i < |n.profiles| && !t.profileTurned[i]
    requires n.profiles[i].CurveValue? ==> o == n.profiles[i].first + n.profiles[i].last
    ensures Rearranged(n0, n.ProfileReversed(i, o), t.(profileTurned := t.profileTurned[i := true],
                                                       profileSum := t.profileSum[i := o]))
  {
    var m, u := n.ProfileReversed(i, o), t.(profileTurned := t.profileTurned[i := true],
                                            profileSum := t.profileSum[i := o]);
    forall k | 0 <= k < |m.profiles|
      ensures ProfileFits(n0, m, u, k)
    {
      assert ProfileFits(n0, n, t, k);
    }
    forall k | 0 <= k < |m.guides|
      ensures GuideFits(n0, m, u, k)
    {
      assert GuideFits(n0, n, t, k);
    }
  }

  lemma ReverseGuideKeeps(n0: Network, n: Network, t: Trace, j: nat, o: real)
    requires Rearranged(n0, n, t) && j < |n.guides| && !t.guideTurned[j]
    requires n.guides[j].CurveValue? ==> o == n.guides[j].first + n.guides[j].last
    ensures Rearranged(n0, n.GuideReversed(j, o), t.(guideTurned := t.guideTurned[j := true],
                                                     guideSum := t.guideSum[j := o]))
  {
    var m, u := n.GuideReversed(j, o), t.(guideTurned := t.guideTurned[j := true], guideSum := t.guideSum[j := o]);
    forall k | 0 <= k < |m.guides|
      ensures GuideFits(n0, m, u, k)
    {
      assert GuideFits(n0, n, t, k);
    }
    forall k | 0 <= k < |m.profiles|
      ensures ProfileFits(n0, m, u, k)
    {
      assert ProfileFits(n0, n, t, k);
    }
  }

  /** Curves that met at the recorded parameters still do. */
  lemma RearrangedMeets(n0: Network, n: Network, t: Trace)
    requires Rearranged(n0, n, t) && n0.Meets()
    ensures n.Meets()
  {
    forall i, j | 0 <= i < |n.profiles| && 0 <= j < |n.guides|
      ensures n.MeetsAt(i, j)
    {
      assert ProfileFits(n0, n, t, i) && GuideFits(n0, n, t, j);
      assert n0.MeetsAt(t.profileFrom[i], t.guideFrom[j]);
    }
  }
}
