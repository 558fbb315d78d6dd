/** The object that sorts a curve network in place. */
module CurveNetworkSorter {
  import opened Wrappers
  import opened Geometry
  import opened CurveNetwork
  import opened NetworkOrder

  /** A curve over a fixed parameter range, which can be reversed in place. */
  class Curve {
    const first: real
    const last: real
    const geometry: real -> Point
    var reversed: bool

    constructor (first: real, last: real, geometry: real -> Point)
      ensures this.first == first && this.last == last && this.geometry == geometry && !reversed
      ensures Value().first == first && Value().last == last && forall t :: Value().At(t) == geometry(t)
    {
      this.first, this.last, this.geometry := first, last, geometry;
      reversed := false;
    }

    function Value(): CurveValue
      reads this
    {
      CurveValue(first, last, geometry, reversed)
    }

    method Reverse()
      modifies this
      ensures Value() == old(Value()).Reversed()
      ensures forall t :: Value().At(first + last - t) == old(Value()).At(t)
    {
      reversed := !reversed;
    }
  }

  function ValueOf(c: Curve?): CurveValue
    reads c
  {
    if c == null then Missing else c.Value()
  }

  function ValuesOf(cs: seq<Curve?>): (r: seq<CurveValue>)
    reads cs
    ensures |r| == |cs| && forall i :: 0 <= i < |r| ==> r[i] == ValueOf(cs[i])
  {
    seq(|cs|, i requires 0 <= i < |cs| reads cs => ValueOf(cs[i]))
  }

  method MinIndex(s: seq<real>, limits: Limits) returns (k: nat)
    ensures k == ArgMin(s, limits)
  {
    var low := limits.huge;
    k := 0;
    for m := 0 to |s|
      invariant (k, low) == MinScan(s, m, limits.huge)
    {
      if s[m] < low {
        low := s[m];
        k := m;
      }
    }
  }

  method MaxIndex(s: seq<real>, limits: Limits) returns (k: nat)
    ensures k == ArgMax(s, limits)
  {
    var high := limits.tiny;
    k := 0;
    for m := 0 to |s|
      invariant (k, high) == MaxScan(s, m, limits.tiny)
    {
      if s[m] > high {
        high := s[m];
        k := m;
      }
    }
  }

  predicate NoSharing(profiles: seq<Curve?>, guides: seq<Curve?>) {
    && (forall i, j :: 0 <= i < j < |profiles| && profiles[i] != null ==> profiles[i] != profiles[j])
    && (forall i, j :: 0 <= i < j < |guides| && guides[i] != null ==> guides[i] != guides[j])
    && (forall i, j :: 0 <= i < |profiles| && 0 <= j < |guides| && profiles[i] != null ==> profiles[i] != guides[j])
  }

  function Decimal(n: nat): string {
    if n < 10 then ["0123456789"[n]] else Decimal(n / 10) + ["0123456789"[n % 10]]
  }

  function Numbers(n: nat): (r: seq<string>)
    ensures |r| == n && forall i :: 0 <= i < n ==> r[i] == Decimal(i)
  {
    seq(n, i requires 0 <= i => Decimal(i))
  }

  /** The number that a numeral stands for. */
  function Parsed(s: string): int {
    if s == [] then 0 else 10 * Parsed(s[..|s| - 1]) + (s[|s| - 1] as int - '0' as int)
  }

  predicate IsDigit(c: char) {
    '0' <= c <= '9'
  }

  lemma DigitAt(n: nat)
    requires n < 10
    ensures var c := "0123456789"[n]; IsDigit(c) && c as int - '0' as int == n && (c == '0' <==> n == 0)
  {
  }

  lemma ParsedWithDigit(s: string, c: char)
    ensures Parsed(s + [c]) == 10 * Parsed(s) + (c as int - '0' as int)
  {
    assert (s + [c])[..|s|] == s;
  }

  /** The name of a curve is the decimal numeral of its index, without leading zeros. */
  lemma {:induction false} DecimalIsNumeral(n: nat)
    ensures Decimal(n) != [] && (forall c :: c in Decimal(n) ==> IsDigit(c))
    ensures Parsed(Decimal(n)) == n && (Decimal(n)[0] == '0' <==> n == 0)
  {
    hide IsDigit, Parsed;
    DigitAt(n % 10);
    if n >= 10 {
      DecimalIsNumeral(n / 10);
      ParsedWithDigit(Decimal(n / 10), "0123456789"[n % 10]);
    } else {
      ParsedWithDigit([], "0123456789"[n]);
      assert [] + ["0123456789"[n]] == Decimal(n);
      ParsedEmpty();
    }
  }

  lemma ParsedEmpty()
    ensures Parsed([]) == 0
  {
  }

  /** The names of a rearranged network tell where each profile came from and whether it was reversed. */
  lemma NamesTell(n0: Network, n: Network, t: Trace, i: nat)
    requires Rearranged(n0, n, t) && n0.profileNames == Numbers(|n0.profiles|) && i < |n.profiles|
    ensures n.profileNames[i] != [] && (n.profileNames[i][0] == '-' <==> t.profileTurned[i])
    ensures Parsed(n.profileNames[i][if t.profileTurned[i] then 1 else 0..]) == t.profileFrom[i]
  {
    assert ProfileFits(n0, n, t, i);
    var name := Decimal(t.profileFrom[i]);
    DecimalIsNumeral(t.profileFrom[i]);
    assert name[0] in name;
    assert n.profileNames[i][if t.profileTurned[i] then 1 else 0..] == name;
  }

  /** The same for the guides. */
  lemma GuideNamesTell(n0: Network, n: Network, t: Trace, j: nat)
    requires Rearranged(n0, n, t) && n0.guideNames == Numbers(|n0.guides|) && j < |n.guides|
    ensures n.guideNames[j] != [] && (n.guideNames[j][0] == '-' <==> t.guideTurned[j])
    ensures Parsed(n.guideNames[j][if t.guideTurned[j] then 1 else 0..]) == t.guideFrom[j]
  {
    assert GuideFits(n0, n, t, j);
    var name := Decimal(t.guideFrom[j]);
    DecimalIsNumeral(t.guideFrom[j]);
    assert name[0] in name;
    assert n.guideNames[j][if t.guideTurned[j] then 1 else 0..] == name;
  }

  /** A table of parameters, which knows its size. */
  datatype Table = Table(rows: nat, columns: nat, entries: Matrix)

  /** Creates a sorter; it throws if a table does not fit the numbers of curves. */
  method CreateSorter(profiles: seq<Curve?>, guides: seq<Curve?>, P: Table, G: Table,
                      limits: Limits)
    returns (r: Result<Sorter, string>)
    requires NoSharing(profiles, guides)
    requires HasSize(P.entries, P.rows, P.columns) && HasSize(G.entries, G.rows, G.columns)
    ensures r.Success? <==> P.rows == G.rows == |profiles| && P.columns == G.columns == |guides|
    ensures r.Failure? ==>
              r.error == if P.rows != |profiles| then "Invalid row size of parmsIntersProfiles matrix."
                         else if G.rows != |profiles| then "Invalid row size of parmsIntersGuides matrix."
                         else if P.columns != |guides| then "Invalid col size of parmsIntersProfiles matrix."
                         else "Invalid col size of parmsIntersGuides matrix."
    ensures r.Success? ==> fresh(r.value) && r.value.Valid() && !r.value.hasPerformed && r.value.limits == limits
    ensures r.Success? ==>
              r.value.View() == Network(ValuesOf(profiles), ValuesOf(guides), P.entries, G.entries,
                                        Numbers(|profiles|), Numbers(|guides|))
  {
    if |profiles| != P.rows {
      return Failure("Invalid row size of parmsIntersProfiles matrix.");
    }
    if |profiles| != G.rows {
      return Failure("Invalid row size of parmsIntersGuides matrix.");
    }
    if |guides| != P.columns {
      return Failure("Invalid col size of parmsIntersProfiles matrix.");
    }
    if |guides| != G.columns {
      return Failure("Invalid col size of parmsIntersGuides matrix.");
    }
    var sorter := new Sorter(profiles, guides, P.entries, G.entries, limits);
    return Success(sorter);
  }

  const NO_START := "Cannot find starting curves of curve network."

  datatype StartCurves = StartCurves(profile: nat, guide: nat, guideMustBeReversed: bool)

  class Sorter {
    const limits: Limits
    var profiles: seq<Curve?>
    var guides: seq<Curve?>
    var P: Matrix
    var G: Matrix
    var profileNames: seq<string>
    var guideNames: seq<string>
    var hasPerformed: bool
    ghost const curves: set<Curve>

    constructor (profiles: seq<Curve?>, guides: seq<Curve?>, P: Matrix, G: Matrix, limits: Limits)
      requires NoSharing(profiles, guides)
      requires HasSize(P, |profiles|, |guides|) && HasSize(G, |profiles|, |guides|)
      ensures Valid() && !hasPerformed && this.limits == limits
      ensures View() == Network(ValuesOf(profiles), ValuesOf(guides), P, G, Numbers(|profiles|), Numbers(|guides|))
    {
      this.profiles, this.guides, this.P, this.G, this.limits := profiles, guides, P, G, limits;
      profileNames, guideNames := Numbers(|profiles|), Numbers(|guides|);
      hasPerformed := false;
      curves := (set c: Curve? | c in profiles && c != null) + (set c: Curve? | c in guides && c != null);
    }

    /** No two handles of the network share a curve. */
    ghost predicate Unshared()
      reads this`profiles, this`guides
    {
      NoSharing(profiles, guides)
    }

    ghost predicate Owned()
      reads this`profiles, this`guides
    {
      && (forall i :: 0 <= i < |profiles| && profiles[i] != null ==> profiles[i] in curves)
      && (forall j :: 0 <= j < |guides| && guides[j] != null ==> guides[j] in curves)
    }

    ghost function View(): Network
      reads this`profiles, this`guides, this`P, this`G, this`profileNames, this`guideNames, curves
      requires Owned()
    {
      Network(ValuesOf(profiles), ValuesOf(guides), P, G, profileNames, guideNames)
    }

    ghost predicate Valid()
      reads this`profiles, this`guides, this`P, this`G, this`profileNames, this`guideNames, curves
    {
      Owned() && Unshared() && View().Valid()
    }

    /** The curves behind the handles meet at the recorded parameters. */
    ghost predicate CurvesMeet()
      reads this`profiles, this`guides, this`P, this`G, curves
      requires Owned() && HasSize(P, |profiles|, |guides|) && HasSize(G, |profiles|, |guides|)
    {
      forall i, j :: 0 <= i < |profiles| && 0 <= j < |guides| && profiles[i] != null && guides[j] != null ==>
        profiles[i].Value().At(P[i][j]) == guides[j].Value().At(G[i][j])
    }

    lemma MeetAsValues()
      requires Valid()
      ensures CurvesMeet() <==> View().Meets()
    {
      if CurvesMeet() {
        forall i, j | 0 <= i < |profiles| && 0 <= j < |guides|
          ensures View().MeetsAt(i, j)
        {
          assert ValuesOf(profiles)[i] == ValueOf(profiles[i]) && ValuesOf(guides)[j] == ValueOf(guides[j]);
        }
      }
      if View().Meets() {
        forall i, j | 0 <= i < |profiles| && 0 <= j < |guides| && profiles[i] != null && guides[j] != null
          ensures profiles[i].Value().At(P[i][j]) == guides[j].Value().At(G[i][j])
        {
          assert View().MeetsAt(i, j);
        }
      }
    }

    method SwapProfiles(i: nat, j: nat)
      requires Valid() && i < |profiles| && j < |profiles|
      modifies this`profiles, this`profileNames, this`P, this`G
      ensures Valid() && View() == old(View()).ProfilesSwapped(i, j)
    {
      if i == j {
        assert View() == old(View()).ProfilesSwapped(i, j);
        return;
      }
      profiles := Exchanged(profiles, i, j);
      profileNames := Exchanged(profileNames, i, j);
      G := Exchanged(G, i, j);
      P := Exchanged(P, i, j);
      assert View().profiles == old(View()).ProfilesSwapped(i, j).profiles;
    }

    method SwapGuides(i: nat, j: nat)
      requires Valid() && i < |guides| && j < |guides|
      modifies this`guides, this`guideNames, this`P, this`G
      ensures Valid() && View() == old(View()).GuidesSwapped(i, j)
    {
      if i == j {
        SameColumnsExchanged(P, i);
        SameColumnsExchanged(G, i);
        assert View() == old(View()).GuidesSwapped(i, j);
        return;
      }
      guides := Exchanged(guides, i, j);
      guideNames := Exchanged(guideNames, i, j);
      G := ColumnsExchanged(G, i, j);
      P := ColumnsExchanged(P, i, j);
      assert View().guides == old(View()).GuidesSwapped(i, j).guides;
    }

    method ReflectProfile(i: nat, firstParm: real, lastParm: real)
      requires i < |P| && |P[i]| == |guides|
      modifies this`P
      ensures P == old(P)[i := RowReflected(old(P)[i], firstParm + lastParm)]
    {
      ghost var row := P[i];
      for c := 0 to |guides|
        invariant |P| == |old(P)| && |P[i]| == |guides|
        invariant P == old(P)[i := P[i]]
        invariant forall k :: 0 <= k < c ==> P[i][k] == -row[k] + (firstParm + lastParm)
        invariant forall k :: c <= k < |guides| ==> P[i][k] == row[k]
      {
        P := P[i := P[i][c := -P[i][c] + firstParm + lastParm]];
      }
      assert P[i] == RowReflected(row, firstParm + lastParm);
    }

    method ReflectGuide(j: nat, firstParm: real, lastParm: real)
      requires |G| == |profiles| && forall k :: 0 <= k < |G| ==> j < |G[k]|
      modifies this`G
      ensures G == ColumnReflected(old(G), j, firstParm + lastParm)
    {
      for r := 0 to |profiles|
        invariant |G| == |profiles|
        invariant forall k :: 0 <= k < r ==> G[k] == old(G)[k][j := -old(G)[k][j] + (firstParm + lastParm)]
        invariant forall k :: r <= k < |profiles| ==> G[k] == old(G)[k]
      {
        G := G[r := G[r][j := -G[r][j] + firstParm + lastParm]];
      }
    }

    method ReverseProfileCurve(i: nat)
      requires Owned() && Unshared() && i < |profiles|
      modifies curves
      ensures ValuesOf(profiles) == old(ValuesOf(profiles)[i := ValueOf(profiles[i]).Reversed()])
      ensures ValuesOf(guides) == old(ValuesOf(guides))
    {
      if profiles[i] != null {
        profiles[i].Reverse();
      }
    }

    method ReverseGuideCurve(j: nat)
      requires Owned() && Unshared() && j < |guides|
      modifies curves
      ensures ValuesOf(profiles) == old(ValuesOf(profiles))
      ensures ValuesOf(guides) == old(ValuesOf(guides)[j := ValueOf(guides[j]).Reversed()])
    {
      if guides[j] != null {
        guides[j].Reverse();
      }
    }

    /** Reflects the parameters of a profile, and reverses its curve and its name. */
    method TurnProfile(i: nat, firstParm: real, lastParm: real)
      requires Owned() && Unshared() && i < |profiles| && i < |profileNames| && i < |P| && |P[i]| == |guides|
      modifies this`profileNames, this`P, curves
      ensures P == old(P)[i := RowReflected(old(P)[i], firstParm + lastParm)]
      ensures profileNames == old(profileNames)[i := "-" + old(profileNames)[i]]
      ensures ValuesOf(profiles) == old(ValuesOf(profiles))[i := old(ValueOf(profiles[i])).Reversed()]
      ensures ValuesOf(guides) == old(ValuesOf(guides))
    {
      hide Owned, Unshared, ValuesOf;
      ReflectProfile(i, firstParm, lastParm);
      ReverseProfileCurve(i);
      profileNames := profileNames[i := "-" + profileNames[i]];
    }

    method TurnGuide(j: nat, firstParm: real, lastParm: real)
      requires Owned() && Unshared() && j < |guides| && j < |guideNames| && |G| == |profiles|
      requires forall k :: 0 <= k < |G| ==> j < |G[k]|
      modifies this`guideNames, this`G, curves
      ensures G == ColumnReflected(old(G), j, firstParm + lastParm)
      ensures guideNames == old(guideNames)[j := "-" + old(guideNames)[j]]
      ensures ValuesOf(guides) == old(ValuesOf(guides))[j := old(ValueOf(guides[j])).Reversed()]
      ensures ValuesOf(profiles) == old(ValuesOf(profiles))
    {
      hide Owned, Unshared, ValuesOf;
      ReflectGuide(j, firstParm, lastParm);
      ReverseGuideCurve(j);
      guideNames := guideNames[j := "-" + guideNames[j]];
    }

    /** The range of a curve, or, if the curve is missing, from the least to the greatest of its parameters. */
    method EndsOf(c: Curve?, line: seq<real>) returns (firstParm: real, lastParm: real)
      requires line != []
      ensures firstParm + lastParm == if c != null then c.first + c.last else EndSum(line, limits)
      ensures c == null && limits.Covers(line) && HasFindableMaximum(line, limits) ==>
                EndsExchanged(line, RowReflected(line, firstParm + lastParm))
    {
      hide Limits.Covers, HasFindableMaximum, EndsExchanged, ArgMin, ArgMax;
      if c != null {
        lastParm, firstParm := c.last, c.first;
      } else {
        var k := MaxIndex(line, limits);
        var m := MinIndex(line, limits);
        ScansInRange(line, limits);
        lastParm, firstParm := line[k], line[m];
        if limits.Covers(line) {
          EndsChangePlaces(line, limits);
        }
      }
    }

    /** Reverses a profile; a missing curve is taken to range from its least to its greatest parameter. */
    method ReverseProfile(i: nat) returns (ghost o: real)
      requires Valid() && i < |profiles| && |guides| > 0
      modifies this`profileNames, this`P, curves
      ensures Valid() && View() == old(View()).ProfileReversed(i, o)
      ensures |old(P)| == |profiles| && |old(P)[i]| == |guides|
      ensures o == if profiles[i] != null then profiles[i].first + profiles[i].last else EndSum(old(P)[i], limits)
      ensures profiles[i] == null && limits.Covers(old(P)[i]) && HasFindableMaximum(old(P)[i], limits) ==>
                EndsExchanged(old(P)[i], RowReflected(old(P)[i], o))
    {
      hide Owned, Unshared, ValuesOf, EndSum, Network.Valid, Network.ProfileReversed, Network.GuideReversed,
        HasFindableMaximum, Limits.Covers, EndsExchanged;
      ghost var n := View();
      SizesOf(n);
      var firstParm, lastParm := EndsOf(profiles[i], P[i]);
      o := firstParm + lastParm;
      TurnProfile(i, firstParm, lastParm);
      ReversedProfile(n, View(), i, o);
    }

    method ReverseGuide(j: nat) returns (ghost o: real)
      requires Valid() && j < |guides| && |profiles| > 0
      modifies this`guideNames, this`G, curves
      ensures Valid() && View() == old(View()).GuideReversed(j, o)
      ensures |old(G)| == |profiles| && forall i :: 0 <= i < |profiles| ==> |old(G)[i]| == |guides|
      ensures o == if guides[j] != null then guides[j].first + guides[j].last else EndSum(Column(old(G), j), limits)
      ensures guides[j] == null && limits.Covers(Column(old(G), j)) && HasFindableMaximum(Column(old(G), j), limits) ==>
                EndsExchanged(Column(old(G), j), RowReflected(Column(old(G), j), o))
    {
      hide Owned, Unshared, ValuesOf, EndSum, Network.Valid, Network.ProfileReversed, Network.GuideReversed,
        HasFindableMaximum, Limits.Covers, EndsExchanged;
      ghost var n := View();
      SizesOf(n);
      var firstParm, lastParm := EndsOf(guides[j], Column(G, j));
      o := firstParm + lastParm;
      TurnGuide(j, firstParm, lastParm);
      ReversedGuide(n, View(), j, o);
    }

    method GetStartCurveIndices() returns (r: Result<StartCurves, string>)
      requires Valid() && |guides| > 0
      ensures r.Success? <==> HasStart(View(), limits)
      ensures r.Success? ==> IsStart(View(), r.value, limits)
      ensures r.Failure? ==> r.error == NO_START
    {
      hide Owned, Unshared, ArgMin, ArgMax;
      ghost var n := View();
      for i := 0 to |profiles|
        invariant forall k :: 0 <= k < i ==> !StartsAt(n, k, limits)
      {
        var j := MinIndex(P[i], limits);
        ScansInRange(P[i], limits);
        var m := MinIndex(Column(G, j), limits);
        assert StartsAt(n, i, limits) <==> m == i;
        if m == i {
          return Success(StartCurves(m, j, false));
        }
      }
      for i := 0 to |profiles|
        invariant forall k :: 0 <= k < i ==> !StartsAtEnd(n, k, limits)
      {
        var j := MinIndex(P[i], limits);
        ScansInRange(P[i], limits);
        var m := MaxIndex(Column(G, j), limits);
        assert StartsAtEnd(n, i, limits) <==> m == i;
        if m == i {
          return Success(StartCurves(m, j, true));
        }
      }
      return Failure(NO_START);
    }

    /** Puts the start curves first, and turns the first guide if it ends there. */
    method MoveStart(start: StartCurves, ghost n0: Network) returns (ghost t: Trace)
      requires Valid() && n0 == View() && start.profile < |profiles| && start.guide < |guides|
      modifies this`profiles, this`guides, this`profileNames, this`guideNames, this`P, this`G, curves
      ensures Valid() && IsPlaced(n0, View(), t, start)
    {
      hide Owned, Unshared;
      t := StartPlaced(n0, start, 0.0);
      SwapProfiles(0, start.profile);
      SwapGuides(0, start.guide);
      if start.guideMustBeReversed {
        ghost var o := ReverseGuide(0);
        t := StartPlaced(n0, start, o);
      }
    }

    /** One comparison of neighbouring guides. */
    method CompareGuides(ghost n0: Network, ghost t0: Trace, ghost start: StartCurves, ghost m: nat, j: nat)
      returns (ghost t: Trace)
      requires Valid() && |profiles| > 0 && 1 <= j && j + 1 < m <= |guides|
      requires GuideLoop(n0, View(), t0, start, m, j)
      modifies this`guides, this`guideNames, this`P, this`G
      ensures Valid() && |guides| == old(|guides|) && GuideLoop(n0, View(), t, start, m, j + 1)
    {
      hide Owned, Unshared, GuideLoop, Network.GuidesSwapped, SwapGuidesIn, ValuesOf;
      t := t0;
      ghost var n := View();
      SizesOf(n);
      if P[0][j] > P[0][j + 1] {
        GuideLoopSwaps(n0, n, t, start, m, j);
        t := SwapGuidesIn(t, j, j + 1);
        SwapGuides(j, j + 1);
      } else {
        GuideLoopStays(n0, n, t, start, m, j);
      }
    }

    /** Bubble sort of all guides but the first by their parameters on the first profile. */
    method SortGuides(ghost n0: Network, ghost first: Network, ghost t0: Trace, ghost start: StartCurves)
      returns (ghost t: Trace)
      requires Valid() && View() == first && IsPlaced(n0, first, t0, start)
      modifies this`guides, this`guideNames, this`P, this`G
      ensures Valid() && GuidesSorted(n0, View(), t, start)
    {
      hide Owned, Unshared, IsPlaced, GuideLoop, GuidesSorted, ValuesOf, Network.Valid;
      t := t0;
      var m := |guides|;
      GuideLoopStarts(n0, first, t, start);
      while m > 1
        invariant Valid() && 1 <= m <= |guides| && |profiles| > 0
        invariant GuideLoop(n0, View(), t, start, m, 1)
      {
        var j := 1;
        while j < m - 1
          invariant Valid() && 1 <= j < m <= |guides| && |profiles| > 0
          invariant GuideLoop(n0, View(), t, start, m, j)
        {
          t := CompareGuides(n0, t, start, m, j);
          j := j + 1;
        }
        GuideLoopTurns(n0, View(), t, start, m);
        m := m - 1;
      }
      GuideLoopEnds(n0, View(), t, start);
    }

    /** One comparison of neighbouring profiles. */
    method CompareProfiles(ghost n0: Network, ghost t0: Trace, ghost start: StartCurves, ghost m: nat, i: nat)
      returns (ghost t: Trace)
      requires Valid() && |guides| > 0 && 1 <= i && i + 1 < m <= |profiles|
      requires ProfileLoop(n0, View(), t0, start, m, i)
      modifies this`profiles, this`profileNames, this`P, this`G
      ensures Valid() && |profiles| == old(|profiles|) && ProfileLoop(n0, View(), t, start, m, i + 1)
    {
      hide Owned, Unshared, ProfileLoop, Network.ProfilesSwapped, SwapProfilesIn, ValuesOf;
      t := t0;
      ghost var n := View();
      SizesOf(n);
      if G[i][0] > G[i + 1][0] {
        ProfileLoopSwaps(n0, n, t, start, m, i);
        t := SwapProfilesIn(t, i, i + 1);
        SwapProfiles(i, i + 1);
      } else {
        ProfileLoopStays(n0, n, t, start, m, i);
      }
    }

    /** Bubble sort of all profiles but the first by their parameters on the first guide. */
    method SortProfiles(ghost n0: Network, ghost first: Network, ghost t0: Trace,
                        ghost start: StartCurves)
      returns (ghost t: Trace)
      requires Valid() && View() == first && GuidesSorted(n0, first, t0, start)
      modifies this`profiles, this`profileNames, this`P, this`G
      ensures Valid() && BothSorted(n0, View(), t, start, 1, 1)
    {
      hide Owned, Unshared, GuidesSorted, ProfileLoop, BothSorted, ValuesOf, Network.Valid;
      t := t0;
      var m := |profiles|;
      ProfileLoopStarts(n0, first, t, start);
      while m > 1
        invariant Valid() && 1 <= m <= |profiles| && |guides| > 0
        invariant ProfileLoop(n0, View(), t, start, m, 1)
      {
        var i := 1;
        while i < m - 1
          invariant Valid() && 1 <= i < m <= |profiles| && |guides| > 0
          invariant ProfileLoop(n0, View(), t, start, m, i)
        {
          t := CompareProfiles(n0, t, start, m, i);
          i := i + 1;
        }
        ProfileLoopTurns(n0, View(), t, start, m);
        m := m - 1;
      }
      ProfileLoopEnds(n0, View(), t, start);
    }

    method TurnProfiles(ghost n0: Network, ghost t0: Trace, ghost start: StartCurves) returns (ghost t: Trace)
      requires Valid() && BothSorted(n0, View(), t0, start, 1, 1)
      modifies this`profileNames, this`P, curves
      ensures Valid() && BothSorted(n0, View(), t, start, |profiles|, 1)
    {
      hide Owned, Unshared, BothSorted;
      t := t0;
      BothSortedSizes(n0, View(), t, start, 1, 1);
      for i := 1 to |profiles|
        invariant Valid() && BothSorted(n0, View(), t, start, i, 1)
      {
        ghost var n := View();
        if P[i][0] > P[i][|guides| - 1] {
          ghost var o := ReverseProfile(i);
          TurnProfileKeeps(n0, n, t, start, i, o);
          t := t.(profileTurned := t.profileTurned[i := true], profileSum := t.profileSum[i := o]);
        } else {
          KeepProfile(n0, n, t, start, i);
        }
      }
    }

    method TurnGuides(ghost n0: Network, ghost t0: Trace, ghost start: StartCurves) returns (ghost t: Trace)
      requires Valid() && BothSorted(n0, View(), t0, start, |profiles|, 1)
      modifies this`guideNames, this`G, curves
      ensures Valid() && BothSorted(n0, View(), t, start, |profiles|, |guides|)
    {
      hide Owned, Unshared, BothSorted;
      t := t0;
      BothSortedSizes(n0, View(), t, start, |profiles|, 1);
      for j := 1 to |guides|
        invariant Valid() && BothSorted(n0, View(), t, start, |profiles|, j)
      {
        ghost var n := View();
        if G[0][j] > G[|profiles| - 1][j] {
          ghost var o := ReverseGuide(j);
          TurnGuideKeeps(n0, n, t, start, j, o);
          t := t.(guideTurned := t.guideTurned[j := true], guideSum := t.guideSum[j := o]);
        } else {
          KeepGuide(n0, n, t, start, j);
        }
      }
    }

    /** Everything after the search for the start. */
    method SortFrom(start: StartCurves) returns (ghost t: Trace)
      requires Valid() && start.profile < |profiles| && start.guide < |guides|
      modifies this`profiles, this`guides, this`profileNames, this`guideNames, this`P, this`G, curves
      ensures Valid() && Rearranged(old(View()), View(), t) && IsSorted(old(View()), View(), start)
    {
      hide Owned, Unshared, Rearranged, IsPlaced, GuidesSorted, BothSorted, IsSorted;
      ghost var n0 := View();
      t := MoveStart(start, n0);
      t := SortGuides(n0, View(), t, start);
      t := SortProfiles(n0, View(), t, start);
      t := TurnProfiles(n0, t, start);
      t := TurnGuides(n0, t, start);
      AllTurned(n0, View(), t, start);
    }

    /** Sorts the network. It throws, and changes nothing, exactly when there is no start. Otherwise the curves are
        permuted, each turned at most once, as the trace tells. Row 0 ascends, the other curves run from their lesser
        end, and column 0 ascends unless the start was found by a scan for a maximum that did not find one. */
    method Perform() returns (r: Result<(), string>, ghost t: Trace, ghost start: StartCurves)
      requires Valid() && |guides| > 0
      modifies this, curves
      ensures Valid()
      ensures old(hasPerformed) ==> r.Success? && View() == old(View())
      ensures !old(hasPerformed) ==> (r.Success? <==> HasStart(old(View()), limits))
      ensures r.Failure? ==> View() == old(View()) && r.error == NO_START && !hasPerformed
      ensures !old(hasPerformed) && r.Success? ==>
                && hasPerformed && Rearranged(old(View()), View(), t)
                && IsStart(old(View()), start, limits) && IsSorted(old(View()), View(), start)
      ensures !old(hasPerformed) && r.Success? && limits.IsFinite(old(View())) ==>
                && InOrder(View().P[0])
                && (InOrder(Column(View().G, 0)) <==>
                    !start.guideMustBeReversed || HasFindableMaximum(Column(old(View()).G, start.guide), limits))
    {
      hide Owned, Unshared, Rearranged, IsSorted, IsStart, InOrder, HasStart, HasFindableMaximum, Limits.IsFinite;
      ghost var n0 := View();
      t, start := Start(n0), StartCurves(0, 0, false);
      if hasPerformed {
        return Success(()), t, start;
      }
      var found := GetStartCurveIndices();
      if found.Failure? {
        return Failure(found.error), t, start;
      }
      start := found.value;
      StartInRange(n0, start, limits);
      t := SortFrom(found.value);
      FiniteIsSorted(n0, View(), start, limits);
      hasPerformed := true;
      r := Success(());
    }
  }

  /** The first profile that starts where its first guide starts; failing that, where its first guide ends. */
  predicate IsStart(n: Network, s: StartCurves, limits: Limits)
    requires n.Valid()
  {
    && s.profile < |n.profiles| && s.guide < |n.guides|
    && s.guide == ArgMin(n.P[s.profile], limits)
    && if s.guideMustBeReversed
       then && StartsAtEnd(n, s.profile, limits)
            && (forall i :: 0 <= i < |n.profiles| ==> !StartsAt(n, i, limits))
            && (forall i :: 0 <= i < s.profile ==> !StartsAtEnd(n, i, limits))
       else StartsAt(n, s.profile, limits) && forall i :: 0 <= i < s.profile ==> !StartsAt(n, i, limits)
  }

  lemma StartInRange(n: Network, s: StartCurves, limits: Limits)
    requires n.Valid() && IsStart(n, s, limits)
    ensures IsFirst(n, s)
  {
  }

  lemma StartIsUnique(n: Network, s: StartCurves, s': StartCurves, limits: Limits)
    requires n.Valid() && IsStart(n, s, limits) && IsStart(n, s', limits)
    ensures s == s'
  {
    hide StartsAt, StartsAtEnd;
    assert s.guideMustBeReversed == s'.guideMustBeReversed;
    assert !(s.profile < s'.profile) && !(s'.profile < s.profile);
  }

  /** The start is the least entry of its row. */
  ghost predicate StartsRow(n: Network, s: StartCurves)
    requires n.Valid() && s.profile < |n.profiles|
  {
    IsMinimum(n.P[s.profile], s.guide)
  }

  /** It is the least of its column, or the greatest if the guide is to be reversed. */
  ghost predicate StartsColumn(n: Network, s: StartCurves)
    requires n.Valid() && s.guide < |n.guides|
  {
    if s.guideMustBeReversed then IsMaximum(Column(n.G, s.guide), s.profile)
        else IsMinimum(Column(n.G, s.guide), s.profile)
  }

  ghost predicate IsFirst(n: Network, s: StartCurves) {
    n.Valid() && s.profile < |n.profiles| && s.guide < |n.guides|
  }

  /** What sorting n0 from its start leaves behind: row 0 and column 0 are in order exactly if the start is extreme
      there, and no other curve runs against its ends. */
  ghost predicate IsSorted(n0: Network, n: Network, s: StartCurves) {
    && IsFirst(n0, s) && n.Valid() && |n.profiles| > 0 && |n.guides| > 0
    && (InOrder(n.P[0]) <==> StartsRow(n0, s))
    && (InOrder(Column(n.G, 0)) <==> StartsColumn(n0, s))
    && (forall i :: 1 <= i < |n.profiles| ==> EndsInOrder(n.P[i]))
    && (forall j :: 1 <= j < |n.guides| ==> EndsInOrder(Column(n.G, j)))
  }

  ghost predicate IsTraced(n0: Network, n: Network, t: Trace) {
    && Rearranged(n0, n, t) && |n.profiles| > 0 && |n.guides| > 0
    && |t.profileFrom| == |t.profileTurned| == |t.profileSum| == |n.profiles|
    && |t.guideFrom| == |t.guideTurned| == |t.guideSum| == |n.guides|
  }

  lemma TracedSizes(n0: Network, n: Network, t: Trace)
    requires IsTraced(n0, n, t)
    ensures n0.Valid() && n.Valid() && |n.profiles| > 0 && |n.guides| > 0
  {
  }

  predicate NoneTurned(turned: seq<bool>, from: nat) {
    forall i :: from <= i < |turned| ==> !turned[i]
  }

  ghost predicate LeastFirst(s: seq<real>) {
    IsMinimum(s, 0)
  }

  /** Every entry from index n on is at least as great as those between the first entry and itself. */
  predicate TailSorted(s: seq<real>, n: nat) {
    forall k, l :: 1 <= k < l < |s| && n <= l ==> s[k] <= s[l]
  }

  predicate GreatestSoFar(s: seq<real>, j: nat) {
    forall k :: 1 <= k <= j < |s| ==> s[k] <= s[j]
  }

  lemma BubbleStep(s: seq<real>, n: nat, j: nat)
    requires 1 <= j && j + 1 < n <= |s| && TailSorted(s, n) && GreatestSoFar(s, j) && s[j] > s[j + 1]
    ensures TailSorted(Exchanged(s, j, j + 1), n) && GreatestSoFar(Exchanged(s, j, j + 1), j + 1)
    ensures LeastFirst(s) <==> LeastFirst(Exchanged(s, j, j + 1))
  {
    var r := Exchanged(s, j, j + 1);
    assert s == Exchanged(r, j, j + 1);
  }

  // ----- the phases of sorting -----

  /** The start curves are in place. */
  ghost predicate IsPlaced(n0: Network, n: Network, t: Trace, start: StartCurves) {
    && IsTraced(n0, n, t) && NoneTurned(t.profileTurned, 0) && NoneTurned(t.guideTurned, 1)
    && IsFirst(n0, start) && (LeastFirst(n.P[0]) <==> StartsRow(n0, start))
        && (LeastFirst(Column(n.G, 0)) <==> StartsColumn(n0, start))
  }

  function Placed(n0: Network, s: StartCurves): Network
    requires n0.Valid() && s.profile < |n0.profiles| && s.guide < |n0.guides|
  {
    n0.ProfilesSwapped(0, s.profile).GuidesSwapped(0, s.guide)
  }

  lemma PlacedEntries(n0: Network, s: StartCurves)
    requires IsFirst(n0, s)
    ensures LeastFirst(Placed(n0, s).P[0]) <==> StartsRow(n0, s)
    ensures !s.guideMustBeReversed ==> (LeastFirst(Column(Placed(n0, s).G, 0)) <==> StartsColumn(n0, s))
    ensures s.guideMustBeReversed ==> (IsMaximum(Column(Placed(n0, s).G, 0), 0) <==> StartsColumn(n0, s))
  {
    hide IsMinimum, IsMaximum, LeastFirst;
    var c := Exchanged(Column(n0.G, s.guide), 0, s.profile);
    assert Column(Placed(n0, s).G, 0) == c;
    assert Placed(n0, s).P[0] == Exchanged(n0.P[s.profile], 0, s.guide);
    ExtremeMoves(Column(n0.G, s.guide), s.profile);
    ExtremeMoves(n0.P[s.profile], s.guide);
  }

  lemma ExtremeMoves(s: seq<real>, k: nat)
    requires k < |s|
    ensures LeastFirst(Exchanged(s, 0, k)) <==> IsMinimum(s, k)
    ensures IsMaximum(Exchanged(s, 0, k), 0) <==> IsMaximum(s, k)
  {
    assert s == Exchanged(Exchanged(s, 0, k), 0, k);
  }

  lemma StartPlaced(n0: Network, s: StartCurves, o: real) returns (t: Trace)
    requires IsFirst(n0, s)
    requires s.guideMustBeReversed && n0.guides[s.guide].CurveValue? ==>
             o == 0.0 || o == n0.guides[s.guide].first + n0.guides[s.guide].last
    ensures !s.guideMustBeReversed ==> IsPlaced(n0, Placed(n0, s), t, s)
    ensures s.guideMustBeReversed && (n0.guides[s.guide].CurveValue? ==>
                                      o == n0.guides[s.guide].first + n0.guides[s.guide].last) ==>
              IsPlaced(n0, Placed(n0, s).GuideReversed(0, o), t, s)
  {
    t := Start(n0);
    StartFits(n0);
    var n := n0;
    SwapProfilesKeeps(n0, n, t, 0, s.profile);
    t, n := SwapProfilesIn(t, 0, s.profile), n.ProfilesSwapped(0, s.profile);
    SwapGuidesKeeps(n0, n, t, 0, s.guide);
    t, n := SwapGuidesIn(t, 0, s.guide), n.GuidesSwapped(0, s.guide);
    PlacedEntries(n0, s);
    if s.guideMustBeReversed && (n0.guides[s.guide].CurveValue? ==>
                                 o == n0.guides[s.guide].first + n0.guides[s.guide].last) {
      ReverseGuideKeeps(n0, n, t, 0, o);
      ReversedColumn(n, o);
      t := t.(guideTurned := t.guideTurned[0 := true], guideSum := t.guideSum[0 := o]);
    }
  }

  lemma ReversedColumn(n: Network, o: real)
    requires n.Valid() && |n.guides| > 0
    ensures Column(n.GuideReversed(0, o).G, 0) == RowReflected(Column(n.G, 0), o)
    ensures IsMaximum(Column(n.G, 0), 0) <==> LeastFirst(RowReflected(Column(n.G, 0), o))
  {
  }

  /** The bubble sort of the guides, with the greatest parameters from index m on in place, at index j. */
  ghost predicate GuideLoop(n0: Network, n: Network, t: Trace, start: StartCurves, m: nat, j: nat) {
    && IsPlaced(n0, n, t, start) && TailSorted(n.P[0], m) && GreatestSoFar(n.P[0], j)
  }

  lemma GuideLoopStarts(n0: Network, n: Network, t: Trace, start: StartCurves)
    requires IsPlaced(n0, n, t, start)
    ensures |n.profiles| > 0 && |n.guides| > 0 && n.Valid() && GuideLoop(n0, n, t, start, |n.guides|, 1)
  {
  }

  lemma GuideLoopSwaps(n0: Network, n: Network, t: Trace, start: StartCurves, m: nat, j: nat)
    requires GuideLoop(n0, n, t, start, m, j) && n.Valid() && 1 <= j && j + 1 < m <= |n.guides| && |n.profiles| > 0
    requires n.P[0][j] > n.P[0][j + 1]
    ensures |t.guideFrom| == |t.guideTurned| == |t.guideSum| == |n.guides|
    ensures GuideLoop(n0, n.GuidesSwapped(j, j + 1), SwapGuidesIn(t, j, j + 1), start, m, j + 1)
  {
    SwapGuidesKeeps(n0, n, t, j, j + 1);
    BubbleStep(n.P[0], m, j);
    hide Rearranged;
    assert Column(n.GuidesSwapped(j, j + 1).G, 0) == Column(n.G, 0);
  }

  lemma GuideLoopStays(n0: Network, n: Network, t: Trace, start: StartCurves, m: nat, j: nat)
    requires GuideLoop(n0, n, t, start, m, j) && n.Valid() && j + 1 < |n.guides| && |n.profiles| > 0
             && n.P[0][j] <= n.P[0][j + 1]
    ensures GuideLoop(n0, n, t, start, m, j + 1)
  {
    hide Rearranged;
  }

  lemma GuideLoopTurns(n0: Network, n: Network, t: Trace, start: StartCurves, m: nat)
    requires m > 1 && GuideLoop(n0, n, t, start, m, m - 1)
    ensures GuideLoop(n0, n, t, start, m - 1, 1)
  {
    hide Rearranged;
  }

  ghost predicate GuidesSorted(n0: Network, n: Network, t: Trace, start: StartCurves) {
    && IsPlaced(n0, n, t, start)
    && IsFirst(n0, start) && (InOrder(n.P[0]) <==> StartsRow(n0, start))
  }

  lemma TailInOrder(s: seq<real>)
    requires s != [] && TailSorted(s, 1)
    ensures InOrder(s) <==> LeastFirst(s)
  {
  }

  lemma GuideLoopEnds(n0: Network, n: Network, t: Trace, start: StartCurves)
    requires GuideLoop(n0, n, t, start, 1, 1)
    ensures GuidesSorted(n0, n, t, start)
  {
    TracedSizes(n0, n, t);
    hide Rearranged, InOrder, TailSorted, LeastFirst;
    TailInOrder(n.P[0]);
  }

  ghost predicate ProfileLoop(n0: Network, n: Network, t: Trace, start: StartCurves, m: nat, i: nat) {
    && GuidesSorted(n0, n, t, start) && TailSorted(Column(n.G, 0), m) && GreatestSoFar(Column(n.G, 0), i)
  }

  lemma ProfileLoopStarts(n0: Network, n: Network, t: Trace, start: StartCurves)
    requires GuidesSorted(n0, n, t, start)
    ensures |n.profiles| > 0 && |n.guides| > 0 && n.Valid() && ProfileLoop(n0, n, t, start, |n.profiles|, 1)
  {
  }

  lemma ProfileLoopSwaps(n0: Network, n: Network, t: Trace, start: StartCurves, m: nat, i: nat)
    requires ProfileLoop(n0, n, t, start, m, i) && n.Valid() && 1 <= i && i + 1 < m <= |n.profiles| && |n.guides| > 0
    requires n.G[i][0] > n.G[i + 1][0]
    ensures |t.profileFrom| == |t.profileTurned| == |t.profileSum| == |n.profiles|
    ensures ProfileLoop(n0, n.ProfilesSwapped(i, i + 1), SwapProfilesIn(t, i, i + 1), start, m, i + 1)
  {
    hide Rearranged, InOrder, TailSorted, GreatestSoFar;
    SwapProfilesKeeps(n0, n, t, i, i + 1);
    BubbleStep(Column(n.G, 0), m, i);
    ColumnOfExchanged(n.G, 0, i, i + 1);
    assert n.ProfilesSwapped(i, i + 1).P[0] == n.P[0];
  }

  lemma ProfileLoopStays(n0: Network, n: Network, t: Trace, start: StartCurves, m: nat, i: nat)
    requires ProfileLoop(n0, n, t, start, m, i) && n.Valid() && i + 1 < |n.profiles| && |n.guides| > 0
             && n.G[i][0] <= n.G[i + 1][0]
    ensures ProfileLoop(n0, n, t, start, m, i + 1)
  {
    hide Rearranged;
  }

  lemma ProfileLoopTurns(n0: Network, n: Network, t: Trace, start: StartCurves, m: nat)
    requires m > 1 && ProfileLoop(n0, n, t, start, m, m - 1)
    ensures ProfileLoop(n0, n, t, start, m - 1, 1)
  {
    hide Rearranged;
  }

  /** First row and column in order; the first i profiles and j guides are turned as they have to be, the others not at
      all. */
  ghost predicate BothSorted(n0: Network, n: Network, t: Trace, start: StartCurves, i: nat, j: nat) {
    && IsTraced(n0, n, t) && 1 <= i && 1 <= j
    && IsFirst(n0, start) && (InOrder(n.P[0]) <==> StartsRow(n0, start))
        && (InOrder(Column(n.G, 0)) <==> StartsColumn(n0, start))
    && NoneTurned(t.profileTurned, i) && NoneTurned(t.guideTurned, j)
    && (forall k :: 1 <= k < i && k < |n.profiles| ==> EndsInOrder(n.P[k]))
    && (forall k :: 1 <= k < j && k < |n.guides| ==> EndsInOrder(Column(n.G, k)))
  }

  lemma BothSortedSizes(n0: Network, n: Network, t: Trace, start: StartCurves, i: nat, j: nat)
    requires BothSorted(n0, n, t, start, i, j)
    ensures |n.profiles| > 0 && |n.guides| > 0 && n.Valid()
  {
  }

  lemma ProfileLoopEnds(n0: Network, n: Network, t: Trace, start: StartCurves)
    requires ProfileLoop(n0, n, t, start, 1, 1)
    ensures BothSorted(n0, n, t, start, 1, 1)
  {
    TracedSizes(n0, n, t);
    hide Rearranged, InOrder, TailSorted, LeastFirst;
    TailInOrder(Column(n.G, 0));
  }

  lemma TurnProfileKeeps(n0: Network, n: Network, t: Trace, start: StartCurves, i: nat, o: real)
    requires BothSorted(n0, n, t, start, i, 1) && n.Valid() && 1 <= i < |n.profiles| && |n.guides| > 0
    requires n.P[i][0] > n.P[i][|n.guides| - 1] && (n.profiles[i].CurveValue? ==>
                                                    o == n.profiles[i].first + n.profiles[i].last)
    ensures |t.profileTurned| == |t.profileSum| == |n.profiles|
    ensures BothSorted(n0, n.ProfileReversed(i, o),
                       t.(profileTurned := t.profileTurned[i := true], profileSum := t.profileSum[i := o]), start,
                           i + 1, 1)
  {
    ReverseProfileKeeps(n0, n, t, i, o);
    hide Rearranged;
  }

  lemma KeepProfile(n0: Network, n: Network, t: Trace, start: StartCurves, i: nat)
    requires BothSorted(n0, n, t, start, i, 1) && n.Valid() && 1 <= i < |n.profiles| && |n.guides| > 0
    requires n.P[i][0] <= n.P[i][|n.guides| - 1]
    ensures BothSorted(n0, n, t, start, i + 1, 1)
  {
    hide Rearranged;
  }

  lemma TurnGuideKeeps(n0: Network, n: Network, t: Trace, start: StartCurves, j: nat, o: real)
    requires BothSorted(n0, n, t, start, |n.profiles|, j) && n.Valid() && 1 <= j < |n.guides| && |n.profiles| > 0
    requires n.G[0][j] > n.G[|n.profiles| - 1][j] && (n.guides[j].CurveValue? ==>
                                                      o == n.guides[j].first + n.guides[j].last)
    ensures |t.guideTurned| == |t.guideSum| == |n.guides|
    ensures BothSorted(n0, n.GuideReversed(j, o),
                       t.(guideTurned := t.guideTurned[j := true], guideSum := t.guideSum[j := o]), start,
                           |n.profiles|, j + 1)
  {
    ReverseGuideKeeps(n0, n, t, j, o);
    hide Rearranged;
    forall k | 0 <= k < |n.guides| && k != j
      ensures Column(n.GuideReversed(j, o).G, k) == Column(n.G, k)
    {
    }
  }

  lemma KeepGuide(n0: Network, n: Network, t: Trace, start: StartCurves, j: nat)
    requires BothSorted(n0, n, t, start, |n.profiles|, j) && n.Valid() && 1 <= j < |n.guides| && |n.profiles| > 0
    requires n.G[0][j] <= n.G[|n.profiles| - 1][j]
    ensures BothSorted(n0, n, t, start, |n.profiles|, j + 1)
  {
    hide Rearranged;
  }

  lemma AllTurned(n0: Network, n: Network, t: Trace, start: StartCurves)
    requires BothSorted(n0, n, t, start, |n.profiles|, |n.guides|)
    ensures Rearranged(n0, n, t) && IsSorted(n0, n, start)
  {
  }

  lemma ColumnOfExchanged(m: Matrix, c: nat, i: nat, j: nat)
    requires i < |m| && j < |m| && forall k :: 0 <= k < |m| ==> c < |m[k]|
    ensures Column(Exchanged(m, i, j), c) == Exchanged(Column(m, c), i, j)
  {
  }

  /** The chosen parameter is least on its profile, and least on a guide that is not reversed; on a guide to be reversed
      it is the greatest exactly if the scan can find it. */
  lemma StartIsExtreme(n: Network, s: StartCurves, limits: Limits)
    requires n.Valid() && IsStart(n, s, limits)
    ensures limits.IsFinite(n) ==>
              && StartsRow(n, s)
              && (StartsColumn(n, s) <==> !s.guideMustBeReversed || HasFindableMaximum(Column(n.G, s.guide), limits))
  {
    if limits.IsFinite(n) {
      FiniteLines(n, s.profile, s.guide, limits);
      ArgMinIsMinimum(n.P[s.profile], limits);
      var c := Column(n.G, s.guide);
      if s.guideMustBeReversed {
        ArgMaxIsMaximum(c, limits);
      } else {
        ArgMinIsMinimum(c, limits);
      }
    }
  }

  lemma FiniteIsSorted(n0: Network, n: Network, s: StartCurves, limits: Limits)
    requires n0.Valid() && IsStart(n0, s, limits) && IsSorted(n0, n, s)
    ensures n.Valid() && |n.P| > 0 && |n.guides| > 0
    ensures limits.IsFinite(n0) ==>
              && InOrder(n.P[0])
              && (InOrder(Column(n.G, 0)) <==>
                  !s.guideMustBeReversed || HasFindableMaximum(Column(n0.G, s.guide), limits))
  {
    hide IsStart, InOrder, HasFindableMaximum, Limits.IsFinite, StartsRow, StartsColumn;
    StartIsExtreme(n0, s, limits);
  }

  lemma SameColumnsExchanged(m: Matrix, i: nat)
    requires forall k :: 0 <= k < |m| ==> i < |m[k]|
    ensures ColumnsExchanged(m, i, i) == m
  {
    forall k | 0 <= k < |m|
      ensures ColumnsExchanged(m, i, i)[k] == m[k]
    {
      assert Exchanged(m[k], i, i) == m[k];
    }
  }

  lemma ScansInRange(s: seq<real>, limits: Limits)
    requires s != []
    ensures ArgMin(s, limits) < |s| && ArgMax(s, limits) < |s|
  {
    MinScanned(s, |s|, limits.huge);
    MaxScanned(s, |s|, limits.tiny);
  }

  /** The sum of the ends that the scans find on a line of parameters. */
  function EndSum(line: seq<real>, limits: Limits): real
    requires line != []
  {
    ScansInRange(line, limits);
    line[ArgMin(line, limits)] + line[ArgMax(line, limits)]
  }

  /** Where s is least r is greatest, and the other way round, with the same extreme values. */
  ghost predicate EndsExchanged(s: seq<real>, r: seq<real>) {
    |r| == |s| && forall j: nat, k: nat :: IsMinimum(s, j) && IsMaximum(s, k) ==>
                    r[j] == s[k] && r[k] == s[j] && IsMaximum(r, j) && IsMinimum(r, k)
  }

  lemma ReflectedEnds(s: seq<real>, j: nat, k: nat)
    requires IsMinimum(s, j) && IsMaximum(s, k)
    ensures EndsExchanged(s, RowReflected(s, s[j] + s[k]))
  {
  }

  /** No entry of s is below x. */
  ghost predicate NoneBelow(x: real, s: seq<real>) {
    forall m :: 0 <= m < |s| ==> x <= s[m]
  }

  lemma ReflectedInRange(s: seq<real>, j: nat, k: nat)
    requires j < |s| && k < |s|
    ensures NoneBelow(s[j], RowReflected(s, s[j] + s[k])) <==> IsMaximum(s, k)
  {
    var r := RowReflected(s, s[j] + s[k]);
    if NoneBelow(s[j], r) {
      forall m | 0 <= m < |s|
        ensures s[m] <= s[k]
      {
        assert s[j] <= r[m];
      }
    }
  }

  /** A line reflected about the sum of the ends that the scans find stays in its range exactly if the scan for the
      maximum finds one; the extreme parameters then change places. */
  lemma EndsChangePlaces(line: seq<real>, limits: Limits)
    requires line != [] && limits.Covers(line)
    ensures ArgMin(line, limits) < |line|
    ensures var r := RowReflected(line, EndSum(line, limits));
            && (HasFindableMaximum(line, limits) ==> EndsExchanged(line, r))
            && (HasFindableMaximum(line, limits) <==> NoneBelow(line[ArgMin(line, limits)], r))
  {
    hide HasFindableMaximum, ArgMin, ArgMax, Limits.Covers, EndsExchanged, IsMaximum, NoneBelow;
    ScansInRange(line, limits);
    ArgMinIsMinimum(line, limits);
    ArgMaxIsMaximum(line, limits);
    var j, k := ArgMin(line, limits), ArgMax(line, limits);
    ReflectedInRange(line, j, k);
    if HasFindableMaximum(line, limits) {
      ReflectedEnds(line, j, k);
    }
  }

  lemma SizesOf(n: Network)
    requires n.Valid()
    ensures |n.P| == |n.G| == |n.profiles| == |n.profileNames| && |n.guideNames| == |n.guides|
    ensures forall i :: 0 <= i < |n.profiles| ==> |n.P[i]| == |n.G[i]| == |n.guides|
  {
  }

  lemma ReversedProfile(n: Network, m: Network, i: nat, o: real)
    requires n.Valid() && i < |n.profiles|
    requires m.profiles == n.profiles[i := n.profiles[i].Reversed()] && m.guides == n.guides && m.G == n.G
    requires m.P == n.P[i := RowReflected(n.P[i], o)]
    requires m.profileNames == n.profileNames[i := "-" + n.profileNames[i]] && m.guideNames == n.guideNames
    ensures m == n.ProfileReversed(i, o) && m.Valid()
  {
  }

  lemma ReversedGuide(n: Network, m: Network, j: nat, o: real)
    requires n.Valid() && j < |n.guides|
    requires m.guides == n.guides[j := n.guides[j].Reversed()] && m.profiles == n.profiles && m.P == n.P
    requires m.G == ColumnReflected(n.G, j, o)
    requires m.guideNames == n.guideNames[j := "-" + n.guideNames[j]] && m.profileNames == n.profileNames
    ensures m == n.GuideReversed(j, o) && m.Valid()
  {
  }

  /** Sorting a network whose curves cross in some hidden order never throws, brings out that order along every profile,
      and keeps the curves meeting at the recorded parameters. It brings out the order along the guides unless the scan
      for a maximum failed on a first guide that is to be reversed. */
  method SortNetwork(sorter: Sorter, ghost a: Order)
    returns (r: Result<(), string>, ghost t: Trace, ghost start: StartCurves)
    requires sorter.Valid() && !sorter.hasPerformed && |sorter.profiles| > 0 && |sorter.guides| > 0
    requires HasOrder(sorter.View(), a) && sorter.limits.IsFinite(sorter.View())
    modifies sorter, sorter.curves
    ensures sorter.Valid() && r.Success? && Rearranged(old(sorter.View()), sorter.View(), t)
    ensures IsStart(old(sorter.View()), start, sorter.limits)
    ensures forall i :: 0 <= i < |sorter.profiles| ==> StrictlyAscending(sorter.P[i])
    ensures (forall j :: 0 <= j < |sorter.guides| ==> StrictlyAscending(Column(sorter.G, j))) <==>
              !start.guideMustBeReversed || HasFindableMaximum(Column(old(sorter.View()).G, start.guide), sorter.limits)
    ensures old(sorter.CurvesMeet()) ==> sorter.CurvesMeet()
  {
    hide Rearranged, HasOrder, HasFindableMaximum, InOrder, EndsInOrder, Network.Meets, Sorter.CurvesMeet;
    ghost var n0 := sorter.View();
    OrderedNetworkStarts(n0, a, sorter.limits);
    sorter.MeetAsValues();
    r, t, start := sorter.Perform();
    sorter.MeetAsValues();
    ghost var n := sorter.View();
    ProfilesBringOutOrder(n0, n, t, a);
    if InOrder(Column(n.G, 0)) {
      GuidesBringOutOrder(n0, n, t, a);
    } else if forall j :: 0 <= j < |n.guides| ==> StrictlyAscending(Column(n.G, j)) {
      StrictIsInOrder(Column(n.G, 0));
    }
    if n0.Meets() {
      RearrangedMeets(n0, n, t);
    }
  }

  // Parameters below zero, where the scan for a maximum fails.

  lemma NegativeScan(s: seq<real>, limits: Limits)
    requires limits.Valid() && forall k :: 0 <= k < |s| ==> s[k] < 0.0
    ensures ArgMax(s, limits) == 0 && limits.Covers(s)
    ensures HasFindableMaximum(s, limits) <==> IsMaximum(s, 0)
  {
    MaxScanned(s, |s|, limits.tiny);
  }

  lemma LeastOfTwo(a: real, b: real, limits: Limits)
    requires a < b && limits.Covers([a, b])
    ensures ArgMin([a, b], limits) == 0 && ArgMin([b, a], limits) == 1
  {
    ArgMinIsMinimum([a, b], limits);
    ArgMinIsMinimum([b, a], limits);
    assert [a, b][0] == a && [b, a][1] == a && [a, b][1] == b;
  }

  lemma RunOfTwo(s: seq<real>)
    requires |s| == 2 && s[0] != s[1]
    ensures RunsUp(s, [0, 1], s[0] < s[1])
  {
  }

  lemma RunOfThree(s: seq<real>, up: bool)
    requires |s| == 3 && if up then s[1] < s[0] < s[2] else s[2] < s[0] < s[1]
    ensures RunsUp(s, [1, 0, 2], up)
  {
  }

  /** Three profiles and two guides: no profile starts where its first guide starts, and the first guide of profile 0 is
      taken to end there although it goes on beyond profile 1. */
  lemma NegativeStart(n: Network, limits: Limits)
    requires n.Valid() && limits.Valid() && |n.profiles| == 3 && |n.guides| == 2
    requires n.P == [[-2.0, -1.0], [-2.0, -1.0], [-1.0, -2.0]]
    requires forall i :: 0 <= i < 3 ==> n.G[i][0] < 0.0 && n.G[i][1] < 0.0
    requires n.G[2][0] < n.G[0][0] < n.G[1][0] && n.G[0][1] < n.G[2][1]
    ensures IsStart(n, StartCurves(0, 0, true), limits) && limits.IsFinite(n)
    ensures !HasFindableMaximum(Column(n.G, 0), limits)
  {
    hide ArgMin, ArgMax, HasFindableMaximum;
    forall i | 0 <= i < 3
      ensures limits.Covers(n.P[i]) && limits.Covers(n.G[i])
    {
    }
    forall i | 0 <= i < 3
      ensures ArgMin(n.P[i], limits) == if i < 2 then 0 else 1
    {
      LeastOfTwo(-2.0, -1.0, limits);
    }
    var c, d := Column(n.G, 0), Column(n.G, 1);
    NegativeScan(c, limits);
    NegativeScan(d, limits);
    ArgMinIsMinimum(c, limits);
    ArgMinIsMinimum(d, limits);
    assert c[0] < c[1];
    assert ArgMin(c, limits) == 2 && ArgMin(d, limits) != 2;
  }

  /** Whatever sorting makes of such a network, column 0 is out of order. */
  lemma NegativeColumn(n: Network, limits: Limits, n': Network, start: StartCurves)
    requires n.Valid() && IsStart(n, StartCurves(0, 0, true), limits) && limits.IsFinite(n) && |n.guides| > 0
    requires !HasFindableMaximum(Column(n.G, 0), limits)
    requires IsStart(n, start, limits) && IsSorted(n, n', start)
    ensures start == StartCurves(0, 0, true) && n'.Valid() && |n'.guides| > 0 && !InOrder(Column(n'.G, 0))
  {
    hide HasFindableMaximum, IsStart, InOrder, Limits.IsFinite, StartsRow, StartsColumn;
    StartIsUnique(n, start, StartCurves(0, 0, true), limits);
    FiniteIsSorted(n, n', start, limits);
  }

  /** Sorting this network, as it is specified, leaves column 0 out of order. */
  lemma NegativeParametersFail(n: Network, limits: Limits, n': Network, start: StartCurves)
    requires n.Valid() && limits.Valid() && |n.profiles| == 3 && |n.guides| == 2
    requires n.P == [[-2.0, -1.0], [-2.0, -1.0], [-1.0, -2.0]] && n.G == [[-3.0, -5.0], [-1.0, -4.0], [-5.0, -3.0]]
    requires IsStart(n, start, limits) && IsSorted(n, n', start)
    ensures start == StartCurves(0, 0, true) && n'.Valid() && |n'.guides| > 0 && !InOrder(Column(n'.G, 0))
  {
    hide HasFindableMaximum, IsStart, InOrder, IsSorted, Limits.IsFinite;
    NegativeStart(n, limits);
    NegativeColumn(n, limits, n', start);
  }

  /** So it does with a network that has a hidden order. */
  lemma OrderIsNotBroughtOut(n: Network, limits: Limits, n': Network, start: StartCurves)
    requires n.Valid() && limits.Valid() && |n.profiles| == 3 && |n.guides| == 2
    requires n.P == [[-2.0, -1.0], [-2.0, -1.0], [-1.0, -2.0]] && n.G == [[-2.0, -2.0], [-1.0, -3.0], [-3.0, -1.0]]
    requires IsStart(n, start, limits) && IsSorted(n, n', start)
    ensures HasOrder(n, Order([0, 1], [1, 0, 2], [true, true, false], [false, true]))
    ensures start == StartCurves(0, 0, true) && n'.Valid() && |n'.guides| > 0 && !InOrder(Column(n'.G, 0))
  {
    hide HasFindableMaximum, IsStart, RunsUp, Limits.IsFinite, InOrder, IsSorted;
    NegativeStart(n, limits);
    NegativeColumn(n, limits, n', start);
    RunOfTwo(n.P[0]);
    RunOfTwo(n.P[1]);
    RunOfTwo(n.P[2]);
    RunOfThree(Column(n.G, 0), false);
    RunOfThree(Column(n.G, 1), true);
  }
}
