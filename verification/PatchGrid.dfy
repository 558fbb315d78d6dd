/** What the walk of MakeLoops does on every network that is a rectangular grid, open or closed in either direction. */
module PatchGrid {
  import opened Wrappers
  import opened PatchWalk
  import opened MakeLoops
  import opened WalkTermination

  /** R x C patches. Vertex (i, j) is the j-th vertex of profile i. Profile edge (i, j) runs from vertex (i, j) to the
      next vertex of profile i, guide edge (i, j) from vertex (i, j) to the vertex above it on profile i + 1. */
  datatype Grid = Grid(R: nat, C: nat, closedGuides: bool, closedProfiles: bool,
                       v: (nat, nat) -> Vertex, p: (nat, nat) -> Edge, g: (nat, nat) -> Edge)
  {
    function NI(): nat { if closedGuides then R else R + 1 }

    function NJ(): nat { if closedProfiles then C else C + 1 }

    function Up(i: nat): nat { if i + 1 == NI() then 0 else i + 1 }

    function Right(j: nat): nat { if j + 1 == NJ() then 0 else j + 1 }

    predicate HasDown(i: nat) { closedGuides || i > 0 }

    predicate HasLeft(j: nat) { closedProfiles || j > 0 }

    function Down(i: nat): nat
      requires i > 0 || R > 0
    {
      if i == 0 then R - 1 else i - 1
    }

    function Left(j: nat): nat
      requires j > 0 || C > 0
    {
      if j == 0 then C - 1 else j - 1
    }

    predicate IsVertex(i: nat, j: nat) { i < NI() && j < NJ() }

    /** The edges that end at vertex (i, j), once for each of their ends there. */
    function Incident(i: nat, j: nat): multiset<Edge>
      requires R > 0 && C > 0
    {
      ProfilesAt(i, j) + GuidesAt(i, j)
    }

    function ProfilesAt(i: nat, j: nat): multiset<Edge>
      requires C > 0
    {
      (if j < C then multiset{p(i, j)} else multiset{}) + (if HasLeft(j) then multiset{p(i, Left(j))} else multiset{})
    }

    function GuidesAt(i: nat, j: nat): multiset<Edge>
      requires R > 0
    {
      (if i < R then multiset{g(i, j)} else multiset{}) + (if HasDown(i) then multiset{g(Down(i), j)} else multiset{})
    }

    predicate ProfileFits(net: Network, i: nat, j: nat) {
      && p(i, j).first == v(i, j) && p(i, j).last == v(i, Right(j))
      && p(i, j) in net.profiles && p(i, j) !in net.guides
    }

    predicate GuideFits(net: Network, i: nat, j: nat) {
      && g(i, j).first == v(i, j) && g(i, j).last == v(Up(i), j)
      && g(i, j) in net.guides && g(i, j) !in net.profiles
    }

    predicate Distinct(i: nat, j: nat, i': nat, j': nat) { v(i, j) == v(i', j') ==> i == i' && j == j' }

    predicate HasKey(net: Network, i: nat, j: nat) { v(i, j) in net.keys }

    ghost predicate ListsIncident(net: Network, i: nat, j: nat)
      requires R > 0 && C > 0
    {
      multiset(net.Around(Some(v(i, j)))) == Incident(i, j)
    }

    ghost predicate EdgesFit(net: Network) {
      && (forall i: nat, j: nat {:trigger ProfileFits(net, i, j)} :: i < NI() && j < C ==> ProfileFits(net, i, j))
      && (forall i: nat, j: nat {:trigger GuideFits(net, i, j)} :: i < R && j < NJ() ==> GuideFits(net, i, j))
    }

    ghost predicate VerticesFit(net: Network) {
      && (forall i: nat, j: nat, i': nat, j': nat {:trigger Distinct(i, j, i', j')} ::
            IsVertex(i, j) && IsVertex(i', j') ==> Distinct(i, j, i', j'))
      && (forall i: nat, j: nat {:trigger HasKey(net, i, j)} :: IsVertex(i, j) ==> HasKey(net, i, j))
      && (forall u :: u in net.keys ==> exists i: nat, j: nat :: IsVertex(i, j) && v(i, j) == u)
    }

    /** The network is this grid, in whatever order its map lists the vertices and the edges around them. */
    ghost predicate Describes(net: Network) {
      && net.KeysValid()
      && R > 0 && C > 0
      && VerticesFit(net)
      && EdgesFit(net)
      && (forall i: nat, j: nat {:trigger ListsIncident(net, i, j)} :: IsVertex(i, j) ==> ListsIncident(net, i, j))
    }

    /** Vertex (a, b) can play the part of vertex (0, 0): in an open direction only the first one can. */
    predicate CanRotate(a: nat, b: nat) {
      a < NI() && b < NJ() && (!closedGuides ==> a == 0) && (!closedProfiles ==> b == 0)
    }

    function RowShift(i: nat, a: nat): nat { if i + a >= NI() then i + a - NI() else i + a }

    function ColShift(j: nat, b: nat): nat { if j + b >= NJ() then j + b - NJ() else j + b }

    /** The same grid with its closed directions numbered from vertex (a, b). */
    function Rotated(a: nat, b: nat): Grid {
      this.(v := (i: nat, j: nat) => v(RowShift(i, a), ColShift(j, b)),
            p := (i: nat, j: nat) => p(RowShift(i, a), ColShift(j, b)),
            g := (i: nat, j: nat) => g(RowShift(i, a), ColShift(j, b)))
    }

    /** The four edges around patch (i, j). */
    function Patch(i: nat, j: nat): Cell {
      Cell(p(i, j), g(i, Right(j)), p(Up(i), j), g(i, j))
    }

    /** The first j patches of row i. */
    function RowOf(i: nat, j: nat): (r: seq<Cell>)
      ensures |r| == j && forall k :: 0 <= k < j ==> r[k] == Patch(i, k)
    {
      seq(j, k requires 0 <= k => Patch(i, k))
    }

    /** The first i rows. */
    function Rows(i: nat): seq<Cell> {
      if i == 0 then [] else Rows(i - 1) + RowOf(i - 1, C)
    }
  }

  // ----- which edges the walk finds at a vertex -----

  /** The edges at a vertex have the ends and the kind that their places in the grid say. */
  lemma IncidentFit(net: Network, g: Grid, i: nat, j: nat)
    requires g.Describes(net) && g.IsVertex(i, j)
    ensures j < g.C ==> g.ProfileFits(net, i, j)
    ensures g.HasLeft(j) ==> g.Left(j) < g.C && g.Right(g.Left(j)) == j && g.ProfileFits(net, i, g.Left(j))
    ensures i < g.R ==> g.GuideFits(net, i, j)
    ensures g.HasDown(i) ==> g.Down(i) < g.R && g.Up(g.Down(i)) == i && g.GuideFits(net, g.Down(i), j)
    ensures g.v(i, j) in net.around && g.ListsIncident(net, i, j)
  {
    assert g.HasKey(net, i, j);
  }

  lemma ListedProfiles(net: Network, g: Grid, i: nat, j: nat, e: Edge)
    requires g.Describes(net) && g.IsVertex(i, j)
    ensures e in net.Around(Some(g.v(i, j))) && e in net.profiles <==>
              (j < g.C && e == g.p(i, j)) || (g.HasLeft(j) && e == g.p(i, g.Left(j)))
  {
    IncidentFit(net, g, i, j);
    assert g.ListsIncident(net, i, j);
    assert e in net.Around(Some(g.v(i, j))) <==> e in multiset(net.Around(Some(g.v(i, j))));
    assert e in g.Incident(i, j) <==> e in g.ProfilesAt(i, j) || e in g.GuidesAt(i, j);
  }

  lemma ListedGuides(net: Network, g: Grid, i: nat, j: nat, e: Edge)
    requires g.Describes(net) && g.IsVertex(i, j)
    ensures e in net.Around(Some(g.v(i, j))) && e in net.guides <==>
              (i < g.R && e == g.g(i, j)) || (g.HasDown(i) && e == g.g(g.Down(i), j))
  {
    IncidentFit(net, g, i, j);
    assert g.ListsIncident(net, i, j);
    assert e in net.Around(Some(g.v(i, j))) <==> e in multiset(net.Around(Some(g.v(i, j))));
    assert e in g.Incident(i, j) <==> e in g.ProfilesAt(i, j) || e in g.GuidesAt(i, j);
  }

  lemma OnlyMatch(es: seq<Edge>, kind: set<Edge>, u: Vertex, dir: Direction, e: Option<Edge>)
    requires forall x :: x in es && Matches(x, kind, Some(u), dir) <==> e == Some(x)
    ensures FirstMatch(es, kind, Some(u), dir) == e
  {
    if e.Some? {
      assert e.value in es && Matches(e.value, kind, Some(u), dir);
    }
  }

  lemma LeavingProfile(net: Network, g: Grid, i: nat, j: nat)
    requires g.Describes(net) && g.IsVertex(i, j)
    ensures FirstMatch(net.Around(Some(g.v(i, j))), net.profiles, Some(g.v(i, j)), Leaving)
         == if j < g.C then Some(g.p(i, j)) else None
  {
    IncidentFit(net, g, i, j);
    var u := g.v(i, j);
    if g.HasLeft(j) {
      SameVertex(net, g, i, g.Left(j), i, j);
    }
    forall x
      ensures x in net.Around(Some(u)) && Matches(x, net.profiles, Some(u), Leaving) <==> j < g.C && x == g.p(i, j)
    {
      ListedProfiles(net, g, i, j, x);
    }
    OnlyMatch(net.Around(Some(u)), net.profiles, u, Leaving, if j < g.C then Some(g.p(i, j)) else None);
  }

  lemma LeavingGuide(net: Network, g: Grid, i: nat, j: nat)
    requires g.Describes(net) && g.IsVertex(i, j)
    ensures FirstMatch(net.Around(Some(g.v(i, j))), net.guides, Some(g.v(i, j)), Leaving)
         == if i < g.R then Some(g.g(i, j)) else None
  {
    IncidentFit(net, g, i, j);
    var u := g.v(i, j);
    if g.HasDown(i) {
      SameVertex(net, g, g.Down(i), j, i, j);
    }
    forall x
      ensures x in net.Around(Some(u)) && Matches(x, net.guides, Some(u), Leaving) <==> i < g.R && x == g.g(i, j)
    {
      ListedGuides(net, g, i, j, x);
    }
    OnlyMatch(net.Around(Some(u)), net.guides, u, Leaving, if i < g.R then Some(g.g(i, j)) else None);
  }

  lemma EnteringProfile(net: Network, g: Grid, i: nat, j: nat)
    requires g.Describes(net) && i < g.NI() && j < g.C
    ensures FirstMatch(net.Around(Some(g.v(i, g.Right(j)))), net.profiles, Some(g.v(i, g.Right(j))), Entering)
         == Some(g.p(i, j))
  {
    var k := g.Right(j);
    var u := g.v(i, k);
    IncidentFit(net, g, i, k);
    assert g.HasLeft(k) && g.Left(k) == j;
    if k < g.C {
      SameVertex(net, g, i, g.Right(k), i, k);
    }
    forall x
      ensures x in net.Around(Some(u)) && Matches(x, net.profiles, Some(u), Entering) <==> x == g.p(i, j)
    {
      ListedProfiles(net, g, i, k, x);
    }
    OnlyMatch(net.Around(Some(u)), net.profiles, u, Entering, Some(g.p(i, j)));
  }

  lemma EnteringGuide(net: Network, g: Grid, i: nat, j: nat)
    requires g.Describes(net) && i < g.R && j < g.NJ()
    ensures FirstMatch(net.Around(Some(g.v(g.Up(i), j))), net.guides, Some(g.v(g.Up(i), j)), Entering)
         == Some(g.g(i, j))
  {
    var k := g.Up(i);
    var u := g.v(k, j);
    IncidentFit(net, g, k, j);
    assert g.HasDown(k) && g.Down(k) == i;
    if k < g.R {
      SameVertex(net, g, g.Up(k), j, k, j);
    }
    forall x
      ensures x in net.Around(Some(u)) && Matches(x, net.guides, Some(u), Entering) <==> x == g.g(i, j)
    {
      ListedGuides(net, g, k, j, x);
    }
    OnlyMatch(net.Around(Some(u)), net.guides, u, Entering, Some(g.g(i, j)));
  }

  // ----- the walk, patch by patch -----

  /** The state of the walk in front of patch (i, j), having started at vertex (0, 0). */
  function At(g: Grid, i: nat, j: nat): Walk {
    Walk(Some(g.v(i, j)), Some(g.v(i, 0)),
         if j > 0 then Some(g.v(g.Up(i), 0)) else if i > 0 then Some(g.v(i, 0)) else None,
         i == 0, if i == 0 then 0 else g.C, g.Rows(i) + g.RowOf(i, j))
  }

  /** A closed profile of one edge breaks the walk, unless the guides close after one edge too. */
  predicate Walkable(g: Grid) {
    g.closedProfiles && g.C == 1 ==> g.closedGuides && g.R == 1
  }

  lemma RowsLength(g: Grid, i: nat)
    ensures |g.Rows(i)| == RowMajor(i, 0, g.C)
  {
    if i > 0 {
      RowsLength(g, i - 1);
    }
  }

  /** The edges that one turn of the walk finds from vertex (i, j) are those of patch (i, j), and they close up. */
  lemma PatchFound(net: Network, g: Grid, i: nat, j: nat)
    requires g.Describes(net) && i < g.R && j < g.C
    ensures var c := g.Patch(i, j);
            && Finds(net, g.v(i, j), net.profiles, Leaving, c.e1) && c.e1.last == g.v(i, g.Right(j))
            && Finds(net, c.e1.last, net.guides, Leaving, c.e2) && c.e2.last == g.v(g.Up(i), g.Right(j))
            && Finds(net, c.e2.last, net.profiles, Entering, c.e3) && c.e3.first == g.v(g.Up(i), j)
            && Finds(net, c.e3.first, net.guides, Entering, c.e4) && c.e4.first == c.e1.first == g.v(i, j)
  {
    IncidentFit(net, g, i, j);
    IncidentFit(net, g, i, g.Right(j));
    IncidentFit(net, g, g.Up(i), j);
    LeavingProfile(net, g, i, j);
    LeavingGuide(net, g, i, g.Right(j));
    EnteringProfile(net, g, g.Up(i), j);
    EnteringGuide(net, g, i, j);
  }

  lemma SameVertex(net: Network, g: Grid, i: nat, j: nat, i': nat, j': nat)
    requires g.Describes(net) && g.IsVertex(i, j) && g.IsVertex(i', j')
    ensures g.v(i, j) == g.v(i', j') <==> i == i' && j == j'
  {
    assert g.Distinct(i, j, i', j');
  }

  lemma RowExtends(g: Grid, i: nat, j: nat)
    ensures g.Rows(i) + g.RowOf(i, j + 1) == (g.Rows(i) + g.RowOf(i, j)) + [g.Patch(i, j)]
  {
    assert g.RowOf(i, j + 1) == g.RowOf(i, j) + [g.Patch(i, j)];
  }

  /** One turn in front of a patch that is not the last of a closed row. */
  lemma StepInRow(net: Network, g: Grid, i: nat, j: nat)
    requires g.Describes(net) && i < g.R && j < g.C
    requires g.closedProfiles ==> j + 1 < g.C
    ensures Step(net, g.v(0, 0), At(g, i, j)) == Walking(At(g, i, j + 1))
  {
    PatchFound(net, g, i, j);
    SameVertex(net, g, i, j, 0, 0);
    SameVertex(net, g, i, j, i, 0);
    SameVertex(net, g, i, j + 1, i, 0);
    StepStays(net, g.v(0, 0), g.v(i, j), At(g, i, j), g.Patch(i, j));
    RowExtends(g, i, j);
  }

  /** The state of the walk once row i is done. */
  function RowDone(g: Grid, i: nat): Walk {
    var u := Some(g.v(g.Up(i), 0));
    Walk(u, u, u, false, g.C, g.Rows(i + 1))
  }

  lemma RowComplete(g: Grid, i: nat)
    requires g.C > 0
    ensures g.Rows(i) + g.RowOf(i, g.C) == g.Rows(i + 1)
    ensures g.Rows(i + 1) != []
    ensures i == 0 ==> |g.Rows(i + 1)| == g.C
  {
  }

  /** The turn at the far end of an open row. */
  lemma StepAfterOpenRow(net: Network, g: Grid, i: nat)
    requires g.Describes(net) && i < g.R && !g.closedProfiles
    ensures Step(net, g.v(0, 0), At(g, i, g.C)) == Walking(RowDone(g, i))
  {
    LeavingProfile(net, g, i, g.C);
    SameVertex(net, g, i, g.C, 0, 0);
    RowComplete(g, i);
  }

  lemma StepLastOfClosedRow(net: Network, g: Grid, i: nat)
    requires g.Describes(net) && i < g.R && g.closedProfiles && Walkable(g)
    ensures Step(net, g.v(0, 0), At(g, i, g.C - 1)) == Walking(RowDone(g, i))
  {
    var j := g.C - 1;
    PatchFound(net, g, i, j);
    SameVertex(net, g, i, j, 0, 0);
    SameVertex(net, g, i, j, g.Up(i), 0);
    StepCloses(net, g.v(0, 0), g.v(i, j), At(g, i, j), g.Patch(i, j));
    RowExtends(g, i, j);
    RowComplete(g, i);
  }

  /** The number of turns the walk spends on one row. */
  function RowTurns(g: Grid): nat {
    if g.closedProfiles then g.C else g.C + 1
  }

  /** The turn after the last row ends the walk, whether the guides are closed or open. */
  lemma StepAfterLastRow(net: Network, g: Grid)
    requires g.Describes(net)
    ensures Step(net, g.v(0, 0), RowDone(g, g.R - 1)) == Stopped(g.Rows(g.R), g.C, OK)
  {
    if !g.closedGuides {
      SameVertex(net, g, g.R, 0, 0, 0);
      IncidentFit(net, g, g.R, 0);
      LeavingProfile(net, g, g.R, 0);
      LeavingGuide(net, g, g.R, g.Right(0));
      RowComplete(g, g.R - 1);
    }
  }

  /** What every single turn of the walk does. */
  ghost predicate Turns(net: Network, g: Grid) {
    && g.R > 0 && g.C > 0
    && (forall i: nat, j: nat :: i < g.R && j + 1 < RowTurns(g) ==>
          Step(net, g.v(0, 0), At(g, i, j)) == Walking(At(g, i, j + 1)))
    && (forall i: nat :: i < g.R ==> Step(net, g.v(0, 0), At(g, i, RowTurns(g) - 1)) == Walking(RowDone(g, i)))
    && Step(net, g.v(0, 0), RowDone(g, g.R - 1)) == Stopped(g.Rows(g.R), g.C, OK)
  }

  lemma TurnsOfGrid(net: Network, g: Grid)
    requires g.Describes(net) && Walkable(g)
    ensures Turns(net, g)
  {
    forall i: nat, j: nat | i < g.R && j + 1 < RowTurns(g)
      ensures Step(net, g.v(0, 0), At(g, i, j)) == Walking(At(g, i, j + 1))
    {
      StepInRow(net, g, i, j);
    }
    forall i: nat | i < g.R
      ensures Step(net, g.v(0, 0), At(g, i, RowTurns(g) - 1)) == Walking(RowDone(g, i))
    {
      if g.closedProfiles {
        StepLastOfClosedRow(net, g, i);
      } else {
        StepAfterOpenRow(net, g, i);
      }
    }
    StepAfterLastRow(net, g);
  }

  /** A chain of turns through the states that f lists. */
  lemma {:induction false} RunTurns(net: Network, globalStart: Vertex, f: nat -> Walk, n: nat, budget: nat)
    requires forall j: nat :: j < n ==> Step(net, globalStart, f(j)) == Walking(f(j + 1))
    requires n <= budget
    ensures Run(net, globalStart, f(0), budget) == Run(net, globalStart, f(n), budget - n)
  {
    if n > 0 {
      RunTurns(net, globalStart, f, n - 1, budget);
      assert Step(net, globalStart, f(n - 1)) == Walking(f(n));
    }
  }

  lemma WalkRow(net: Network, g: Grid, i: nat, budget: nat)
    requires Turns(net, g) && i < g.R && RowTurns(g) <= budget
    ensures Run(net, g.v(0, 0), At(g, i, 0), budget) == Run(net, g.v(0, 0), RowDone(g, i), budget - RowTurns(g))
  {
    var n := RowTurns(g);
    var f := (j: nat) => if j < n then At(g, i, j) else RowDone(g, i);
    forall j: nat | j < n
      ensures Step(net, g.v(0, 0), f(j)) == Walking(f(j + 1))
    {
      if j + 1 < n {
        assert Step(net, g.v(0, 0), At(g, i, j)) == Walking(At(g, i, j + 1));
      } else {
        assert j == n - 1;
      }
    }
    RunTurns(net, g.v(0, 0), f, n, budget);
  }

  lemma {:induction false} WalkRows(net: Network, g: Grid, i: nat, budget: nat)
    requires Turns(net, g) && i < g.R && RowMajor(g.R - i, 1, RowTurns(g)) <= budget
    ensures Run(net, g.v(0, 0), At(g, i, 0), budget) == Stopped(g.Rows(g.R), g.C, OK)
    decreases g.R - i
  {
    EnoughForRow(g.R - i, RowTurns(g));
    WalkRow(net, g, i, budget);
    if i + 1 < g.R {
      assert At(g, i + 1, 0) == RowDone(g, i);
      WalkRows(net, g, i + 1, budget - RowTurns(g));
    }
  }

  lemma EnoughForRow(rows: nat, turns: nat)
    requires rows > 0
    ensures RowMajor(rows, 1, turns) == RowMajor(rows - 1, 1, turns) + turns >= turns + 1
  {
    RowMajorIsLinear(rows - 1, 1, turns);
  }

  lemma AtStart(g: Grid)
    ensures At(g, 0, 0) == InitialWalk(g.v(0, 0), [])
  {
    assert g.Rows(0) + g.RowOf(0, 0) == [];
  }

  /** On a profile that closes after one edge the walk loses its way after the first patch. */
  lemma WalkFails(net: Network, g: Grid, budget: nat)
    requires g.Describes(net) && !Walkable(g) && budget >= 2
    ensures Run(net, g.v(0, 0), At(g, 0, 0), budget) == Stopped([g.Patch(0, 0)], 1, FailFirstEdge)
  {
    PatchFound(net, g, 0, 0);
    SameVertex(net, g, 0, 0, g.Up(0), 0);
    AtStart(g);
    RunLost(net, g.v(0, 0), g.Patch(0, 0), budget);
  }

  lemma RunLost(net: Network, u: Vertex, c: Cell, budget: nat)
    requires FindsPatch(net, u, c) && c.e1.last == u && c.e2.last != u && budget >= 2
    ensures Run(net, u, InitialWalk(u, []), budget) == Stopped([c], 1, FailFirstEdge)
  {
    StepCloses(net, u, u, InitialWalk(u, []), c);
  }

  // ----- the map of a grid lists its edges properly -----

  lemma ProfileListed(net: Network, g: Grid, i: nat, j: nat)
    requires g.Describes(net) && i < g.NI() && j < g.C
    ensures net.Listed(g.p(i, j))
  {
    var k := g.Right(j);
    IncidentFit(net, g, i, j);
    IncidentFit(net, g, i, k);
    assert g.HasLeft(k) && g.Left(k) == j;
    SameVertex(net, g, i, j, i, k);
    assert g.Incident(i, j)[g.p(i, j)] >= 1 && g.Incident(i, k)[g.p(i, j)] >= 1;
    assert k == j ==> g.Incident(i, j)[g.p(i, j)] >= 2;
    assert net.Around(Some(g.v(i, j))) == net.around[g.v(i, j)] && net.Around(Some(g.v(i, k))) == net.around[g.v(i, k)];
  }

  lemma GuideListed(net: Network, g: Grid, i: nat, j: nat)
    requires g.Describes(net) && i < g.R && j < g.NJ()
    ensures net.Listed(g.g(i, j))
  {
    var k := g.Up(i);
    IncidentFit(net, g, i, j);
    IncidentFit(net, g, k, j);
    assert g.HasDown(k) && g.Down(k) == i;
    SameVertex(net, g, i, j, k, j);
    assert g.Incident(i, j)[g.g(i, j)] >= 1 && g.Incident(k, j)[g.g(i, j)] >= 1;
    assert k == i ==> g.Incident(i, j)[g.g(i, j)] >= 2;
    assert net.Around(Some(g.v(i, j))) == net.around[g.v(i, j)] && net.Around(Some(g.v(k, j))) == net.around[g.v(k, j)];
  }

  lemma GridIsValid(net: Network, g: Grid)
    requires g.Describes(net)
    ensures net.Valid()
  {
    forall u, e | u in net.around && e in net.around[u] && (e in net.guides || e in net.profiles)
      ensures net.Listed(e)
    {
      var i: nat, j: nat :| g.IsVertex(i, j) && g.v(i, j) == u;
      IncidentFit(net, g, i, j);
      ListedProfiles(net, g, i, j, e);
      ListedGuides(net, g, i, j, e);
      if e in net.profiles {
        ProfileListed(net, g, i, if e == g.p(i, j) && j < g.C then j else g.Left(j));
      } else {
        GuideListed(net, g, if e == g.g(i, j) && i < g.R then i else g.Down(i), j);
      }
    }
  }

  // ----- where the walk starts -----

  lemma RotatedDescribes(net: Network, g: Grid, a: nat, b: nat)
    requires g.Describes(net) && g.CanRotate(a, b)
    ensures g.Rotated(a, b).Describes(net)
  {
    RotatedVerticesFit(net, g, a, b);
    RotatedEdgesFit(net, g, a, b);
    var h := g.Rotated(a, b);
    forall i: nat, j: nat | h.IsVertex(i, j)
      ensures h.ListsIncident(net, i, j)
    {
      RotatedIncident(g, a, b, i, j);
      RotatedVertex(g, a, b, i, j);
      assert g.ListsIncident(net, g.RowShift(i, a), g.ColShift(j, b));
    }
  }

  lemma RotatedVertex(g: Grid, a: nat, b: nat, i: nat, j: nat)
    requires g.R > 0 && g.C > 0 && g.CanRotate(a, b) && g.IsVertex(i, j)
    ensures g.IsVertex(g.RowShift(i, a), g.ColShift(j, b))
    ensures g.Rotated(a, b).v(i, j) == g.v(g.RowShift(i, a), g.ColShift(j, b))
    ensures j < g.C ==> g.ColShift(j, b) < g.C && g.Right(g.ColShift(j, b)) == g.ColShift(g.Right(j), b)
    ensures i < g.R ==> g.RowShift(i, a) < g.R && g.Up(g.RowShift(i, a)) == g.RowShift(g.Up(i), a)
  {
  }

  /** Where the vertex (i, j) is found after the rotation. */
  lemma RotatedPlace(g: Grid, a: nat, b: nat, i: nat, j: nat) returns (i': nat, j': nat)
    requires g.R > 0 && g.C > 0 && g.CanRotate(a, b) && g.IsVertex(i, j)
    ensures g.IsVertex(i', j') && g.RowShift(i', a) == i && g.ColShift(j', b) == j
    ensures g.Rotated(a, b).v(i', j') == g.v(i, j)
    ensures (i < g.R ==> i' < g.R) && (j < g.C ==> j' < g.C)
  {
    i' := if i < a then i + g.NI() - a else i - a;
    j' := if j < b then j + g.NJ() - b else j - b;
    RotatedVertex(g, a, b, i', j');
  }

  lemma RotatedVerticesFit(net: Network, g: Grid, a: nat, b: nat)
    requires g.Describes(net) && g.CanRotate(a, b)
    ensures g.Rotated(a, b).VerticesFit(net)
  {
    var h := g.Rotated(a, b);
    forall i: nat, j: nat, i': nat, j': nat | h.IsVertex(i, j) && h.IsVertex(i', j')
      ensures h.Distinct(i, j, i', j')
    {
      RotatedVertex(g, a, b, i, j);
      RotatedVertex(g, a, b, i', j');
      SameVertex(net, g, g.RowShift(i, a), g.ColShift(j, b), g.RowShift(i', a), g.ColShift(j', b));
    }
    forall i: nat, j: nat | h.IsVertex(i, j)
      ensures h.HasKey(net, i, j)
    {
      RotatedVertex(g, a, b, i, j);
      assert g.HasKey(net, g.RowShift(i, a), g.ColShift(j, b));
    }
    forall u | u in net.keys
      ensures exists i: nat, j: nat :: h.IsVertex(i, j) && h.v(i, j) == u
    {
      var i: nat, j: nat :| g.IsVertex(i, j) && g.v(i, j) == u;
      var i', j' := RotatedPlace(g, a, b, i, j);
      assert h.IsVertex(i', j');
    }
  }

  lemma RotatedEdgesFit(net: Network, g: Grid, a: nat, b: nat)
    requires g.Describes(net) && g.CanRotate(a, b)
    ensures g.Rotated(a, b).EdgesFit(net)
  {
    var h := g.Rotated(a, b);
    forall i: nat, j: nat | i < h.NI() && j < h.C
      ensures h.ProfileFits(net, i, j)
    {
      RotatedVertex(g, a, b, i, j);
      RotatedVertex(g, a, b, i, g.Right(j));
      assert h.p(i, j) == g.p(g.RowShift(i, a), g.ColShift(j, b));
      assert g.ProfileFits(net, g.RowShift(i, a), g.ColShift(j, b));
    }
    forall i: nat, j: nat | i < h.R && j < h.NJ()
      ensures h.GuideFits(net, i, j)
    {
      RotatedVertex(g, a, b, i, j);
      RotatedVertex(g, a, b, g.Up(i), j);
      assert h.g(i, j) == g.g(g.RowShift(i, a), g.ColShift(j, b));
      assert g.GuideFits(net, g.RowShift(i, a), g.ColShift(j, b));
    }
  }

  lemma RotatedIncident(g: Grid, a: nat, b: nat, i: nat, j: nat)
    requires g.R > 0 && g.C > 0 && g.CanRotate(a, b) && g.IsVertex(i, j)
    ensures g.Rotated(a, b).Incident(i, j) == g.Incident(g.RowShift(i, a), g.ColShift(j, b))
  {
    RotatedProfilesAt(g, a, b, i, j);
    RotatedGuidesAt(g, a, b, i, j);
    hide Grid.ProfilesAt, Grid.GuidesAt, Grid.Rotated;
  }

  lemma LeftOfShifted(g: Grid, b: nat, j: nat)
    requires g.C > 0 && b < g.NJ() && (!g.closedProfiles ==> b == 0) && j < g.NJ()
    ensures (g.ColShift(j, b) < g.C <==> j < g.C) && (g.HasLeft(g.ColShift(j, b)) <==> g.HasLeft(j))
    ensures g.HasLeft(j) ==> g.Left(g.ColShift(j, b)) == g.ColShift(g.Left(j), b)
  {
  }

  lemma DownOfShifted(g: Grid, a: nat, i: nat)
    requires g.R > 0 && a < g.NI() && (!g.closedGuides ==> a == 0) && i < g.NI()
    ensures (g.RowShift(i, a) < g.R <==> i < g.R) && (g.HasDown(g.RowShift(i, a)) <==> g.HasDown(i))
    ensures g.HasDown(i) ==> g.Down(g.RowShift(i, a)) == g.RowShift(g.Down(i), a)
  {
  }

  lemma RotatedProfilesAt(g: Grid, a: nat, b: nat, i: nat, j: nat)
    requires g.R > 0 && g.C > 0 && g.CanRotate(a, b) && g.IsVertex(i, j)
    ensures g.Rotated(a, b).ProfilesAt(i, j) == g.ProfilesAt(g.RowShift(i, a), g.ColShift(j, b))
  {
    LeftOfShifted(g, b, j);
  }

  lemma RotatedGuidesAt(g: Grid, a: nat, b: nat, i: nat, j: nat)
    requires g.R > 0 && g.C > 0 && g.CanRotate(a, b) && g.IsVertex(i, j)
    ensures g.Rotated(a, b).GuidesAt(i, j) == g.GuidesAt(g.RowShift(i, a), g.ColShift(j, b))
  {
    DownOfShifted(g, a, i);
  }

  function Bit(b: bool): nat { if b then 1 else 0 }

  /** The number of edge ends at vertex (i, j). */
  function Extent(g: Grid, i: nat, j: nat): nat {
    Bit(j < g.C) + Bit(g.HasLeft(j)) + Bit(i < g.R) + Bit(g.HasDown(i))
  }

  lemma ExtentOfVertex(net: Network, g: Grid, i: nat, j: nat)
    requires g.Describes(net) && g.IsVertex(i, j)
    ensures |net.Around(Some(g.v(i, j)))| == Extent(g, i, j)
  {
    assert |g.ProfilesAt(i, j)| == Bit(j < g.C) + Bit(g.HasLeft(j));
    assert |g.GuidesAt(i, j)| == Bit(i < g.R) + Bit(g.HasDown(i));
    assert g.ListsIncident(net, i, j);
    assert |multiset(net.Around(Some(g.v(i, j))))| == |g.Incident(i, j)|;
  }

  lemma CornerOfGrid(net: Network, g: Grid, i: nat, j: nat)
    requires g.Describes(net) && g.IsVertex(i, j)
    ensures g.v(i, j) in net.around
    ensures IsCorner(net, g.v(i, j)) <==> i < g.R && j < g.C
  {
    IncidentFit(net, g, i, j);
    if g.HasLeft(j) {
      SameVertex(net, g, i, g.Left(j), i, j);
    }
    if g.HasDown(i) {
      SameVertex(net, g, g.Down(i), j, i, j);
    }
    var u := g.v(i, j);
    var es := net.around[u];
    forall e | e in es && e.first == u
      ensures e in net.profiles ==> j < g.C
      ensures e !in net.profiles ==> i < g.R
    {
      ListedProfiles(net, g, i, j, e);
      assert e in multiset(net.Around(Some(u)));
      assert e in g.ProfilesAt(i, j) || e in g.GuidesAt(i, j);
    }
    if i < g.R && j < g.C {
      ListedProfiles(net, g, i, j, g.p(i, j));
      ListedGuides(net, g, i, j, g.g(i, j));
    }
  }

  lemma MinExtentOfGrid(net: Network, g: Grid)
    requires g.Describes(net)
    ensures forall n :: IsMinExtent(net, n) <==> n == Extent(g, 0, 0)
  {
    forall u | u in net.keys
      ensures Extent(g, 0, 0) <= |net.around[u]|
    {
      var i: nat, j: nat :| g.IsVertex(i, j) && g.v(i, j) == u;
      ExtentOfVertex(net, g, i, j);
    }
    ExtentOfVertex(net, g, 0, 0);
    assert g.IsVertex(0, 0) && g.HasKey(net, 0, 0);
    assert IsMinExtent(net, Extent(g, 0, 0));
  }

  lemma StartableVertex(net: Network, g: Grid, k: nat, i: nat, j: nat)
    requires g.Describes(net) && k < |net.keys| && g.IsVertex(i, j) && net.keys[k] == g.v(i, j)
    ensures Startable(net, k) <==> g.CanRotate(i, j) && i < g.R && j < g.C
  {
    MinExtentOfGrid(net, g);
    ExtentOfVertex(net, g, i, j);
    CornerOfGrid(net, g, i, j);
  }

  lemma {:induction false} FirstStartable(net: Network, k: nat)
    requires net.KeysValid() && k < |net.keys| && Startable(net, k)
    ensures exists m :: 0 <= m <= k && IsStartCorner(net, net.keys[m])
  {
    if m :| 0 <= m < k && Startable(net, m) {
      FirstStartable(net, m);
    } else {
      assert IsStartCorner(net, net.keys[k]);
    }
  }

  lemma GridHasStart(net: Network, g: Grid) returns (start: Vertex)
    requires g.Describes(net)
    ensures IsStartCorner(net, start)
  {
    assert g.IsVertex(0, 0) && g.HasKey(net, 0, 0);
    var k :| 0 <= k < |net.keys| && net.keys[k] == g.v(0, 0);
    StartableVertex(net, g, k, 0, 0);
    FirstStartable(net, k);
    var m :| 0 <= m <= k && IsStartCorner(net, net.keys[m]);
    start := net.keys[m];
  }

  /** The start corner of a grid is one of its corners, as far as it has corners. */
  lemma StartOfGrid(net: Network, g: Grid, start: Vertex) returns (a: nat, b: nat)
    requires g.Describes(net) && IsStartCorner(net, start)
    ensures g.CanRotate(a, b) && start == g.v(a, b)
  {
    var n: nat :| n < |net.keys| && net.keys[n] == start && Startable(net, n);
    assert start in net.keys;
    a, b :| g.IsVertex(a, b) && g.v(a, b) == start;
    StartableVertex(net, g, n, a, b);
  }

  lemma TakeHead(es: seq<Edge>, here: multiset<Edge>, there: multiset<Edge>)
    requires es != [] && multiset(es) == here + there && es[0] in here
    ensures multiset(es[1..]) == (here - multiset{es[0]}) + there
  {
    assert es == [es[0]] + es[1..];
    assert multiset(es) == multiset{es[0]} + multiset(es[1..]);
    assert multiset(es[1..]) == multiset(es) - multiset{es[0]};
  }

  lemma {:induction false} CountSplit(es: seq<Edge>, kind: set<Edge>, inside: multiset<Edge>, outside: multiset<Edge>)
    requires multiset(es) == inside + outside
    requires forall e :: e in inside ==> e in kind
    requires forall e :: e in outside ==> e !in kind
    ensures CountIn(es, kind) == |inside|
  {
    if es == [] {
      assert |multiset(es)| == 0;
    } else {
      var e := es[0];
      assert e in multiset(es);
      if e in inside {
        TakeHead(es, inside, outside);
        CountSplit(es[1..], kind, inside - multiset{e}, outside);
      } else {
        assert multiset(es) == outside + inside;
        TakeHead(es, outside, inside);
        assert multiset(es[1..]) == inside + (outside - multiset{e});
        CountSplit(es[1..], kind, inside, outside - multiset{e});
      }
    }
  }

  lemma ValenceOfVertex(net: Network, g: Grid, i: nat, j: nat)
    requires g.Describes(net) && g.IsVertex(i, j)
    ensures g.v(i, j) in net.around
    ensures !Overloaded(net, g.v(i, j))
  {
    IncidentFit(net, g, i, j);
    ValenceOfList(net, g, i, j, net.around[g.v(i, j)]);
  }

  lemma ValenceOfList(net: Network, g: Grid, i: nat, j: nat, es: seq<Edge>)
    requires g.R > 0 && g.C > 0 && multiset(es) == g.Incident(i, j)
    requires j < g.C ==> g.ProfileFits(net, i, j)
    requires g.HasLeft(j) ==> g.ProfileFits(net, i, g.Left(j))
    requires i < g.R ==> g.GuideFits(net, i, j)
    requires g.HasDown(i) ==> g.GuideFits(net, g.Down(i), j)
    ensures CountIn(es, net.profiles) <= 2 && CountIn(es, net.guides) <= 2
  {
    CountSplit(es, net.profiles, g.ProfilesAt(i, j), g.GuidesAt(i, j));
    assert multiset(es) == g.GuidesAt(i, j) + g.ProfilesAt(i, j);
    CountSplit(es, net.guides, g.GuidesAt(i, j), g.ProfilesAt(i, j));
  }

  lemma ValenceOfGrid(net: Network, g: Grid)
    requires g.Describes(net)
    ensures net.keys != []
    ensures forall u :: u in net.keys ==> !Overloaded(net, u)
  {
    assert g.IsVertex(0, 0) && g.HasKey(net, 0, 0);
    forall u | u in net.keys
      ensures !Overloaded(net, u)
    {
      var i: nat, j: nat :| g.IsVertex(i, j) && g.v(i, j) == u;
      ValenceOfVertex(net, g, i, j);
    }
  }

  // ----- the main results -----

  /** Enough turns for the walk over the whole grid. */
  function TurnsNeeded(g: Grid): nat {
    RowMajor(g.R, 2, RowTurns(g))
  }

  lemma WalkFromStart(net: Network, g: Grid, budget: nat)
    requires g.Describes(net) && TurnsNeeded(g) <= budget
    ensures Run(net, g.v(0, 0), At(g, 0, 0), budget)
         == if Walkable(g) then Stopped(g.Rows(g.R), g.C, OK) else Stopped([g.Patch(0, 0)], 1, FailFirstEdge)
  {
    TurnsSuffice(g.R, RowTurns(g));
    if Walkable(g) {
      TurnsOfGrid(net, g);
      WalkRows(net, g, 0, budget);
    } else {
      WalkFails(net, g, budget);
    }
  }

  lemma RotatedStart(g: Grid, a: nat, b: nat)
    requires g.R > 0 && g.C > 0 && g.CanRotate(a, b)
    ensures At(g.Rotated(a, b), 0, 0) == InitialWalk(g.v(a, b), [])
  {
    AtStart(g.Rotated(a, b));
    RotatedVertex(g, a, b, 0, 0);
    assert g.RowShift(0, a) == a && g.ColShift(0, b) == b;
  }

  lemma WalkFromVertex(net: Network, g: Grid, a: nat, b: nat, budget: nat)
    requires g.Describes(net) && g.CanRotate(a, b) && TurnsNeeded(g) <= budget
    ensures Run(net, g.v(a, b), InitialWalk(g.v(a, b), []), budget)
         == if Walkable(g) then Stopped(g.Rotated(a, b).Rows(g.R), g.C, OK)
            else Stopped([g.Rotated(a, b).Patch(0, 0)], 1, FailFirstEdge)
  {
    RotatedDescribes(net, g, a, b);
    RotatedStart(g, a, b);
    WalkFromStart(net, g.Rotated(a, b), budget);
  }

  lemma WalkedFromVertex(net: Network, g: Grid, a: nat, b: nat)
    requires g.Describes(net) && g.CanRotate(a, b) && NoOverload(net)
    requires g.v(a, b) in net.around && IsCorner(net, g.v(a, b))
    ensures Walked(net, g.v(a, b), [])
         == if Walkable(g) then Stopped(g.Rotated(a, b).Rows(g.R), g.C, OK)
            else Stopped([g.Rotated(a, b).Patch(0, 0)], 1, FailFirstEdge)
  {
    WalkFromVertex(net, g, a, b, TurnsNeeded(g));
    WalkedOnce(net, g.v(a, b), [], TurnsNeeded(g));
  }

  lemma GridPasses(net: Network, g: Grid, start: Vertex)
    requires g.Describes(net) && IsStartCorner(net, start)
    ensures StartsAt(net, start) && NoOverload(net) && start in net.around && IsCorner(net, start)
  {
    ValenceOfGrid(net, g);
    GridIsValid(net, g);
  }

  /** The walk starts on every grid, and ends well exactly on those that are walkable: then it has cut out all patches,
      row by row from the start corner. */
  lemma WalkOnGrid(net: Network, g: Grid) returns (start: Vertex, a: nat, b: nat)
    requires g.Describes(net)
    ensures StartsAt(net, start) && g.CanRotate(a, b) && start == g.v(a, b)
    ensures Walked(net, start, [])
         == if Walkable(g) then Stopped(g.Rotated(a, b).Rows(g.R), g.C, OK)
            else Stopped([g.Rotated(a, b).Patch(0, 0)], 1, FailFirstEdge)
  {
    start := GridHasStart(net, g);
    a, b := StartOfGrid(net, g, start);
    GridPasses(net, g, start);
    WalkedFromVertex(net, g, a, b);
  }

  lemma TurnsSuffice(rows: nat, turns: nat)
    ensures RowMajor(rows, 2, turns) == RowMajor(rows, 1, turns) + 1 >= 2
  {
    RowMajorIsLinear(rows, 1, turns);
    RowMajorIsLinear(rows, 2, turns);
  }

  lemma {:induction false} PatchAt(g: Grid, n: nat, i: nat, j: nat)
    requires i < n && j < g.C
    ensures RowMajor(i, j, g.C) < |g.Rows(n)| && g.Rows(n)[RowMajor(i, j, g.C)] == g.Patch(i, j)
  {
    RowsLength(g, n - 1);
    RowMajorIsLinear(i, j, g.C);
    RowMajorIsLinear(n - 1, 0, g.C);
    if i < n - 1 {
      PatchAt(g, n - 1, i, j);
    }
  }

  lemma {:induction false} PlaceOf(g: Grid, n: nat, k: nat) returns (i: nat, j: nat)
    requires k < |g.Rows(n)|
    ensures i < n && j < g.C && k == RowMajor(i, j, g.C)
  {
    RowsLength(g, n - 1);
    RowMajorIsLinear(n - 1, 0, g.C);
    if k < |g.Rows(n - 1)| {
      i, j := PlaceOf(g, n - 1, k);
    } else {
      i, j := n - 1, k - |g.Rows(n - 1)|;
      RowMajorIsLinear(i, j, g.C);
    }
  }

  /** The patch of cell k. */
  ghost predicate IsPatchOf(cells: seq<Cell>, k: nat, g: Grid, i: nat, j: nat) {
    k < |cells| && cells[k] == g.Patch(i, j)
  }

  ghost predicate IsCutOut(cells: seq<Cell>, g: Grid, i: nat, j: nat) {
    exists k: nat :: IsPatchOf(cells, k, g, i, j)
  }

  /** Whatever corner the walk starts from, every patch of the grid is cut out exactly once. */
  lemma EveryPatchOnce(net: Network, g: Grid, a: nat, b: nat)
    requires g.Describes(net) && g.CanRotate(a, b)
    ensures var cells := g.Rotated(a, b).Rows(g.R);
            && |cells| == g.R * g.C
            && (forall i: nat, j: nat :: i < g.R && j < g.C ==> IsCutOut(cells, g, i, j))
            && (forall i: nat, j: nat, k: nat, m: nat ::
                  i < g.R && j < g.C && IsPatchOf(cells, k, g, i, j) && IsPatchOf(cells, m, g, i, j) ==> k == m)
  {
    var h := g.Rotated(a, b);
    var cells := h.Rows(g.R);
    RowsLength(h, g.R);
    RowMajorIsLinear(g.R, 0, g.C);
    forall i: nat, j: nat | i < g.R && j < g.C
      ensures IsCutOut(cells, g, i, j)
    {
      var i', j' := RotatedPlace(g, a, b, i, j);
      PatchAt(h, g.R, i', j');
      RotatedPatch(g, a, b, i', j');
      assert IsPatchOf(cells, RowMajor(i', j', g.C), g, i, j);
    }
    forall i: nat, j: nat, k: nat, m: nat | i < g.R && j < g.C && IsPatchOf(cells, k, g, i, j)
        && IsPatchOf(cells, m, g, i, j)
      ensures k == m
    {
      var i1, j1 := PlaceOf(h, g.R, k);
      var i2, j2 := PlaceOf(h, g.R, m);
      PatchAt(h, g.R, i1, j1);
      PatchAt(h, g.R, i2, j2);
      RotatedDescribes(net, g, a, b);
      IncidentFit(net, h, i1, j1);
      IncidentFit(net, h, i2, j2);
      SameVertex(net, h, i1, j1, i2, j2);
    }
  }

  lemma RotatedPatch(g: Grid, a: nat, b: nat, i: nat, j: nat)
    requires g.R > 0 && g.C > 0 && g.CanRotate(a, b) && i < g.R && j < g.C
    ensures g.Rotated(a, b).Patch(i, j) == g.Patch(g.RowShift(i, a), g.ColShift(j, b))
  {
    RotatedVertex(g, a, b, i, j);
  }

  /** The algorithm object on a grid: the outcome for the caller. */
  method CutGrid(looper: Looper, ghost g: Grid) returns (exit: Exit, ghost a: nat, ghost b: nat)
    requires g.Describes(looper.net) && Walkable(g)
    requires looper.status == OK && looper.cells == []
    modifies looper
    ensures exit == Returned && looper.status == OK && g.CanRotate(a, b)
    ensures looper.cellGrid != null && looper.cellGrid.Length0 == g.R && looper.cellGrid.Length1 == g.C
    ensures forall i: nat, j: nat :: i < g.R && j < g.C ==>
              looper.cellGrid[i, j] == g.Patch(g.RowShift(i, a), g.ColShift(j, b))
  {
    ghost var start;
    start, a, b := WalkOnGrid(looper.net, g);
    ghost var h := g.Rotated(a, b);
    GridIsValid(looper.net, g);
    exit := looper.Perform();
    RowsLength(h, g.R);
    DivisionUnique(|looper.cells|, g.C, g.R, 0);
    forall i: nat, j: nat | i < g.R && j < g.C
      ensures looper.cellGrid[i, j] == g.Patch(g.RowShift(i, a), g.ColShift(j, b))
    {
      PatchAt(h, g.R, i, j);
      RotatedPatch(g, a, b, i, j);
    }
  }
}
