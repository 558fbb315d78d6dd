/** The walk that cuts a network of guide and profile edges into four-sided patches, as a state machine. */
module PatchWalk {
  import opened Wrappers

  type Vertex = nat

  datatype Edge = Edge(id: nat, first: Vertex, last: Vertex) {
    /** How many of its ends this edge has at a vertex where it ends at all. */
    function Ends(): nat { if first == last then 2 else 1 }
  }

  datatype Cell = Cell(e1: Edge, e2: Edge, e3: Edge, e4: Edge)

  datatype Status =
    | OK
    | FailStartingPoint
    | FailNoData
    | FailFirstEdge
    | FailSecondEdge
    | FailThirdEdge
    | FailFourthEdge
    | Fail

  /** The vertex map of the network: the vertices in map order, and the edges listed around each. */
  datatype Network = Network(keys: seq<Vertex>, around: map<Vertex, seq<Edge>>, guides: set<Edge>,
                             profiles: set<Edge>) {
    /** The map has exactly these vertices. */
    predicate KeysValid() {
      && (forall k :: 0 <= k < |keys| ==> keys[k] in around)
      && (forall v :: v in around ==> v in keys)
    }

    /** It lists every guide and profile edge around both of its ends, twice around the vertex where it closes on
        itself. */
    ghost predicate Valid() {
      KeysValid()
      && forall v, e :: v in around && e in around[v] && (e in guides || e in profiles) ==> Listed(e)
    }

    ghost predicate Listed(e: Edge) {
      && e.first in around && e.last in around
      && multiset(around[e.first])[e] >= e.Ends()
      && multiset(around[e.last])[e] >= e.Ends()
    }

    /** The edges listed around a corner, none for a null corner or one outside the map. */
    function Around(corner: Option<Vertex>): seq<Edge> {
      if corner.Some? && corner.value in around then around[corner.value] else []
    }
  }

  datatype Direction = Leaving | Entering

  predicate Matches(e: Edge, kind: set<Edge>, corner: Option<Vertex>, dir: Direction) {
    e in kind && Some(if dir == Leaving then e.first else e.last) == corner
  }

  /** The first edge of the list that matches. */
  function FirstMatch(es: seq<Edge>, kind: set<Edge>, corner: Option<Vertex>, dir: Direction): (r: Option<Edge>)
    ensures r.Some? ==> r.value in es && Matches(r.value, kind, corner, dir)
    ensures r.None? ==> forall e :: e in es ==> !Matches(e, kind, corner, dir)
  {
    if es == [] then None
    else if Matches(es[0], kind, corner, dir) then Some(es[0])
    else FirstMatch(es[1..], kind, corner, dir)
  }

  function CountIn(es: seq<Edge>, kind: set<Edge>): nat {
    if es == [] then 0 else (if es[0] in kind then 1 else 0) + CountIn(es[1..], kind)
  }

  // ----- the walk as a state machine -----

  /** The variables that one turn of the walk hands to the next. */
  datatype Walk = Walk(next: Option<Vertex>, start: Option<Vertex>, nextStart: Option<Vertex>,
                       firstRow: bool, rowLength: nat, cells: seq<Cell>)

  datatype Progress =
    | Walking(walk: Walk)
    | Stopped(cells: seq<Cell>, rowLength: nat, status: Status)

  function StopUnlessCells(w: Walk, status: Status): Progress {
    Stopped(w.cells, w.rowLength, if w.cells == [] then status else OK)
  }

  /** Moves on to the next row; the first time this fixes the row length. */
  function BeginRow(w: Walk): Walk {
    Walk(w.nextStart, w.nextStart, w.nextStart, false, if w.firstRow then |w.cells| else w.rowLength, w.cells)
  }

  /** One turn of the walk from the corner w.next. */
  function Step(net: Network, globalStart: Vertex, w: Walk): Progress {
    if !w.firstRow && w.next == Some(globalStart) then Stopped(w.cells, w.rowLength, OK)
    else
      match FirstMatch(net.Around(w.next), net.profiles, w.next, Leaving)
      case None =>
        if w.nextStart.None? then Stopped(w.cells, w.rowLength, FailFirstEdge) else Walking(BeginRow(w))
      case Some(e1) => StepFromFirstEdge(net, w, e1)
  }

  function StepFromFirstEdge(net: Network, w: Walk, e1: Edge): Progress {
    match FirstMatch(net.Around(Some(e1.last)), net.guides, Some(e1.last), Leaving)
    case None => StopUnlessCells(w, FailSecondEdge)
    case Some(e2) =>
      var closing := Some(e1.last) == w.start;
      var w' := w.(start := if closing then Some(e2.last) else w.start,
                   next := if closing then Some(e2.last) else Some(e1.last));
      match FirstMatch(net.Around(Some(e2.last)), net.profiles, Some(e2.last), Entering)
      case None => StopUnlessCells(w, FailThirdEdge)
      case Some(e3) =>
        StepFromThirdEdge(net, w'.(nextStart := if w.next == w'.start then Some(e3.first) else w.nextStart), e1, e2, e3)
  }

  function StepFromThirdEdge(net: Network, w: Walk, e1: Edge, e2: Edge, e3: Edge): Progress {
    match FirstMatch(net.Around(Some(e3.first)), net.guides, Some(e3.first), Entering)
    case None => StopUnlessCells(w, FailFourthEdge)
    case Some(e4) =>
      var w' := w.(cells := w.cells + [Cell(e1, e2, e3, e4)]);
      if e4.first != e1.first then Stopped(w'.cells, w'.rowLength, FailFourthEdge)
      else if w'.next == w'.start then Walking(BeginRow(w'))
      else Walking(w')
  }

  /** At most budget turns of the walk. */
  function Run(net: Network, globalStart: Vertex, w: Walk, budget: nat): Progress
    decreases budget
  {
    if budget == 0 then Walking(w)
    else
      match Step(net, globalStart, w)
      case Walking(w') => Run(net, globalStart, w', budget - 1)
      case Stopped(_, _, _) => Step(net, globalStart, w)
  }

  lemma RunUnfolds(net: Network, globalStart: Vertex, w: Walk, budget: nat)
    requires Run(net, globalStart, w, budget).Stopped?
    ensures budget > 0
    ensures var p := Step(net, globalStart, w);
            Run(net, globalStart, w, budget) == if p.Walking? then Run(net, globalStart, p.walk, budget - 1) else p
  {
  }

  predicate Finds(net: Network, u: Vertex, kind: set<Edge>, dir: Direction, e: Edge) {
    FirstMatch(net.Around(Some(u)), kind, Some(u), dir) == Some(e)
  }

  /** The edges of c are what one turn from the vertex u finds, and they close up. */
  predicate FindsPatch(net: Network, u: Vertex, c: Cell) {
    && Finds(net, u, net.profiles, Leaving, c.e1)
    && Finds(net, c.e1.last, net.guides, Leaving, c.e2)
    && Finds(net, c.e2.last, net.profiles, Entering, c.e3)
    && Finds(net, c.e3.first, net.guides, Entering, c.e4)
    && c.e4.first == c.e1.first
  }

  /** A turn that stays in its row. */
  lemma StepStays(net: Network, globalStart: Vertex, u: Vertex, w: Walk, c: Cell)
    requires w.next == Some(u) && (w.firstRow || u != globalStart) && FindsPatch(net, u, c)
    requires Some(c.e1.last) != w.start
    ensures Step(net, globalStart, w)
         == Walking(w.(next := Some(c.e1.last),
                       nextStart := if Some(u) == w.start then Some(c.e3.first) else w.nextStart,
                       cells := w.cells + [c]))
  {
  }

  /** A turn that closes a profile and goes on to the next row. */
  lemma StepCloses(net: Network, globalStart: Vertex, u: Vertex, w: Walk, c: Cell)
    requires w.next == Some(u) && (w.firstRow || u != globalStart) && FindsPatch(net, u, c)
    requires Some(c.e1.last) == w.start
    ensures Step(net, globalStart, w)
         == Walking(BeginRow(w.(nextStart := if u == c.e2.last then Some(c.e3.first) else w.nextStart,
                                cells := w.cells + [c])))
  {
  }

  /** No edge around the vertex matches. */
  ghost predicate Misses(net: Network, u: Vertex, kind: set<Edge>, dir: Direction) {
    forall e :: e in net.Around(Some(u)) ==> !Matches(e, kind, Some(u), dir)
  }

  /** A turn without a first edge: the walk goes on with the next row, or stops if none is known. */
  lemma StepWithoutFirst(net: Network, globalStart: Vertex, u: Vertex, w: Walk)
    requires w.next == Some(u) && (w.firstRow || u != globalStart) && Misses(net, u, net.profiles, Leaving)
    ensures Step(net, globalStart, w)
         == if w.nextStart.None? then Stopped(w.cells, w.rowLength, FailFirstEdge) else Walking(BeginRow(w))
  {
  }

  /** A turn that finds a part of a patch only: it stops, with a failure that names the missing edge if there are no
      cells, or if the fourth edge does not lead back to the first. */
  lemma StepStops(net: Network, globalStart: Vertex, u: Vertex, w: Walk, c: Cell)
    requires w.next == Some(u) && (w.firstRow || u != globalStart) && Finds(net, u, net.profiles, Leaving, c.e1)
    ensures var p := Step(net, globalStart, w);
            var second := Finds(net, c.e1.last, net.guides, Leaving, c.e2);
            var third := second && Finds(net, c.e2.last, net.profiles, Entering, c.e3);
            var fourth := third && Finds(net, c.e3.first, net.guides, Entering, c.e4);
            && (Misses(net, c.e1.last, net.guides, Leaving) ==>
                p == Stopped(w.cells, w.rowLength, if w.cells == [] then FailSecondEdge else OK))
            && (second && Misses(net, c.e2.last, net.profiles, Entering) ==>
                p == Stopped(w.cells, w.rowLength, if w.cells == [] then FailThirdEdge else OK))
            && (third && Misses(net, c.e3.first, net.guides, Entering) ==>
                p == Stopped(w.cells, w.rowLength, if w.cells == [] then FailFourthEdge else OK))
            && (fourth && c.e4.first != c.e1.first ==> p == Stopped(w.cells + [c], w.rowLength, FailFourthEdge))
  {
  }

  // ----- what precedes the walk -----

  predicate Overloaded(net: Network, v: Vertex)
    requires v in net.around
  {
    CountIn(net.around[v], net.guides) > 2 || CountIn(net.around[v], net.profiles) > 2
  }

  /** A profile edge and another edge both leave v. */
  predicate IsCorner(net: Network, v: Vertex)
    requires v in net.around
  {
    && (exists e :: e in net.around[v] && e.first == v && e in net.profiles)
    && (exists e :: e in net.around[v] && e.first == v && e !in net.profiles)
  }

  ghost predicate IsMinExtent(net: Network, n: nat)
    requires net.KeysValid()
  {
    && (forall v :: v in net.keys ==> n <= |net.around[v]|)
    && (exists v :: v in net.keys && n == |net.around[v]|)
  }

  /** The first vertex, in map order, with minimal extent that is a corner. */
  ghost predicate IsStartCorner(net: Network, v: Vertex)
    requires net.KeysValid()
  {
    exists k :: 0 <= k < |net.keys| && net.keys[k] == v && Startable(net, k)
                && forall m :: 0 <= m < k ==> !Startable(net, m)
  }

  ghost predicate Startable(net: Network, k: nat)
    requires net.KeysValid() && k < |net.keys|
  {
    IsMinExtent(net, |net.around[net.keys[k]]|) && IsCorner(net, net.keys[k])
  }


  /** All that has to hold for the walk to start, and to start at v. */
  ghost predicate StartsAt(net: Network, v: Vertex)
    requires net.KeysValid()
  {
    && net.keys != []
    && (forall u :: u in net.keys ==> !Overloaded(net, u))
    && IsStartCorner(net, v)
  }

  function InitialWalk(v: Vertex, cells: seq<Cell>): Walk {
    Walk(Some(v), Some(v), None, true, 0, cells)
  }

  // ----- what holds of the walk on every network -----

  /** The edges of c go around a four-sided loop, except that the last two need not meet the first at the start. */
  predicate IsOpenLoop(net: Network, c: Cell) {
    && c.e1 in net.profiles && c.e2 in net.guides && c.e3 in net.profiles && c.e4 in net.guides
    && c.e1.last == c.e2.first && c.e2.last == c.e3.last && c.e3.first == c.e4.last
  }

  predicate IsLoop(net: Network, c: Cell) {
    IsOpenLoop(net, c) && c.e4.first == c.e1.first
  }

  ghost predicate Sound(net: Network, p: Progress) {
    match p
    case Walking(w) => AllLoops(net, w.cells) && w.rowLength <= |w.cells|
    case Stopped(cells, n, status) =>
      && n <= |cells|
      && if status == FailFourthEdge && cells != []
         then AllLoops(net, cells[..|cells| - 1]) && IsOpenLoop(net, cells[|cells| - 1])
         else AllLoops(net, cells)
  }

  ghost predicate AllLoops(net: Network, cells: seq<Cell>) {
    forall k :: 0 <= k < |cells| ==> IsLoop(net, cells[k])
  }

  lemma StepIsSound(net: Network, globalStart: Vertex, w: Walk)
    requires Sound(net, Walking(w))
    ensures Sound(net, Step(net, globalStart, w))
  {
  }

  /** On any network at all, every cell the walk emits is a closed loop of profile, guide, profile and guide; only the
      last one may fail to close, and then the status says so. */
  lemma {:induction false} CellsAreLoops(net: Network, globalStart: Vertex, w: Walk, budget: nat)
    requires Sound(net, Walking(w))
    ensures Sound(net, Run(net, globalStart, w, budget))
    decreases budget
  {
    if budget > 0 {
      StepIsSound(net, globalStart, w);
      var next := Step(net, globalStart, w);
      if next.Walking? {
        CellsAreLoops(net, globalStart, next.walk, budget - 1);
      }
    }
  }

  // ----- which failures can be reported -----

  /** A row length is known from the second row on, and then there are cells; without cells no next row is known. */
  ghost predicate RowsBegun(w: Walk) {
    && (w.rowLength == 0 <==> w.firstRow)
    && (w.cells == [] ==> w.firstRow && w.nextStart.None?)
  }

  /** A missing second, third or fourth edge is a failure only in the first row, where no row length is known. */
  ghost predicate Reported(net: Network, p: Progress) {
    p.Stopped? && p.rowLength > 0 ==>
      && (p.status == OK || p.status == FailFirstEdge || p.status == FailFourthEdge)
      && (p.status == FailFourthEdge ==> p.cells != [] && !IsLoop(net, p.cells[|p.cells| - 1]))
  }

  lemma StepBeginsRows(net: Network, globalStart: Vertex, w: Walk)
    requires RowsBegun(w)
    ensures var p := Step(net, globalStart, w);
            if p.Walking? then RowsBegun(p.walk) else Reported(net, p)
  {
  }

  /** Whatever the network, a run from a fresh start never ends with a row length and a missing second or third edge,
      and with a row length and a wrong fourth edge only if its last cell does not close. */
  lemma {:induction false} OnlySomeFailures(net: Network, globalStart: Vertex, w: Walk, budget: nat)
    requires RowsBegun(w)
    ensures Reported(net, Run(net, globalStart, w, budget))
    decreases budget
  {
    if budget > 0 {
      StepBeginsRows(net, globalStart, w);
      var next := Step(net, globalStart, w);
      if next.Walking? {
        OnlySomeFailures(net, globalStart, next.walk, budget - 1);
      }
    }
  }
}
