/** The patch walk ends on every network in which no vertex has more than two guide or two profile ends. */
module WalkTermination {
  import opened Wrappers
  import opened PatchWalk

  ghost predicate Light(net: Network, kind: set<Edge>) {
    forall v :: v in net.around ==> CountIn(net.around[v], kind) <= 2
  }

  predicate Touches(e: Edge, v: Vertex) { e.first == v || e.last == v }

  lemma {:induction false} CountAtLeast(es: seq<Edge>, kind: set<Edge>, a: Edge, b: Edge, c: Edge)
    requires a in kind && b in kind && c in kind && a != b && b != c && a != c
    ensures CountIn(es, kind) >= multiset(es)[a] + multiset(es)[b] + multiset(es)[c]
  {
    if es != [] {
      assert es == [es[0]] + es[1..];
      CountAtLeast(es[1..], kind, a, b, c);
    }
  }

  /** Three ends at one vertex are too many. */
  lemma ThreeEnds(net: Network, kind: set<Edge>, v: Vertex, a: Edge, b: Edge, c: Edge)
    requires Light(net, kind) && net.Listed(a) && net.Listed(b) && net.Listed(c)
    requires a in kind && b in kind && c in kind && a != b && b != c && a != c
    ensures !Touches(a, v) || !Touches(b, v) || !Touches(c, v)
  {
    if v in net.around {
      CountAtLeast(net.around[v], kind, a, b, c);
    }
  }

  lemma {:induction false} CountAtLeastTwo(es: seq<Edge>, kind: set<Edge>, a: Edge, b: Edge)
    requires a in kind && b in kind && a != b
    ensures CountIn(es, kind) >= multiset(es)[a] + multiset(es)[b]
  {
    if es != [] {
      assert es == [es[0]] + es[1..];
      CountAtLeastTwo(es[1..], kind, a, b);
    }
  }

  /** So are an edge that closes on itself and another edge. */
  lemma LoopAndEnd(net: Network, kind: set<Edge>, v: Vertex, l: Edge, a: Edge)
    requires Light(net, kind) && net.Listed(l) && net.Listed(a) && l in kind && a in kind && l != a
    requires l.first == l.last == v
    ensures !Touches(a, v)
  {
    CountAtLeastTwo(net.around[v], kind, l, a);
  }

  /** A path of edges through distinct vertices. */
  ghost predicate Chain(net: Network, kind: set<Edge>, vs: seq<Vertex>, es: seq<Edge>) {
    && |vs| == |es| + 1
    && (forall k :: 0 <= k < |vs| ==> vs[k] in net.around)
    && (forall k :: 0 <= k < |es| ==>
          es[k] in kind && net.Listed(es[k]) && es[k].first == vs[k] && es[k].last == vs[k + 1])
    && (forall k, m :: 0 <= k < m < |vs| ==> vs[k] != vs[m])
  }

  /** A path can only be extended to a new vertex, or back to its first. */
  lemma ChainExtends(net: Network, kind: set<Edge>, vs: seq<Vertex>, es: seq<Edge>, e: Edge)
    requires Light(net, kind) && Chain(net, kind, vs, es) && e in kind && net.Listed(e) && e.first == vs[|vs| - 1]
    ensures e.last == vs[0] || Chain(net, kind, vs + [e.last], es + [e])
  {
    if m :| 0 < m < |vs| && vs[m] == e.last {
      assert es[m - 1].first == vs[m - 1] && es[m - 1].last == vs[m];
      if m == |vs| - 1 {
        LoopAndEnd(net, kind, vs[m], e, es[m - 1]);
      } else {
        assert es[m].first == vs[m];
        ThreeEnds(net, kind, vs[m], e, es[m - 1], es[m]);
      }
    }
  }

  lemma {:induction false} DistinctFit(vs: seq<Vertex>, s: set<Vertex>)
    requires forall k :: 0 <= k < |vs| ==> vs[k] in s
    requires forall k, m :: 0 <= k < m < |vs| ==> vs[k] != vs[m]
    ensures |vs| <= |s|
  {
    if vs != [] {
      DistinctFit(vs[1..], s - {vs[0]});
    }
  }

  /** The edge that the walk finds is listed at both ends. */
  lemma FoundIsListed(net: Network, kind: set<Edge>, u: Option<Vertex>, dir: Direction)
    requires net.Valid() && (kind == net.guides || kind == net.profiles)
    ensures var e := FirstMatch(net.Around(u), kind, u, dir); e.Some? ==> net.Listed(e.value)
  {
  }

  // ----- the walk stays on a path of row starts and a path along its row -----

  /** A profile leaves s, and if it closes at s then no guide leaves s. */
  predicate IsRowStart(net: Network, s: Vertex) {
    var e := FirstMatch(net.Around(Some(s)), net.profiles, Some(s), Leaving);
    e.Some? && (e.value.last == s ==> FirstMatch(net.Around(Some(s)), net.guides, Some(s), Leaving).None?)
  }

  ghost predicate IsNextStart(net: Network, from: Vertex, s: Vertex, e: Edge) {
    e in net.guides && net.Listed(e) && e.first == from && e.last == s && IsRowStart(net, s)
  }

  /** starts are the row starts so far, joined by guides; row are the corners of the current row so far. */
  ghost predicate OnTrack(net: Network, globalStart: Vertex, w: Walk,
                          starts: seq<Vertex>, guides: seq<Edge>, row: seq<Vertex>, profiles: seq<Edge>) {
    && Chain(net, net.guides, starts, guides) && Chain(net, net.profiles, row, profiles)
    && starts[0] == globalStart && starts[|starts| - 1] == row[0]
    && w.start == Some(row[0]) && w.next == Some(row[|row| - 1])
    && (w.firstRow <==> |starts| == 1)
    && (!w.firstRow ==> IsRowStart(net, row[0]))
    && FirstMatch(net.Around(Some(row[0])), net.profiles, Some(row[0]), Leaving).Some?
    && (if |row| == 1 then w.nextStart == (if w.firstRow then None else Some(row[0]))
        else w.nextStart.Some? && exists e :: IsNextStart(net, row[0], w.nextStart.value, e))
  }

  ghost predicate NoOverload(net: Network) {
    net.Valid() && Light(net, net.guides) && Light(net, net.profiles)
  }

  /** The patch found at a corner that is not a closed edge starts the next row well. */
  lemma RowStartFound(net: Network, e1: Edge, e2: Edge, e3: Edge, e4: Edge)
    requires NoOverload(net) && e1.first != e1.last
    requires net.Listed(e2) && net.Listed(e3) && net.Listed(e4)
    requires e2 in net.guides && e3 in net.profiles && e4 in net.guides
    requires e2.first == e1.last && e3.last == e2.last && e4.last == e3.first && e4.first == e1.first
    ensures IsNextStart(net, e1.first, e3.first, e4)
  {
    var s := e3.first;
    assert e3 in multiset(net.around[s]);
    FoundIsListed(net, net.profiles, Some(s), Leaving);
    FoundIsListed(net, net.guides, Some(s), Leaving);
    var e := FirstMatch(net.Around(Some(s)), net.profiles, Some(s), Leaving);
    assert Matches(e3, net.profiles, Some(s), Leaving);
    if e.value.last == s {
      var f := FirstMatch(net.Around(Some(s)), net.guides, Some(s), Leaving);
      if e.value != e3 {
        LoopAndEnd(net, net.profiles, s, e.value, e3);
      } else if f.Some? {
        if f.value == e2 {
          LoopAndEnd(net, net.guides, s, e2, e4);
        } else if f.value == e4 {
          LoopAndEnd(net, net.guides, s, e4, e2);
        } else {
          ThreeEnds(net, net.guides, s, f.value, e2, e4);
        }
      }
    }
  }

  /** The walk has one turn left at most: it is back at the global start, or has lost its way. */
  predicate IsOver(globalStart: Vertex, w: Walk) {
    !w.firstRow && (w.next == Some(globalStart) || (w.next.None? && w.nextStart.None?))
  }

  /** What remains to be walked. */
  function Measure(net: Network, starts: seq<Vertex>, row: seq<Vertex>): int {
    (|net.around| - |starts|) * (|net.around| + 1) + |net.around| - |row|
  }

  /** A next row start is a new one, unless the guides have closed. */
  lemma NextRowOnTrack(net: Network, globalStart: Vertex, w: Walk, starts: seq<Vertex>, guides: seq<Edge>, s: Vertex,
                       e: Edge)
    requires NoOverload(net) && Chain(net, net.guides, starts, guides) && starts[0] == globalStart
    requires IsNextStart(net, starts[|starts| - 1], s, e) && w.nextStart == Some(s)
    ensures IsOver(globalStart, BeginRow(w))
         || OnTrack(net, globalStart, BeginRow(w), starts + [s], guides + [e], [s], [])
  {
    ChainExtends(net, net.guides, starts, guides, e);
  }

  /** The walk is over, or on track with less than m to go. */
  ghost predicate Advanced(net: Network, globalStart: Vertex, w: Walk, m: int) {
    IsOver(globalStart, w)
    || exists starts, guides, row, profiles ::
         OnTrack(net, globalStart, w, starts, guides, row, profiles) && Measure(net, starts, row) < m
  }

  lemma ChainFits(net: Network, kind: set<Edge>, vs: seq<Vertex>, es: seq<Edge>)
    requires Chain(net, kind, vs, es)
    ensures |vs| <= |net.around|
  {
    DistinctFit(vs, net.around.Keys);
  }

  lemma MeasureOfNextRow(net: Network, starts: seq<Vertex>, row: seq<Vertex>, starts': seq<Vertex>, row': seq<Vertex>)
    requires |starts| < |starts'| && 1 <= |row| <= |net.around| && |row'| == 1
    ensures Measure(net, starts', row') < Measure(net, starts, row)
  {
    var n := |net.around|;
    assert (n - |starts'|) * (n + 1) <= (n - |starts| - 1) * (n + 1);
    assert (n - |starts|) * (n + 1) == (n - |starts| - 1) * (n + 1) + (n + 1);
  }

  lemma AdvancedToNextRow(net: Network, globalStart: Vertex, w: Walk, starts: seq<Vertex>, guides: seq<Edge>,
                          row: seq<Vertex>, starts': seq<Vertex>, guides': seq<Edge>, e: Edge)
    requires NoOverload(net) && Chain(net, net.guides, starts', guides') && starts'[0] == globalStart
    requires |starts| <= |starts'| && 1 <= |row| <= |net.around|
    requires w.nextStart.Some? && IsNextStart(net, starts'[|starts'| - 1], w.nextStart.value, e)
    ensures Advanced(net, globalStart, BeginRow(w), Measure(net, starts, row))
  {
    var s := w.nextStart.value;
    NextRowOnTrack(net, globalStart, w, starts', guides', s, e);
    MeasureOfNextRow(net, starts, row, starts' + [s], [s]);
  }

  lemma TrackRowEnds(net: Network, globalStart: Vertex, w: Walk,
                     starts: seq<Vertex>, guides: seq<Edge>, row: seq<Vertex>, profiles: seq<Edge>)
    requires NoOverload(net) && OnTrack(net, globalStart, w, starts, guides, row, profiles)
    requires FirstMatch(net.Around(w.next), net.profiles, w.next, Leaving).None?
    ensures w.nextStart.Some? && Advanced(net, globalStart, BeginRow(w), Measure(net, starts, row))
  {
    var e :| IsNextStart(net, row[0], w.nextStart.value, e);
    ChainFits(net, net.profiles, row, profiles);
    AdvancedToNextRow(net, globalStart, w, starts, guides, row, starts, guides, e);
  }

  lemma PatchIsListed(net: Network, u: Vertex, c: Cell)
    requires NoOverload(net) && FindsPatch(net, u, c)
    ensures net.Listed(c.e1) && net.Listed(c.e2) && net.Listed(c.e3) && net.Listed(c.e4)
    ensures c.e1 in net.profiles && c.e2 in net.guides && c.e3 in net.profiles && c.e4 in net.guides
    ensures c.e1.first == u && c.e2.first == c.e1.last && c.e3.last == c.e2.last && c.e4.last == c.e3.first
            && c.e4.first == u
    ensures c.e1.first != c.e1.last ==> IsNextStart(net, u, c.e3.first, c.e4)
  {
    FoundIsListed(net, net.profiles, Some(u), Leaving);
    FoundIsListed(net, net.guides, Some(c.e1.last), Leaving);
    FoundIsListed(net, net.profiles, Some(c.e2.last), Entering);
    FoundIsListed(net, net.guides, Some(c.e3.first), Entering);
    if c.e1.first != c.e1.last {
      RowStartFound(net, c.e1, c.e2, c.e3, c.e4);
    }
  }

  lemma TrackStays(net: Network, globalStart: Vertex, w: Walk,
                   starts: seq<Vertex>, guides: seq<Edge>, row: seq<Vertex>, profiles: seq<Edge>, u: Vertex, c: Cell)
    requires NoOverload(net) && OnTrack(net, globalStart, w, starts, guides, row, profiles)
    requires w.next == Some(u) && FindsPatch(net, u, c) && Some(c.e1.last) != w.start
    ensures Advanced(net, globalStart,
                     w.(next := Some(c.e1.last),
                        nextStart := if Some(u) == w.start then Some(c.e3.first) else w.nextStart,
                        cells := w.cells + [c]),
                     Measure(net, starts, row))
  {
    PatchIsListed(net, u, c);
    ChainExtends(net, net.profiles, row, profiles, c.e1);
    var w' := w.(next := Some(c.e1.last),
                 nextStart := if Some(u) == w.start then Some(c.e3.first) else w.nextStart,
                 cells := w.cells + [c]);
    if |row| == 1 {
      if u == c.e1.last {
        assert false;
      }
      assert IsNextStart(net, row[0], c.e3.first, c.e4);
    } else {
      assert row[0] != row[|row| - 1];
    }
    assert OnTrack(net, globalStart, w', starts, guides, row + [c.e1.last], profiles + [c.e1]);
  }

  lemma TrackCloses(net: Network, globalStart: Vertex, w: Walk,
                    starts: seq<Vertex>, guides: seq<Edge>, row: seq<Vertex>, profiles: seq<Edge>, u: Vertex, c: Cell)
    requires NoOverload(net) && OnTrack(net, globalStart, w, starts, guides, row, profiles)
    requires w.next == Some(u) && (w.firstRow || u != globalStart) && FindsPatch(net, u, c)
             && Some(c.e1.last) == w.start
    ensures Advanced(net, globalStart,
                     BeginRow(w.(nextStart := if u == c.e2.last then Some(c.e3.first) else w.nextStart,
                                 cells := w.cells + [c])),
                     Measure(net, starts, row))
  {
    PatchIsListed(net, u, c);
    ChainFits(net, net.profiles, row, profiles);
    var w' := w.(nextStart := if u == c.e2.last then Some(c.e3.first) else w.nextStart, cells := w.cells + [c]);
    if |row| == 1 {
      assert w.firstRow;
      if u == c.e2.last {
        assert c.e3.first == globalStart by {
          if c.e4 != c.e2 {
            LoopAndEnd(net, net.guides, u, c.e2, c.e4);
          }
        }
      }
    } else if u == c.e2.last {
      assert u != row[0];
      assert c.e1.first != c.e1.last;
      ChainExtends(net, net.guides, starts, guides, c.e2);
      AdvancedToNextRow(net, globalStart, w', starts, guides, row, starts + [u], guides + [c.e2], c.e4);
    } else {
      var e :| IsNextStart(net, row[0], w.nextStart.value, e);
      AdvancedToNextRow(net, globalStart, w', starts, guides, row, starts, guides, e);
    }
  }

  lemma TrackStep(net: Network, globalStart: Vertex, w: Walk,
                  starts: seq<Vertex>, guides: seq<Edge>, row: seq<Vertex>, profiles: seq<Edge>)
    requires NoOverload(net) && OnTrack(net, globalStart, w, starts, guides, row, profiles)
    ensures var p := Step(net, globalStart, w);
            p.Walking? ==> Advanced(net, globalStart, p.walk, Measure(net, starts, row))
  {
    var p := Step(net, globalStart, w);
    if p.Walking? {
      var e1 := FirstMatch(net.Around(w.next), net.profiles, w.next, Leaving);
      if e1.None? {
        TrackRowEnds(net, globalStart, w, starts, guides, row, profiles);
      } else {
        var u := w.next.value;
        var c := PatchOfStep(net, globalStart, w, u);
        if Some(c.e1.last) == w.start {
          StepCloses(net, globalStart, u, w, c);
          TrackCloses(net, globalStart, w, starts, guides, row, profiles, u, c);
        } else {
          StepStays(net, globalStart, u, w, c);
          TrackStays(net, globalStart, w, starts, guides, row, profiles, u, c);
        }
      }
    }
  }

  /** A turn that goes on from a first edge has found a whole patch. */
  lemma PatchOfStep(net: Network, globalStart: Vertex, w: Walk, u: Vertex) returns (c: Cell)
    requires w.next == Some(u) && Step(net, globalStart, w).Walking?
    requires FirstMatch(net.Around(w.next), net.profiles, w.next, Leaving).Some?
    ensures FindsPatch(net, u, c)
  {
    var e1 := FirstMatch(net.Around(w.next), net.profiles, w.next, Leaving).value;
    var e2 := FirstMatch(net.Around(Some(e1.last)), net.guides, Some(e1.last), Leaving).value;
    var e3 := FirstMatch(net.Around(Some(e2.last)), net.profiles, Some(e2.last), Entering).value;
    var e4 := FirstMatch(net.Around(Some(e3.first)), net.guides, Some(e3.first), Entering).value;
    c := Cell(e1, e2, e3, e4);
  }

  lemma AdvanceStep(net: Network, globalStart: Vertex, w: Walk, m: int)
    requires NoOverload(net) && Advanced(net, globalStart, w, m) && !IsOver(globalStart, w)
    ensures m > 0
    ensures var p := Step(net, globalStart, w); p.Walking? ==> Advanced(net, globalStart, p.walk, m - 1)
  {
    var starts, guides, row, profiles :|
      OnTrack(net, globalStart, w, starts, guides, row, profiles) && Measure(net, starts, row) < m;
    MeasureIsNatural(net, starts, guides, row, profiles);
    TrackStep(net, globalStart, w, starts, guides, row, profiles);
    var p := Step(net, globalStart, w);
    if p.Walking? {
      AdvancedEarlier(net, globalStart, p.walk, Measure(net, starts, row), m - 1);
    }
  }

  lemma AdvancedEarlier(net: Network, globalStart: Vertex, w: Walk, m: int, m': int)
    requires Advanced(net, globalStart, w, m) && m <= m'
    ensures Advanced(net, globalStart, w, m')
  {
  }

  ghost predicate Descends(net: Network, globalStart: Vertex, inv: (Walk, int) -> bool, w: Walk, m: int) {
    var p := Step(net, globalStart, w);
    p.Walking? ==> m > 0 && inv(p.walk, m - 1)
  }

  /** A run ends if each turn takes one off a natural number. */
  lemma {:induction false} RunEnds(net: Network, globalStart: Vertex, inv: (Walk, int) -> bool, w: Walk, m: int,
                                   budget: nat)
    requires forall x, k :: inv(x, k) ==> Descends(net, globalStart, inv, x, k)
    requires inv(w, m) && m + 1 <= budget
    requires 0 < budget
    ensures Run(net, globalStart, w, budget).Stopped?
    decreases budget
  {
    var p := Step(net, globalStart, w);
    assert Descends(net, globalStart, inv, w, m);
    if p.Walking? {
      RunEnds(net, globalStart, inv, p.walk, m - 1, budget - 1);
    }
  }

  lemma MeasureIsNatural(net: Network, starts: seq<Vertex>, guides: seq<Edge>, row: seq<Vertex>, profiles: seq<Edge>)
    requires Chain(net, net.guides, starts, guides) && Chain(net, net.profiles, row, profiles)
    ensures Measure(net, starts, row) >= 0
  {
    ChainFits(net, net.guides, starts, guides);
    ChainFits(net, net.profiles, row, profiles);
  }

  lemma OverStops(net: Network, globalStart: Vertex, w: Walk)
    requires IsOver(globalStart, w)
    ensures Step(net, globalStart, w).Stopped?
  {
  }

  /** Turns after which the walk has stopped on every network without overloaded vertices. */
  function Bound(net: Network): nat {
    |net.around| * (|net.around| + 1) + 1
  }

  /** The walk ends, whatever network has passed the valence check, from wherever the start corner search lets it
      start. */
  lemma WalkTerminates(net: Network, start: Vertex, cells: seq<Cell>, budget: nat)
    requires NoOverload(net) && start in net.around && IsCorner(net, start) && Bound(net) <= budget
    ensures Run(net, start, InitialWalk(start, cells), budget).Stopped?
  {
    var e :| e in net.around[start] && e.first == start && e in net.profiles;
    assert Matches(e, net.profiles, Some(start), Leaving);
    var n := |net.around|;
    assert (n - 1) * (n + 1) == n * (n + 1) - (n + 1);
    assert Measure(net, [start], [start]) == (n - 1) * (n + 1) + n - 1;
    assert OnTrack(net, start, InitialWalk(start, cells), [start], [], [start], []);
    var inv := (w: Walk, m: int) => Advanced(net, start, w, m);
    forall w, m | inv(w, m)
      ensures Descends(net, start, inv, w, m)
    {
      if IsOver(start, w) {
        OverStops(net, start, w);
      } else {
        AdvanceStep(net, start, w, m);
      }
    }
    RunEnds(net, start, inv, InitialWalk(start, cells), Bound(net) - 1, budget);
  }

  /** The whole walk. */
  function Walked(net: Network, start: Vertex, cells: seq<Cell>): Progress {
    Run(net, start, InitialWalk(start, cells), Bound(net))
  }

  lemma {:induction false} RunLonger(net: Network, globalStart: Vertex, w: Walk, n: nat, m: nat)
    requires Run(net, globalStart, w, n).Stopped? && n <= m
    ensures Run(net, globalStart, w, m) == Run(net, globalStart, w, n)
    decreases n
  {
    if n > 0 {
      var p := Step(net, globalStart, w);
      if p.Walking? {
        RunLonger(net, globalStart, p.walk, n - 1, m - 1);
      }
    }
  }

  /** Any run that stops gives the whole walk. */
  lemma WalkedOnce(net: Network, start: Vertex, cells: seq<Cell>, budget: nat)
    requires NoOverload(net) && start in net.around && IsCorner(net, start)
    requires Run(net, start, InitialWalk(start, cells), budget).Stopped?
    ensures Walked(net, start, cells) == Run(net, start, InitialWalk(start, cells), budget)
  {
    WalkTerminates(net, start, cells, Bound(net));
    var longer := if budget < Bound(net) then Bound(net) else budget;
    RunLonger(net, start, InitialWalk(start, cells), budget, longer);
    RunLonger(net, start, InitialWalk(start, cells), Bound(net), longer);
  }
}
