/** Grouping edges into wires: two edges belong together if a path of edges with touching ends leads from one to the
    other. */
module ConnectedEdges {
  import opened Geometry

  datatype Edge = Edge(id: int, first: Point, last: Point)

  const CONFUSION: real := 1.0 / 10000000.0

  predicate Near(p: Point, q: Point) {
    SquareDistance(p, q) < CONFUSION * CONFUSION
  }

  predicate CheckCommonVertex(e: Edge, f: Edge) {
    Near(e.first, f.first) || Near(e.first, f.last) || Near(e.last, f.first) || Near(e.last, f.last)
  }

  lemma NearIsSymmetric(p: Point, q: Point)
    ensures Near(p, q) <==> Near(q, p)
  {
    SquareOfOpposite(p.x, q.x);
    SquareOfOpposite(p.y, q.y);
    SquareOfOpposite(p.z, q.z);
  }

  lemma CommonVertexIsSymmetric(e: Edge, f: Edge)
    ensures CheckCommonVertex(e, f) <==> CheckCommonVertex(f, e)
  {
    hide Near;
    NearIsSymmetric(e.first, f.first);
    NearIsSymmetric(e.first, f.last);
    NearIsSymmetric(e.last, f.first);
    NearIsSymmetric(e.last, f.last);
  }

  lemma CommonVertexIsReflexive(e: Edge)
    ensures CheckCommonVertex(e, e)
  {
  }

  /** Points are near exactly if their distance d is below the limit. */
  lemma NearByDistance(p: Point, q: Point, d: real)
    requires d >= 0.0 && Square(d) == SquareDistance(p, q)
    ensures Near(p, q) <==> d < CONFUSION
  {
    hide SquareDistance;
    assert Near(p, q) <==> Square(d) < Square(CONFUSION);
    hide Square;
    if d < CONFUSION {
      SquareGrows(d, CONFUSION);
    } else {
      SquareGrows(CONFUSION, d);
    }
  }

  /** The points where an edge ends, in no order. */
  function Ends(e: Edge): set<Point> {
    {e.first, e.last}
  }

  /** Edges touch exactly if some end of one is near some end of the other. */
  lemma TouchingEnds(e: Edge, f: Edge)
    ensures CheckCommonVertex(e, f) <==> exists p, q :: p in Ends(e) && q in Ends(f) && Near(p, q)
  {
    hide Near;
    assert forall p :: p in Ends(e) <==> p == e.first || p == e.last;
    assert forall q :: q in Ends(f) <==> q == f.first || q == f.last;
  }

  lemma SharedEnd(e: Edge, f: Edge, p: Point)
    requires p in Ends(e) && p in Ends(f)
    ensures CheckCommonVertex(e, f)
  {
    assert Near(p, p);
    TouchingEnds(e, f);
  }

  function Turned(e: Edge): Edge {
    e.(first := e.last, last := e.first)
  }

  /** It does not matter in which direction an edge runs. */
  lemma TurnedTouches(e: Edge, f: Edge)
    ensures CheckCommonVertex(Turned(e), f) <==> CheckCommonVertex(e, f)
    ensures CheckCommonVertex(e, Turned(f)) <==> CheckCommonVertex(e, f)
  {
    hide CheckCommonVertex;
    assert Ends(Turned(e)) == Ends(e) && Ends(Turned(f)) == Ends(f);
    TouchingEnds(e, f);
    TouchingEnds(Turned(e), f);
    TouchingEnds(e, Turned(f));
  }

  /** Each edge of the path touches the one before it, the first one touches e, and all are in the pool. */
  ghost predicate Path(e: Edge, path: seq<Edge>, pool: seq<Edge>) {
    && path != []
    && CheckCommonVertex(e, path[0])
    && (forall k :: 0 <= k < |path| ==> path[k] in pool)
    && (forall k :: 0 < k < |path| ==> CheckCommonVertex(path[k - 1], path[k]))
  }

  ghost predicate Reachable(e: Edge, f: Edge, pool: seq<Edge>) {
    exists path: seq<Edge> :: Path(e, path, pool) && path[|path| - 1] == f
  }

  lemma ReachableDirectly(e: Edge, f: Edge, pool: seq<Edge>)
    requires CheckCommonVertex(e, f) && f in pool
    ensures Reachable(e, f, pool)
  {
    assert Path(e, [f], pool);
  }

  lemma ReachableIsTransitive(e: Edge, f: Edge, g: Edge, pool: seq<Edge>)
    requires Reachable(e, f, pool) && Reachable(f, g, pool)
    ensures Reachable(e, g, pool)
  {
    hide CheckCommonVertex;
    var p: seq<Edge> :| Path(e, p, pool) && p[|p| - 1] == f;
    var q: seq<Edge> :| Path(f, q, pool) && q[|q| - 1] == g;
    assert Path(e, p + q, pool);
  }

  lemma ReachableIsSymmetric(e: Edge, f: Edge, pool: seq<Edge>)
    requires Reachable(e, f, pool) && e in pool
    ensures Reachable(f, e, pool)
  {
    hide CheckCommonVertex;
    var p: seq<Edge> :| Path(e, p, pool) && p[|p| - 1] == f;
    var q := seq(|p| + 1, k requires 0 <= k <= |p| => if k < |p| then p[|p| - 1 - k] else e);
    CommonVertexIsReflexive(f);
    forall k | 0 < k < |q|
      ensures CheckCommonVertex(q[k - 1], q[k])
    {
      CommonVertexIsSymmetric(q[k], q[k - 1]);
    }
    assert Path(f, q, pool);
  }

  lemma ReachableInLarger(e: Edge, f: Edge, part: seq<Edge>, pool: seq<Edge>)
    requires Reachable(e, f, part) && forall g :: g in part ==> g in pool
    ensures Reachable(e, f, pool)
  {
    hide CheckCommonVertex;
    var p: seq<Edge> :| Path(e, p, part) && p[|p| - 1] == f;
    assert Path(e, p, pool);
  }

  /** No edge of rest touches e. */
  ghost predicate Apart(e: Edge, rest: seq<Edge>) {
    forall f :: f in rest ==> !CheckCommonVertex(e, f)
  }

  /** The pool is split in two, and neither e nor an edge of moved touches an edge of rest. */
  ghost predicate IsSplit(e: Edge, pool: seq<Edge>, moved: seq<Edge>, rest: seq<Edge>) {
    && multiset(moved) + multiset(rest) == multiset(pool)
    && (forall f :: f in moved ==> Reachable(e, f, pool) && Apart(f, rest))
  }

  lemma SplitOfPool(e: Edge, pool: seq<Edge>, moved: seq<Edge>, rest: seq<Edge>, f: Edge)
    requires IsSplit(e, pool, moved, rest)
    ensures f in pool <==> f in moved || f in rest
  {
    assert f in pool <==> f in multiset(pool);
    assert f in moved <==> f in multiset(moved);
    assert f in rest <==> f in multiset(rest);
  }

  /** A path from e never enters the rest. */
  lemma {:induction false} PathStaysInMoved(e: Edge, pool: seq<Edge>, moved: seq<Edge>, rest: seq<Edge>,
                                            path: seq<Edge>, k: nat)
    requires IsSplit(e, pool, moved, rest) && Apart(e, rest) && Path(e, path, pool) && k < |path|
    ensures path[k] in moved && path[k] !in rest
  {
    hide CheckCommonVertex, Reachable, IsSplit;
    if k > 0 {
      PathStaysInMoved(e, pool, moved, rest, path, k - 1);
      ApartFromMoved(e, pool, moved, rest, path[k - 1]);
    }
    SplitOfPool(e, pool, moved, rest, path[k]);
  }

  lemma ApartFromMoved(e: Edge, pool: seq<Edge>, moved: seq<Edge>, rest: seq<Edge>, f: Edge)
    requires IsSplit(e, pool, moved, rest) && f in moved
    ensures Apart(f, rest) && Reachable(e, f, pool)
  {
  }

  /** The two parts of the pool are what can and what cannot be reached from e. */
  ghost predicate SplitsByReach(e: Edge, pool: seq<Edge>, moved: seq<Edge>, rest: seq<Edge>) {
    && multiset(moved) + multiset(rest) == multiset(pool)
    && forall f :: f in pool ==> (f in moved <==> Reachable(e, f, pool)) && (f in rest <==> !Reachable(e, f, pool))
  }

  lemma SplitIsByReach(e: Edge, pool: seq<Edge>, moved: seq<Edge>, rest: seq<Edge>)
    requires IsSplit(e, pool, moved, rest) && Apart(e, rest)
    ensures SplitsByReach(e, pool, moved, rest)
  {
    hide CheckCommonVertex, Path, Apart;
    forall f | f in pool
      ensures (f in moved <==> Reachable(e, f, pool)) && (f in rest <==> !Reachable(e, f, pool))
    {
      SplitOfPool(e, pool, moved, rest, f);
      if Reachable(e, f, pool) {
        var path := PathTo(e, f, pool);
        PathStaysInMoved(e, pool, moved, rest, path, |path| - 1);
      }
    }
  }

  lemma PathTo(e: Edge, f: Edge, pool: seq<Edge>) returns (path: seq<Edge>)
    requires Reachable(e, f, pool)
    ensures Path(e, path, pool) && path != [] && path[|path| - 1] == f
  {
    path :| Path(e, path, pool) && path[|path| - 1] == f;
  }

  lemma ReachSplitIsApart(e: Edge, pool: seq<Edge>, moved: seq<Edge>, rest: seq<Edge>)
    requires SplitsByReach(e, pool, moved, rest)
    ensures IsSplit(e, pool, moved, rest) && Apart(e, rest)
  {
    hide CheckCommonVertex, Reachable;
    assert forall f :: f in rest ==> f in multiset(pool);
    assert forall f :: f in moved ==> f in multiset(pool);
    forall f | f in rest
      ensures !CheckCommonVertex(e, f)
      ensures forall m :: m in moved ==> !CheckCommonVertex(m, f)
    {
      if CheckCommonVertex(e, f) {
        ReachableDirectly(e, f, pool);
      }
      forall m | m in moved
        ensures !CheckCommonVertex(m, f)
      {
        if CheckCommonVertex(m, f) {
          ReachableDirectly(m, f, pool);
          ReachableIsTransitive(e, m, f, pool);
        }
      }
    }
  }

  lemma Parts(pool: seq<Edge>, moved: seq<Edge>, rest: seq<Edge>)
    requires multiset(moved) + multiset(rest) == multiset(pool)
    ensures forall f :: f in pool <==> f in moved || f in rest
    ensures |rest| <= |pool|
  {
    assert forall f :: f in pool <==> f in multiset(pool);
    assert forall f :: f in moved <==> f in multiset(moved);
    assert forall f :: f in rest <==> f in multiset(rest);
    assert |multiset(moved) + multiset(rest)| == |multiset(moved)| + |multiset(rest)|;
  }

  function Without(s: seq<Edge>, i: nat): (r: seq<Edge>)
    requires i < |s|
    ensures |r| == |s| - 1 && multiset([s[i]]) + multiset(r) == multiset(s)
  {
    assert s == s[..i] + [s[i]] + s[i + 1..];
    s[..i] + s[i + 1..]
  }

  lemma ApartFromFewer(e: Edge, rest: seq<Edge>, fewer: seq<Edge>)
    requires Apart(e, rest) && forall f :: f in fewer ==> f in rest
    ensures Apart(e, fewer)
  {
  }

  /** One round of the search: the edge at index i touches e; it moves over together with all that is reachable from
      it. */
  lemma SplitGrows(e: Edge, pool: seq<Edge>, moved: seq<Edge>, rest: seq<Edge>, i: nat, found: seq<Edge>,
                   rest': seq<Edge>)
    requires IsSplit(e, pool, moved, rest)
    requires i < |rest| && CheckCommonVertex(e, rest[i])
    requires SplitsByReach(rest[i], Without(rest, i), found, rest')
    ensures IsSplit(e, pool, moved + [rest[i]] + found, rest')
  {
    hide CheckCommonVertex, Reachable, Apart, Without;
    var c, left := rest[i], Without(rest, i);
    ReachSplitIsApart(c, left, found, rest');
    var moved' := moved + [c] + found;
    Parts(rest, [c], left);
    Parts(left, found, rest');
    Parts(pool, moved, rest);
    ReachableDirectly(e, c, pool);
    forall f | f in moved'
      ensures Reachable(e, f, pool) && Apart(f, rest')
    {
      if f in found {
        ReachableInLarger(c, f, left, pool);
        ReachableIsTransitive(e, c, f, pool);
      } else if f in moved {
        ApartFromFewer(f, rest, rest');
      }
    }
  }

  class EdgeList {
    var items: seq<Edge>

    constructor ()
      ensures items == []
    {
      items := [];
    }

    method Append(e: Edge)
      modifies this
      ensures items == old(items) + [e]
    {
      items := items + [e];
    }

    method Remove(i: nat)
      requires i < |items|
      modifies this
      ensures items == Without(old(items), i)
    {
      items := items[..i] + items[i + 1..];
    }
  }

  /** Index of the first edge that touches e, or the length of the list. */
  method FindConnected(e: Edge, edges: seq<Edge>) returns (i: nat)
    ensures i <= |edges|
    ensures i < |edges| ==> CheckCommonVertex(e, edges[i]) && Apart(e, edges[..i])
    ensures i == |edges| ==> Apart(e, edges)
  {
    hide CheckCommonVertex;
    i := 0;
    while i < |edges|
      invariant i <= |edges|
      invariant Apart(e, edges[..i])
    {
      if CheckCommonVertex(e, edges[i]) {
        return;
      }
      i := i + 1;
    }
    assert edges[..i] == edges;
  }

  /** Moves exactly the edges that are reachable from e within the list over to the end of the target list. */
  method FindAllConnectedEdges(e: Edge, edgeList: EdgeList, targetList: EdgeList)
    requires edgeList != targetList
    modifies edgeList, targetList
    ensures old(targetList.items) <= targetList.items
    ensures SplitsByReach(e, old(edgeList.items), targetList.items[|old(targetList.items)|..], edgeList.items)
    decreases |edgeList.items|
  {
    hide *;
    ghost var pool, target := edgeList.items, targetList.items;
    ghost var moved := [];
    NothingMoved(e, pool);
    var finished := false;
    while !finished
      invariant targetList.items == target + moved && |edgeList.items| <= |pool|
      invariant IsSplit(e, pool, moved, edgeList.items)
      invariant finished ==> Apart(e, edgeList.items)
      decreases |edgeList.items|, if finished then 0 else 1
    {
      var i := FindConnected(e, edgeList.items);
      if i < |edgeList.items| {
        ghost var rest := edgeList.items;
        var connected := edgeList.items[i];
        edgeList.Remove(i);
        targetList.Append(connected);
        ghost var before := targetList.items;
        FindAllConnectedEdges(connected, edgeList, targetList);
        ghost var found := targetList.items[|before|..];
        SplitGrows(e, pool, moved, rest, i, found, edgeList.items);
        FewerLeft(connected, Without(rest, i), found, edgeList.items);
        moved := moved + [connected] + found;
      } else {
        finished := true;
      }
    }
    SplitIsByReach(e, pool, moved, edgeList.items);
  }

  lemma NothingMoved(e: Edge, pool: seq<Edge>)
    ensures IsSplit(e, pool, [], pool)
  {
  }

  lemma FewerLeft(e: Edge, pool: seq<Edge>, moved: seq<Edge>, rest: seq<Edge>)
    requires SplitsByReach(e, pool, moved, rest)
    ensures |rest| <= |pool|
  {
    Parts(pool, moved, rest);
  }

  ghost function Content(groups: seq<seq<Edge>>): multiset<Edge> {
    if groups == [] then multiset{} else Content(groups[..|groups| - 1]) + multiset(groups[|groups| - 1])
  }

  /** The groups are a partition of the edges into connected components. */
  ghost predicate AreComponents(groups: seq<seq<Edge>>, edges: seq<Edge>) {
    && Content(groups) == multiset(edges)
    && (forall i :: 0 <= i < |groups| ==> groups[i] != [])
    && (forall i, j, e, f :: 0 <= i < |groups| && 0 <= j < |groups| && e in groups[i] && f in groups[j] ==>
          (Reachable(e, f, edges) <==> i == j))
  }

  /** Groups found so far: each is reachable from its first edge and apart from all that comes later. */
  ghost predicate AreGroups(groups: seq<seq<Edge>>, rest: seq<Edge>, edges: seq<Edge>) {
    && Content(groups) + multiset(rest) == multiset(edges)
    && (forall i :: 0 <= i < |groups| ==> groups[i] != [] && ReachesAll(groups[i], edges))
    && (forall i, e :: 0 <= i < |groups| && e in groups[i] ==> Apart(e, rest))
    && (forall i, j, e :: 0 <= i < j < |groups| && e in groups[i] ==> Apart(e, groups[j]))
  }

  ghost predicate ReachesAll(group: seq<Edge>, edges: seq<Edge>)
    requires group != []
  {
    forall f :: f in group ==> Reachable(group[0], f, edges)
  }

  lemma GroupsGrow(groups: seq<seq<Edge>>, rest: seq<Edge>, edges: seq<Edge>, found: seq<Edge>, rest': seq<Edge>)
    requires rest != [] && AreGroups(groups, rest, edges)
    requires SplitsByReach(rest[0], rest[1..], found, rest')
    ensures AreGroups(groups + [[rest[0]] + found], rest', edges)
  {
    hide CheckCommonVertex, Reachable, ReachesAll, Apart, Content, SplitsByReach;
    var e, group := rest[0], [rest[0]] + found;
    var groups' := groups + [group];
    NewGroup(rest, found, rest');
    AddToContent(groups, group);
    NewGroupIsReached(groups, rest, edges, found, rest');
    forall i, f | 0 <= i < |groups'| && f in groups'[i]
      ensures Apart(f, rest')
    {
      if i < |groups| {
        ApartFromFewer(f, rest, rest');
      }
    }
    forall i, j, f | 0 <= i < j < |groups'| && f in groups'[i]
      ensures Apart(f, groups'[j])
    {
      if j == |groups| {
        ApartFromFewer(f, rest, group);
      }
    }
  }

  lemma AddToContent(groups: seq<seq<Edge>>, group: seq<Edge>)
    ensures Content(groups + [group]) == Content(groups) + multiset(group)
  {
    assert (groups + [group])[..|groups|] == groups;
  }

  lemma NewGroup(rest: seq<Edge>, found: seq<Edge>, rest': seq<Edge>)
    requires rest != [] && SplitsByReach(rest[0], rest[1..], found, rest')
    ensures multiset([rest[0]] + found) + multiset(rest') == multiset(rest)
    ensures forall f :: f in found || f in rest' ==> f in rest
    ensures forall f :: f in [rest[0]] + found ==> Apart(f, rest')
  {
    hide CheckCommonVertex, Reachable, Apart;
    assert rest == [rest[0]] + rest[1..];
    Parts(rest[1..], found, rest');
    ReachSplitIsApart(rest[0], rest[1..], found, rest');
  }

  lemma NewGroupIsReached(groups: seq<seq<Edge>>, rest: seq<Edge>, edges: seq<Edge>, found: seq<Edge>, rest': seq<Edge>)
    requires rest != [] && AreGroups(groups, rest, edges)
    requires SplitsByReach(rest[0], rest[1..], found, rest')
    ensures ReachesAll([rest[0]] + found, edges)
  {
    hide CheckCommonVertex, Reachable, Apart, Content;
    var e := rest[0];
    forall f | f in rest
      ensures f in edges
    {
      assert f in multiset(rest);
      assert f in multiset(edges);
    }
    assert forall f :: f in rest[1..] ==> f in rest;
    Parts(rest[1..], found, rest');
    forall f | f in [e] + found
      ensures Reachable(e, f, edges)
    {
      if f in found {
        ReachableInLarger(e, f, rest[1..], edges);
      } else {
        CommonVertexIsReflexive(e);
        ReachableDirectly(e, f, edges);
      }
    }
  }

  lemma {:induction false} GroupOf(groups: seq<seq<Edge>>, e: Edge) returns (i: nat)
    requires e in Content(groups)
    ensures i < |groups| && e in groups[i]
  {
    var n := |groups| - 1;
    if e in multiset(groups[n]) {
      i := n;
    } else {
      i := GroupOf(groups[..n], e);
    }
  }

  lemma {:induction false} InContent(groups: seq<seq<Edge>>, i: nat, e: Edge)
    requires i < |groups| && e in groups[i]
    ensures e in Content(groups)
  {
    var n := |groups| - 1;
    if i < n {
      InContent(groups[..n], i, e);
    } else {
      assert e in multiset(groups[n]);
    }
  }

  lemma TouchingInOneGroup(groups: seq<seq<Edge>>, edges: seq<Edge>, i: nat, j: nat, e: Edge, f: Edge)
    requires AreGroups(groups, [], edges) && i < |groups| && j < |groups| && e in groups[i] && f in groups[j]
    requires CheckCommonVertex(e, f)
    ensures i == j
  {
    hide CheckCommonVertex, Reachable, Content, ReachesAll;
    CommonVertexIsSymmetric(e, f);
    assert i < j ==> Apart(e, groups[j]);
    assert j < i ==> Apart(f, groups[i]);
  }

  lemma {:induction false} PathStaysInGroup(groups: seq<seq<Edge>>, edges: seq<Edge>, i: nat, e: Edge, path: seq<Edge>,
                                            k: nat)
    requires AreGroups(groups, [], edges) && i < |groups| && e in groups[i] && Path(e, path, edges) && k < |path|
    ensures path[k] in groups[i]
  {
    hide CheckCommonVertex, Reachable, Content, ReachesAll;
    var before := if k == 0 then e else path[k - 1];
    if k > 0 {
      PathStaysInGroup(groups, edges, i, e, path, k - 1);
    }
    assert path[k] in multiset(edges);
    var j := GroupOf(groups, path[k]);
    TouchingInOneGroup(groups, edges, i, j, before, path[k]);
  }

  lemma GroupsAreDisjoint(groups: seq<seq<Edge>>, edges: seq<Edge>, i: nat, j: nat, e: Edge)
    requires AreGroups(groups, [], edges) && i < |groups| && j < |groups| && e in groups[i] && e in groups[j]
    ensures i == j
  {
    hide CheckCommonVertex, AreGroups;
    CommonVertexIsReflexive(e);
    TouchingInOneGroup(groups, edges, i, j, e, e);
  }

  lemma GroupsAreComponents(groups: seq<seq<Edge>>, edges: seq<Edge>)
    requires AreGroups(groups, [], edges)
    ensures AreComponents(groups, edges)
  {
    hide CheckCommonVertex, Path, Content;
    forall i, j, e, f | 0 <= i < |groups| && 0 <= j < |groups| && e in groups[i] && f in groups[j]
      ensures Reachable(e, f, edges) <==> i == j
    {
      if Reachable(e, f, edges) {
        var path := PathTo(e, f, edges);
        PathStaysInGroup(groups, edges, i, e, path, |path| - 1);
        GroupsAreDisjoint(groups, edges, i, j, f);
      }
      if i == j {
        var head := groups[i][0];
        assert ReachesAll(groups[i], edges);
        InContent(groups, i, head);
        assert head in multiset(edges);
        ReachableIsSymmetric(head, e, edges);
        ReachableIsTransitive(e, head, f, edges);
      }
    }
  }

  /** The edges of each wire, in the order the wires are built. */
  method GroupConnectedEdges(edges: seq<Edge>) returns (groups: seq<seq<Edge>>)
    ensures AreComponents(groups, edges)
  {
    hide *;
    var edgeList := new EdgeList();
    edgeList.items := edges;
    groups := [];
    NoGroups(edges);
    while |edgeList.items| > 0
      invariant fresh(edgeList)
      invariant AreGroups(groups, edgeList.items, edges)
      decreases |edgeList.items|
    {
      ghost var rest := edgeList.items;
      var e1 := edgeList.items[0];
      edgeList.items := edgeList.items[1..];
      var wireEdges := new EdgeList();
      wireEdges.Append(e1);
      FindAllConnectedEdges(e1, edgeList, wireEdges);
      ghost var found := wireEdges.items[1..];
      assert wireEdges.items == [e1] + found;
      FewerLeft(e1, rest[1..], found, edgeList.items);
      GroupsGrow(groups, rest, edges, found, edgeList.items);
      groups := groups + [wireEdges.items];
    }
    assert edgeList.items == [];
    GroupsAreComponents(groups, edges);
  }

  lemma NoGroups(edges: seq<Edge>)
    ensures AreGroups([], edges, edges)
  {
  }

  /** Each edge shares an end with the one before it, whichever way the two run. */
  ghost predicate IsPolyline(line: seq<Edge>) {
    forall i :: 0 < i < |line| ==> Follows(line, i)
  }

  ghost predicate Follows(line: seq<Edge>, i: nat)
    requires 0 < i < |line|
  {
    exists p :: p in Ends(line[i - 1]) && p in Ends(line[i])
  }

  lemma {:induction false} ReachedAlong(line: seq<Edge>, pool: seq<Edge>, i: nat, j: nat)
    requires IsPolyline(line) && i <= j < |line| && forall k :: 0 <= k < |line| ==> line[k] in pool
    ensures Reachable(line[i], line[j], pool)
  {
    hide CheckCommonVertex, Reachable, Ends;
    if i < j {
      ReachedAlong(line, pool, i, j - 1);
      assert Follows(line, j);
      var p :| p in Ends(line[j - 1]) && p in Ends(line[j]);
      SharedEnd(line[j - 1], line[j], p);
      ReachableDirectly(line[j - 1], line[j], pool);
      ReachableIsTransitive(line[i], line[j - 1], line[j], pool);
    } else {
      CommonVertexIsReflexive(line[i]);
      ReachableDirectly(line[i], line[i], pool);
    }
  }

  lemma InPolyline(line: seq<Edge>, edges: seq<Edge>, groups: seq<seq<Edge>>, i: nat)
    returns (k: nat)
    requires multiset(line) == multiset(edges) && AreComponents(groups, edges) && i < |groups|
    ensures groups[i] != [] && k < |line| && line[k] == groups[i][0]
  {
    InContent(groups, i, groups[i][0]);
    assert groups[i][0] in multiset(line);
    k :| k < |line| && line[k] == groups[i][0];
  }

  lemma SameGroup(line: seq<Edge>, edges: seq<Edge>, groups: seq<seq<Edge>>, i: nat, j: nat)
    requires IsPolyline(line) && multiset(line) == multiset(edges) && AreComponents(groups, edges)
    requires i < |groups| && j < |groups|
    ensures i == j
  {
    hide Reachable, Follows, IsPolyline, Content;
    forall k | 0 <= k < |line|
      ensures line[k] in edges
    {
      assert line[k] in multiset(line);
      assert line[k] in multiset(edges);
    }
    var m := InPolyline(line, edges, groups, i);
    var n := InPolyline(line, edges, groups, j);
    if m <= n {
      ReachedAlong(line, edges, m, n);
    } else {
      ReachedAlong(line, edges, n, m);
    }
  }

  /** The edges of a polyline, given in any order, form a single group. */
  lemma PolylineIsOneGroup(line: seq<Edge>, edges: seq<Edge>, groups: seq<seq<Edge>>)
    requires line != [] && IsPolyline(line) && multiset(line) == multiset(edges) && AreComponents(groups, edges)
    ensures |groups| == 1 && multiset(groups[0]) == multiset(edges)
  {
    hide Reachable, IsPolyline;
    assert line[0] in Content(groups);
    if |groups| > 1 {
      SameGroup(line, edges, groups, 0, 1);
    } else {
      AddToContent([], groups[0]);
      assert [] + [groups[0]] == groups;
    }
  }

  /** An edge that touches no other edge is alone in its group. */
  lemma ApartIsAlone(edges: seq<Edge>, groups: seq<seq<Edge>>, i: nat, e: Edge, f: Edge)
    requires AreComponents(groups, edges) && i < |groups| && e in groups[i] && f in groups[i]
    requires forall g :: g in edges && g != e ==> !CheckCommonVertex(e, g)
    ensures f == e
  {
    hide CheckCommonVertex;
    var path := PathTo(e, f, edges);
    AlonePath(edges, e, path, |path| - 1);
  }

  lemma {:induction false} AlonePath(edges: seq<Edge>, e: Edge, path: seq<Edge>, k: nat)
    requires forall g :: g in edges && g != e ==> !CheckCommonVertex(e, g)
    requires Path(e, path, edges) && k < |path|
    ensures path[k] == e
  {
    hide CheckCommonVertex;
    if k > 0 {
      AlonePath(edges, e, path, k - 1);
    }
  }
}
