/** The object that runs the patch walk and stores its cells in a grid. */
module MakeLoops {
  import opened Wrappers
  import opened PatchWalk
  import opened WalkTermination

  datatype Exit = Returned | OutOfRange

  class Looper {
    const net: Network
    var status: Status
    var cells: seq<Cell>
    var cellGrid: array2?<Cell>

    constructor (net: Network)
      ensures this.net == net && cells == [] && status == OK && cellGrid == null
    {
      this.net := net;
      status, cells, cellGrid := OK, [], null;
    }

    method FindEdge(corner: Option<Vertex>, kind: set<Edge>, dir: Direction) returns (e: Option<Edge>)
      ensures e == FirstMatch(net.Around(corner), kind, corner, dir)
    {
      var es := net.Around(corner);
      e := None;
      for k := 0 to |es|
        invariant FirstMatch(es, kind, corner, dir) == FirstMatch(es[k..], kind, corner, dir)
        invariant e.None?
      {
        if Matches(es[k], kind, corner, dir) {
          e := Some(es[k]);
          return;
        }
      }
    }

    method CheckValence() returns (ok: bool)
      requires net.KeysValid()
      ensures ok <==> forall u :: u in net.keys ==> !Overloaded(net, u)
    {
      for i := 0 to |net.keys|
        invariant forall m :: 0 <= m < i ==> !Overloaded(net, net.keys[m])
      {
        var es := net.around[net.keys[i]];
        var nProfiles, nGuides := 0, 0;
        for k := 0 to |es|
          invariant CountIn(es, net.profiles) == nProfiles + CountIn(es[k..], net.profiles)
          invariant CountIn(es, net.guides) == nGuides + CountIn(es[k..], net.guides)
        {
          if es[k] in net.profiles {
            nProfiles := nProfiles + 1;
          }
          if es[k] in net.guides {
            nGuides := nGuides + 1;
          }
        }
        assert es[|es|..] == [];
        if nGuides > 2 || nProfiles > 2 {
          assert Overloaded(net, net.keys[i]);
          return false;
        }
      }
      return true;
    }

    method MinExtent() returns (n: nat)
      requires net.KeysValid() && net.keys != []
      ensures IsMinExtent(net, n)
    {
      n := |net.around[net.keys[0]]|;
      for i := 1 to |net.keys|
        invariant exists v :: v in net.keys && n == |net.around[v]|
        invariant forall m :: 0 <= m < i ==> n <= |net.around[net.keys[m]]|
      {
        if |net.around[net.keys[i]]| < n {
          n := |net.around[net.keys[i]]|;
        }
      }
    }

    method FindStartCorner() returns (start: Option<Vertex>)
      requires net.KeysValid() && net.keys != []
      ensures start.Some? ==> IsStartCorner(net, start.value)
      ensures start.None? ==> forall v :: !IsStartCorner(net, v)
    {
      var minExtent := MinExtent();
      for i := 0 to |net.keys|
        invariant forall m :: 0 <= m < i ==> !Startable(net, m)
      {
        var v := net.keys[i];
        if |net.around[v]| == minExtent {
          var es := net.around[v];
          var forwardSection, forwardGuide := false, false;
          for k := 0 to |es|
            invariant forwardSection <==> exists e :: e in es[..k] && e.first == v && e in net.profiles
            invariant forwardGuide <==> exists e :: e in es[..k] && e.first == v && e !in net.profiles
          {
            assert es[..k + 1] == es[..k] + [es[k]];
            if es[k].first == v {
              if es[k] in net.profiles {
                forwardSection := true;
              } else {
                forwardGuide := true;
              }
            }
          }
          assert es[..|es|] == es;
          if forwardSection && forwardGuide {
            assert Startable(net, i);
            return Some(v);
          }
        }
      }
      return None;
    }

    /** The walk proper. */
    method WalkPatches(globalStart: Vertex) returns (rowLength: nat)
      requires NoOverload(net) && globalStart in net.around && IsCorner(net, globalStart) && status == OK
      modifies this`cells, this`status
      ensures Stopped(cells, rowLength, status) == Walked(net, globalStart, old(cells))
    {
      hide Run, Walked, FirstMatch, NoOverload, IsCorner, Bound;
      WalkTerminates(net, globalStart, cells, Bound(net));
      WalkedOnce(net, globalStart, cells, Bound(net));
      var next, start, nextStart := Some(globalStart), Some(globalStart), None;
      var firstRow := true;
      rowLength := 0;
      ghost var left := Bound(net);
      ghost var goal := Walked(net, globalStart, cells);
      while true
        invariant status == OK && goal.Stopped?
        invariant Run(net, globalStart, Walk(next, start, nextStart, firstRow, rowLength, cells), left) == goal
        decreases left
      {
        ghost var before := Walk(next, start, nextStart, firstRow, rowLength, cells);
        RunUnfolds(net, globalStart, before, left);
        left := left - 1;
        var corner := next;
        if !firstRow && corner == Some(globalStart) {
          return;
        }
        var e1 := FindEdge(corner, net.profiles, Leaving);
        if e1.None? {
          if nextStart.None? {
            status := FailFirstEdge;
            return;
          }
          start, next := nextStart, nextStart;
          if firstRow {
            rowLength := |cells|;
            firstRow := false;
          }
          assert Step(net, globalStart, before) == Walking(Walk(next, start, nextStart, firstRow, rowLength, cells));
          continue;
        }
        var cur := e1.value.last;
        next := Some(cur);
        var e2 := FindEdge(Some(cur), net.guides, Leaving);
        if e2.None? {
          if cells == [] {
            status := FailSecondEdge;
          }
          return;
        }
        cur := e2.value.last;
        if next == start {
          start, next := Some(cur), Some(cur);
        }
        var e3 := FindEdge(Some(cur), net.profiles, Entering);
        if e3.None? {
          if cells == [] {
            status := FailThirdEdge;
          }
          return;
        }
        cur := e3.value.first;
        if corner == start {
          nextStart := Some(cur);
        }
        var e4 := FindEdge(Some(cur), net.guides, Entering);
        if e4.None? {
          if cells == [] {
            status := FailFourthEdge;
          }
          return;
        }
        cells := cells + [Cell(e1.value, e2.value, e3.value, e4.value)];
        if e4.value.first != e1.value.first {
          status := FailFourthEdge;
          return;
        }
        if next == start {
          start, next := nextStart, nextStart;
          if firstRow {
            rowLength := |cells|;
            firstRow := false;
          }
        }
        assert Step(net, globalStart, before) == Walking(Walk(next, start, nextStart, firstRow, rowLength, cells));
      }
    }

    /** Writes the cells into a grid, row by row; a partial last row is out of range. */
    method FillGrid(rowLength: nat) returns (inRange: bool)
      requires rowLength > 0
      modifies this`cellGrid
      ensures inRange <==> |cells| % rowLength == 0
      ensures fresh(cellGrid) && HoldsRows(cellGrid, cells, rowLength)
    {
      var colLength := |cells| / rowLength;
      cellGrid := new Cell[colLength, rowLength];
      LastCell(|cells|, rowLength, colLength, |cells| % rowLength);
      inRange := FillRows(cellGrid);
    }

    method FillRows(grid: array2<Cell>) returns (inRange: bool)
      requires grid.Length1 > 0
      requires RowMajor(grid.Length0, 0, grid.Length1) <= |cells|
      modifies grid
      ensures inRange <==> |cells| == RowMajor(grid.Length0, 0, grid.Length1)
      ensures forall i, j :: 0 <= i < grid.Length0 && 0 <= j < grid.Length1 ==>
                RowMajor(i, j, grid.Length1) < |cells| && grid[i, j] == cells[RowMajor(i, j, grid.Length1)]
    {
      var colLength, rowLength := grid.Length0, grid.Length1;
      var i, j := 0, 0;
      for k := 0 to |cells|
        invariant 0 <= i <= colLength && 0 <= j < rowLength && k == RowMajor(i, j, rowLength)
        invariant i == colLength ==> j == 0
        invariant Filled(grid, cells, k)
      {
        if i == colLength {
          RowsFit(rowLength, colLength);
          return false;
        }
        NextRowMajor(i, j, rowLength);
        grid[i, j] := cells[k];
        assert Filled(grid, cells, k + 1) by {
          RowMajorInjective(i, j, rowLength);
        }
        j := j + 1;
        if j >= rowLength {
          i := i + 1;
          j := 0;
        }
      }
      RowsFit(rowLength, colLength);
      return true;
    }

    /** The whole algorithm. */
    method Perform() returns (exit: Exit)
      requires net.Valid() && status == OK
      modifies this
      ensures net.keys == [] ==> exit == Returned && status == FailNoData && cells == old(cells)
      ensures net.keys != [] && (exists u :: u in net.keys && Overloaded(net, u)) ==>
                exit == Returned && status == Fail && cells == old(cells)
      ensures net.keys != [] && (forall u :: u in net.keys ==> !Overloaded(net, u))
              && (forall v :: !IsStartCorner(net, v)) ==>
                exit == Returned && status == FailStartingPoint && cells == old(cells)
      ensures forall v :: StartsAt(net, v) ==> (
                var p := Walked(net, v, old(cells));
                && p.Stopped? && cells == p.cells
                && status == (if p.rowLength == 0 then Fail else p.status)
                && (exit == if p.rowLength > 0 && |cells| % p.rowLength != 0 then OutOfRange else Returned)
                && (p.rowLength > 0 ==> HoldsRows(cellGrid, cells, p.rowLength)))
      ensures status != FailSecondEdge && status != FailThirdEdge
      ensures status == FailFourthEdge ==> cells != [] && !IsLoop(net, cells[|cells| - 1])
    {
      if net.keys == [] {
        status := FailNoData;
        return Returned;
      }
      var ok := CheckValence();
      if !ok {
        status := Fail;
        return Returned;
      }
      var start := FindStartCorner();
      if start.None? {
        status := FailStartingPoint;
        return Returned;
      }
      StartCornerUnique(net, start.value);
      OnlySomeFailures(net, start.value, InitialWalk(start.value, cells), Bound(net));
      var rowLength := WalkPatches(start.value);
      if rowLength == 0 {
        status := Fail;
        return Returned;
      }
      var inRange := FillGrid(rowLength);
      exit := if inRange then Returned else OutOfRange;
    }
  }

  /** The grid has all full rows of that length that the cells make up, and holds the cells row by row. */
  ghost predicate HoldsRows(grid: array2?<Cell>, cells: seq<Cell>, rowLength: nat)
    requires rowLength > 0
    reads grid
  {
    && grid != null
    && grid.Length0 == |cells| / rowLength
    && grid.Length1 == rowLength
    && forall i, j :: 0 <= i < grid.Length0 && 0 <= j < rowLength ==>
         RowMajor(i, j, rowLength) < |cells| && grid[i, j] == cells[RowMajor(i, j, rowLength)]
  }

  lemma StartCornerUnique(net: Network, v: Vertex)
    requires net.KeysValid() && IsStartCorner(net, v)
    ensures forall u :: IsStartCorner(net, u) ==> u == v
  {
    var k :| 0 <= k < |net.keys| && net.keys[k] == v && Startable(net, k)
             && forall m :: 0 <= m < k ==> !Startable(net, m);
    forall u | IsStartCorner(net, u)
      ensures u == v
    {
      var n :| 0 <= n < |net.keys| && net.keys[n] == u && Startable(net, n)
               && forall m :: 0 <= m < n ==> !Startable(net, m);
      assert n == k;
    }
  }

  /** The first k cells are in their places. */
  ghost predicate Filled(grid: array2<Cell>, cells: seq<Cell>, k: int)
    requires k <= |cells|
    reads grid
  {
    forall r, c :: 0 <= r < grid.Length0 && 0 <= c < grid.Length1 && RowMajor(r, c, grid.Length1) < k ==>
      grid[r, c] == cells[RowMajor(r, c, grid.Length1)]
  }

  function RowMajor(i: nat, j: nat, rowLength: nat): nat {
    if i == 0 then j else RowMajor(i - 1, j, rowLength) + rowLength
  }

  lemma {:induction false} RowMajorIsLinear(i: nat, j: nat, rowLength: nat)
    ensures RowMajor(i, j, rowLength) == i * rowLength + j
  {
    if i > 0 {
      RowMajorIsLinear(i - 1, j, rowLength);
      assert i * rowLength == (i - 1) * rowLength + rowLength;
    }
  }

  lemma Division(n: nat, d: nat)
    requires d > 0
    ensures n == (n / d) * d + n % d
  {
  }

  lemma MulMonotone(a: nat, b: nat, d: nat)
    requires a <= b
    ensures a * d <= b * d
  {
  }

  lemma QuotientUnique(d: nat, p: nat, q: nat, r: nat, s: nat)
    requires r < d && s < d && p * d + r == q * d + s
    ensures p == q && r == s
  {
    if p < q {
      MulMonotone(p + 1, q, d);
    } else if q < p {
      MulMonotone(q + 1, p, d);
    }
  }

  lemma DivisionUnique(n: nat, d: nat, q: nat, r: nat)
    requires r < d && n == RowMajor(q, r, d)
    ensures n / d == q && n % d == r
  {
    RowMajorIsLinear(q, r, d);
    Division(n, d);
    QuotientUnique(d, n / d, q, n % d, r);
  }

  lemma NextRowMajor(i: nat, j: nat, rowLength: nat)
    ensures RowMajor(i, j + 1, rowLength) == RowMajor(i, j, rowLength) + 1
    ensures RowMajor(i + 1, 0, rowLength) == RowMajor(i, rowLength, rowLength)
  {
    RowMajorIsLinear(i, j, rowLength);
    RowMajorIsLinear(i, j + 1, rowLength);
    RowMajorIsLinear(i, 0, rowLength);
    RowMajorIsLinear(i, rowLength, rowLength);
  }

  lemma RowMajorInjective(i: nat, j: nat, rowLength: nat)
    requires j < rowLength
    ensures forall r: nat, c: nat :: c < rowLength && RowMajor(r, c, rowLength) == RowMajor(i, j, rowLength) ==>
            r == i && c == j
  {
    forall r: nat, c: nat | c < rowLength && RowMajor(r, c, rowLength) == RowMajor(i, j, rowLength)
      ensures r == i && c == j
    {
      RowMajorIsLinear(i, j, rowLength);
      RowMajorIsLinear(r, c, rowLength);
      QuotientUnique(rowLength, r, i, c, j);
    }
  }

  lemma RowsFit(rowLength: nat, rows: nat)
    ensures forall r: nat, c: nat :: r < rows && c < rowLength ==>
              RowMajor(r, c, rowLength) < RowMajor(rows, 0, rowLength)
  {
    forall r: nat, c: nat | r < rows && c < rowLength
      ensures RowMajor(r, c, rowLength) < RowMajor(rows, 0, rowLength)
    {
      RowMajorIsLinear(r, c, rowLength);
      RowMajorIsLinear(rows, 0, rowLength);
      MulMonotone(r + 1, rows, rowLength);
    }
  }

  lemma LastCell(n: nat, d: nat, q: nat, r: nat)
    requires d > 0 && q == n / d && r == n % d
    ensures n == RowMajor(q, 0, d) + r
  {
    RowMajorIsLinear(q, 0, d);
    Division(n, d);
  }
}
