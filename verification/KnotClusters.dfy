/** When several splines get the same knots although knots within a tolerance of each other are taken for one. */
module KnotClusters {
  import opened CompatibleKnots
  import opened Wrappers

  /** The knots ascend by more than d, and each of them counts. */
  ghost predicate Spread(s: seq<Knot>, d: real) {
    s == [] || (s[0].mult > 0 && (forall x :: x in Values(s[1..]) ==> s[0].u + d < x) && Spread(s[1..], d))
  }

  /** The knots of a spline. */
  ghost predicate Valid(s: seq<Knot>) {
    Spread(s, 0.0)
  }

  ghost predicate HasClose(us: set<real>, u: real, tol: real) {
    exists x :: x in us && Close(x, u, tol)
  }

  lemma ValuesOf(s: seq<Knot>)
    ensures s != [] ==> Values(s) == {s[0].u} + Values(s[1..])
    ensures forall i :: 0 <= i < |s| ==> s[i].u in Values(s)
  {
  }

  lemma {:induction false} SpreadLess(s: seq<Knot>, d: real, e: real)
    requires Spread(s, d) && e <= d
    ensures Spread(s, e)
  {
    if s != [] {
      SpreadLess(s[1..], d, e);
    }
  }

  // Numbers of knots.

  /** An insertion adds a knot exactly if there is none within the tolerance. */
  lemma {:induction false} InsertGrows(s: seq<Knot>, u: real, m: nat, tol: real)
    requires Spread(s, tol) && m > 0 && tol >= 0.0
    ensures var r := Insert(s, u, m, tol);
            && Spread(r, tol)
            && Values(r) == (if HasClose(Values(s), u, tol) then Values(s) else Values(s) + {u})
            && |r| == |s| + if HasClose(Values(s), u, tol) then 0 else 1
  {
    var r := Insert(s, u, m, tol);
    ValuesOf(s);
    ValuesOf(r);
    if s != [] {
      if Close(s[0].u, u, tol) {
        assert r[1..] == s[1..];
      } else if u < s[0].u {
        assert r[1..] == s;
      } else {
        InsertGrows(s[1..], u, m, tol);
        assert r[1..] == Insert(s[1..], u, m, tol);
        assert HasClose(Values(s), u, tol) <==> HasClose(Values(s[1..]), u, tol);
      }
    }
  }

  /** How many knots of t have one of the values within the tolerance. */
  ghost function NumberClose(t: seq<Knot>, us: set<real>, tol: real): nat {
    if t == [] then 0 else (if HasClose(us, t[0].u, tol) then 1 else 0) + NumberClose(t[1..], us, tol)
  }

  lemma {:induction false} SameNumberClose(t: seq<Knot>, us: set<real>, vs: set<real>, tol: real)
    requires forall x :: x in Values(t) ==> (HasClose(us, x, tol) <==> HasClose(vs, x, tol))
    ensures NumberClose(t, us, tol) == NumberClose(t, vs, tol)
  {
    ValuesOf(t);
    if t != [] {
      SameNumberClose(t[1..], us, vs, tol);
    }
  }

  lemma {:induction false} InsertAllGrows(s: seq<Knot>, t: seq<Knot>, tol: real)
    requires Spread(s, tol) && Spread(t, tol) && tol >= 0.0
    ensures var r := InsertAll(s, t, tol);
            && Spread(r, tol) && Values(s) <= Values(r) <= Values(s) + Values(t)
            && |r| + NumberClose(t, Values(s), tol) == |s| + |t|
    decreases |t|
  {
    ValuesOf(t);
    if t != [] {
      var s' := Insert(s, t[0].u, t[0].mult, tol);
      InsertGrows(s, t[0].u, t[0].mult, tol);
      InsertAllGrows(s', t[1..], tol);
      forall x | x in Values(t[1..])
        ensures HasClose(Values(s), x, tol) <==> HasClose(Values(s'), x, tol)
      {
      }
      SameNumberClose(t[1..], Values(s), Values(s'), tol);
    }
  }

  lemma {:induction false} PrefixOfSpread(s: seq<Knot>, d: real)
    requires Spread(s, d) && s != [] && d >= 0.0
    ensures var n := |s| - 1;
            && Spread(s[..n], d) && Values(s) == Values(s[..n]) + {s[n].u}
            && forall x :: x in Values(s[..n]) ==> x + d < s[n].u
  {
    var n := |s| - 1;
    ValuesOf(s);
    if n > 0 {
      PrefixOfSpread(s[1..], d);
      assert s[1..][..n - 1] == s[..n][1..];
      ValuesOf(s[..n]);
    }
  }

  lemma InteriorOfSpread(s: seq<Knot>, d: real)
    requires Spread(s, d) && |s| >= 2 && d >= 0.0
    ensures Spread(Interior(s), d) && Values(s) == Values(Interior(s)) + {s[0].u, s[|s| - 1].u}
    ensures forall x :: x in Values(Interior(s)) ==> s[0].u + d < x && x + d < s[|s| - 1].u
    ensures s[0].u + d < s[|s| - 1].u
  {
    var n := |s| - 1;
    ValuesOf(s);
    PrefixOfSpread(s[1..], d);
    assert s[1..][..n - 1] == s[1..n];
  }

  ghost predicate AllSpread(ss: seq<seq<Knot>>, d: real) {
    forall i :: 0 <= i < |ss| ==> Spread(ss[i], d) && |ss[i]| >= 2
  }

  lemma {:induction false} GatheredSpread(s: seq<Knot>, others: seq<seq<Knot>>, tol: real)
    requires Spread(s, tol) && |s| >= 2 && AllSpread(others, tol) && tol >= 0.0
    ensures var r := Gathered(s, others, tol); Spread(r, tol) && Values(s) <= Values(r) && |r| >= |s|
    decreases |others|
  {
    hide Spread, Interior;
    if others != [] {
      assert Spread(others[0], tol);
      InteriorOfSpread(others[0], tol);
      InsertAllGrows(s, Interior(others[0]), tol);
      CloseAmong(Interior(others[0]), Values(s), tol);
      GatheredSpread(InsertAll(s, Interior(others[0]), tol), others[1..], tol);
    }
  }

  lemma {:induction false} CloseAmong(t: seq<Knot>, us: set<real>, tol: real)
    ensures NumberClose(t, us, tol) <= |t|
  {
    if t != [] {
      CloseAmong(t[1..], us, tol);
    }
  }

  /** The knots of the first spline that the second pass finds in spline i are as many as that spline has inside. */
  ghost predicate IsMatched(ss: seq<seq<Knot>>, tol: real, i: nat)
    requires i < |ss|
  {
    NumberClose(Interior(Gathered(ss[0], ss[1..], tol)), Values(ss[i]), tol) == |Interior(ss[i])|
  }

  lemma NumberOfFinal(ss: seq<seq<Knot>>, tol: real, i: nat)
    requires AllSpread(ss, tol) && tol >= 0.0 && 0 < i < |ss|
    ensures var r := Final(ss, tol); |r[i]| == |r[0]| <==> IsMatched(ss, tol, i)
  {
    hide Spread, Gathered, InsertAll;
    var g := Gathered(ss[0], ss[1..], tol);
    assert Spread(ss[0], tol) && Spread(ss[i], tol) && |ss[0]| >= 2 && |ss[i]| >= 2;
    GatheredSpread(ss[0], ss[1..], tol);
    InteriorOfSpread(g, tol);
    InsertAllGrows(ss[i], Interior(g), tol);
  }

  // Knots that are close to each other, as one.

  ghost predicate CloseIsTransitive(us: set<real>, tol: real) {
    forall x, y, z {:trigger Close(x, y, tol), Close(y, z, tol)} ::
      x in us && y in us && z in us && Close(x, y, tol) && Close(y, z, tol) ==> Close(x, z, tol)
  }

  lemma CloseVia(us: set<real>, tol: real, x: real, y: real, z: real)
    requires CloseIsTransitive(us, tol) && x in us && y in us && z in us && Close(x, y, tol) && Close(y, z, tol)
    ensures Close(x, z, tol)
  {
  }

  /** The multiplicity of the knot close to v. */
  function Mult(s: seq<Knot>, v: real, tol: real): nat {
    if s == [] then 0 else if Close(s[0].u, v, tol) then s[0].mult else Mult(s[1..], v, tol)
  }

  lemma {:induction false} MultIsPositive(s: seq<Knot>, v: real, tol: real)
    requires Spread(s, tol)
    ensures Mult(s, v, tol) > 0 <==> HasClose(Values(s), v, tol)
  {
    ValuesOf(s);
    if s != [] {
      MultIsPositive(s[1..], v, tol);
    }
  }

  lemma {:induction false} MultAt(s: seq<Knot>, tol: real, i: nat)
    requires Spread(s, tol) && tol >= 0.0 && i < |s|
    ensures Mult(s, s[i].u, tol) == s[i].mult > 0
  {
    if i > 0 {
      ValuesOf(s[1..]);
      assert s[1..][i - 1] == s[i];
      MultAt(s[1..], tol, i - 1);
    }
  }

  /** A spread list has at most one knot close to v. */
  lemma NoSecondClose(s: seq<Knot>, tol: real, us: set<real>, v: real)
    requires Spread(s, tol) && tol >= 0.0 && CloseIsTransitive(us, tol) && Values(s) <= us && v in us
    requires s != [] && Close(s[0].u, v, tol)
    ensures Mult(s[1..], v, tol) == 0 && !HasClose(Values(s[1..]), v, tol)
  {
    ValuesOf(s);
    MultIsPositive(s[1..], v, tol);
    forall x | x in Values(s[1..])
      ensures !Close(x, v, tol)
    {
      if Close(x, v, tol) {
        CloseVia(us, tol, s[0].u, v, x);
      }
    }
  }

  lemma {:induction false} InsertMult(s: seq<Knot>, u: real, m: nat, tol: real, us: set<real>, v: real)
    requires Spread(s, tol) && m > 0 && tol >= 0.0 && CloseIsTransitive(us, tol) && Values(s) <= us && u in us
             && v in us
    ensures Mult(Insert(s, u, m, tol), v, tol) == if Close(u, v, tol) then Max(Mult(s, v, tol), m) else Mult(s, v, tol)
  {
    hide HasClose, CloseIsTransitive;
    var r := Insert(s, u, m, tol);
    ValuesOf(s);
    if s != [] {
      if Close(s[0].u, u, tol) {
        assert r[1..] == s[1..];
        assert Close(s[0].u, v, tol) <==> Close(u, v, tol) by {
          SameClose(us, tol, s[0].u, u, v);
        }
      } else if u < s[0].u {
        assert r[1..] == s;
        if Close(u, v, tol) {
          SpreadAbove(s, tol, us, u, v);
        }
      } else {
        InsertMult(s[1..], u, m, tol, us, v);
        assert r[1..] == Insert(s[1..], u, m, tol);
        if Close(u, v, tol) && Close(s[0].u, v, tol) {
          CloseVia(us, tol, s[0].u, v, u);
        }
      }
    }
  }

  lemma SameClose(us: set<real>, tol: real, x: real, y: real, v: real)
    requires CloseIsTransitive(us, tol) && x in us && y in us && v in us && Close(x, y, tol)
    ensures Close(x, v, tol) <==> Close(y, v, tol)
  {
    if Close(x, v, tol) {
      CloseVia(us, tol, y, x, v);
    }
    if Close(y, v, tol) {
      CloseVia(us, tol, x, y, v);
    }
  }

  /** If u is far below all knots, a value close to u is close to none. */
  lemma SpreadAbove(s: seq<Knot>, tol: real, us: set<real>, u: real, v: real)
    requires Spread(s, tol) && tol >= 0.0 && CloseIsTransitive(us, tol) && Values(s) <= us && u in us && v in us
    requires s != [] && u + tol < s[0].u && Close(u, v, tol)
    ensures Mult(s, v, tol) == 0
  {
    ValuesOf(s);
    MultIsPositive(s, v, tol);
    forall x | x in Values(s)
      ensures !Close(x, v, tol)
    {
      if Close(x, v, tol) {
        CloseVia(us, tol, u, v, x);
      }
    }
  }

  lemma {:induction false} InsertAllMult(s: seq<Knot>, t: seq<Knot>, tol: real, us: set<real>, v: real)
    requires Spread(s, tol) && Spread(t, tol) && tol >= 0.0 && CloseIsTransitive(us, tol)
    requires Values(s) <= us && Values(t) <= us && v in us
    ensures Mult(InsertAll(s, t, tol), v, tol) == Max(Mult(s, v, tol), Mult(t, v, tol))
    decreases |t|
  {
    hide HasClose, CloseIsTransitive, Insert, Close;
    ValuesOf(t);
    if t != [] {
      var s' := Insert(s, t[0].u, t[0].mult, tol);
      InsertGrows(s, t[0].u, t[0].mult, tol);
      InsertMult(s, t[0].u, t[0].mult, tol, us, v);
      InsertAllMult(s', t[1..], tol, us, v);
      if Close(t[0].u, v, tol) {
        NoSecondClose(t, tol, us, v);
      }
    }
  }

  // The ends.

  /** The ends are close to a and b. */
  ghost predicate OnRange(s: seq<Knot>, tol: real, a: real, b: real, us: set<real>) {
    && Spread(s, tol) && |s| >= 2 && Values(s) <= us && a in us && b in us
    && Close(s[0].u, a, tol) && Close(s[|s| - 1].u, b, tol)
  }

  lemma {:induction false} InsertKeepsEnds(s: seq<Knot>, u: real, m: nat, tol: real)
    requires |s| >= 1 && s[0].u + tol < u && tol >= 0.0
    ensures var r := Insert(s, u, m, tol);
            && r[0] == s[0]
            && (u + tol < s[|s| - 1].u ==> r[|r| - 1] == s[|s| - 1])
  {
    var n := |s| - 1;
    if n > 0 {
      var r := Insert(s[1..], u, m, tol);
      assert Insert(s, u, m, tol) == [s[0]] + r;
      if u + tol < s[n].u {
        LastOfInsert(s[1..], u, m, tol);
      }
    }
  }

  lemma {:induction false} LastOfInsert(s: seq<Knot>, u: real, m: nat, tol: real)
    requires s != [] && tol >= 0.0 && u + tol < s[|s| - 1].u
    ensures var r := Insert(s, u, m, tol); r != [] && r[|r| - 1] == s[|s| - 1]
  {
    if !Close(s[0].u, u, tol) && s[0].u <= u {
      LastOfInsert(s[1..], u, m, tol);
    }
  }

  /** All values are inside the range by more than the tolerance. */
  ghost predicate Inside(us: set<real>, a: real, b: real, tol: real) {
    forall x :: x in us ==> a + tol < x && x + tol < b
  }

  lemma {:induction false} InsertAllKeepsEnds(s: seq<Knot>, t: seq<Knot>, tol: real, first: Knot, last: Knot)
    requires tol >= 0.0 && |s| >= 2 && s[0] == first && s[|s| - 1] == last && Inside(Values(t), first.u, last.u, tol)
    ensures var r := InsertAll(s, t, tol); |r| >= 2 && r[0] == first && r[|r| - 1] == last
    decreases |t|
  {
    hide Insert;
    ValuesOf(t);
    if t != [] {
      var s' := Insert(s, t[0].u, t[0].mult, tol);
      InsertKeepsEnds(s, t[0].u, t[0].mult, tol);
      InsertIsNotShorter(s, t[0].u, t[0].mult, tol);
      InsertAllKeepsEnds(s', t[1..], tol, first, last);
    }
  }

  lemma {:induction false} InsertIsNotShorter(s: seq<Knot>, u: real, m: nat, tol: real)
    ensures |Insert(s, u, m, tol)| >= |s|
  {
    if s != [] {
      InsertIsNotShorter(s[1..], u, m, tol);
    }
  }

  lemma InteriorMult(s: seq<Knot>, tol: real, us: set<real>, v: real)
    requires Spread(s, tol) && |s| >= 2 && tol >= 0.0 && CloseIsTransitive(us, tol) && Values(s) <= us && v in us
    ensures Mult(Interior(s), v, tol)
            == if Close(s[0].u, v, tol) || Close(s[|s| - 1].u, v, tol) then 0 else Mult(s, v, tol)
  {
    var n := |s| - 1;
    ValuesOf(s);
    assert s[1..][..n - 1] == s[1..n] == Interior(s);
    if Close(s[0].u, v, tol) {
      NoSecondClose(s, tol, us, v);
    }
    PrefixMult(s[1..], tol, us, v);
    PrefixOfSpread(s[1..], tol);
    MultIsPositive(Interior(s), v, tol);
    MultIsPositive(s[1..], v, tol);
  }

  lemma {:induction false} PrefixMult(s: seq<Knot>, tol: real, us: set<real>, v: real)
    requires Spread(s, tol) && s != [] && tol >= 0.0 && CloseIsTransitive(us, tol) && Values(s) <= us && v in us
    ensures Mult(s[..|s| - 1], v, tol) == if Close(s[|s| - 1].u, v, tol) then 0 else Mult(s, v, tol)
  {
    hide HasClose, CloseIsTransitive, Close;
    var n := |s| - 1;
    ValuesOf(s);
    if n > 0 {
      PrefixMult(s[1..], tol, us, v);
      assert s[1..][..n - 1] == s[..n][1..];
      if Close(s[0].u, v, tol) {
        NoSecondClose(s, tol, us, v);
        assert !Close(s[n].u, v, tol) by {
          assert s[1..][n - 1] == s[n];
          LastIsNotClose(s[1..], tol, v);
        }
      }
    }
  }

  lemma LastIsNotClose(s: seq<Knot>, tol: real, v: real)
    requires s != [] && !HasClose(Values(s), v, tol)
    ensures !Close(s[|s| - 1].u, v, tol)
  {
    ValuesOf(s);
  }

  lemma OnRangeHas(s: seq<Knot>, tol: real, a: real, b: real, us: set<real>)
    requires OnRange(s, tol, a, b, us)
    ensures Spread(s, tol) && |s| >= 2 && Values(s) <= us && s[0].u in us && s[|s| - 1].u in us && a in us && b in us
  {
    ValuesOf(s);
  }

  lemma SameRange(s: seq<Knot>, r: seq<Knot>, tol: real, a: real, b: real, us: set<real>)
    requires OnRange(s, tol, a, b, us) && Spread(r, tol) && Values(r) <= us
    requires |s| >= 2 && |r| >= 2 && r[0] == s[0] && r[|r| - 1] == s[|s| - 1]
    ensures OnRange(r, tol, a, b, us)
  {
  }

  lemma EndsClose(s: seq<Knot>, o: seq<Knot>, tol: real, a: real, b: real, us: set<real>)
    requires OnRange(s, tol, a, b, us) && OnRange(o, tol, a, b, us) && CloseIsTransitive(us, tol)
    ensures |s| >= 2 && |o| >= 2 && Close(s[0].u, o[0].u, tol) && Close(s[|s| - 1].u, o[|o| - 1].u, tol)
  {
    hide Spread, CloseIsTransitive;
    OnRangeHas(s, tol, a, b, us);
    OnRangeHas(o, tol, a, b, us);
    CloseVia(us, tol, s[0].u, a, o[0].u);
    CloseVia(us, tol, s[|s| - 1].u, b, o[|o| - 1].u);
  }

  /** A value far inside one spline is far inside another one with close ends. */
  lemma InsideOther(us: set<real>, tol: real, a: real, b: real, c: real, d: real, x: real)
    requires CloseIsTransitive(us, tol) && a in us && b in us && c in us && d in us && x in us && Close(a, c, tol)
             && Close(b, d, tol)
    requires c + tol < x && x + tol < d
    ensures a + tol < x && x + tol < b
  {
    if Close(x, a, tol) {
      CloseVia(us, tol, x, a, c);
    }
    if Close(x, b, tol) {
      CloseVia(us, tol, x, b, d);
    }
  }

  /** Inserting the interior knots of one spline into another leaves its ends alone. */
  lemma InteriorInserted(s: seq<Knot>, o: seq<Knot>, tol: real, a: real, b: real, us: set<real>)
    requires OnRange(s, tol, a, b, us) && OnRange(o, tol, a, b, us) && CloseIsTransitive(us, tol) && tol >= 0.0
    ensures var r := InsertAll(s, Interior(o), tol);
            OnRange(r, tol, a, b, us) && |r| >= 2 && |s| >= 2 && r[0] == s[0] && r[|r| - 1] == s[|s| - 1]
  {
    hide Spread, InsertAll, Interior, CloseIsTransitive, OnRange, Close;
    OnRangeHas(s, tol, a, b, us);
    OnRangeHas(o, tol, a, b, us);
    EndsClose(s, o, tol, a, b, us);
    InteriorOfSpread(o, tol);
    InsertAllGrows(s, Interior(o), tol);
    forall x | x in Values(Interior(o))
      ensures s[0].u + tol < x && x + tol < s[|s| - 1].u
    {
      InsideOther(us, tol, s[0].u, s[|s| - 1].u, o[0].u, o[|o| - 1].u, x);
    }
    InsertAllKeepsEnds(s, Interior(o), tol, s[0], s[|s| - 1]);
    SameRange(s, InsertAll(s, Interior(o), tol), tol, a, b, us);
  }

  /** It takes the maximum of the multiplicities of knots that are close to each other. */
  lemma InteriorInsertedMult(s: seq<Knot>, o: seq<Knot>, tol: real, us: set<real>, a: real, b: real, v: real)
    requires OnRange(s, tol, a, b, us) && OnRange(o, tol, a, b, us) && CloseIsTransitive(us, tol) && tol >= 0.0
             && v in us
    ensures var r := InsertAll(s, Interior(o), tol);
            Mult(Interior(r), v, tol) == Max(Mult(Interior(s), v, tol), Mult(Interior(o), v, tol))
  {
    hide Spread, InsertAll, Interior, CloseIsTransitive, Mult, HasClose, OnRange, Close;
    OnRangeHas(s, tol, a, b, us);
    OnRangeHas(o, tol, a, b, us);
    EndsClose(s, o, tol, a, b, us);
    InteriorOfSpread(o, tol);
    InteriorInserted(s, o, tol, a, b, us);
    OnRangeHas(InsertAll(s, Interior(o), tol), tol, a, b, us);
    SameClose(us, tol, s[0].u, o[0].u, v);
    SameClose(us, tol, s[|s| - 1].u, o[|o| - 1].u, v);
    InsertAllMult(s, Interior(o), tol, us, v);
    InteriorMult(s, tol, us, v);
    InteriorMult(o, tol, us, v);
    InteriorMult(InsertAll(s, Interior(o), tol), tol, us, v);
  }

  /** The highest multiplicity of an interior knot close to v. */
  function MaxMult(ss: seq<seq<Knot>>, v: real, tol: real): (m: nat)
    ensures forall i :: 0 <= i < |ss| ==> Mult(Interior(ss[i]), v, tol) <= m
    ensures m == 0 || exists i :: 0 <= i < |ss| && Mult(Interior(ss[i]), v, tol) == m
  {
    if ss == [] then 0
    else
      var rest := MaxMult(ss[1..], v, tol);
      assert rest > 0 ==> exists i :: 0 <= i < |ss[1..]| && Mult(Interior(ss[1..][i]), v, tol) == rest;
      assert forall i :: 0 <= i < |ss[1..]| ==> ss[1..][i] == ss[i + 1];
      Max(Mult(Interior(ss[0]), v, tol), rest)
  }

  lemma MaxMultOf(ss: seq<seq<Knot>>, v: real, tol: real)
    ensures ss != [] ==> MaxMult(ss, v, tol) == Max(Mult(Interior(ss[0]), v, tol), MaxMult(ss[1..], v, tol))
  {
  }

  lemma MaxMultBound(ss: seq<seq<Knot>>, i: nat, v: real, tol: real)
    requires i < |ss|
    ensures Mult(Interior(ss[i]), v, tol) <= MaxMult(ss, v, tol)
  {
  }

  ghost predicate AllOnRange(ss: seq<seq<Knot>>, tol: real, a: real, b: real, us: set<real>) {
    forall i :: 0 <= i < |ss| ==> OnRange(ss[i], tol, a, b, us)
  }

  lemma {:induction false} GatheredOnRange(s: seq<Knot>, others: seq<seq<Knot>>, tol: real, us: set<real>, a: real,
                                           b: real)
    requires OnRange(s, tol, a, b, us) && AllOnRange(others, tol, a, b, us) && CloseIsTransitive(us, tol) && tol >= 0.0
    ensures var r := Gathered(s, others, tol);
            OnRange(r, tol, a, b, us) && |r| >= 2 && |s| >= 2 && r[0] == s[0] && r[|r| - 1] == s[|s| - 1]
    decreases |others|
  {
    hide InsertAll, Interior, OnRange, CloseIsTransitive;
    OnRangeHas(s, tol, a, b, us);
    if others != [] {
      InteriorInserted(s, others[0], tol, a, b, us);
      GatheredOnRange(InsertAll(s, Interior(others[0]), tol), others[1..], tol, us, a, b);
    }
  }

  lemma {:induction false} GatheredMult(s: seq<Knot>, others: seq<seq<Knot>>, tol: real, us: set<real>, a: real,
                                        b: real, v: real)
    requires OnRange(s, tol, a, b, us) && AllOnRange(others, tol, a, b, us) && CloseIsTransitive(us, tol) && tol >= 0.0
    requires v in us
    ensures Mult(Interior(Gathered(s, others, tol)), v, tol) == Max(Mult(Interior(s), v, tol), MaxMult(others, v, tol))
    decreases |others|
  {
    hide InsertAll, Interior, OnRange, CloseIsTransitive, Mult;
    if others != [] {
      InteriorInserted(s, others[0], tol, a, b, us);
      InteriorInsertedMult(s, others[0], tol, us, a, b, v);
      GatheredMult(InsertAll(s, Interior(others[0]), tol), others[1..], tol, us, a, b, v);
    }
  }

  /** Two lists with, one by one, close knots of equal multiplicity. */
  ghost predicate PairUp(s: seq<Knot>, t: seq<Knot>, tol: real) {
    |s| == |t| && forall k :: 0 <= k < |s| ==> Close(s[k].u, t[k].u, tol) && s[k].mult == t[k].mult
  }

  ghost predicate SameMults(s: seq<Knot>, t: seq<Knot>, tol: real, us: set<real>) {
    forall v :: v in us ==> Mult(s, v, tol) == Mult(t, v, tol)
  }

  /** The first knots are close to each other, as each is close to some knot of the other list. */
  lemma FirstKnotsPair(s: seq<Knot>, t: seq<Knot>, tol: real, us: set<real>)
    requires Spread(s, tol) && Spread(t, tol) && tol >= 0.0 && Values(s) <= us && Values(t) <= us
             && SameMults(s, t, tol, us)
    ensures s == [] <==> t == []
    ensures s != [] ==> Close(s[0].u, t[0].u, tol) && s[0].mult == t[0].mult
  {
    ValuesOf(s);
    ValuesOf(t);
    if s != [] {
      MultAt(s, tol, 0);
      MultIsPositive(t, s[0].u, tol);
    }
    if t != [] {
      MultAt(t, tol, 0);
      MultIsPositive(s, t[0].u, tol);
    }
  }

  lemma {:induction false} SameMultsPairUp(s: seq<Knot>, t: seq<Knot>, tol: real, us: set<real>)
    requires Spread(s, tol) && Spread(t, tol) && tol >= 0.0 && CloseIsTransitive(us, tol)
    requires Values(s) <= us && Values(t) <= us && SameMults(s, t, tol, us)
    ensures PairUp(s, t, tol)
  {
    hide HasClose, CloseIsTransitive, Close;
    FirstKnotsPair(s, t, tol, us);
    ValuesOf(s);
    ValuesOf(t);
    if s != [] {
      forall v | v in us
        ensures Mult(s[1..], v, tol) == Mult(t[1..], v, tol)
      {
        SameClose(us, tol, s[0].u, t[0].u, v);
        if Close(s[0].u, v, tol) {
          NoSecondClose(s, tol, us, v);
          NoSecondClose(t, tol, us, v);
        }
      }
      SameMultsPairUp(s[1..], t[1..], tol, us);
      assert forall k :: 0 < k < |s| ==> s[k] == s[1..][k - 1] && t[k] == t[1..][k - 1];
    }
  }

  /** Every knot of t counts for its whole cluster of knots in ss, and every cluster is there. */
  ghost predicate Represents(t: seq<Knot>, ss: seq<seq<Knot>>, tol: real) {
    && (forall k :: 0 <= k < |t| ==> t[k].mult == MaxMult(ss, t[k].u, tol))
    && (forall j, x :: 0 <= j < |ss| && x in Values(Interior(ss[j])) ==> HasClose(Values(t), x, tol))
  }

  lemma MultsRepresent(t: seq<Knot>, ss: seq<seq<Knot>>, tol: real, us: set<real>)
    requires Spread(t, tol) && tol >= 0.0 && Values(t) <= us
    requires forall i :: 0 <= i < |ss| ==> Spread(Interior(ss[i]), tol) && Values(Interior(ss[i])) <= us
    requires forall v :: v in us ==> Mult(t, v, tol) == MaxMult(ss, v, tol)
    ensures Represents(t, ss, tol)
  {
    hide MaxMult, Interior, Spread;
    forall k | 0 <= k < |t|
      ensures t[k].mult == MaxMult(ss, t[k].u, tol)
    {
      ValuesOf(t);
      MultAt(t, tol, k);
    }
    forall j, x | 0 <= j < |ss| && x in Values(Interior(ss[j]))
      ensures HasClose(Values(t), x, tol)
    {
      MaxMultBound(ss, j, x, tol);
      assert Close(x, x, tol);
      MultIsPositive(Interior(ss[j]), x, tol);
      MultIsPositive(t, x, tol);
    }
  }

  /** The final knots of spline i: the ends are its own, and the interior knots pair up with those of the first
      spline. */
  lemma FinalKnots(ss: seq<seq<Knot>>, tol: real, us: set<real>, a: real, b: real, i: nat)
    requires i < |ss| && AllOnRange(ss, tol, a, b, us) && CloseIsTransitive(us, tol) && tol >= 0.0
    ensures var r := Final(ss, tol);
            && OnRange(r[i], tol, a, b, us)
            && |r[i]| >= 2 && |ss[i]| >= 2 && r[i][0] == ss[i][0] && r[i][|r[i]| - 1] == ss[i][|ss[i]| - 1]
            && PairUp(Interior(r[i]), Interior(r[0]), tol)
            && Represents(Interior(r[i]), ss, tol)
  {
    hide InsertAll, Interior, Mult, OnRange, Gathered, MaxMult, PairUp, Represents, CloseIsTransitive;
    var r := Final(ss, tol);
    GatheredOnRange(ss[0], ss[1..], tol, us, a, b);
    if i > 0 {
      InteriorInserted(ss[i], r[0], tol, a, b, us);
    }
    forall v | v in us
      ensures Mult(Interior(r[0]), v, tol) == MaxMult(ss, v, tol) && Mult(Interior(r[i]), v, tol) == MaxMult(ss, v, tol)
    {
      GatheredMult(ss[0], ss[1..], tol, us, a, b, v);
      MaxMultOf(ss, v, tol);
      if i > 0 {
        InteriorInsertedMult(ss[i], r[0], tol, us, a, b, v);
        MaxMultBound(ss, i, v, tol);
      }
    }
    InteriorOnRange(r[i], tol, a, b, us);
    InteriorOnRange(r[0], tol, a, b, us);
    SameMultsPairUp(Interior(r[i]), Interior(r[0]), tol, us);
    forall j | 0 <= j < |ss|
      ensures Spread(Interior(ss[j]), tol) && Values(Interior(ss[j])) <= us
    {
      InteriorOnRange(ss[j], tol, a, b, us);
    }
    MultsRepresent(Interior(r[i]), ss, tol, us);
  }

  lemma InteriorOnRange(s: seq<Knot>, tol: real, a: real, b: real, us: set<real>)
    requires OnRange(s, tol, a, b, us) && tol >= 0.0
    ensures Spread(Interior(s), tol) && Values(Interior(s)) <= us && |s| == |Interior(s)| + 2
  {
    InteriorOfSpread(s, tol);
  }

  // The hypotheses in terms of the input.

  ghost predicate AllValid(ss: seq<seq<Knot>>) {
    forall i :: 0 <= i < |ss| ==> Valid(ss[i]) && |ss[i]| >= 2
  }

  function AllValues(ss: seq<seq<Knot>>): set<real> {
    set i, k | 0 <= i < |ss| && k in ss[i] :: k.u
  }

  lemma {:induction false} SpreadByLast(s: seq<Knot>, d: real)
    requires s != [] && d >= 0.0 && Spread(s[..|s| - 1], d) && s[|s| - 1].mult > 0
    requires |s| > 1 ==> s[|s| - 2].u + d < s[|s| - 1].u
    ensures Spread(s, d)
  {
    var n := |s| - 1;
    if n > 0 {
      ValuesOf(s[..n]);
      ValuesOf(s[1..]);
      assert s[1..][..n - 1] == s[..n][1..];
      SpreadByLast(s[1..], d);
      PrefixOfSpread(s[1..], d);
      assert n > 1 ==> s[..n][n - 1] == s[n - 1];
      LastIsGreatest(s[..n], d);
    }
  }

  lemma {:induction false} LastIsGreatest(s: seq<Knot>, d: real)
    requires Spread(s, d) && s != [] && d >= 0.0
    ensures s[0].u <= s[|s| - 1].u
  {
    ValuesOf(s);
    if |s| > 1 {
      LastIsGreatest(s[1..], d);
    }
  }

  lemma {:induction false} MinStepSpreads(s: seq<Knot>, tol: real, d: real)
    requires Valid(s) && tol > 0.0
    ensures 0.0 < MinStep(s, tol) <= tol
    ensures 0.0 <= d < 2.0 * MinStep(s, tol) ==> Spread(s, d)
    decreases |s|
  {
    hide Values;
    var n := |s| - 1;
    if n > 0 {
      PrefixOfSpread(s, 0.0);
      PrefixOfSpread(s[..n], 0.0);
      assert s[..n][n - 1] == s[n - 1];
      ValuesOf(s[..n]);
      MinStepSpreads(s[..n], tol, d);
      LastMult(s, 0.0);
      if 0.0 <= d < 2.0 * MinStep(s, tol) {
        SpreadByLast(s, d);
      }
    } else if n == 0 {
      ValuesOf(s);
      assert s[1..] == [];
      NoValues();
    }
  }

  lemma NoValues()
    ensures Values([]) == {}
  {
  }

  lemma LastMult(s: seq<Knot>, d: real)
    requires Spread(s, d) && s != [] && d >= 0.0
    ensures s[|s| - 1].mult > 0
  {
    MultAt(s, d, |s| - 1);
  }

  lemma {:induction false} MinStepMonotonic(s: seq<Knot>, t: real, tol: real)
    requires t <= tol
    ensures MinStep(s, t) <= MinStep(s, tol)
  {
    if |s| >= 2 {
      MinStepMonotonic(s[..|s| - 1], t, tol);
    }
  }

  lemma {:induction false} AdjustedBounds(ss: seq<seq<Knot>>, tol: real, i: nat)
    requires i < |ss| && tol > 0.0 && forall j :: 0 <= j < |ss| ==> Valid(ss[j])
    ensures 0.0 < Adjusted(ss, tol) <= tol
    ensures Adjusted(ss, tol) <= MinStep(ss[i], tol)
  {
    hide Valid, MinStep;
    var n := |ss| - 1;
    if n > 0 {
      AdjustedBounds(ss[..n], tol, if i < n then i else 0);
    } else {
      assert Adjusted(ss[..0], tol) == tol;
    }
    MinStepSpreads(ss[n], Adjusted(ss[..n], tol), 0.0);
    MinStepMonotonic(ss[n], Adjusted(ss[..n], tol), tol);
  }

  /** The adjusted tolerance is positive, and less than every step of every spline. */
  lemma AdjustedSpreads(ss: seq<seq<Knot>>, tol: real, i: nat)
    requires i < |ss| && tol > 0.0 && AllValid(ss)
    ensures 0.0 < Adjusted(ss, tol) <= tol && Spread(ss[i], Adjusted(ss, tol))
  {
    hide Valid, MinStep, Spread, Adjusted;
    AdjustedBounds(ss, tol, i);
    MinStepSpreads(ss[i], tol, Adjusted(ss, tol));
  }

  /** The error that is not expected occurs exactly if some spline has interior knots that the gathered ones do not
      match one by one. */
  lemma NumbersAgree(ss: seq<seq<Knot>>, tol: real)
    requires |ss| > 0 && tol > 0.0 && AllValid(ss)
    ensures var t := Adjusted(ss, tol);
            SameNumbers(Final(ss, t)) <==> forall i :: 0 < i < |ss| ==> IsMatched(ss, t, i)
  {
    hide Spread, Valid, Adjusted, IsMatched, Final;
    var t := Adjusted(ss, tol);
    forall i | 0 <= i < |ss|
      ensures t >= 0.0 && Spread(ss[i], t) && |ss[i]| >= 2
    {
      AdjustedSpreads(ss, tol, i);
    }
    assert t >= 0.0 && AllSpread(ss, t) by {
      AdjustedSpreads(ss, tol, 0);
    }
    forall i | 0 < i < |ss|
      ensures |Final(ss, t)[i]| == |Final(ss, t)[0]| <==> IsMatched(ss, t, i)
    {
      NumberOfFinal(ss, t, i);
    }
  }

  /** Spline i in the end: its own ends, and interior knots that pair up with those of the first spline and represent
      all. */
  ghost predicate IsCompatible(r: seq<seq<Knot>>, ss: seq<seq<Knot>>, tol: real, i: nat)
    requires |r| == |ss| && i < |ss|
  {
    && |r[i]| >= 2 && |ss[i]| >= 2 && r[i][0] == ss[i][0] && r[i][|r[i]| - 1] == ss[i][|ss[i]| - 1]
    && PairUp(Interior(r[i]), Interior(r[0]), tol)
    && Represents(Interior(r[i]), ss, tol)
  }

  /** Where the adjusted tolerance covers the ends too, the splines are all on the range of the first one. */
  lemma AdjustedRange(ss: seq<seq<Knot>>, tol: real, i: nat)
    requires i < |ss| && tol > 0.0 && AllValid(ss) && HaveSameRange(ss, Adjusted(ss, tol))
    ensures var t := Adjusted(ss, tol);
            0.0 < t <= tol && OnRange(ss[i], t, ss[0][0].u, ss[0][|ss[0]| - 1].u, AllValues(ss))
  {
    hide Adjusted, Spread, Valid;
    AdjustedSpreads(ss, tol, i);
    ValuesAmong(ss, i);
    ValuesAmong(ss, 0);
    ValuesOf(ss[0]);
  }

  /** Where closeness is transitive, the unexpected error does not occur. */
  lemma BecomeCompatible(ss: seq<seq<Knot>>, tol: real)
    requires |ss| > 0 && tol > 0.0 && AllValid(ss) && HaveSameRange(ss, Adjusted(ss, tol))
    requires CloseIsTransitive(AllValues(ss), Adjusted(ss, tol))
    ensures var r := Final(ss, Adjusted(ss, tol));
            SameNumbers(r) && forall i :: 0 <= i < |ss| ==> IsCompatible(r, ss, Adjusted(ss, tol), i)
  {
    hide Adjusted, Final, Interior, PairUp, Represents, CloseIsTransitive, AllValues, Spread, OnRange;
    var t, us, a, b := Adjusted(ss, tol), AllValues(ss), ss[0][0].u, ss[0][|ss[0]| - 1].u;
    var r := Final(ss, t);
    AdjustedRange(ss, tol, 0);
    forall i | 0 <= i < |ss|
      ensures OnRange(ss[i], t, a, b, us)
    {
      AdjustedRange(ss, tol, i);
    }
    forall i | 0 <= i < |ss|
      ensures |r[i]| == |r[0]| && IsCompatible(r, ss, t, i)
    {
      FinalKnots(ss, t, us, a, b, i);
      FinalKnots(ss, t, us, a, b, 0);
      InteriorOnRange(r[i], t, a, b, us);
      InteriorOnRange(r[0], t, a, b, us);
      PairsAreAsMany(Interior(r[i]), Interior(r[0]), t);
    }
  }

  lemma ValuesAmong(ss: seq<seq<Knot>>, i: nat)
    requires i < |ss|
    ensures Values(ss[i]) <= AllValues(ss)
  {
  }

  lemma PairsAreAsMany(s: seq<Knot>, t: seq<Knot>, tol: real)
    requires PairUp(s, t, tol)
    ensures |s| == |t|
  {
  }

  // When closeness is transitive.

  lemma InOne(ss: seq<seq<Knot>>, x: real) returns (i: nat)
    requires x in AllValues(ss)
    ensures i < |ss| && x in Values(ss[i])
  {
    var j, k :| 0 <= j < |ss| && k in ss[j] && k.u == x;
    i := j;
  }

  lemma {:induction false} SpreadPair(s: seq<Knot>, d: real, x: real, y: real)
    requires Spread(s, d) && x in Values(s) && y in Values(s) && x < y && d >= 0.0
    ensures x + d < y
  {
    ValuesOf(s);
    if x != s[0].u {
      SpreadPair(s[1..], d, x, y);
    }
  }

  lemma TwoAreTransitive(s: seq<Knot>, t: seq<Knot>, tol: real)
    requires tol > 0.0 && |s| >= 2 && |t| >= 2 && Spread(s, 2.0 * tol) && Spread(t, 2.0 * tol)
    ensures CloseIsTransitive(AllValues([s, t]), Adjusted([s, t], tol))
  {
    hide Spread, AllValues, Values, Adjusted, Close;
    var ss := [s, t];
    var d := Adjusted(ss, tol);
    SpreadLess(s, 2.0 * tol, 0.0);
    SpreadLess(t, 2.0 * tol, 0.0);
    AdjustedBounds(ss, tol, 0);
    var us := AllValues(ss);
    forall x, y, z {:trigger Close(x, y, d), Close(y, z, d)} |
      x in us && y in us && z in us && Close(x, y, d) && Close(y, z, d)
      ensures Close(x, z, d)
    {
      var i := InOne(ss, x);
      var j := InOne(ss, y);
      var k := InOne(ss, z);
      WithinTwoSteps(ss, tol, d, i, x, y);
      WithinTwoSteps(ss, tol, d, j, y, z);
      WithinTwoSteps(ss, tol, d, k, z, x);
      TwoOfThree(ss, tol, d, i, j, k, x, y, z);
    }
  }

  lemma {:induction false} WideStepsKeep(s: seq<Knot>, tol: real)
    requires Spread(s, 2.0 * tol) && tol > 0.0
    ensures MinStep(s, tol) == tol
    decreases |s|
  {
    var n := |s| - 1;
    if n > 0 {
      PrefixOfSpread(s, 2.0 * tol);
      WideStepsKeep(s[..n], tol);
      ValuesOf(s[..n]);
      assert s[..n][n - 1] == s[n - 1];
    }
  }

  /** Two splines whose steps are all more than twice the tolerance never throw. */
  lemma TwoSplines(s: seq<Knot>, t: seq<Knot>, tol: real)
    requires tol > 0.0 && |s| >= 2 && |t| >= 2 && Spread(s, 2.0 * tol) && Spread(t, 2.0 * tol)
    requires HaveSameRange([s, t], tol)
    ensures Adjusted([s, t], tol) == tol
    ensures var r := Final([s, t], tol);
            SameNumbers(r) && IsCompatible(r, [s, t], tol, 0) && IsCompatible(r, [s, t], tol, 1)
  {
    hide Spread, Final, MinStep, AllValues, IsCompatible;
    var ss := [s, t];
    WideStepsKeep(s, tol);
    WideStepsKeep(t, tol);
    assert ss[..1] == [s] && ss[..1][..0] == [];
    assert Adjusted([], tol) == tol && Adjusted([s], tol) == tol;
    TwoAreTransitive(s, t, tol);
    SpreadLess(s, 2.0 * tol, 0.0);
    SpreadLess(t, 2.0 * tol, 0.0);
    BecomeCompatible(ss, tol);
  }

  /** Of three values in two splines, two are in one spline. */
  lemma TwoOfThree(ss: seq<seq<Knot>>, tol: real, d: real, i: nat, j: nat, k: nat, x: real, y: real, z: real)
    requires |ss| == 2 && i < 2 && j < 2 && k < 2 && 0.0 < d <= tol && Close(x, y, d) && Close(y, z, d)
    requires i == j && Abs(x - y) <= 2.0 * tol ==> x == y
    requires j == k && Abs(y - z) <= 2.0 * tol ==> y == z
    requires i == k && Abs(x - z) <= 2.0 * tol ==> x == z
    ensures Close(x, z, d)
  {
  }

  lemma WithinTwoSteps(ss: seq<seq<Knot>>, tol: real, d: real, i: nat, x: real, y: real)
    requires i < |ss| && tol > 0.0 && Spread(ss[i], 2.0 * tol)
    ensures x in Values(ss[i]) && y in Values(ss[i]) && Abs(x - y) <= 2.0 * tol ==> x == y
  {
    hide Spread;
    if x in Values(ss[i]) && y in Values(ss[i]) {
      if x < y {
        SpreadPair(ss[i], 2.0 * tol, x, y);
      } else if y < x {
        SpreadPair(ss[i], 2.0 * tol, y, x);
      }
    }
  }

  /** Knots of different splines are equal or further apart than the tolerance. */
  ghost predicate KnotsApart(ss: seq<seq<Knot>>, tol: real) {
    forall i, j, x, y ::
      0 <= i < |ss| && 0 <= j < |ss| && i != j && x in Values(ss[i]) && y in Values(ss[j]) && x != y ==>
        !Close(x, y, tol)
  }

  lemma CloseIsEqual(ss: seq<seq<Knot>>, tol: real, x: real, y: real)
    requires tol > 0.0 && AllValid(ss) && KnotsApart(ss, Adjusted(ss, tol))
    requires x in AllValues(ss) && y in AllValues(ss) && Close(x, y, Adjusted(ss, tol))
    ensures x == y
  {
    hide Valid, Spread, Adjusted, AllValues;
    var i := InOne(ss, x);
    var j := InOne(ss, y);
    AdjustedSpreads(ss, tol, i);
    if i == j && x < y {
      SpreadPair(ss[i], Adjusted(ss, tol), x, y);
    } else if i == j && y < x {
      SpreadPair(ss[i], Adjusted(ss, tol), y, x);
    }
  }

  /** Then all splines get the very same interior knots. */
  lemma KnotsApartBecomeEqual(ss: seq<seq<Knot>>, tol: real, i: nat)
    requires i < |ss| && tol > 0.0 && AllValid(ss) && HaveSameRange(ss, Adjusted(ss, tol))
    requires KnotsApart(ss, Adjusted(ss, tol))
    ensures CloseIsTransitive(AllValues(ss), Adjusted(ss, tol))
    ensures var r := Final(ss, Adjusted(ss, tol)); Interior(r[i]) == Interior(r[0])
  {
    hide Adjusted, Final, Interior, Represents, AllValues, Spread, Close;
    var t, us := Adjusted(ss, tol), AllValues(ss);
    var r := Final(ss, t);
    forall x, y | x in us && y in us && Close(x, y, t)
      ensures x == y
    {
      CloseIsEqual(ss, tol, x, y);
    }
    BecomeCompatible(ss, tol);
    FinalValues(ss, tol, i);
    FinalValues(ss, tol, 0);
    var s, s0 := Interior(r[i]), Interior(r[0]);
    ValuesOf(s);
    ValuesOf(s0);
    assert IsCompatible(r, ss, t, i);
    forall k | 0 <= k < |s|
      ensures |s| == |s0| && s[k] == s0[k]
    {
      assert s[k].u in us && s0[k].u in us && Close(s[k].u, s0[k].u, t);
    }
  }

  lemma FinalValues(ss: seq<seq<Knot>>, tol: real, i: nat)
    requires i < |ss| && tol > 0.0 && AllValid(ss) && HaveSameRange(ss, Adjusted(ss, tol))
    requires CloseIsTransitive(AllValues(ss), Adjusted(ss, tol))
    ensures Values(Interior(Final(ss, Adjusted(ss, tol))[i])) <= AllValues(ss)
  {
    hide Adjusted, Final, Interior, AllValues, Spread, OnRange, CloseIsTransitive;
    var t, us, a, b := Adjusted(ss, tol), AllValues(ss), ss[0][0].u, ss[0][|ss[0]| - 1].u;
    AdjustedRange(ss, tol, 0);
    forall i | 0 <= i < |ss|
      ensures OnRange(ss[i], t, a, b, us)
    {
      AdjustedRange(ss, tol, i);
    }
    FinalKnots(ss, t, us, a, b, i);
    InteriorOnRange(Final(ss, t)[i], t, a, b, us);
  }

  // Inputs for which the unexpected error does occur.

  function Knots(us: seq<real>): (r: seq<Knot>)
    ensures |r| == |us| && forall i :: 0 <= i < |r| ==> r[i] == Knot(us[i], 1)
  {
    seq(|us|, i requires 0 <= i < |us| => Knot(us[i], 1))
  }

  lemma MinStepOfThree(a: real, b: real, c: real, tol: real)
    ensures MinStep(Knots([a, b, c]), tol) == MinReal(MinReal(tol, (b - a) / 2.0), (c - b) / 2.0)
  {
    var s := Knots([a, b, c]);
    assert s[..2] == Knots([a, b]) && s[..2][..1] == Knots([a]);
    assert MinStep(s[..2][..1], tol) == tol;
    assert MinStep(s[..2], tol) == MinReal(tol, (b - a) / 2.0);
  }

  function MinReal(a: real, b: real): real {
    if b < a then b else a
  }

  lemma InsertIntoThree(a: real, b: real, c: real, u: real, tol: real)
    requires a + tol < u && u + tol < c && a < b < c && tol >= 0.0
    ensures Insert(Knots([a, b, c]), u, 1, tol)
            == Knots(if Close(b, u, tol) then [a, b, c] else if u < b then [a, u, b, c] else [a, b, u, c])
  {
    var s := Knots([a, b, c]);
    assert s[1..] == Knots([b, c]) && s[2..] == Knots([c]);
    assert Insert(Knots([c]), u, 1, tol) == Knots([u, c]);
    assert s[1..][1..] == s[2..];
    assert Insert(s[1..], u, 1, tol) == Knots(if Close(b, u, tol) then [b, c] else if u < b then [u, b, c]
                                              else [b, u, c]);
  }

  lemma InteriorOfThree(a: real, b: real, c: real)
    ensures Interior(Knots([a, b, c])) == Knots([b])
  {
  }

  lemma InsertOne(s: seq<Knot>, u: real, tol: real)
    ensures InsertAll(s, Knots([u]), tol) == Insert(s, u, 1, tol)
  {
    assert Knots([u])[1..] == [];
  }

  lemma InsertTwo(s: seq<Knot>, u: real, v: real, tol: real)
    ensures InsertAll(s, Knots([u, v]), tol) == Insert(Insert(s, u, 1, tol), v, 1, tol)
  {
    assert Knots([u, v])[1..] == Knots([v]);
    InsertOne(Insert(s, u, 1, tol), v, tol);
  }

  /** Three knots in a row, each close to the next, the outer ones not close to each other: closeness is not
      transitive. */
  lemma ChainOfKnotsFails()
    ensures var ss := [Knots([0.0, 5.0, 10.0]), Knots([0.0, 5.4, 10.0]), Knots([0.0, 5.8, 10.0])];
            Adjusted(ss, 0.5) == 0.5 && HaveSameRange(ss, 0.5) && !SameNumbers(Final(ss, 0.5))
  {
    hide Insert, InsertAll, Interior, MinStep;
    var r, s, t := Knots([0.0, 5.0, 10.0]), Knots([0.0, 5.4, 10.0]), Knots([0.0, 5.8, 10.0]);
    var ss := [r, s, t];
    MinStepOfThree(0.0, 5.0, 10.0, 0.5);
    MinStepOfThree(0.0, 5.4, 10.0, 0.5);
    MinStepOfThree(0.0, 5.8, 10.0, 0.5);
    assert ss[..2] == [r, s] && ss[..2][..1] == [r] && ss[..2][..1][..0] == [];
    assert Adjusted([], 0.5) == 0.5 && Adjusted([r], 0.5) == 0.5 && Adjusted([r, s], 0.5) == 0.5;
    InteriorOfThree(0.0, 5.4, 10.0);
    InteriorOfThree(0.0, 5.8, 10.0);
    InsertOne(r, 5.4, 0.5);
    InsertIntoThree(0.0, 5.0, 10.0, 5.4, 0.5);
    InsertOne(r, 5.8, 0.5);
    InsertIntoThree(0.0, 5.0, 10.0, 5.8, 0.5);
    var g := Knots([0.0, 5.0, 5.8, 10.0]);
    assert ss[1..] == [s, t];
    GatheredOfTwo(r, s, t, 0.5);
    InteriorOfFour(0.0, 5.0, 5.8, 10.0);
    InsertTwo(s, 5.0, 5.8, 0.5);
    InsertIntoThree(0.0, 5.4, 10.0, 5.0, 0.5);
    InsertIntoThree(0.0, 5.4, 10.0, 5.8, 0.5);
    assert Final(ss, 0.5)[1] == s;
  }

  lemma GatheredOfTwo(r: seq<Knot>, s: seq<Knot>, t: seq<Knot>, tol: real)
    ensures Gathered(r, [s, t], tol) == InsertAll(InsertAll(r, Interior(s), tol), Interior(t), tol)
  {
    hide InsertAll, Interior;
    assert [s, t][1..] == [t];
    GatheredOfOne(InsertAll(r, Interior(s), tol), t, tol);
  }

  lemma GatheredOfOne(s: seq<Knot>, t: seq<Knot>, tol: real)
    ensures Gathered(s, [t], tol) == InsertAll(s, Interior(t), tol)
  {
    hide InsertAll, Interior;
    var none: seq<seq<Knot>> := [t][1..];
    assert none == [];
  }

  lemma InteriorOfFour(a: real, b: real, c: real, d: real)
    ensures Interior(Knots([a, b, c, d])) == Knots([b, c])
  {
  }

  /** A knot halfway between two knots of another spline, at just the tolerance from both. */
  lemma HalfwayKnotFails()
    ensures var ss := [Knots([0.0, 5.0, 10.0]), Knots([0.0, 4.0, 6.0, 10.0])];
            Adjusted(ss, 1.0) == 1.0 && HaveSameRange(ss, 1.0) && !SameNumbers(Final(ss, 1.0))
  {
    hide Insert, InsertAll, Interior, MinStep;
    var s, t := Knots([0.0, 5.0, 10.0]), Knots([0.0, 4.0, 6.0, 10.0]);
    var ss := [s, t];
    MinStepOfThree(0.0, 5.0, 10.0, 1.0);
    MinStepOfFour();
    assert ss[..1] == [s] && ss[..1][..0] == [] && ss[1..] == [t];
    GatheredOfOne(s, t, 1.0);
    assert Adjusted([], 1.0) == 1.0 && Adjusted([s], 1.0) == 1.0;
    InteriorOfThree(0.0, 5.0, 10.0);
    InteriorOfFour(0.0, 4.0, 6.0, 10.0);
    InsertTwo(s, 4.0, 6.0, 1.0);
    InsertIntoThree(0.0, 5.0, 10.0, 4.0, 1.0);
    InsertIntoThree(0.0, 5.0, 10.0, 6.0, 1.0);
    assert Gathered(s, [t], 1.0) == s;
    InsertOne(t, 5.0, 1.0);
    InsertIntoFour();
    assert |Final(ss, 1.0)[1]| == 4 && |Final(ss, 1.0)[0]| == 3;
  }

  /** Ends that differ by less than the tolerance, but by more than the adjusted one: the inner knot of one spline is
      close to the end of the other. */
  lemma EndsApartFail()
    ensures var ss := [Knots([0.0, 2.0, 20.0]), Knots([1.8, 3.8, 20.0])];
            && Adjusted(ss, 2.0) == 1.0 && HaveSameRange(ss, 2.0) && !SameNumbers(Final(ss, 1.0))
            && CloseIsTransitive(AllValues(ss), 1.0)
  {
    hide Insert, InsertAll, Interior, MinStep, CloseIsTransitive, AllValues;
    var s, t := Knots([0.0, 2.0, 20.0]), Knots([1.8, 3.8, 20.0]);
    var ss := [s, t];
    assert ss[..1] == [s] && ss[..1][..0] == [] && ss[1..] == [t];
    GatheredOfOne(s, t, 1.0);
    assert Adjusted(ss, 2.0) == 1.0 by {
      MinStepOfThree(0.0, 2.0, 20.0, 2.0);
      MinStepOfThree(1.8, 3.8, 20.0, 1.0);
      assert Adjusted([], 2.0) == 2.0 && Adjusted([s], 2.0) == 1.0;
    }
    EndsAreTransitive();
    InteriorOfThree(1.8, 3.8, 20.0);
    InsertOne(s, 3.8, 1.0);
    InsertIntoThree(0.0, 2.0, 20.0, 3.8, 1.0);
    var g := Knots([0.0, 2.0, 3.8, 20.0]);
    assert Gathered(s, [t], 1.0) == g;
    InteriorOfFour(0.0, 2.0, 3.8, 20.0);
    InsertTwo(t, 2.0, 3.8, 1.0);
    InsertAtEnds();
    assert |Final(ss, 1.0)[1]| == 3 && |Final(ss, 1.0)[0]| == 4;
  }

  lemma EndsAreTransitive()
    ensures CloseIsTransitive(AllValues([Knots([0.0, 2.0, 20.0]), Knots([1.8, 3.8, 20.0])]), 1.0)
  {
    hide AllValues, Knots;
    var ss := [Knots([0.0, 2.0, 20.0]), Knots([1.8, 3.8, 20.0])];
    forall x | x in AllValues(ss)
      ensures x == 0.0 || x == 2.0 || x == 20.0 || x == 1.8 || x == 3.8
    {
      var i := InOne(ss, x);
      ValueOfThree(0.0, 2.0, 20.0, x);
      ValueOfThree(1.8, 3.8, 20.0, x);
    }
  }

  lemma ValueOfThree(a: real, b: real, c: real, x: real)
    ensures x in Values(Knots([a, b, c])) ==> x == a || x == b || x == c
  {
  }

  lemma InsertAtEnds()
    ensures |Insert(Insert(Knots([1.8, 3.8, 20.0]), 2.0, 1, 1.0), 3.8, 1, 1.0)| == 3
  {
    var t := Knots([1.8, 3.8, 20.0]);
    assert Insert(t, 2.0, 1, 1.0) == t;
    InsertIntoThree(1.8, 3.8, 20.0, 3.8, 1.0);
  }

  lemma MinStepOfFour()
    ensures MinStep(Knots([0.0, 4.0, 6.0, 10.0]), 1.0) == 1.0
  {
    var t := Knots([0.0, 4.0, 6.0, 10.0]);
    assert t[..3] == Knots([0.0, 4.0, 6.0]);
    MinStepOfThree(0.0, 4.0, 6.0, 1.0);
  }

  lemma InsertIntoFour()
    ensures Insert(Knots([0.0, 4.0, 6.0, 10.0]), 5.0, 1, 1.0) == Knots([0.0, 4.0, 6.0, 10.0])
  {
    var t := Knots([0.0, 4.0, 6.0, 10.0]);
    assert t[1..] == Knots([4.0, 6.0, 10.0]);
    assert Insert(t[1..], 5.0, 1, 1.0) == t[1..];
  }
}
