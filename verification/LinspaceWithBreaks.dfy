/** Equally spaced values into which given break points are inserted, in place of a close value where there is one. */
module LinspaceWithBreaks {
  import opened Wrappers

  const CLOSE: real := 0.3
  const HALF: real := 0.5 + 1.0 / 100000000.0
  const MIN_SPACING: real := 0.8

  predicate IsInsideTolerance(a: real, tol: real, v: real) {
    (if a >= v then a - v else v - a) <= tol
  }

  /** The values inside the tolerance are those of an interval, ends included. */
  lemma InsideIsWithin(a: real, tol: real, v: real)
    ensures IsInsideTolerance(a, tol, v) <==> a - tol <= v <= a + tol
  {
  }

  /** Index of the first value within the tolerance, or the length if there is none. */
  function FirstWithin(s: seq<real>, a: real, tol: real): (i: nat)
    ensures i <= |s|
    ensures i < |s| ==> IsInsideTolerance(a, tol, s[i])
    ensures forall k :: 0 <= k < i ==> !IsInsideTolerance(a, tol, s[k])
  {
    if s == [] || IsInsideTolerance(a, tol, s[0]) then 0 else 1 + FirstWithin(s[1..], a, tol)
  }

  method FindIf(s: seq<real>, a: real, tol: real) returns (i: nat)
    ensures i == FirstWithin(s, a, tol)
  {
    i := 0;
    while i < |s| && !IsInsideTolerance(a, tol, s[i])
      invariant i <= |s|
      invariant FirstWithin(s, a, tol) == i + FirstWithin(s[i..], a, tol)
    {
      i := i + 1;
    }
  }

  /** n values in steps of du. */
  datatype Linspace = Linspace(umin: real, du: real, n: nat) {
    function At(i: int): real {
      i as real * du + umin
    }

    function Values(): (s: seq<real>)
      ensures |s| == n && forall i :: 0 <= i < n ==> s[i] == At(i)
    {
      seq(n, i => At(i))
    }

    predicate Valid() {
      du > 0.0 && n >= 2
    }

    ghost predicate IsValue(v: real) {
      exists i :: 0 <= i < n && At(i) == v
    }

    ghost predicate Spans(b: real) {
      umin <= b <= At(n - 1)
    }
  }

  function Between(umin: real, umax: real, n: nat): (l: Linspace)
    requires n >= 2
  {
    Linspace(umin, (umax - umin) / (n - 1) as real, n)
  }

  lemma BetweenEndsAt(umin: real, umax: real, n: nat)
    requires n >= 2
    ensures var l := Between(umin, umax, n); l.At(0) == umin && l.At(n - 1) == umax && (umin < umax ==> l.Valid())
  {
    var m, d := (n - 1) as real, umax - umin;
    assert m * (d / m) == d;
    assert d > 0.0 ==> d / m > 0.0;
  }

  /** One break put in, or None where the original writes through the end of the vector. */
  function Inserted(s: seq<real>, b: real, du: real): (r: Option<seq<real>>) {
    var i := FirstWithin(s, b, du * CLOSE);
    if i < |s| then
      Some(s[i := b])
    else
      var k := FirstWithin(s, b, HALF * du);
      if k == |s| then None
      else if s[k] > b then Some(s[..k] + [b] + s[k..])
      else Some(s[..k + 1] + [b] + s[k + 1..])
  }

  function AllInserted(s: seq<real>, breaks: seq<real>, du: real): (r: Option<seq<real>>) {
    if breaks == [] then
      Some(s)
    else
      match AllInserted(s, breaks[..|breaks| - 1], du)
      case None => None
      case Some(t) => Inserted(t, breaks[|breaks| - 1], du)
  }

  lemma {:induction false} NoneStaysNone(s: seq<real>, breaks: seq<real>, m: nat, du: real)
    requires m <= |breaks| && AllInserted(s, breaks[..m], du).None?
    ensures AllInserted(s, breaks, du).None?
    decreases |breaks|
  {
    if m == |breaks| {
      assert breaks[..m] == breaks;
    } else {
      var rest := breaks[..|breaks| - 1];
      assert rest[..m] == breaks[..m];
      NoneStaysNone(s, rest, m, du);
    }
  }

  method InsertBreak(s: seq<real>, b: real, du: real) returns (r: Option<seq<real>>)
    ensures r == Inserted(s, b, du)
  {
    var i := FindIf(s, b, du * CLOSE);
    if i != |s| {
      r := Some(s[i := b]);
    } else {
      var k := FindIf(s, b, HALF * du);
      if k == |s| {
        r := None;
      } else if s[k] > b {
        r := Some(s[..k] + [b] + s[k..]);
      } else {
        r := Some(s[..k + 1] + [b] + s[k + 1..]);
      }
    }
  }

  /** None stands for a write through the end of the vector. */
  method Perform(umin: real, umax: real, n: nat, breaks: seq<real>) returns (r: Option<seq<real>>)
    requires n >= 2
    ensures r == AllInserted(Between(umin, umax, n).Values(), breaks, Between(umin, umax, n).du)
  {
    hide Inserted;
    var du := (umax - umin) / (n - 1) as real;
    var result := [];
    for i := 0 to n
      invariant |result| == i && forall k :: 0 <= k < i ==> result[k] == Between(umin, umax, n).At(k)
    {
      result := result + [i as real * du + umin];
    }
    ghost var s := Between(umin, umax, n).Values();
    assert result == s;
    r := Some(result);
    for m := 0 to |breaks|
      invariant r.Some? && AllInserted(s, breaks[..m], du) == r
    {
      assert breaks[..m + 1][..m] == breaks[..m];
      r := InsertBreak(r.value, breaks[m], du);
      if r.None? {
        NoneStaysNone(s, breaks, m + 1, du);
        return;
      }
    }
    assert breaks[..|breaks|] == breaks;
  }

  // What a run with widely spaced breaks keeps.

  ghost predicate StrictlySorted(s: seq<real>) {
    forall i, j :: 0 <= i < j < |s| ==> s[i] < s[j]
  }

  ghost predicate Apart(v: real, done: seq<real>, gap: real) {
    forall d :: d in done ==> !IsInsideTolerance(d, gap, v)
  }

  ghost predicate Spaced(breaks: seq<real>, gap: real) {
    forall i, j :: 0 <= i < j < |breaks| ==> !IsInsideTolerance(breaks[i], gap, breaks[j])
  }

  /** A value in the result is a break, or an original value that is not close to a break. */
  ghost predicate Origin(l: Linspace, v: real, done: seq<real>) {
    v in done || (l.IsValue(v) && Apart(v, done, l.du * CLOSE))
  }

  /** An original value is still there, or has a break close to it. */
  ghost predicate Represented(l: Linspace, v: real, s: seq<real>, done: seq<real>) {
    v in s || !Apart(v, done, l.du * CLOSE)
  }

  ghost predicate Refines(l: Linspace, s: seq<real>, done: seq<real>) {
    && StrictlySorted(s)
    && (forall v :: v in s ==> Origin(l, v, done))
    && (forall v :: l.IsValue(v) ==> Represented(l, v, s, done))
    && (forall d :: d in done ==> d in s)
  }

  lemma Step(l: Linspace, i: int, j: int)
    requires l.Valid()
    ensures l.At(i + 1) == l.At(i) + l.du
    ensures i < j ==> l.At(i) + l.du <= l.At(j)
  {
    RealStep(i, j);
    StepOf(l.umin, l.du, i as real, j as real);
    StepOf(l.umin, l.du, i as real, (i + 1) as real);
  }

  lemma RealStep(i: int, j: int)
    ensures i < j ==> j as real >= i as real + 1.0
  {
    assert i < j ==> (j - i) as real >= 1.0;
  }

  lemma StepOf(umin: real, du: real, x: real, y: real)
    requires du > 0.0
    ensures y >= x + 1.0 ==> (x * du + umin) + du <= y * du + umin
    ensures y == x + 1.0 ==> y * du + umin == (x * du + umin) + du
  {
    if y >= x + 1.0 {
      ScaledStep(x, y, du);
    }
  }

  lemma ScaledStep(x: real, y: real, d: real)
    requires d > 0.0 && y >= x + 1.0
    ensures x * d + d <= y * d
  {
    var a := y - x - 1.0;
    NonNegative(a, d);
    assert a * d == y * d - x * d - d;
  }

  lemma NonNegative(a: real, b: real)
    requires a >= 0.0 && b >= 0.0
    ensures a * b >= 0.0
  {
  }

  lemma ValuesFarApart(l: Linspace, u: real, v: real)
    requires l.Valid() && l.IsValue(u) && l.IsValue(v) && u < v
    ensures u + l.du <= v
  {
    var i :| 0 <= i < l.n && l.At(i) == u;
    var j :| 0 <= j < l.n && l.At(j) == v;
    hide *;
    Step(l, i, j);
    Step(l, j, i);
  }

  lemma {:induction false} NearestValue(l: Linspace, b: real, m: nat) returns (v: real)
    requires l.Valid() && 0 < m < l.n && l.umin <= b <= l.At(m)
    ensures l.IsValue(v) && IsInsideTolerance(v, 0.5 * l.du, b)
    decreases m
  {
    Step(l, m - 1, m);
    if b < l.At(m - 1) && m > 1 {
      v := NearestValue(l, b, m - 1);
    } else {
      assert m == 1 ==> l.At(m - 1) == l.umin;
      v := if b - l.At(m - 1) <= 0.5 * l.du then l.At(m - 1) else l.At(m);
    }
  }

  /** A close value that a break replaces is an original one, and all others stay on their side and away from the
      break. */
  lemma BesideReplaced(l: Linspace, done: seq<real>, b: real, c: real, e: real)
    requires l.Valid() && Origin(l, c, done) && Origin(l, e, done) && e != c
    requires Apart(b, done, l.du * CLOSE) && IsInsideTolerance(b, l.du * CLOSE, c)
    ensures c !in done && !IsInsideTolerance(e, l.du * CLOSE, b) && (e < c ==> e < b) && (e > c ==> e > b)
  {
    hide l.IsValue;
    if e !in done {
      if e < c {
        ValuesFarApart(l, e, c);
      } else {
        ValuesFarApart(l, c, e);
      }
    }
  }

  lemma ElementsApart(l: Linspace, done: seq<real>, u: real, v: real)
    requires l.Valid() && Origin(l, u, done) && Origin(l, v, done) && u < v && Spaced(done, l.du * CLOSE)
    ensures u + l.du * CLOSE < v
  {
    hide l.IsValue;
    if u !in done && v !in done {
      ValuesFarApart(l, u, v);
    }
  }

  lemma OriginOfOthers(l: Linspace, done: seq<real>, b: real, e: real)
    requires Origin(l, e, done) && !IsInsideTolerance(b, l.du * CLOSE, e)
    ensures Origin(l, e, done + [b])
  {
  }

  lemma NearBreak(l: Linspace, v: real, done: seq<real>, b: real)
    ensures IsInsideTolerance(b, l.du * CLOSE, v) ==> !Apart(v, done + [b], l.du * CLOSE)
    ensures !Apart(v, done, l.du * CLOSE) ==> !Apart(v, done + [b], l.du * CLOSE)
  {
    assert b in done + [b];
    assert forall d :: d in done ==> d in done + [b];
  }

  lemma ReplacedRefines(l: Linspace, s: seq<real>, done: seq<real>, b: real, i: nat)
    requires l.Valid() && Refines(l, s, done) && Apart(b, done, l.du * CLOSE)
    requires i < |s| && IsInsideTolerance(b, l.du * CLOSE, s[i])
    ensures Refines(l, s[i := b], done + [b])
  {
    hide l.IsValue, Origin, FirstWithin, Apart;
    var c, t := s[i], s[i := b];
    assert Origin(l, c, done);
    forall k | 0 <= k < |s| && k != i
      ensures Origin(l, s[k], done + [b]) && c !in done && (k < i ==> s[k] < b) && (k > i ==> s[k] > b)
    {
      BesideReplaced(l, done, b, c, s[k]);
      OriginOfOthers(l, done, b, s[k]);
    }
    BreakIsOrigin(l, done, b);
    forall v | v in t
      ensures Origin(l, v, done + [b])
    {
      var k :| 0 <= k < |t| && t[k] == v;
    }
    forall v | v in s && v != c
      ensures v in t
    {
      var k :| 0 <= k < |s| && s[k] == v;
      assert t[k] == v;
    }
    assert t[i] == b;
    forall v | l.IsValue(v)
      ensures Represented(l, v, t, done + [b])
    {
      assert Represented(l, v, s, done);
      NearBreak(l, v, done, b);
    }
    CloseIsNoBreak(l, done, b, c);
  }

  lemma BreakIsOrigin(l: Linspace, done: seq<real>, b: real)
    ensures Origin(l, b, done + [b])
  {
  }

  lemma CloseIsNoBreak(l: Linspace, done: seq<real>, b: real, c: real)
    requires l.Valid() && Apart(b, done, l.du * CLOSE) && IsInsideTolerance(b, l.du * CLOSE, c)
    ensures c !in done
  {
  }

  lemma InsertedIsSorted(s: seq<real>, b: real, k: nat)
    requires StrictlySorted(s) && k <= |s|
    requires (forall j :: 0 <= j < k ==> s[j] < b) && (forall j :: k <= j < |s| ==> b < s[j])
    ensures StrictlySorted(s[..k] + [b] + s[k..])
  {
    var t := s[..k] + [b] + s[k..];
    forall j | 0 <= j < |t|
      ensures t[j] == if j < k then s[j] else if j == k then b else s[j - 1]
    {
    }
  }

  lemma InsertedHas(s: seq<real>, b: real, k: nat)
    requires k <= |s|
    ensures var t := s[..k] + [b] + s[k..]; forall v :: v in t <==> v == b || v in s
  {
    var t := s[..k] + [b] + s[k..];
    assert t[k] == b;
    assert s == s[..k] + s[k..];
  }

  lemma InsertedRefines(l: Linspace, s: seq<real>, done: seq<real>, b: real, k: nat)
    requires l.Valid() && Refines(l, s, done) && k <= |s|
    requires forall j :: 0 <= j < |s| ==> !IsInsideTolerance(b, l.du * CLOSE, s[j]) && (j < k <==> s[j] < b)
    requires forall j :: k <= j < |s| ==> b < s[j]
    ensures Refines(l, s[..k] + [b] + s[k..], done + [b])
  {
    hide l.IsValue, Origin, FirstWithin, Apart, IsInsideTolerance, StrictlySorted, Represented;
    var t := s[..k] + [b] + s[k..];
    InsertedIsSorted(s, b, k);
    InsertedHas(s, b, k);
    BreakIsOrigin(l, done, b);
    forall v | v in t
      ensures Origin(l, v, done + [b])
    {
      if v != b {
        OriginOfOthers(l, done, b, v);
      }
    }
    forall v | l.IsValue(v)
      ensures Represented(l, v, t, done + [b])
    {
      NearBreak(l, v, done, b);
      StillRepresented(l, v, s, t, done, b);
    }
  }

  lemma StillRepresented(l: Linspace, v: real, s: seq<real>, t: seq<real>, done: seq<real>, b: real)
    requires Represented(l, v, s, done) && (v in s ==> v in t)
    requires !Apart(v, done, l.du * CLOSE) ==> !Apart(v, done + [b], l.du * CLOSE)
    ensures Represented(l, v, t, done + [b])
  {
  }

  /** Where the break goes, all smaller values are before it and all larger ones behind. */
  lemma PlaceOfInserted(l: Linspace, s: seq<real>, done: seq<real>, b: real)
    requires l.Valid() && Refines(l, s, done) && Spaced(done, l.du * CLOSE)
    requires FirstWithin(s, b, l.du * CLOSE) == |s| && FirstWithin(s, b, HALF * l.du) < |s|
    ensures var k := FirstWithin(s, b, HALF * l.du);
            && s[k] != b
            && (forall j :: 0 <= j < k ==> s[j] < b)
            && (forall j :: k < j < |s| ==> s[j] > b)
  {
    hide l.IsValue, Origin, FirstWithin;
    var k := FirstWithin(s, b, HALF * l.du);
    forall j | k < j < |s|
      ensures s[j] > b
    {
      assert s[k] in s && s[j] in s;
      ElementsApart(l, done, s[k], s[j]);
    }
  }

  /** No earlier break is within half a step of b, and every original value that near has been replaced for an earlier
      break. */
  ghost predicate Blocked(l: Linspace, done: seq<real>, b: real) {
    && Apart(b, done, HALF * l.du)
    && forall v :: l.IsValue(v) && IsInsideTolerance(v, HALF * l.du, b) ==> !Apart(v, done, l.du * CLOSE)
  }

  ghost predicate BlockedAt(l: Linspace, breaks: seq<real>, m: nat) {
    m < |breaks| && Blocked(l, breaks[..m], breaks[m])
  }

  lemma SearchFails(l: Linspace, s: seq<real>, done: seq<real>, b: real)
    requires l.Valid() && Refines(l, s, done)
    ensures FirstWithin(s, b, HALF * l.du) == |s| <==> Blocked(l, done, b)
  {
    hide l.IsValue, StrictlySorted, FirstWithin, IsInsideTolerance;
    var i := FirstWithin(s, b, HALF * l.du);
    if i < |s| {
      assert Origin(l, s[i], done);
      Symmetric(b, HALF * l.du, s[i]);
    } else {
      forall v | v in s
        ensures !IsInsideTolerance(v, HALF * l.du, b)
      {
        Symmetric(b, HALF * l.du, v);
      }
      forall v | l.IsValue(v) && IsInsideTolerance(v, HALF * l.du, b)
        ensures !Apart(v, done, l.du * CLOSE)
      {
        assert Represented(l, v, s, done);
      }
    }
  }

  lemma Symmetric(a: real, tol: real, v: real)
    ensures IsInsideTolerance(a, tol, v) <==> IsInsideTolerance(v, tol, a)
  {
  }

  /** One break more than 0.3 du from the earlier ones: lost exactly if it is blocked. */
  lemma InsertKeepsRefines(l: Linspace, s: seq<real>, done: seq<real>, b: real)
    requires l.Valid() && Refines(l, s, done) && Spaced(done, l.du * CLOSE) && Apart(b, done, l.du * CLOSE)
    ensures Inserted(s, b, l.du).None? <==> Blocked(l, done, b)
    ensures Inserted(s, b, l.du).Some? ==> Refines(l, Inserted(s, b, l.du).value, done + [b])
  {
    hide l.IsValue, Origin, Apart, Spaced, Refines, Blocked;
    var i, k := FirstWithin(s, b, l.du * CLOSE), FirstWithin(s, b, HALF * l.du);
    SearchFails(l, s, done, b);
    if i < |s| {
      assert IsInsideTolerance(b, HALF * l.du, s[i]);
      ReplacedRefines(l, s, done, b, i);
    } else if k < |s| {
      PlaceOfInserted(l, s, done, b);
      InsertedRefines(l, s, done, b, if s[k] > b then k else k + 1);
    }
  }

  lemma SpacedSplits(breaks: seq<real>, gap: real)
    requires Spaced(breaks, gap) && breaks != []
    ensures var m := |breaks| - 1; Spaced(breaks[..m], gap) && Apart(breaks[m], breaks[..m], gap)
  {
  }

  lemma ValuesRefine(l: Linspace)
    requires l.Valid()
    ensures Refines(l, l.Values(), [])
  {
    var s := l.Values();
    forall i, j | 0 <= i < j < |s|
      ensures s[i] < s[j]
    {
      Step(l, i, j);
    }
    forall v | l.IsValue(v)
      ensures v in s
    {
      var i :| 0 <= i < l.n && l.At(i) == v;
      assert s[i] == v;
    }
    forall v | v in s
      ensures l.IsValue(v)
    {
      var i :| 0 <= i < |s| && s[i] == v;
      assert l.At(i) == v;
    }
  }

  /** For breaks more than 0.3 du apart, in range or not: when the vector is written through its end. */
  lemma {:induction false} BreakIsLost(l: Linspace, breaks: seq<real>)
    requires l.Valid() && Spaced(breaks, l.du * CLOSE)
    ensures AllInserted(l.Values(), breaks, l.du).None? <==> exists m :: BlockedAt(l, breaks, m)
    ensures AllInserted(l.Values(), breaks, l.du).Some? ==>
            Refines(l, AllInserted(l.Values(), breaks, l.du).value, breaks)
    decreases |breaks|
  {
    hide l.Spans, Refines, Apart, Spaced, Inserted, Blocked;
    if breaks == [] {
      ValuesRefine(l);
    } else {
      var m := |breaks| - 1;
      SpacedSplits(breaks, l.du * CLOSE);
      BreakIsLost(l, breaks[..m]);
      forall k: nat | k < m
        ensures BlockedAt(l, breaks[..m], k) <==> BlockedAt(l, breaks, k)
      {
        assert breaks[..m][..k] == breaks[..k];
      }
      assert breaks == breaks[..m] + [breaks[m]];
      var r := AllInserted(l.Values(), breaks[..m], l.du);
      if r.Some? {
        InsertKeepsRefines(l, r.value, breaks[..m], breaks[m]);
        assert BlockedAt(l, breaks, m) <==> Blocked(l, breaks[..m], breaks[m]);
      } else {
        var k: nat :| BlockedAt(l, breaks[..m], k);
        assert BlockedAt(l, breaks, k);
      }
    }
  }

  /** A break in range and more than 0.8 du from the earlier ones is not blocked. */
  lemma SpacedIsNotBlocked(l: Linspace, done: seq<real>, b: real)
    requires l.Valid() && Apart(b, done, l.du * MIN_SPACING) && l.Spans(b)
    ensures !Blocked(l, done, b)
  {
    hide l.IsValue;
    var v := NearestValue(l, b, l.n - 1);
    assert IsInsideTolerance(v, HALF * l.du, b);
  }

  /** Breaks in range and more than 0.8 du apart, in any order, all get in, and the result is strictly sorted. */
  lemma SpacedBreaksGetIn(l: Linspace, breaks: seq<real>)
    requires l.Valid() && Spaced(breaks, l.du * MIN_SPACING) && forall b :: b in breaks ==> l.Spans(b)
    ensures AllInserted(l.Values(), breaks, l.du).Some?
    ensures Refines(l, AllInserted(l.Values(), breaks, l.du).value, breaks)
  {
    hide l.Spans, Refines, AllInserted, Blocked, IsInsideTolerance;
    WiderGap(l.du * MIN_SPACING, l.du * CLOSE, breaks);
    BreakIsLost(l, breaks);
    forall m: nat
      ensures !BlockedAt(l, breaks, m)
    {
      if m < |breaks| {
        SpacedIsNotBlocked(l, breaks[..m], breaks[m]);
      }
    }
  }

  /** The promise of the original, for every range and number of values. */
  lemma ContainsEveryBreak(umin: real, umax: real, n: nat, breaks: seq<real>)
    requires n >= 2 && umin < umax
    requires Spaced(breaks, Between(umin, umax, n).du * MIN_SPACING) && forall b :: b in breaks ==> umin <= b <= umax
    ensures var l := Between(umin, umax, n);
            var r := AllInserted(l.Values(), breaks, l.du);
            && r.Some?
            && StrictlySorted(r.value)
            && (forall b :: b in breaks ==> b in r.value)
            && (forall v :: v in r.value ==> umin <= v <= umax)
            && (forall v :: v in r.value && v !in breaks ==> l.IsValue(v) && Apart(v, breaks, l.du * CLOSE))
            && (forall v :: l.IsValue(v) && Apart(v, breaks, l.du * CLOSE) ==> v in r.value)
  {
    hide AllInserted, StrictlySorted, Apart, Spaced;
    var l := Between(umin, umax, n);
    BetweenEndsAt(umin, umax, n);
    assert forall b :: b in breaks ==> l.Spans(b);
    SpacedBreaksGetIn(l, breaks);
    var s := AllInserted(l.Values(), breaks, l.du).value;
    assert Refines(l, s, breaks);
    forall v | v in s
      ensures umin <= v <= umax
      ensures v !in breaks ==> l.IsValue(v) && Apart(v, breaks, l.du * CLOSE)
    {
      assert Origin(l, v, breaks);
      if v !in breaks {
        ValueInRange(l, v);
      }
    }
    forall v | l.IsValue(v) && Apart(v, breaks, l.du * CLOSE)
      ensures v in s
    {
      assert Represented(l, v, s, breaks);
    }
  }

  lemma ValueInRange(l: Linspace, v: real)
    requires l.Valid() && l.IsValue(v)
    ensures l.At(0) <= v <= l.At(l.n - 1)
  {
    var i :| 0 <= i < l.n && l.At(i) == v;
    hide l.At;
    Step(l, 0, i);
    Step(l, i, l.n - 1);
  }

  // The spacing cannot be given up.

  ghost predicate HasRoom(l: Linspace, breaks: seq<real>, delta: real) {
    l.Valid() && Spaced(breaks, l.du * delta) && forall b :: b in breaks ==> l.Spans(b)
  }

  /** Breaks more than delta du apart always get in. */
  ghost predicate IsEnough(delta: real) {
    forall l: Linspace, breaks: seq<real> :: HasRoom(l, breaks, delta) ==> AllInserted(l.Values(), breaks, l.du).Some?
  }

  lemma FirstIs(s: seq<real>, a: real, tol: real, i: nat)
    requires i <= |s| && (i < |s| ==> IsInsideTolerance(a, tol, s[i]))
    requires forall k :: 0 <= k < i ==> !IsInsideTolerance(a, tol, s[k])
    ensures FirstWithin(s, a, tol) == i
  {
  }

  lemma ThreeInserted(s0: seq<real>, s1: seq<real>, s2: seq<real>, a: real, b: real, c: real, du: real)
    requires Inserted(s0, a, du) == Some(s1) && Inserted(s1, b, du) == Some(s2)
    ensures AllInserted(s0, [a, b, c], du) == Inserted(s2, c, du)
  {
    hide Inserted;
    assert [a, b, c][..2] == [a, b] && [a, b][..1] == [a] && [a][..0] == [];
    assert AllInserted(s0, [a], du) == Some(s1);
    assert AllInserted(s0, [a, b], du) == Some(s2);
  }

  /** Two replaced values leave a gap in which no insertion point is found for a third break. */
  lemma GapTooWide()
    ensures AllInserted(Linspace(0.0, 1.0, 4).Values(), [0.7, 2.3, 1.5], 1.0).None?
  {
    hide FirstWithin, AllInserted;
    var s0, s1, s2 := Linspace(0.0, 1.0, 4).Values(), [0.0, 0.7, 2.0, 3.0], [0.0, 0.7, 2.3, 3.0];
    assert s0 == [0.0, 1.0, 2.0, 3.0];
    assert s0[1 := 0.7] == s1 && s1[2 := 2.3] == s2;
    FirstIs(s0, 0.7, CLOSE, 1);
    FirstIs(s1, 2.3, CLOSE, 2);
    FirstIs(s2, 1.5, CLOSE, 4);
    FirstIs(s2, 1.5, HALF, 4);
    ThreeInserted(s0, s1, s2, 0.7, 2.3, 1.5, 1.0);
  }

  lemma GapHasRoom(delta: real)
    ensures delta < MIN_SPACING ==> HasRoom(Linspace(0.0, 1.0, 4), [0.7, 2.3, 1.5], delta)
  {
  }

  /** 0.8 is the least spacing, in steps, that is enough for every input. */
  lemma SpacingThatIsEnough(delta: real)
    ensures IsEnough(delta) <==> delta >= MIN_SPACING
  {
    hide AllInserted;
    if delta >= MIN_SPACING {
      forall l: Linspace, breaks: seq<real> | HasRoom(l, breaks, delta)
        ensures AllInserted(l.Values(), breaks, l.du).Some?
      {
        WiderIsSpaced(breaks, l.du, delta);
        SpacedBreaksGetIn(l, breaks);
      }
    } else {
      GapTooWide();
      GapHasRoom(delta);
    }
  }

  lemma WiderIsSpaced(breaks: seq<real>, du: real, delta: real)
    requires du > 0.0 && delta >= MIN_SPACING && Spaced(breaks, du * delta)
    ensures Spaced(breaks, du * MIN_SPACING)
  {
    NonNegative(du, delta - MIN_SPACING);
    WiderGap(du * delta, du * MIN_SPACING, breaks) by {
      assert du * (delta - MIN_SPACING) == du * delta - du * MIN_SPACING;
    }
  }

  lemma WiderGap(wide: real, gap: real, breaks: seq<real>)
    requires gap <= wide && Spaced(breaks, wide)
    ensures Spaced(breaks, gap)
  {
  }

  // Breaks at any distance from each other.

  lemma ValueStays(s: seq<real>, b: real, du: real, v: real)
    requires v in s && !IsInsideTolerance(b, du * CLOSE, v)
    ensures var r := Inserted(s, b, du); r.Some? ==> v in r.value
  {
    hide FirstWithin, IsInsideTolerance;
    var j :| 0 <= j < |s| && s[j] == v;
    var i, k := FirstWithin(s, b, du * CLOSE), FirstWithin(s, b, HALF * du);
    if i < |s| {
      assert i != j && s[i := b][j] == v;
    } else if k < |s| {
      var m := if s[k] > b then k else k + 1;
      assert s == s[..m] + s[m..];
      assert v in s[..m] || v in s[m..];
    }
  }

  lemma BreakIsIn(s: seq<real>, b: real, du: real)
    ensures var r := Inserted(s, b, du); r.Some? ==> b in r.value
  {
    hide FirstWithin;
    var i, k := FirstWithin(s, b, du * CLOSE), FirstWithin(s, b, HALF * du);
    if i < |s| {
      assert s[i := b][i] == b;
    } else if k < |s| {
      var m := if s[k] > b then k else k + 1;
      assert (s[..m] + [b] + s[m..])[m] == b;
    }
  }

  /** A break gets in and stays unless a later one comes within 0.3 steps of it. */
  lemma {:induction false} BreakSurvives(s: seq<real>, breaks: seq<real>, du: real, m: nat)
    requires m < |breaks| && AllInserted(s, breaks, du).Some?
    requires forall j :: m < j < |breaks| ==> !IsInsideTolerance(breaks[j], du * CLOSE, breaks[m])
    ensures breaks[m] in AllInserted(s, breaks, du).value
    decreases |breaks|
  {
    hide Inserted, IsInsideTolerance;
    var n := |breaks| - 1;
    var before := AllInserted(s, breaks[..n], du).value;
    if m == n {
      BreakIsIn(before, breaks[n], du);
    } else {
      BreakSurvives(s, breaks[..n], du, m);
      ValueStays(before, breaks[n], du, breaks[m]);
    }
  }

  /** Close breaks replace one another, and the result need not be sorted. */
  lemma CloseBreaksReplace()
    ensures AllInserted(Linspace(0.0, 1.0, 4).Values(), [0.69, 0.98, 1.27], 1.0) == Some([0.0, 1.27, 1.0, 2.0, 3.0])
  {
    hide FirstWithin, AllInserted;
    var s0, s1, s2 := Linspace(0.0, 1.0, 4).Values(), [0.0, 0.69, 1.0, 2.0, 3.0], [0.0, 0.98, 1.0, 2.0, 3.0];
    assert s0 == [0.0, 1.0, 2.0, 3.0];
    FirstIs(s0, 0.69, CLOSE, 4);
    FirstIs(s0, 0.69, HALF, 1);
    assert s0[..1] + [0.69] + s0[1..] == s1;
    FirstIs(s1, 0.98, CLOSE, 1);
    assert s1[1 := 0.98] == s2;
    FirstIs(s2, 1.27, CLOSE, 1);
    assert s2[1 := 1.27] == [0.0, 1.27, 1.0, 2.0, 3.0];
    ThreeInserted(s0, s1, s2, 0.69, 0.98, 1.27, 1.0);
  }
}
