/** The legs of a control polygon, one coordinate at a time, and what subdivision does to them. */
module Legs {
  import opened Bezier

  /** The differences of neighbours. */
  function Differences(p: seq<real>): (r: seq<real>)
    requires p != []
    ensures |r| == |p| - 1 && forall i :: 0 <= i < |r| ==> r[i] == p[i + 1] - p[i]
  {
    seq(|p| - 1, i requires 0 <= i < |p| - 1 => p[i + 1] - p[i])
  }

  function Times(k: real, x: real): real {
    k * x
  }

  function PlusTimes(a: real, k: real, x: real): real {
    a + k * x
  }

  function Scaled(p: seq<real>, k: real): (r: seq<real>)
    ensures |r| == |p| && forall i :: 0 <= i < |r| ==> r[i] == Times(k, p[i])
  {
    seq(|p|, i requires 0 <= i < |p| => Times(k, p[i]))
  }

  lemma LerpOfDifference(u: real, a: real, b: real, c: real)
    ensures Lerp(u, b, c) - Lerp(u, a, b) == Lerp(u, b - a, c - b)
  {
  }

  lemma DifferencesOfStep(p: seq<real>, u: real)
    requires |p| >= 2
    ensures Differences(Step(p, u)) == Step(Differences(p), u)
  {
    hide *;
    forall i | 0 <= i < |p| - 2
      ensures Differences(Step(p, u))[i] == Step(Differences(p), u)[i]
    {
      LerpOfDifference(u, p[i], p[i + 1], p[i + 2]);
    }
  }

  lemma LerpOfDifferences(t: real, a: real, b: real, c: real, d: real)
    ensures Lerp(t, c, d) - Lerp(t, a, b) == Lerp(t, c - a, d - b)
  {
  }

  lemma SlicesOfDifferences(p: seq<real>)
    requires |p| >= 2
    ensures var n := |p| - 1;
            && Differences(p[..n]) == Differences(p)[..n - 1] && Differences(p[1..]) == Differences(p)[1..]
            && Differences(p) == Differences(p[..n]) + [p[n] - p[n - 1]]
  {
    hide *;
    var n, d := |p| - 1, Differences(p);
    forall i | 0 <= i < n - 1
      ensures Differences(p[..n])[i] == d[..n - 1][i] && Differences(p[1..])[i] == d[1..][i]
    {
      assert p[..n][i] == p[i] && p[..n][i + 1] == p[i + 1] && p[1..][i] == p[i + 1] && p[1..][i + 1] == p[i + 2];
      assert d[1..][i] == d[i + 1] == p[i + 2] - p[i + 1];
    }
    assert Differences(p[..n]) == d[..n - 1];
    assert d == d[..n - 1] + [d[n - 1]];
  }

  lemma {:induction false} BlendOfDifferences(p: seq<real>, t: real)
    requires |p| >= 2
    ensures Blend(Differences(p), t) == Blend(p[1..], t) - Blend(p[..|p| - 1], t)
    decreases |p|
  {
    hide Lerp, Differences, Scaled, Combined, Times, PlusTimes, Step;
    var n := |p| - 1;
    var d := Differences(p);
    if n > 1 {
      BlendOfDifferences(p[..n], t);
      BlendOfDifferences(p[1..], t);
      SlicesOfDifferences(p);
      assert p[..n][1..] == p[1..n] == p[1..][..n - 1] && p[..n][..n - 1] == p[..n - 1] && p[1..][1..] == p[2..];
      LerpOfDifferences(t, Blend(p[..n - 1], t), Blend(p[1..n], t), Blend(p[1..n], t), Blend(p[2..], t));
    }
  }

  lemma LastOfSub(p: seq<real>, u: real, v: real)
    requires p != []
    ensures Sub(p, u, v)[|p| - 1] == Blend(p, v)
  {
  }

  lemma LerpStep(u: real, v: real, a: real, b: real)
    ensures Lerp(v, a, b) - Lerp(u, a, b) == Times(v - u, b - a)
  {
  }

  /** The legs of a part are the part of the legs, scaled by the width. */
  lemma {:induction false} DifferencesOfSub(p: seq<real>, u: real, v: real)
    requires |p| >= 2
    ensures Differences(Sub(p, u, v)) == Scaled(Sub(Differences(p), u, v), v - u)
    decreases |p|
  {
    hide Lerp, Differences, Scaled, Combined, Times, PlusTimes, Step;
    var n := |p| - 1;
    var q, d := Step(p, u), Differences(p);
    var r := Sub(p, u, v);
    LastOfSub(q, u, v);
    BlendOfStep(p, u, v);
    BlendOfDifferences(p, v);
    LerpStep(u, v, Blend(p[..n], v), Blend(p[1..], v));
    assert r == Sub(q, u, v) + [Blend(p, v)];
    assert r[n] - r[n - 1] == Times(v - u, Blend(d, v));
    if n > 1 {
      DifferencesOfSub(q, u, v);
      DifferencesOfStep(p, u);
      assert Sub(d, u, v) == Sub(Step(d, u), u, v) + [Blend(d, v)];
      SlicesOfDifferences(r);
      assert r[..n] == Sub(q, u, v);
    }
  }

  lemma {:induction false} SubInHull(p: seq<real>, u: real, v: real, lo: real, hi: real)
    requires p != [] && 0.0 <= u <= 1.0 && 0.0 <= v <= 1.0 && forall i :: 0 <= i < |p| ==> lo <= p[i] <= hi
    ensures forall i :: 0 <= i < |p| ==> lo <= Sub(p, u, v)[i] <= hi
    decreases |p|
  {
    hide Lerp, Blend;
    if |p| > 1 {
      var q := Step(p, u);
      forall i | 0 <= i < |q|
        ensures lo <= q[i] <= hi
      {
        Between(u, lo, hi, p[i], p[i + 1]);
      }
      SubInHull(q, u, v, lo, hi);
      BlendInHull(p, v, lo, hi);
    }
  }

  // Linear combinations of coordinates.

  function Combined(a: seq<real>, b: seq<real>, k: real): (r: seq<real>)
    requires |a| == |b|
    ensures |r| == |a| && forall i :: 0 <= i < |r| ==> r[i] == PlusTimes(a[i], k, b[i])
  {
    seq(|a|, i requires 0 <= i < |a| => PlusTimes(a[i], k, b[i]))
  }

  lemma LerpOfCombined(t: real, a: real, b: real, c: real, d: real, k: real)
    ensures Lerp(t, PlusTimes(a, k, c), PlusTimes(b, k, d)) == PlusTimes(Lerp(t, a, b), k, Lerp(t, c, d))
  {
    assert k * ((1.0 - t) * c) == (1.0 - t) * (k * c);
    assert k * (t * d) == t * (k * d);
  }

  lemma StepOfCombined(a: seq<real>, b: seq<real>, k: real, u: real)
    requires |a| == |b| && a != []
    ensures Step(Combined(a, b, k), u) == Combined(Step(a, u), Step(b, u), k)
  {
    hide *;
    forall i | 0 <= i < |a| - 1
      ensures Step(Combined(a, b, k), u)[i] == Combined(Step(a, u), Step(b, u), k)[i]
    {
      LerpOfCombined(u, a[i], a[i + 1], b[i], b[i + 1], k);
    }
  }

  lemma {:induction false} BlendOfCombined(a: seq<real>, b: seq<real>, k: real, t: real)
    requires |a| == |b| && a != []
    ensures Blend(Combined(a, b, k), t) == PlusTimes(Blend(a, t), k, Blend(b, t))
    decreases |a|
  {
    hide Lerp, Differences, Scaled, Combined, Times, PlusTimes, Step;
    var n := |a| - 1;
    if n > 0 {
      var c := Combined(a, b, k);
      assert c[..n] == Combined(a[..n], b[..n], k) && c[1..] == Combined(a[1..], b[1..], k);
      BlendOfCombined(a[..n], b[..n], k, t);
      BlendOfCombined(a[1..], b[1..], k, t);
      LerpOfCombined(t, Blend(a[..n], t), Blend(a[1..], t), Blend(b[..n], t), Blend(b[1..], t), k);
    }
  }

  lemma {:induction false} SubOfCombined(a: seq<real>, b: seq<real>, k: real, u: real, v: real)
    requires |a| == |b| && a != []
    ensures Sub(Combined(a, b, k), u, v) == Combined(Sub(a, u, v), Sub(b, u, v), k)
    decreases |a|
  {
    hide Lerp, Differences, Scaled, Combined, Times, PlusTimes, Step, Blend;
    if |a| > 1 {
      StepOfCombined(a, b, k, u);
      SubOfCombined(Step(a, u), Step(b, u), k, u, v);
      BlendOfCombined(a, b, k, v);
    }
  }
}
