/** Three ways to evaluate a polynomial segment: de Casteljau's scheme, de Boor's algorithm and Bernstein
    polynomials. */
module BernsteinForm {
  import opened Bernstein
  import opened ChebyshevToBezier
  import opened Sums
  import Bezier
  import Concatenation
  import opened Legs
  import SmoothJoin

  lemma NextTerm(f: nat -> real, g: nat -> real, k: nat, c: real, b: real)
    requires f(k) == c && g(k) == b
    ensures Dot(f, g, k + 1) == Dot(f, g, k) + Times(c, b)
  {
  }

  /** One more term on both sides. */
  lemma TermSplits(x: real, f: real, h: real, e: real, c: real, b: real, d: real, a: real)
    requires f == Bezier.Lerp(x, h, e) && b == Bezier.Lerp(x, d, a)
    ensures f + Times(c, b) == Bezier.Lerp(x, h + Times(c, d), e + Times(c, a))
  {
    assert c * b == c * ((1.0 - x) * d) + c * (x * a);
    assert c * ((1.0 - x) * d) == (1.0 - x) * (c * d) && c * (x * a) == x * (c * a);
  }

  lemma BernIsLerp(i: int, n: nat, x: real)
    requires n > 0
    ensures Bern(i, n, x) == Bezier.Lerp(x, Bern(i, n - 1, x), Bern(i - 1, n - 1, x))
  {
    hide Bern;
    BernRecursion(i, n, x);
  }

  /** The first k + 1 terms, split by the recursion of the Bernstein polynomials. */
  lemma {:induction false} PartialSplits(p: seq<real>, x: real, k: nat)
    requires |p| >= 2 && k < |p|
    ensures var n := |p| - 1;
            Dot(VectorOf(p), BernVector(n, x), k + 1)
            == Bezier.Lerp(x, Dot(VectorOf(p), BernVector(n - 1, x), k + 1),
                           Dot(VectorOf(p[1..]), BernVector(n - 1, x), k))
  {
    var n := |p| - 1;
    var f, g, h, e := VectorOf(p), BernVector(n, x), BernVector(n - 1, x), VectorOf(p[1..]);
    assert f(k) == p[k] && g(k) == Bern(k, n, x) && h(k) == Bern(k, n - 1, x);
    if k > 0 {
      assert e(k - 1) == p[k] && h(k - 1) == Bern(k - 1, n - 1, x);
    }
    hide *;
    var c, b, d, a := p[k], Bern(k, n, x), Bern(k, n - 1, x), Bern(k - 1, n - 1, x);
    BernIsLerp(k, n, x);
    NextTerm(f, g, k, c, b);
    NextTerm(f, h, k, c, d);
    if k > 0 {
      PartialSplits(p, x, k - 1);
      NextTerm(e, h, k - 1, c, a);
      TermSplits(x, Dot(f, g, k), Dot(f, h, k), Dot(e, h, k - 1), c, b, d, a);
    } else {
      BernOutside(-1, n - 1, x);
      NoTerms(f, g, x, c);
      NoTerms(f, h, x, c);
      NoTerms(e, h, x, c);
      TermSplits(x, 0.0, 0.0, 0.0, c, b, d, a);
    }
  }

  lemma NoTerms(f: nat -> real, g: nat -> real, x: real, c: real)
    ensures Dot(f, g, 0) == 0.0 && Bezier.Lerp(x, 0.0, 0.0) == 0.0 && Times(c, 0.0) == 0.0
  {
  }

  /** De Casteljau's scheme gives the Bernstein sum. */
  lemma {:induction false} BlendIsBernstein(p: seq<real>, x: real)
    requires p != []
    ensures Bezier.Blend(p, x) == Dot(VectorOf(p), BernVector(|p| - 1, x), |p|)
    decreases |p|
  {
    hide Bezier.Lerp;
    var n := |p| - 1;
    if n == 0 {
      assert Bern(0, 0, x) == 1.0;
      assert Dot(VectorOf(p), BernVector(0, x), 1) == Dot(VectorOf(p), BernVector(0, x), 0) + p[0] * 1.0;
    } else {
      hide Bern;
      var h := BernVector(n - 1, x);
      BlendIsBernstein(p[..n], x);
      BlendIsBernstein(p[1..], x);
      PartialSplits(p, x, n);
      BernOutside(n, n - 1, x);
      assert Dot(VectorOf(p), h, n + 1) == Dot(VectorOf(p), h, n) + p[n] * 0.0;
      DotEq(VectorOf(p[..n]), VectorOf(p), h, h, n);
    }
  }

  lemma MixIsLerp(t: real, a: real, b: real)
    ensures Concatenation.Mix(t, a, b) == Bezier.Lerp(t, a, b)
  {
  }

  /** De Boor's algorithm on a clamped segment is de Casteljau's scheme. */
  lemma {:induction false} DeBoorIsBlend(a: real, b: real, q: seq<real>, degree: nat, x: real, level: nat, m: nat)
    requires |q| == degree + 1 && a < b && level <= m <= degree
    ensures Concatenation.DeBoor(SmoothJoin.SegmentKnots(a, b, degree), q, degree, x, level, m)
            == Bezier.Blend(q[m - level..m + 1], Concatenation.Ratio(x, a, b))
    decreases level
  {
    hide Concatenation.DeBoor, SmoothJoin.SegmentKnots, Concatenation.Ratio, Concatenation.Mix, Bezier.Lerp;
    var t, s := SmoothJoin.SegmentKnots(a, b, degree), Concatenation.Ratio(x, a, b);
    var p := q[m - level..m + 1];
    if level == 0 {
      Concatenation.DeBoorBase(t, q, degree, x, m);
      assert p == [q[m]];
    } else {
      DeBoorIsBlend(a, b, q, degree, x, level - 1, m - 1);
      DeBoorIsBlend(a, b, q, degree, x, level - 1, m);
      Concatenation.DeBoorStep(t, q, degree, x, level, m);
      MixIsLerp(s, Bezier.Blend(q[m - level..m], s), Bezier.Blend(q[m - level + 1..m + 1], s));
      assert p[..level] == q[m - level..m] && p[1..] == q[m - level + 1..m + 1];
    }
  }

  /** On a clamped segment de Boor's algorithm gives the Bernstein sum of the poles, at the relative parameter. */
  lemma DeBoorIsBernstein(a: real, b: real, q: seq<real>, degree: nat, x: real)
    requires |q| == degree + 1 && a < b
    ensures Concatenation.DeBoor(SmoothJoin.SegmentKnots(a, b, degree), q, degree, x, degree, degree)
            == Dot(VectorOf(q), BernVector(degree, (x - a) / (b - a)), degree + 1)
  {
    hide Concatenation.DeBoor, SmoothJoin.SegmentKnots, Bezier.Blend;
    DeBoorIsBlend(a, b, q, degree, x, degree, degree);
    assert q[0..degree + 1] == q;
    BlendIsBernstein(q, (x - a) / (b - a));
  }
}
