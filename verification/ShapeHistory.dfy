/** Shapes with shared data: their parts, the shapes they come from, and the tags that follow them. */
module ShapeHistory {
  import opened TagTracks

  /** How deep searches go unless they are told otherwise. */
  const MAX_DEPTH: int := 0x7fff_ffff

  /** Shapes with the same identity are the same for the system, even if they do not share data. */
  class Shape {
    const identity: int
    var children: seq<Shape>
    var origins: seq<Shape>
    var tags: seq<string>
    var tracks: seq<TagTrack>

    constructor (identity: int, children: seq<Shape>)
      ensures this.identity == identity && this.children == children && origins == [] && tags == [] && tracks == []
    {
      this.identity := identity;
      this.children := children;
      origins, tags, tracks := [], [], [];
    }

    predicate IsSame(other: Shape) {
      identity == other.identity
    }

    method AddTagTrack(t: TagTrack)
      modifies this`tracks
      ensures tracks == old(tracks) + [t]
    {
      tracks := tracks + [t];
    }

    method AddMetaTag(tag: string)
      modifies this`tags
      ensures tags == old(tags) + [tag]
    {
      tags := tags + [tag];
    }

    /** Depth-first search through the history; true if the visitor wants to stop. */
    method AcceptHistoryVisitor(v: FindIfVisitor, depth: nat, ghost all: set<Shape>) returns (stop: bool)
      requires this in all && ClosedUnderOrigins(all) && !v.found
      modifies v`found
      ensures stop == v.found
      ensures stop <==> DescendsWithin(this, v.f, v.maxDepth - depth, all)
      decreases if depth < v.maxDepth then v.maxDepth - depth else 0
    {
      stop := v.Visit(this, depth);
      NoSteps(this, v.f, v.maxDepth - depth, all);
      if !stop && depth < v.maxDepth {
        for i := 0 to |origins|
          invariant !v.found
          invariant forall j :: 0 <= j < i ==> !DescendsWithin(origins[j], v.f, v.maxDepth - depth - 1, all)
        {
          stop := origins[i].AcceptHistoryVisitor(v, depth + 1, all);
          if stop {
            FirstStep(this, v.f, v.maxDepth - depth, i, all);
            return true;
          }
        }
        NoFirstStep(this, v.f, v.maxDepth - depth, all);
        stop := false;
      }
    }

    /** Is the other shape, or one that is the same, among the at most maxDepth-th origins of this one? */
    method IsDescendentOf(other: Shape, maxDepth: int, ghost all: set<Shape>) returns (found: bool)
      requires this in all && ClosedUnderOrigins(all)
      ensures found <==> DescendsWithin(this, x => x == other.identity, maxDepth, all)
    {
      var v := new FindIfVisitor(x => x == other.identity, maxDepth);
      var stop := AcceptHistoryVisitor(v, 0, all);
      found := v.found;
    }

    /** Depth-first search through the parts. */
    method AcceptTopologyVisitor(v: FindVisitor, depth: nat, ghost all: set<Shape>) returns (stop: bool)
      requires this in all && ClosedUnderChildren(all) && NoneTheSame(v.results)
      modifies v`results
      ensures !stop && NoneTheSame(v.results) && old(v.results) <= v.results
      ensures forall s :: s in v.results ==> s in old(v.results) || s in all
      ensures GathersParts(v.results, old(v.results), v.f, this, v.maxDepth - depth, all)
      decreases if depth < v.maxDepth then v.maxDepth - depth else 0
    {
      hide *;
      ghost var before, n := v.results, v.maxDepth - depth;
      stop := v.Visit(this, depth);
      VisitGathers(this, before, v.f, n, all);
      if !stop && depth < v.maxDepth {
        for i := 0 to |children|
          invariant NoneTheSame(v.results) && before <= v.results
          invariant forall s :: s in v.results ==> s in before || s in all
          invariant Gathers(v.results, before, v.f, this, n, i, all)
        {
          ghost var results := v.results;
          ChildIn(this, i, all);
          stop := children[i].AcceptTopologyVisitor(v, depth + 1, all);
          ChildGathers(v.results, results, before, v.f, this, n, i, all);
          if stop {
            return true;
          }
        }
      }
      GathersAll(v.results, before, v.f, this, n, all);
    }

    /** One shape for each identity that the predicate accepts among the parts. */
    method SelectSubshapes(f: int -> bool, maxDepth: int, ghost all: set<Shape>) returns (results: seq<Shape>)
      requires this in all && ClosedUnderChildren(all)
      ensures NoneTheSame(results) && (forall s :: s in results ==> s in all)
      ensures forall d :: Has(results, d) <==> f(d) && HasPart(this, d, maxDepth, all)
    {
      var v := new FindVisitor(f, maxDepth);
      var stop := AcceptTopologyVisitor(v, 0, all);
      results := v.results;
    }

    method TagSubshape(subshape: Shape)
      modifies subshape`tags
      ensures subshape.tags == Tagged(tracks, subshape.identity, old(subshape.tags))
    {
      for j := 0 to |tracks|
        invariant subshape.tags == Tagged(tracks[..j], subshape.identity, old(subshape.tags))
      {
        assert tracks[..j + 1][..j] == tracks[..j];
        if tracks[j].remaining > 0 && tracks[j].criterion(subshape.identity, subshape.tags) {
          subshape.AddMetaTag(tracks[j].tag);
        }
      }
      assert tracks[..|tracks|] == tracks;
    }

    /** Every part, as one shape for each identity, gets the tags of the tracks that go on and accept it. */
    method ApplyTagTracks(ghost all: set<Shape>) returns (ghost tagged: seq<Shape>)
      requires this in all && ClosedUnderChildren(all)
      modifies all`tags
      ensures NoneTheSame(tagged) && forall d :: Has(tagged, d) <==> HasPart(this, d, MAX_DEPTH, all)
      ensures forall s :: s in all ==> s.tags == if s in tagged then Tagged(tracks, s.identity, old(s.tags))
              else old(s.tags)
    {
      var subshapes := SelectSubshapes(x => true, MAX_DEPTH, all);
      tagged := subshapes;
      for i := 0 to |subshapes|
        invariant forall s :: s in all ==>
                    s.tags == if s in subshapes[..i] then Tagged(tracks, s.identity, old(s.tags)) else old(s.tags)
      {
        DifferentShapes(subshapes, i);
        TagSubshape(subshapes[i]);
        assert forall s :: s in subshapes[..i + 1] <==> s in subshapes[..i] || s == subshapes[i];
      }
      assert subshapes[..|subshapes|] == subshapes;
    }
  }

  class FindIfVisitor {
    var found: bool
    const f: int -> bool
    const maxDepth: int

    constructor (f: int -> bool, maxDepth: int)
      ensures !found && this.f == f && this.maxDepth == maxDepth
    {
      found := false;
      this.f := f;
      this.maxDepth := maxDepth;
    }

    method Visit(shape: Shape, depth: int) returns (r: bool)
      modifies this`found
      ensures found == r == if depth <= maxDepth then f(shape.identity) else old(found)
    {
      if depth <= maxDepth {
        found := f(shape.identity);
      }
      r := found;
    }
  }

  ghost predicate ClosedUnderOrigins(all: set<Shape>)
    reads all`origins
  {
    forall s :: s in all ==> forall i :: 0 <= i < |s.origins| ==> s.origins[i] in all
  }

  /** Going from s to the origin that each step selects, one ends at a shape that f accepts. */
  ghost predicate LeadsTo(s: Shape, steps: seq<nat>, f: int -> bool, all: set<Shape>)
    requires s in all && ClosedUnderOrigins(all)
    reads all`origins
    decreases |steps|
  {
    if steps == [] then f(s.identity) else steps[0] < |s.origins| && LeadsTo(s.origins[steps[0]], steps[1..], f, all)
  }

  ghost predicate DescendsWithin(s: Shape, f: int -> bool, n: int, all: set<Shape>)
    requires s in all && ClosedUnderOrigins(all)
    reads all`origins
  {
    exists steps: seq<nat> :: |steps| <= n && LeadsTo(s, steps, f, all)
  }

  lemma NoSteps(s: Shape, f: int -> bool, n: int, all: set<Shape>)
    requires s in all && ClosedUnderOrigins(all)
    ensures n >= 0 && f(s.identity) ==> DescendsWithin(s, f, n, all)
    ensures n < 0 ==> !DescendsWithin(s, f, n, all)
    ensures n == 0 && !f(s.identity) ==> !DescendsWithin(s, f, n, all)
  {
    if n >= 0 && f(s.identity) {
      assert LeadsTo(s, [], f, all);
    }
  }

  lemma FirstStep(s: Shape, f: int -> bool, n: int, i: nat, all: set<Shape>)
    requires s in all && ClosedUnderOrigins(all) && i < |s.origins|
    requires DescendsWithin(s.origins[i], f, n - 1, all)
    ensures DescendsWithin(s, f, n, all)
  {
    var steps: seq<nat> :| |steps| <= n - 1 && LeadsTo(s.origins[i], steps, f, all);
    assert ([i] + steps)[1..] == steps;
    assert LeadsTo(s, [i] + steps, f, all);
  }

  lemma NoFirstStep(s: Shape, f: int -> bool, n: int, all: set<Shape>)
    requires s in all && ClosedUnderOrigins(all) && !f(s.identity)
    requires forall i :: 0 <= i < |s.origins| ==> !DescendsWithin(s.origins[i], f, n - 1, all)
    ensures !DescendsWithin(s, f, n, all)
  {
    forall steps: seq<nat> | |steps| <= n
      ensures !LeadsTo(s, steps, f, all)
    {
      if steps != [] && steps[0] < |s.origins| {
        assert !DescendsWithin(s.origins[steps[0]], f, n - 1, all);
      }
    }
  }

  class FindVisitor {
    var results: seq<Shape>
    const f: int -> bool
    const maxDepth: int

    constructor (f: int -> bool, maxDepth: int)
      ensures results == [] && this.f == f && this.maxDepth == maxDepth
    {
      results := [];
      this.f := f;
      this.maxDepth := maxDepth;
    }

    method Visit(shape: Shape, depth: int) returns (r: bool)
      modifies this`results
      ensures !r
      ensures results == old(results)
                         + if depth <= maxDepth && f(shape.identity)
                             && !Has(old(results), shape.identity) then [shape] else []
    {
      if depth <= maxDepth && f(shape.identity) {
        var k := 0;
        while k < |results| && !results[k].IsSame(shape)
          invariant k <= |results| && results == old(results)
          invariant forall i :: 0 <= i < k ==> results[i].identity != shape.identity
        {
          k := k + 1;
        }
        if k == |results| {
          results := results + [shape];
        }
      }
      r := false;
    }
  }

  ghost predicate ClosedUnderChildren(all: set<Shape>)
    reads all`children
  {
    forall s :: s in all ==> forall i :: 0 <= i < |s.children| ==> s.children[i] in all
  }

  ghost predicate Has(results: seq<Shape>, identity: int) {
    exists k :: 0 <= k < |results| && results[k].identity == identity
  }

  ghost predicate NoneTheSame(results: seq<Shape>) {
    forall i, j :: 0 <= i < j < |results| ==> results[i].identity != results[j].identity
  }

  /** Going from s to the part that each step selects, one ends at a shape with the identity. */
  ghost predicate PartAt(s: Shape, steps: seq<nat>, identity: int, all: set<Shape>)
    requires s in all && ClosedUnderChildren(all)
    reads all`children
    decreases |steps|
  {
    if steps == [] then s.identity == identity
    else steps[0] < |s.children| && PartAt(s.children[steps[0]], steps[1..], identity, all)
  }

  ghost predicate HasPart(s: Shape, identity: int, n: int, all: set<Shape>)
    requires s in all && ClosedUnderChildren(all)
    reads all`children
  {
    exists steps: seq<nat> :: |steps| <= n && PartAt(s, steps, identity, all)
  }

  /** The shape itself or a part of its first i children. */
  ghost predicate PartsUpTo(s: Shape, identity: int, n: int, i: nat, all: set<Shape>)
    requires s in all && ClosedUnderChildren(all) && i <= |s.children|
    reads all`children
  {
    (n >= 0 && s.identity == identity) || exists j :: 0 <= j < i && HasPart(s.children[j], identity, n - 1, all)
  }

  lemma PartsOfAll(s: Shape, identity: int, n: int, all: set<Shape>)
    requires s in all && ClosedUnderChildren(all)
    ensures HasPart(s, identity, n, all) <==> PartsUpTo(s, identity, n, if n > 0 then |s.children| else 0, all)
  {
    if HasPart(s, identity, n, all) {
      var steps: seq<nat> :| |steps| <= n && PartAt(s, steps, identity, all);
      if steps != [] {
        assert PartAt(s.children[steps[0]], steps[1..], identity, all);
        assert HasPart(s.children[steps[0]], identity, n - 1, all);
      }
    }
    if n >= 0 && s.identity == identity {
      assert PartAt(s, [], identity, all);
    }
    forall j | 0 <= j < |s.children| && HasPart(s.children[j], identity, n - 1, all)
      ensures HasPart(s, identity, n, all)
    {
      var steps: seq<nat> :| |steps| <= n - 1 && PartAt(s.children[j], steps, identity, all);
      assert ([j] + steps)[1..] == steps;
      assert PartAt(s, [j] + steps, identity, all);
    }
  }

  /** The results are those from before and the accepted ones among the shape and the parts of its first i children. */
  ghost predicate Gathers(results: seq<Shape>, before: seq<Shape>, f: int -> bool, s: Shape, n: int, i: nat,
                          all: set<Shape>)
    requires s in all && ClosedUnderChildren(all) && i <= |s.children|
    reads all`children
  {
    forall d :: Has(results, d) <==> Has(before, d) || (f(d) && PartsUpTo(s, d, n, i, all))
  }

  ghost predicate GathersParts(results: seq<Shape>, before: seq<Shape>, f: int -> bool, s: Shape, n: int,
                               all: set<Shape>)
    requires s in all && ClosedUnderChildren(all)
    reads all`children
  {
    forall d :: Has(results, d) <==> Has(before, d) || (f(d) && HasPart(s, d, n, all))
  }

  lemma VisitGathers(s: Shape, before: seq<Shape>, f: int -> bool, n: int, all: set<Shape>)
    requires s in all && ClosedUnderChildren(all) && NoneTheSame(before)
    ensures var results := before + if n >= 0 && f(s.identity) && !Has(before, s.identity) then [s] else [];
            && NoneTheSame(results)
            && Gathers(results, before, f, s, n, 0, all)
  {
    var results := before + if n >= 0 && f(s.identity) && !Has(before, s.identity) then [s] else [];
    forall d
      ensures Has(results, d) <==> Has(before, d) || (f(d) && n >= 0 && s.identity == d)
    {
      if Has(before, d) {
        var k :| 0 <= k < |before| && before[k].identity == d;
        assert results[k].identity == d;
      }
      if f(d) && n >= 0 && s.identity == d && !Has(before, d) {
        assert results[|before|].identity == d;
      }
    }
  }

  lemma ChildIn(s: Shape, i: nat, all: set<Shape>)
    requires s in all && ClosedUnderChildren(all) && i < |s.children|
    ensures s.children[i] in all
  {
  }

  lemma ChildGathers(results: seq<Shape>, middle: seq<Shape>, before: seq<Shape>, f: int -> bool, s: Shape, n: int,
                     i: nat, all: set<Shape>)
    requires s in all && ClosedUnderChildren(all) && i < |s.children| && s.children[i] in all
    requires Gathers(middle, before, f, s, n, i, all) && GathersParts(results, middle, f, s.children[i], n - 1, all)
    ensures Gathers(results, before, f, s, n, i + 1, all)
  {
    hide Has, HasPart;
    forall d
      ensures PartsUpTo(s, d, n, i + 1, all) <==> PartsUpTo(s, d, n, i, all) || HasPart(s.children[i], d, n - 1, all)
    {
    }
  }

  lemma GathersAll(results: seq<Shape>, before: seq<Shape>, f: int -> bool, s: Shape, n: int, all: set<Shape>)
    requires s in all && ClosedUnderChildren(all)
    requires Gathers(results, before, f, s, n, if n > 0 then |s.children| else 0, all)
    ensures GathersParts(results, before, f, s, n, all)
  {
    hide Has, HasPart, PartsUpTo;
    forall d
      ensures HasPart(s, d, n, all) <==> PartsUpTo(s, d, n, if n > 0 then |s.children| else 0, all)
    {
      PartsOfAll(s, d, n, all);
    }
  }

  lemma DifferentShapes(shapes: seq<Shape>, i: nat)
    requires NoneTheSame(shapes) && i < |shapes|
    ensures shapes[i] !in shapes[..i]
  {
  }

  // Operations.

  /** The tracks of the first n shapes. */
  ghost function AllTracks(shapes: seq<Shape>, n: nat): (r: seq<TagTrack>)
    requires n <= |shapes|
    reads shapes`tracks
  {
    if n == 0 then [] else AllTracks(shapes, n - 1) + shapes[n - 1].tracks
  }

  /** The tracks of the inputs go over to the result, set their tags there, and lose one step. */
  method MergeAndApplyTagTracks(inputs: seq<Shape>, result: Shape,
                                ghost all: set<Shape>)
    returns (ghost tagged: seq<Shape>)
    requires result in all && result !in inputs && ClosedUnderChildren(all)
    modifies result`tracks, all`tags
    ensures var applied := old(result.tracks) + old(AllTracks(inputs, |inputs|));
            && result.tracks == Worn(applied)
            && NoneTheSame(tagged) && (forall d :: Has(tagged, d) <==> HasPart(result, d, MAX_DEPTH, all))
            && forall s :: s in all ==> s.tags == if s in tagged then Tagged(applied, s.identity, old(s.tags))
                else old(s.tags)
  {
    ghost var applied := result.tracks + AllTracks(inputs, |inputs|);
    CollectTracks(inputs, result);
    tagged := result.ApplyTagTracks(all);
    WearTracks(result);
  }

  method CollectTracks(inputs: seq<Shape>, result: Shape)
    requires result !in inputs
    modifies result`tracks
    ensures result.tracks == old(result.tracks) + old(AllTracks(inputs, |inputs|))
  {
    for i := 0 to |inputs|
      invariant result.tracks == old(result.tracks) + old(AllTracks(inputs, i))
    {
      ghost var before := result.tracks;
      for j := 0 to |inputs[i].tracks|
        invariant result.tracks == before + inputs[i].tracks[..j]
        invariant inputs[i].tracks == old(inputs[i].tracks)
      {
        result.AddTagTrack(inputs[i].tracks[j]);
      }
    }
  }

  /** Erases the tracks that are worn out and takes one step off the others, in place. */
  method WearTracks(result: Shape)
    modifies result`tracks
    ensures result.tracks == Worn(old(result.tracks))
  {
    hide *;
    ghost var all := result.tracks;
    ghost var k := 0;
    var it := 0;
    WornStep(all, 0);
    while it < |result.tracks|
      invariant k <= |all| && it == |Worn(all[..k])|
      invariant result.tracks == Worn(all[..k]) + all[k..]
      decreases |all| - k
    {
      WearStep(all, k, it);
      var t := result.tracks[it];
      if t.remaining <= 1 {
        result.tracks := result.tracks[..it] + result.tracks[it + 1..];
      } else {
        result.tracks := result.tracks[it := t.(remaining := t.remaining - 1)];
        it := it + 1;
      }
      k := k + 1;
    }
    assert all[..k] == all;
  }

  lemma WearStep(all: seq<TagTrack>, k: nat, it: nat)
    requires k < |all| && it == |Worn(all[..k])|
    ensures var s, t, w := Worn(all[..k]) + all[k..], all[k], Worn(all[..k + 1]);
            && s[it] == t
            && (t.remaining <= 1 ==> s[..it] + s[it + 1..] == w + all[k + 1..] && |w| == it)
            && (t.remaining > 1 ==> s[it := t.(remaining := t.remaining - 1)] == w + all[k + 1..] && |w| == it + 1)
  {
    hide Worn;
    WornStep(all, k);
  }

  lemma WornStep(tracks: seq<TagTrack>, k: nat)
    ensures k < |tracks| ==>
              Worn(tracks[..k + 1]) ==
              Worn(tracks[..k]) + if tracks[k].remaining <= 1 then []
                  else [tracks[k].(remaining := tracks[k].remaining - 1)]
    ensures Worn(tracks[..0]) == []
  {
    if k < |tracks| {
      assert tracks[..k + 1][..k] == tracks[..k];
    }
  }

  // Runs of operations.

  /** Shape i of the run is as the operation left it that made node at[i] of the history. */
  ghost predicate Follows(shapes: seq<Shape>, at: seq<nat>, h: seq<Node>)
    reads shapes`tracks
  {
    && IsHistory(h) && |at| == |shapes|
    && (forall i :: 0 <= i < |at| ==> at[i] < |h| && shapes[i].tracks == Tracks(h, at[i]))
    && (forall i, j :: 0 <= i < j < |at| ==> at[i] != at[j])
    && (forall i, j :: 0 <= i < j < |shapes| ==> shapes[i] != shapes[j])
  }

  ghost predicate AreIn(indices: seq<nat>, n: nat) {
    forall i :: 0 <= i < |indices| ==> indices[i] < n
  }

  ghost function Selected(shapes: seq<Shape>, inputs: seq<nat>): (r: seq<Shape>)
    requires AreIn(inputs, |shapes|)
    ensures |r| == |inputs| && forall i :: 0 <= i < |inputs| ==> r[i] == shapes[inputs[i]]
  {
    seq(|inputs|, i requires 0 <= i < |inputs| => shapes[inputs[i]])
  }

  /** The inputs as they are now, with all tracks that have been added so far. */
  ghost function Seen(h: seq<Node>, at: seq<nat>, inputs: seq<nat>): (r: seq<Input>)
    requires AreIn(inputs, |at|) && AreIn(at, |h|)
    ensures |r| == |inputs| && forall i :: 0 <= i < |r| ==> r[i] == Input(at[inputs[i]], |h[at[inputs[i]]].added|)
  {
    seq(|inputs|, i requires 0 <= i < |inputs| => Input(at[inputs[i]], |h[at[inputs[i]]].added|))
  }

  /** The history with one operation more. */
  ghost function Extended(h: seq<Node>, at: seq<nat>, sources: seq<nat>, own: seq<TagTrack>): (g: seq<Node>)
    requires AreIn(sources, |at|) && AreIn(at, |h|)
    ensures |g| == |h| + 1
  {
    h + [Node(Seen(h, at, sources), own, [])]
  }

  lemma ExtendedGoesOn(h: seq<Node>, at: seq<nat>, sources: seq<nat>, own: seq<TagTrack>)
    requires IsHistory(h) && AreIn(sources, |at|) && AreIn(at, |h|)
    ensures GoesOn(h, Extended(h, at, sources, own))
  {
    var g := Extended(h, at, sources, own);
    forall i, j | 0 <= i < |g| && 0 <= j < |g[i].inputs|
      ensures IsEarlier(g, i, g[i].inputs[j])
    {
      assert i < |h| ==> IsEarlier(h, i, h[i].inputs[j]);
    }
  }

  lemma {:induction false} TracksOfSources(shapes: seq<Shape>, at: seq<nat>, h: seq<Node>, sources: seq<nat>,
                                           own: seq<TagTrack>, m: nat)
    requires Follows(shapes, at, h) && AreIn(at, |h|) && m <= |sources| && AreIn(sources, |shapes|)
    requires IsHistory(Extended(h, at, sources, own))
    ensures AllTracks(Selected(shapes, sources), m) == Merged(Extended(h, at, sources, own), |h|, m)
  {
    hide Seen, Selected;
    var g := Extended(h, at, sources, own);
    if m > 0 {
      TracksOfSources(shapes, at, h, sources, own, m - 1);
      ExtendedGoesOn(h, at, sources, own);
      var i := at[sources[m - 1]];
      LaterDoesNotMatter(h, g, i, |h[i].added|);
      assert g[|h|].inputs[m - 1] == Input(i, |h[i].added|);
    }
  }

  /** What one operation more applies. */
  lemma AppliedNext(shapes: seq<Shape>, at: seq<nat>, h: seq<Node>, sources: seq<nat>, own: seq<TagTrack>)
    requires Follows(shapes, at, h) && AreIn(sources, |shapes|)
    ensures AreIn(at, |h|) && |at| == |shapes| && IsHistory(Extended(h, at, sources, own))
    ensures Applied(Extended(h, at, sources, own), |h|) == own + AllTracks(Selected(shapes, sources), |sources|)
  {
    ExtendedGoesOn(h, at, sources, own);
    TracksOfSources(shapes, at, h, sources, own, |sources|);
  }

  /** A result that has been in the run before, at that place, is also one of the sources: it keeps its tracks. */
  ghost function Sources(inputs: seq<nat>, place: nat, n: nat): (r: seq<nat>)
    requires AreIn(inputs, n)
    ensures AreIn(r, n)
  {
    if place < n then [place] + inputs else inputs
  }

  /** The history after the next operation. */
  ghost function Next(h: seq<Node>, at: seq<nat>, inputs: seq<nat>, place: nat, own: seq<TagTrack>): (g: seq<Node>)
    requires AreIn(inputs, |at|) && AreIn(at, |h|)
    ensures |g| == |h| + 1
  {
    Extended(h, at, Sources(inputs, place, |at|), if place < |at| then [] else own)
  }

  ghost function NextAt(at: seq<nat>, place: nat, node: nat): seq<nat> {
    if place < |at| then at[place := node] else at + [node]
  }

  ghost function NextShapes(shapes: seq<Shape>, place: nat, result: Shape): seq<Shape> {
    if place < |shapes| then shapes else shapes + [result]
  }

  /** The result is the shape at that place of the run, or a new one. */
  ghost predicate IsAt(shapes: seq<Shape>, place: nat, result: Shape) {
    if place < |shapes| then shapes[place] == result else result !in shapes
  }

  lemma {:induction false} TracksWithFirst(first: Shape, shapes: seq<Shape>, n: nat)
    requires n <= |shapes|
    ensures AllTracks([first] + shapes, n + 1) == first.tracks + AllTracks(shapes, n)
  {
    var all := [first] + shapes;
    if n > 0 {
      TracksWithFirst(first, shapes, n - 1);
      assert all[n] == shapes[n - 1];
    } else {
      assert AllTracks(all, 0) == [];
    }
  }

  /** The tracks of the result, and then those of the inputs. */
  lemma AppliedToResult(shapes: seq<Shape>, at: seq<nat>, h: seq<Node>, inputs: seq<nat>, place: nat, result: Shape)
    requires Follows(shapes, at, h) && AreIn(inputs, |shapes|) && IsAt(shapes, place, result)
    ensures AreIn(at, |h|) && |at| == |shapes| && IsHistory(Next(h, at, inputs, place, result.tracks))
    ensures Applied(Next(h, at, inputs, place, result.tracks), |h|)
            == result.tracks + AllTracks(Selected(shapes, inputs), |inputs|)
  {
    hide Applied, AllTracks, Extended;
    var sources := Sources(inputs, place, |shapes|);
    AppliedNext(shapes, at, h, sources, if place < |at| then [] else result.tracks);
    if place < |shapes| {
      assert Selected(shapes, sources) == [result] + Selected(shapes, inputs);
      TracksWithFirst(result, Selected(shapes, inputs), |inputs|);
    }
  }

  lemma NextFollows(shapes: seq<Shape>, at: seq<nat>, h: seq<Node>, g: seq<Node>, place: nat, result: Shape)
    requires IsHistory(h) && GoesOn(h, g) && |g| == |h| + 1 && g[..|h|] == h && |at| == |shapes|
             && IsAt(shapes, place, result)
    requires forall i :: 0 <= i < |at| ==> at[i] < |h| && (shapes[i] != result ==> shapes[i].tracks == Tracks(h, at[i]))
    requires (forall i, j :: 0 <= i < j < |at| ==> at[i] != at[j])
    requires (forall i, j :: 0 <= i < j < |shapes| ==> shapes[i] != shapes[j])
    requires result.tracks == Tracks(g, |h|)
    ensures Follows(NextShapes(shapes, place, result), NextAt(at, place, |h|), g)
  {
    hide Tracks;
    forall i | 0 <= i < |at| && shapes[i] != result
      ensures shapes[i].tracks == Tracks(g, at[i])
    {
      SameTracks(h, g, at[i]);
    }
  }

  lemma SameTracks(h: seq<Node>, g: seq<Node>, i: nat)
    requires GoesOn(h, g) && i < |h| && g[..|h|] == h
    ensures Tracks(g, i) == Tracks(h, i)
  {
    LaterDoesNotMatter(h, g, i, |h[i].added|);
    assert g[..|h|][i] == g[i];
  }

  lemma FreshTracks(h: seq<Node>, i: nat)
    requires IsHistory(h) && i < |h| && h[i].added == []
    ensures Tracks(h, i) == Worn(Applied(h, i))
  {
  }

  ghost predicate IsPast(shapes: seq<Shape>, at: seq<nat>, h: seq<Node>) {
    && IsHistory(h) && |at| == |shapes| && AreIn(at, |h|)
    && (forall i, j :: 0 <= i < j < |at| ==> at[i] != at[j])
    && (forall i, j :: 0 <= i < j < |shapes| ==> shapes[i] != shapes[j])
  }

  /** One operation. Its result has just been made and may have tracks of its own, or is a shape of the run that is no
      input. The other shapes keep their tracks, and the run goes on. */
  method Value(shapes: seq<Shape>, inputs: seq<nat>, result: Shape, ghost place: nat, ghost at: seq<nat>,
               ghost h: seq<Node>,
               ghost all: set<Shape>)
    returns (ghost tagged: seq<Shape>)
    requires Follows(shapes, at, h) && AreIn(inputs, |shapes|) && IsAt(shapes, place, result)
    requires result in all && ClosedUnderChildren(all) && forall i :: 0 <= i < |inputs| ==> shapes[inputs[i]] != result
    modifies result`tracks, all`tags
    ensures IsPast(shapes, at, h)
    ensures Follows(NextShapes(shapes, place, result), NextAt(at, place, |h|),
                    Next(h, at, inputs, place, old(result.tracks)))
    ensures forall s :: s in shapes && s != result ==> s.tracks == old(s.tracks)
    ensures NoneTheSame(tagged) && forall d :: Has(tagged, d) <==> HasPart(result, d, MAX_DEPTH, all)
    ensures forall s :: s in all ==>
              s.tags == if s in tagged
                        then Tagged(Applied(Next(h, at, inputs, place, old(result.tracks)), |h|), s.identity,
                                    old(s.tags))
                        else old(s.tags)
    ensures var g := Next(h, at, inputs, place, old(result.tracks));
            IsHistory(g) && |g| > |h| && forall s :: s in all && s in tagged ==>
              CountsTags(g, |h|, s.identity, old(s.tags), s.tags)
  {
    hide CountsTags, Follows, IsPast, Next, Extended, Seen, Selected, Sources, Tracks, Applied, Worn, Tagged, HasPart,
      NoneTheSame, Has, ClosedUnderChildren, NextShapes, NextAt, AllTracks, IsHistory, GoesOn;
    ghost var own := result.tracks;
    PastOf(shapes, at, h);
    TracksBefore(shapes, at, h);
    ghost var g := Next(h, at, inputs, place, own);
    AppliedToResult(shapes, at, h, inputs, place, result);
    NextIs(h, at, inputs, place, own);
    var operands := [];
    for i := 0 to |inputs|
      invariant operands == Selected(shapes, inputs)[..i]
    {
      operands := operands + [shapes[inputs[i]]];
    }
    assert operands == Selected(shapes, inputs);
    tagged := MergeAndApplyTagTracks(operands, result, all);
    FreshTracks(g, |h|);
    NextFollows(shapes, at, h, g, place, result);
    forall s | s in all && s in tagged
      ensures CountsTags(g, |h|, s.identity, old(s.tags), s.tags)
    {
      TaggedCounts(g, |h|, s.identity, old(s.tags));
    }
  }

  lemma PastOf(shapes: seq<Shape>, at: seq<nat>, h: seq<Node>)
    requires Follows(shapes, at, h)
    ensures IsPast(shapes, at, h) && IsHistory(h) && |at| == |shapes| && AreIn(at, |h|)
    ensures (forall i, j :: 0 <= i < j < |at| ==> at[i] != at[j])
    ensures (forall i, j :: 0 <= i < j < |shapes| ==> shapes[i] != shapes[j])
  {
  }

  lemma NextIs(h: seq<Node>, at: seq<nat>, inputs: seq<nat>, place: nat, own: seq<TagTrack>)
    requires IsHistory(h) && AreIn(inputs, |at|) && AreIn(at, |h|)
    ensures var g := Next(h, at, inputs, place, own); GoesOn(h, g) && g[..|h|] == h && g[|h|].added == []
  {
    ExtendedGoesOn(h, at, Sources(inputs, place, |at|), if place < |at| then [] else own);
  }

  lemma TracksBefore(shapes: seq<Shape>, at: seq<nat>, h: seq<Node>)
    requires Follows(shapes, at, h)
    ensures |at| == |shapes| && IsHistory(h)
    ensures forall i :: 0 <= i < |at| ==> at[i] < |h| && shapes[i].tracks == Tracks(h, at[i])
  {
  }

  /** The history after a track has been added to the shape of node i. */
  ghost function WithTrack(h: seq<Node>, i: nat, t: TagTrack): (g: seq<Node>)
    requires i < |h|
    ensures |g| == |h|
  {
    h[i := h[i].(added := h[i].added + [t])]
  }

  /** A track is added to any shape of the run, an input of later ones or not; the others keep their tracks. */
  method AddTagTrackTo(shapes: seq<Shape>, i: nat, t: TagTrack, ghost at: seq<nat>, ghost h: seq<Node>)
    requires i < |shapes| && Follows(shapes, at, h)
    modifies {shapes[i]}`tracks
    ensures IsPast(shapes, at, h) && Follows(shapes, at, WithTrack(h, at[i], t))
    ensures forall s :: s in shapes ==> s.tracks == old(s.tracks) + if s == shapes[i] then [t] else []
  {
    hide Tracks;
    TracksWithTrack(h, at[i], t);
    shapes[i].AddTagTrack(t);
  }

  lemma TracksWithTrack(h: seq<Node>, i: nat, t: TagTrack)
    requires IsHistory(h) && i < |h|
    ensures var g := WithTrack(h, i, t);
            && GoesOn(h, g)
            && forall j :: 0 <= j < |h| ==> Tracks(g, j) == Tracks(h, j) + if j == i then [t] else []
  {
    var g := WithTrack(h, i, t);
    forall k, j | 0 <= k < |g| && 0 <= j < |g[k].inputs|
      ensures IsEarlier(g, k, g[k].inputs[j])
    {
      assert IsEarlier(h, k, h[k].inputs[j]);
    }
    forall j | 0 <= j < |h|
      ensures Tracks(g, j) == Tracks(h, j) + if j == i then [t] else []
    {
      LaterDoesNotMatter(h, g, j, |h[j].added|);
      assert g[j].added[..|g[j].added|] == g[j].added && h[j].added[..|h[j].added|] == h[j].added;
      if j == i {
        assert Worn(Applied(h, i)) + (h[i].added + [t]) == (Worn(Applied(h, i)) + h[i].added) + [t];
      }
    }
  }
}
