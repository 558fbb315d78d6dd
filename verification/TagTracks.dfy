/** How tag tracks travel from the inputs of operations to their results. */
module TagTracks {
  /** A tag for the subshapes that meet a criterion, and the number of operations for which it is to be set. The
      criterion sees what makes two shapes the same, and the tags that a shape has. */
  datatype TagTrack = TagTrack(id: nat, tag: string, criterion: (int, seq<string>) -> bool, remaining: int)

  /** The tracks that outlive one operation, with one step less to go. */
  function Worn(tracks: seq<TagTrack>): (r: seq<TagTrack>)
  {
    if tracks == [] then [] else
      var t := tracks[|tracks| - 1];
      Worn(tracks[..|tracks| - 1]) + if t.remaining <= 1 then [] else [t.(remaining := t.remaining - 1)]
  }

  /** An input of an operation, with the number of tracks that had been added to it by then. */
  datatype Input = Input(shape: nat, seen: nat)

  /** One shape: the inputs of the operation that made it, the tracks it had before its operation merged any, and those
      that have been added to it since. */
  datatype Node = Node(inputs: seq<Input>, own: seq<TagTrack>, added: seq<TagTrack>)

  ghost predicate IsHistory(h: seq<Node>) {
    forall i, j :: 0 <= i < |h| && 0 <= j < |h[i].inputs| ==> IsEarlier(h, i, h[i].inputs[j])
  }

  predicate IsEarlier(h: seq<Node>, i: nat, input: Input)
    requires i <= |h|
  {
    input.shape < i && input.seen <= |h[input.shape].added|
  }

  /** The tracks of the first m inputs of shape i, as they were for its operation. */
  function Merged(h: seq<Node>, i: nat, m: nat): (r: seq<TagTrack>)
    requires IsHistory(h) && i < |h| && m <= |h[i].inputs|
    decreases i, 0, m
  {
    if m == 0 then []
    else
      var input := h[i].inputs[m - 1];
      assert IsEarlier(h, i, input);
      Merged(h, i, m - 1) + TracksWith(h, input.shape, input.seen)
  }

  /** The tracks that the operation which makes shape i applies to it. */
  function Applied(h: seq<Node>, i: nat): (r: seq<TagTrack>)
    requires IsHistory(h) && i < |h|
    decreases i, 1
  {
    h[i].own + Merged(h, i, |h[i].inputs|)
  }

  /** The tracks of shape i after that many have been added to it. */
  function TracksWith(h: seq<Node>, i: nat, seen: nat): (r: seq<TagTrack>)
    requires IsHistory(h) && i < |h| && seen <= |h[i].added|
    decreases i, 2
  {
    Worn(Applied(h, i)) + h[i].added[..seen]
  }

  function Tracks(h: seq<Node>, i: nat): (r: seq<TagTrack>)
    requires IsHistory(h) && i < |h|
  {
    TracksWith(h, i, |h[i].added|)
  }

  /** A place where a track has been added: the shape, and how many had been added to it before. */
  datatype Place = Place(shape: nat, position: nat)

  /** The number of ways from a place to shape o, after seen tracks have been added to it, through k operations. */
  function Paths(h: seq<Node>, s: Place, o: nat, seen: nat, k: nat): nat
    requires IsHistory(h) && o < |h|
    decreases o, |h[o].inputs| + 1
  {
    if k == 0 then if s.shape == o && s.position < seen then 1 else 0
    else PathsThrough(h, s, o, k, |h[o].inputs|)
  }

  /** Those that come in through the first m inputs. */
  function PathsThrough(h: seq<Node>, s: Place, o: nat, k: nat, m: nat): nat
    requires IsHistory(h) && o < |h| && k > 0 && m <= |h[o].inputs|
    decreases o, m
  {
    if m == 0 then 0
    else
      var input := h[o].inputs[m - 1];
      assert IsEarlier(h, o, input);
      PathsThrough(h, s, o, k, m - 1) + Paths(h, s, input.shape, input.seen, k - 1)
  }

  function Copies(tracks: seq<TagTrack>, id: nat, remaining: int): nat {
    if tracks == [] then 0 else
      var t := tracks[|tracks| - 1];
      Copies(tracks[..|tracks| - 1], id, remaining) + if t.id == id && t.remaining == remaining then 1 else 0
  }

  lemma {:induction false} CopiesOfSum(a: seq<TagTrack>, b: seq<TagTrack>, id: nat, remaining: int)
    ensures Copies(a + b, id, remaining) == Copies(a, id, remaining) + Copies(b, id, remaining)
  {
    if b == [] {
      assert a + b == a;
    } else {
      assert (a + b)[..|a + b| - 1] == a + b[..|b| - 1];
      CopiesOfSum(a, b[..|b| - 1], id, remaining);
    }
  }

  lemma {:induction false} CopiesOfWorn(tracks: seq<TagTrack>, id: nat, remaining: int)
    ensures Copies(Worn(tracks), id, remaining) == if remaining >= 1 then Copies(tracks, id, remaining + 1) else 0
  {
    if tracks != [] {
      var n := |tracks| - 1;
      var t := tracks[n];
      var kept := if t.remaining <= 1 then [] else [t.(remaining := t.remaining - 1)];
      CopiesOfWorn(tracks[..n], id, remaining);
      CopiesOfSum(Worn(tracks[..n]), kept, id, remaining);
      assert t.remaining > 1 ==> kept[..0] == [];
    }
  }

  lemma {:induction false} CopiesOfNone(tracks: seq<TagTrack>, id: nat, remaining: int)
    requires forall k :: 0 <= k < |tracks| ==> tracks[k].id != id
    ensures Copies(tracks, id, remaining) == 0
  {
    if tracks != [] {
      CopiesOfNone(tracks[..|tracks| - 1], id, remaining);
    }
  }

  /** Track id has been added just once, at s, for n operations. */
  ghost predicate AddedOnce(h: seq<Node>, s: Place, id: nat, n: int) {
    && s.shape < |h| && s.position < |h[s.shape].added|
    && h[s.shape].added[s.position].id == id && h[s.shape].added[s.position].remaining == n
    && (forall i, k :: 0 <= i < |h| && 0 <= k < |h[i].own| ==> h[i].own[k].id != id)
    && (forall i, k :: 0 <= i < |h| && 0 <= k < |h[i].added| && h[i].added[k].id == id ==>
        i == s.shape && k == s.position)
  }

  lemma CopiesOfAdded(h: seq<Node>, s: Place, id: nat, n: int, i: nat, seen: nat, r: int)
    requires AddedOnce(h, s, id, n) && i < |h| && seen <= |h[i].added|
    ensures Copies(h[i].added[..seen], id, r) == if s.shape == i && s.position < seen && r == n then 1 else 0
    decreases seen
  {
    var added := h[i].added[..seen];
    if seen > 0 {
      CopiesOfAdded(h, s, id, n, i, seen - 1, r);
      assert added[..seen - 1] == h[i].added[..seen - 1];
      assert added[seen - 1] == h[i].added[seen - 1];
    }
  }

  /** A shape k operations downstream has, for every way to it, one copy with k steps less to go, as long as there are
      any. */
  lemma {:induction false} CopiesOfTracks(h: seq<Node>, s: Place, id: nat, n: int, o: nat, seen: nat, r: int)
    requires IsHistory(h) && AddedOnce(h, s, id, n) && o < |h| && seen <= |h[o].added| && r >= 1
    ensures Copies(TracksWith(h, o, seen), id, r) == if r <= n then Paths(h, s, o, seen, n - r) else 0
    decreases o, 2
  {
    CopiesOfApplied(h, s, id, n, o, r + 1);
    CopiesOfWorn(Applied(h, o), id, r);
    CopiesOfAdded(h, s, id, n, o, seen, r);
    CopiesOfSum(Worn(Applied(h, o)), h[o].added[..seen], id, r);
  }

  lemma {:induction false} CopiesOfApplied(h: seq<Node>, s: Place, id: nat, n: int, o: nat, r: int)
    requires IsHistory(h) && AddedOnce(h, s, id, n) && o < |h| && r >= 1
    ensures Copies(Applied(h, o), id, r) == if r <= n then PathsThrough(h, s, o, n - r + 1, |h[o].inputs|) else 0
    decreases o, 1
  {
    CopiesOfNone(h[o].own, id, r);
    CopiesOfMerged(h, s, id, n, o, r, |h[o].inputs|);
    CopiesOfSum(h[o].own, Merged(h, o, |h[o].inputs|), id, r);
  }

  lemma {:induction false} CopiesOfMerged(h: seq<Node>, s: Place, id: nat, n: int, o: nat, r: int, m: nat)
    requires IsHistory(h) && AddedOnce(h, s, id, n) && o < |h| && r >= 1 && m <= |h[o].inputs|
    ensures Copies(Merged(h, o, m), id, r) == if r <= n then PathsThrough(h, s, o, n - r + 1, m) else 0
    decreases o, 0, m
  {
    hide AddedOnce;
    if m > 0 {
      var input := h[o].inputs[m - 1];
      assert IsEarlier(h, o, input);
      CopiesOfMerged(h, s, id, n, o, r, m - 1);
      CopiesOfTracks(h, s, id, n, input.shape, input.seen, r);
      CopiesOfSum(Merged(h, o, m - 1), TracksWith(h, input.shape, input.seen), id, r);
    }
  }

  /** The copies of a track that are evaluated: those with steps to go. */
  function Live(tracks: seq<TagTrack>, id: nat): nat {
    if tracks == [] then 0 else
      var t := tracks[|tracks| - 1];
      Live(tracks[..|tracks| - 1], id) + if t.id == id && t.remaining > 0 then 1 else 0
  }

  /** The number of ways from s to the making of o through 1 to n operations. */
  function PathsUpTo(h: seq<Node>, s: Place, o: nat, n: int): nat
    requires IsHistory(h) && o < |h|
    decreases if n <= 0 then 0 else n
  {
    if n <= 0 then 0 else PathsUpTo(h, s, o, n - 1) + Paths(h, s, o, 0, n)
  }

  function CopiesFrom(tracks: seq<TagTrack>, id: nat, r: int, top: int): nat
    decreases if top < r then 0 else top - r + 1
  {
    if top < r then 0 else Copies(tracks, id, r) + CopiesFrom(tracks, id, r + 1, top)
  }

  lemma {:induction false} AddToCopies(tracks: seq<TagTrack>, id: nat, r: int, top: int)
    requires tracks != []
    ensures var t := tracks[|tracks| - 1];
            CopiesFrom(tracks, id, r, top)
            == CopiesFrom(tracks[..|tracks| - 1], id, r, top) + if t.id == id && r <= t.remaining <= top then 1 else 0
    decreases if top < r then 0 else top - r + 1
  {
    if r <= top {
      AddToCopies(tracks, id, r + 1, top);
    }
  }

  lemma {:induction false} CopiesOfNothing(id: nat, r: int, top: int)
    ensures CopiesFrom([], id, r, top) == 0
    decreases if top < r then 0 else top - r + 1
  {
    if r <= top {
      CopiesOfNothing(id, r + 1, top);
    }
  }

  ghost predicate NoneAbove(tracks: seq<TagTrack>, id: nat, top: int) {
    forall i :: 0 <= i < |tracks| && tracks[i].id == id ==> tracks[i].remaining <= top
  }

  lemma {:induction false} LiveIsCopies(tracks: seq<TagTrack>, id: nat, top: int)
    requires NoneAbove(tracks, id, top)
    ensures Live(tracks, id) == CopiesFrom(tracks, id, 1, top)
  {
    if tracks == [] {
      CopiesOfNothing(id, 1, top);
    } else {
      LiveIsCopies(tracks[..|tracks| - 1], id, top);
      AddToCopies(tracks, id, 1, top);
    }
  }

  lemma {:induction false} HasCopy(tracks: seq<TagTrack>, i: nat)
    requires i < |tracks|
    ensures Copies(tracks, tracks[i].id, tracks[i].remaining) > 0
  {
    var n := |tracks| - 1;
    if i < n {
      HasCopy(tracks[..n], i);
    }
  }

  lemma {:induction false} CopiesArePaths(h: seq<Node>, s: Place, id: nat, n: int, o: nat, r: int)
    requires IsHistory(h) && AddedOnce(h, s, id, n) && o < |h| && r >= 1
    ensures CopiesFrom(Applied(h, o), id, r, n) == PathsUpTo(h, s, o, n - r + 1)
    decreases if n < r then 0 else n - r + 1
  {
    if r <= n {
      CopiesOfApplied(h, s, id, n, o, r);
      CopiesArePaths(h, s, id, n, o, r + 1);
    }
  }

  /** The operation that makes shape o evaluates the track once for every way of 1 to n operations that leads from s to
      o, and not for any longer way. */
  lemma Evaluations(h: seq<Node>, s: Place, id: nat, n: int, o: nat)
    requires IsHistory(h) && AddedOnce(h, s, id, n) && o < |h|
    ensures Live(Applied(h, o), id) == PathsUpTo(h, s, o, n)
    ensures forall k :: 1 <= k <= n ==> Copies(Applied(h, o), id, n - k + 1) == Paths(h, s, o, 0, k)
    ensures forall i :: 0 <= i < |Applied(h, o)| && Applied(h, o)[i].id == id ==>
            Applied(h, o)[i].remaining <= (if n < 0 then 0 else n)
  {
    var a := Applied(h, o);
    var top := if n < 0 then 0 else n;
    forall i | 0 <= i < |a| && a[i].id == id
      ensures a[i].remaining <= top
    {
      HasCopy(a, i);
      if a[i].remaining >= 1 {
        CopiesOfApplied(h, s, id, n, o, a[i].remaining);
      }
    }
    LiveIsCopies(a, id, top);
    CopiesArePaths(h, s, id, n, o, 1);
    forall k | 1 <= k <= n
      ensures Copies(a, id, n - k + 1) == Paths(h, s, o, 0, k)
    {
      CopiesOfApplied(h, s, id, n, o, n - k + 1);
    }
  }

  /** h goes on as g: more shapes, and more tracks added to those there are. */
  ghost predicate GoesOn(h: seq<Node>, g: seq<Node>) {
    && IsHistory(h) && IsHistory(g) && |h| <= |g|
    && forall i :: 0 <= i < |h| ==> g[i].inputs == h[i].inputs && g[i].own == h[i].own && h[i].added <= g[i].added
  }

  /** What comes later does not change the tracks that earlier operations saw. */
  lemma {:induction false} LaterDoesNotMatter(h: seq<Node>, g: seq<Node>, i: nat, seen: nat)
    requires GoesOn(h, g) && i < |h| && seen <= |h[i].added|
    ensures seen <= |g[i].added| && TracksWith(g, i, seen) == TracksWith(h, i, seen) && Applied(g, i) == Applied(h, i)
    decreases i, 1
  {
    MergedOfLonger(h, g, i, |h[i].inputs|);
    assert g[i].added[..seen] == h[i].added[..seen];
  }

  lemma {:induction false} MergedOfLonger(h: seq<Node>, g: seq<Node>, i: nat, m: nat)
    requires GoesOn(h, g) && i < |h| && m <= |h[i].inputs|
    ensures Merged(g, i, m) == Merged(h, i, m)
    decreases i, 0, m
  {
    if m > 0 {
      var input := h[i].inputs[m - 1];
      assert IsEarlier(h, i, input);
      MergedOfLonger(h, g, i, m - 1);
      LaterDoesNotMatter(h, g, input.shape, input.seen);
    }
  }

  // The tags that the tracks set.

  /** The tags of a shape after all tracks have been applied to it; each criterion sees the tags set before. */
  function Tagged(tracks: seq<TagTrack>, identity: int, tags: seq<string>): seq<string> {
    if tracks == [] then tags else
      var t, before := tracks[|tracks| - 1], Tagged(tracks[..|tracks| - 1], identity, tags);
      before + if t.remaining > 0 && t.criterion(identity, before) then [t.tag] else []
  }

  function Times(tags: seq<string>, tag: string): nat {
    multiset(tags)[tag]
  }

  lemma TimesOfOneMore(tags: seq<string>, t: string, tag: string)
    ensures Times(tags + [t], tag) == Times(tags, tag) + if t == tag then 1 else 0
  {
  }

  /** Of all tracks just those with the id have the tag, and on this shape they accept always, or never. */
  ghost predicate IsRuled(t: TagTrack, tag: string, id: nat, identity: int, accepts: bool) {
    (t.tag == tag <==> t.id == id) && (t.id == id ==> forall tags :: t.criterion(identity, tags) == accepts)
  }

  ghost predicate AreRuled(tracks: seq<TagTrack>, tag: string, id: nat, identity: int, accepts: bool) {
    forall i :: 0 <= i < |tracks| ==> IsRuled(tracks[i], tag, id, identity, accepts)
  }

  /** The tag is added once for every live copy of the track, or not at all if the track does not accept the shape. */
  lemma {:induction false} TagsOfLive(tracks: seq<TagTrack>, identity: int, tags: seq<string>, tag: string, id: nat,
                                      accepts: bool)
    requires AreRuled(tracks, tag, id, identity, accepts)
    ensures Times(Tagged(tracks, identity, tags), tag) == Times(tags, tag) + if accepts then Live(tracks, id) else 0
  {
    if tracks != [] {
      var n := |tracks| - 1;
      TagsOfLive(tracks[..n], identity, tags, tag, id, accepts);
      assert IsRuled(tracks[n], tag, id, identity, accepts);
      TimesOfOneMore(Tagged(tracks[..n], identity, tags), tracks[n].tag, tag);
      assert Tagged(tracks[..n], identity, tags) + [] == Tagged(tracks[..n], identity, tags);
    }
  }

  /** Tags are only added, at the end. */
  lemma {:induction false} TagsAreAdded(tracks: seq<TagTrack>, identity: int, tags: seq<string>)
    ensures tags <= Tagged(tracks, identity, tags)
  {
    if tracks != [] {
      TagsAreAdded(tracks[..|tracks| - 1], identity, tags);
    }
  }

  ghost predicate IsRuledHistory(h: seq<Node>, tag: string, id: nat, identity: int, accepts: bool) {
    forall i :: 0 <= i < |h| ==>
      AreRuled(h[i].own, tag, id, identity, accepts) && AreRuled(h[i].added, tag, id, identity, accepts)
  }

  lemma {:induction false} WornIsRuled(tracks: seq<TagTrack>, tag: string, id: nat, identity: int, accepts: bool)
    requires AreRuled(tracks, tag, id, identity, accepts)
    ensures AreRuled(Worn(tracks), tag, id, identity, accepts)
  {
    if tracks != [] {
      WornIsRuled(tracks[..|tracks| - 1], tag, id, identity, accepts);
      assert IsRuled(tracks[|tracks| - 1], tag, id, identity, accepts);
    }
  }

  lemma {:induction false} MergedIsRuled(h: seq<Node>, i: nat, m: nat, tag: string, id: nat, identity: int,
                                         accepts: bool)
    requires IsHistory(h) && i < |h| && m <= |h[i].inputs| && IsRuledHistory(h, tag, id, identity, accepts)
    ensures AreRuled(Merged(h, i, m), tag, id, identity, accepts)
    decreases i, 0, m
  {
    hide IsRuled;
    if m > 0 {
      var input := h[i].inputs[m - 1];
      assert IsEarlier(h, i, input);
      MergedIsRuled(h, i, m - 1, tag, id, identity, accepts);
      AppliedIsRuled(h, input.shape, tag, id, identity, accepts);
      WornIsRuled(Applied(h, input.shape), tag, id, identity, accepts);
      assert AreRuled(h[input.shape].added, tag, id, identity, accepts);
    }
  }

  lemma {:induction false} AppliedIsRuled(h: seq<Node>, i: nat, tag: string, id: nat, identity: int, accepts: bool)
    requires IsHistory(h) && i < |h| && IsRuledHistory(h, tag, id, identity, accepts)
    ensures AreRuled(Applied(h, i), tag, id, identity, accepts)
    decreases i, 1
  {
    hide IsRuled;
    MergedIsRuled(h, i, |h[i].inputs|, tag, id, identity, accepts);
    assert AreRuled(h[i].own, tag, id, identity, accepts);
  }

  /** The operation that makes shape o sets the tag on an accepted part once for every way of 1 to n operations from the
      place where the track was added, and never on a part that is not accepted. */
  lemma TagsOfOperation(h: seq<Node>, s: Place, id: nat, n: int, o: nat, identity: int, tags: seq<string>, tag: string,
                        accepts: bool)
    requires IsHistory(h) && AddedOnce(h, s, id, n) && o < |h| && IsRuledHistory(h, tag, id, identity, accepts)
    ensures Times(Tagged(Applied(h, o), identity, tags), tag)
            == Times(tags, tag) + if accepts then PathsUpTo(h, s, o, n) else 0
  {
    AppliedIsRuled(h, o, tag, id, identity, accepts);
    TagsOfLive(Applied(h, o), identity, tags, tag, id, accepts);
    Evaluations(h, s, id, n, o);
  }

  /** The operation that makes shape o has changed the tags of a part as it should: by one more for every way to it, for
      each tag that belongs to a single track. */
  ghost predicate CountsTags(h: seq<Node>, o: nat, identity: int, before: seq<string>, after: seq<string>)
    requires IsHistory(h) && o < |h|
  {
    forall s, id, n, tag, accepts :: AddedOnce(h, s, id, n) && IsRuledHistory(h, tag, id, identity, accepts) ==>
      Times(after, tag) == Times(before, tag) + if accepts then PathsUpTo(h, s, o, n) else 0
  }

  lemma TaggedCounts(h: seq<Node>, o: nat, identity: int, tags: seq<string>)
    requires IsHistory(h) && o < |h|
    ensures CountsTags(h, o, identity, tags, Tagged(Applied(h, o), identity, tags))
  {
    hide AddedOnce, IsRuledHistory, Times, PathsUpTo, Tagged, Applied;
    forall s, id, n, tag, accepts | AddedOnce(h, s, id, n) && IsRuledHistory(h, tag, id, identity, accepts)
      ensures Times(Tagged(Applied(h, o), identity, tags), tag)
              == Times(tags, tag) + if accepts then PathsUpTo(h, s, o, n) else 0
    {
      TagsOfOperation(h, s, id, n, o, identity, tags, tag, accepts);
    }
  }
}
