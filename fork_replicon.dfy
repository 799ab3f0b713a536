/** The engine of `main_forkstruct.rs`: replication as a list of forks.  Each
    origin fires a pair of forks, a left one walking towards 0 and a right one
    walking towards the genome length; a pass steps every fork, merges one pair
    of colliding bubbles, and tops the list up with new fork pairs placed in
    the gaps that are still unreplicated. */
module ForkReplicon {
  import opened Outcomes

  /** One replication fork: where its bubble started, where it is now, the
      signed distance it moves per pass, and a flag the engine never reads. */
  datatype Fork = Fork(origin: int, position: int, step: int, toDelete: bool)

  /** A half-open interval [lo, hi) of genome coordinates. */
  datatype Span = Span(lo: int, hi: int)

  function Min(a: int, b: int): int {
    if a <= b then a else b
  }

  function Max(a: int, b: int): int {
    if a <= b then b else a
  }

  function Abs(x: int): nat {
    if x < 0 then -x else x
  }

  /** `x` forced into the coordinate range [0, L]. */
  function Clamp(x: int, L: nat): (r: int)
    ensures 0 <= r <= L
    ensures 0 <= x <= L ==> r == x
    ensures x < 0 ==> r == 0
    ensures L < x ==> r == L
  {
    Min(Max(x, 0), L)
  }

  /** Every origin and every position lies on the genome [0, L]. */
  ghost predicate InBounds(fs: seq<Fork>, L: nat) {
    forall i :: 0 <= i < |fs| ==> 0 <= fs[i].origin <= L && 0 <= fs[i].position <= L
  }

  /** Length replicated by the forks: the sum of |origin - position|. */
  function Extent(fs: seq<Fork>): nat {
    if fs == [] then 0 else Abs(fs[0].origin - fs[0].position) + Extent(fs[1..])
  }

  lemma {:induction false} ExtentAppend(a: seq<Fork>, b: seq<Fork>)
    ensures Extent(a + b) == Extent(a) + Extent(b)
    decreases |a|
  {
    if a == [] {
      assert a + b == b;
    } else {
      assert (a + b)[1..] == a[1..] + b;
      ExtentAppend(a[1..], b);
    }
  }

  lemma ExtentPair(a: Fork, b: Fork)
    ensures Extent([a, b]) == Abs(a.origin - a.position) + Abs(b.origin - b.position)
  {
    assert [a, b][1..] == [b] && [b][1..] == [];
    assert Extent([b]) == Abs(b.origin - b.position) + Extent([]);
  }

  // ---------------------------------------------------------------------------
  // Fork-pair insertion

  /** Where a new pair for `p` goes, searching from `i`: the first index whose
      fork position is at least `p`, or the end of the list. */
  function InsertionIndexFrom(fs: seq<Fork>, p: int, i: nat): (k: nat)
    requires i <= |fs|
    ensures i <= k <= |fs|
    decreases |fs| - i
  {
    if i == |fs| then i
    else if p <= fs[i].position then i
    else InsertionIndexFrom(fs, p, i + 1)
  }

  function InsertionIndex(fs: seq<Fork>, p: int): nat {
    InsertionIndexFrom(fs, p, 0)
  }

  /** `k` is the first index at or after `i` whose position reaches `p`. */
  ghost predicate FirstReaching(fs: seq<Fork>, p: int, i: nat, k: int) {
    i <= k <= |fs|
    && (forall j :: i <= j < k ==> fs[j].position < p)
    && (k < |fs| ==> p <= fs[k].position)
  }

  lemma {:induction false} InsertionIndexFromIsFirst(fs: seq<Fork>, p: int, i: nat)
    requires i <= |fs|
    ensures FirstReaching(fs, p, i, InsertionIndexFrom(fs, p, i))
    decreases |fs| - i
  {
    if i < |fs| && fs[i].position < p {
      InsertionIndexFromIsFirst(fs, p, i + 1);
    }
  }

  /** The insertion index is exactly the first index whose fork position is at
      least the insertion position, or the list length when there is none. */
  lemma InsertionIndexIff(fs: seq<Fork>, p: int, k: int)
    ensures k == InsertionIndex(fs, p) <==> FirstReaching(fs, p, 0, k)
  {
    var f := InsertionIndex(fs, p);
    InsertionIndexFromIsFirst(fs, p, 0);
  }

  /** The pair fired from `p` with step size `s`: a left fork then a right
      fork, both with origin `p`, each one step out and clamped. */
  function ForkPair(p: int, L: nat, s: int): seq<Fork> {
    [Fork(p, Clamp(p - s, L), -s, false), Fork(p, Clamp(p + s, L), s, false)]
  }

  function WithForkPair(fs: seq<Fork>, p: int, L: nat, s: int): seq<Fork> {
    var k := InsertionIndex(fs, p);
    fs[..k] + ForkPair(p, L, s) + fs[k..]
  }

  /** Insertion adds exactly two forks: every old fork keeps its relative
      order, the pair sits at the insertion index, and a pair fired from a
      point on the genome keeps every coordinate on the genome. */
  lemma WithForkPairShape(fs: seq<Fork>, p: int, L: nat, s: int)
    ensures var t := WithForkPair(fs, p, L, s);
            var k := InsertionIndex(fs, p);
            |t| == |fs| + 2
            && t[k] == Fork(p, Clamp(p - s, L), -s, false)
            && t[k + 1] == Fork(p, Clamp(p + s, L), s, false)
            && t[..k] == fs[..k] && t[k + 2..] == fs[k..]
    ensures InBounds(fs, L) && 0 <= p <= L ==> InBounds(WithForkPair(fs, p, L, s), L)
  {
    var t := WithForkPair(fs, p, L, s);
    var k := InsertionIndex(fs, p);
    assert t[k + 2..] == fs[k..];
    if InBounds(fs, L) && 0 <= p <= L {
      forall i | 0 <= i < |t|
        ensures 0 <= t[i].origin <= L && 0 <= t[i].position <= L
      {
        if i < k {
          assert t[i] == fs[i];
        } else if k + 2 <= i {
          assert t[i] == t[k + 2..][i - k - 2] == fs[i - 2];
        }
      }
    }
  }

  /** The list after firing pairs from the positions `ps`, in order. */
  function Fire(fs: seq<Fork>, ps: seq<int>, L: nat, s: int): (t: seq<Fork>)
    ensures |t| == |fs| + 2 * |ps|
    decreases |ps|
  {
    if ps == [] then fs else WithForkPair(Fire(fs, ps[..|ps| - 1], L, s), ps[|ps| - 1], L, s)
  }

  /** `p` lies in one of the spans `g`. */
  ghost predicate InSomeGap(p: int, g: seq<Span>) {
    exists i :: 0 <= i < |g| && g[i].lo <= p < g[i].hi
  }

  /** Each position of `ps` lies in a gap of the list as it was when its pair
      was fired. */
  ghost predicate FiredInGaps(fs: seq<Fork>, ps: seq<int>, L: nat, s: int)
    decreases |ps|
  {
    ps == [] ||
    (FiredInGaps(fs, ps[..|ps| - 1], L, s) && InSomeGap(ps[|ps| - 1], Gaps(Fire(fs, ps[..|ps| - 1], L, s), L)))
  }

  /** Firing one more point from a gap of the current list extends both the
      list and the record of fired points. */
  lemma FireSnoc(fs: seq<Fork>, ps: seq<int>, L: nat, s: int, p: int)
    requires FiredInGaps(fs, ps, L, s) && InSomeGap(p, Gaps(Fire(fs, ps, L, s), L))
    ensures Fire(fs, ps + [p], L, s) == WithForkPair(Fire(fs, ps, L, s), p, L, s)
    ensures FiredInGaps(fs, ps + [p], L, s)
  {
    assert (ps + [p])[..|ps|] == ps;
  }

  // ---------------------------------------------------------------------------
  // Stepping

  /** One fork after one pass: moved by its step and clamped to the genome. */
  function StepOne(f: Fork, L: nat): Fork {
    f.(position := Clamp(f.position + f.step, L))
  }

  /** A stepped fork keeps its origin, step and flag, moves by exactly its
      step when that stays on the genome, and is stopped at an end otherwise;
      a fork whose origin is on the genome stays within bounds. */
  lemma StepOneFacts(f: Fork, L: nat)
    ensures var g := StepOne(f, L);
            g.origin == f.origin && g.step == f.step && g.toDelete == f.toDelete
            && 0 <= g.position <= L
            && (0 <= f.position + f.step <= L ==> g.position == f.position + f.step)
            && (f.position + f.step < 0 ==> g.position == 0)
            && (L < f.position + f.step ==> g.position == L)
  {
  }

  // ---------------------------------------------------------------------------
  // Merging colliding bubbles

  /** The right fork of the bubble at `ind` has reached the left fork of the
      next bubble. */
  predicate Overlaps(fs: seq<Fork>, ind: nat)
    requires ind + 2 < |fs|
  {
    fs[ind + 1].position >= fs[ind + 2].position
  }

  /** The first even offset from `ind` (below |fs| - 3) at which two bubbles
      collide, or -1. */
  function FirstOverlapFrom(fs: seq<Fork>, ind: nat): (r: int)
    ensures r == -1 || (ind <= r && r + 3 < |fs|)
    decreases |fs| - ind
  {
    if |fs| <= ind + 3 then -1
    else if Overlaps(fs, ind) then ind
    else FirstOverlapFrom(fs, ind + 2)
  }

  function FirstOverlap(fs: seq<Fork>): int {
    FirstOverlapFrom(fs, 0)
  }

  /** The scan finds the first colliding pair among the even offsets it
      visits, and -1 means no visited pair collides. */
  lemma {:induction false} FirstOverlapFromFacts(fs: seq<Fork>, ind: nat)
    ensures var r := FirstOverlapFrom(fs, ind);
            r == -1 || ((r - ind) % 2 == 0 && Overlaps(fs, r))
    ensures var r := FirstOverlapFrom(fs, ind);
            forall j :: ind <= j && j + 3 < |fs| && (j - ind) % 2 == 0 && (r == -1 || j < r) ==> !Overlaps(fs, j)
    decreases |fs| - ind
  {
    if ind + 3 < |fs| && !Overlaps(fs, ind) {
      FirstOverlapFromFacts(fs, ind + 2);
      var r := FirstOverlapFrom(fs, ind);
      forall j | ind <= j && j + 3 < |fs| && (j - ind) % 2 == 0 && (r == -1 || j < r)
        ensures !Overlaps(fs, j)
      {
        if j != ind {
          assert (j - (ind + 2)) % 2 == 0;
        }
      }
    }
  }

  /** The bubble at `ind` widened to cover the one at `ind + 2`: the left fork
      of the first and the right fork of the second survive, re-rooted at the
      collision point and pushed out to the outermost positions. */
  function MergeAt(fs: seq<Fork>, ind: nat): seq<Fork>
    requires ind + 3 < |fs|
  {
    var m := fs[ind + 1].position;
    fs[..ind]
      + [fs[ind].(origin := m, position := Min(fs[ind].position, fs[ind + 2].position)),
         fs[ind + 3].(origin := m, position := Max(m, fs[ind + 3].position))]
      + fs[ind + 4..]
  }

  /** The list after one merge pass: the first colliding pair merged, or
      nothing changed when no pair collides. */
  function Merged(fs: seq<Fork>): seq<Fork> {
    var ind := FirstOverlap(fs);
    if ind < 0 then fs else MergeAt(fs, ind)
  }

  /** A merge replaces the two colliding bubbles by one whose extent is their
      union: from the leftmost to the rightmost of their positions. */
  lemma MergeAtExtent(fs: seq<Fork>, ind: nat)
    requires ind + 3 < |fs| && Overlaps(fs, ind)
    ensures Extent(MergeAt(fs, ind))
            == Extent(fs[..ind])
               + (Max(fs[ind + 1].position, fs[ind + 3].position) - Min(fs[ind].position, fs[ind + 2].position))
               + Extent(fs[ind + 4..])
  {
    var m := fs[ind + 1].position;
    var pair := [fs[ind].(origin := m, position := Min(fs[ind].position, fs[ind + 2].position)),
                 fs[ind + 3].(origin := m, position := Max(m, fs[ind + 3].position))];
    ExtentAppend(fs[..ind] + pair, fs[ind + 4..]);
    ExtentAppend(fs[..ind], pair);
    ExtentPair(pair[0], pair[1]);
  }

  /** One pass merges at most once: the list is unchanged when no pair
      collides, and otherwise shrinks by exactly two with everything outside
      the merged bubble left in place. */
  lemma MergedShape(fs: seq<Fork>)
    ensures var ind := FirstOverlap(fs);
            ind == -1 ==> Merged(fs) == fs
    ensures var ind := FirstOverlap(fs);
            ind != -1 ==>
              ind % 2 == 0 && Overlaps(fs, ind)
              && |Merged(fs)| == |fs| - 2
              && Merged(fs)[..ind] == fs[..ind]
              && Merged(fs)[ind + 2..] == fs[ind + 4..]
  {
    FirstOverlapFromFacts(fs, 0);
    var ind := FirstOverlap(fs);
    if ind != -1 {
      var t := MergeAt(fs, ind);
      assert t[..ind] == fs[..ind];
      assert t[ind + 2..] == fs[ind + 4..];
    }
  }

  /** A merge keeps every coordinate on the genome. */
  lemma MergedInBounds(fs: seq<Fork>, L: nat)
    requires InBounds(fs, L)
    ensures InBounds(Merged(fs), L)
  {
    var ind := FirstOverlap(fs);
    if ind != -1 {
      var t := MergeAt(fs, ind);
      forall i | 0 <= i < |t|
        ensures 0 <= t[i].origin <= L && 0 <= t[i].position <= L
      {
        if i < ind {
          assert t[i] == fs[i];
        } else if ind + 2 <= i {
          assert t[i] == fs[i + 2];
        }
      }
    }
  }

  /** The merge as rusty_replicon writes it: after the first removal the fork
      that was at `ind + 3` has moved to `ind + 2`, so the second removal
      drops the widened right fork and keeps the old left fork of the second
      bubble. */
  function MergeAtAsWritten(fs: seq<Fork>, ind: nat): seq<Fork>
    requires ind + 3 < |fs|
  {
    var m := fs[ind + 1].position;
    var left := fs[ind].(origin := m, position := Min(fs[ind].position, fs[ind + 2].position));
    var right := fs[ind + 3].(origin := m, position := Max(m, fs[ind + 3].position));
    var updated := fs[ind := left][ind + 3 := right];
    var once := updated[..ind + 1] + updated[ind + 2..];
    once[..ind + 2] + once[ind + 3..]
  }

  /** The survivors of the as-written merge are the original forks at `ind`
      (widened) and `ind + 2` (untouched). */
  lemma AsWrittenSurvivors(fs: seq<Fork>, ind: nat)
    requires ind + 3 < |fs|
    ensures var t := MergeAtAsWritten(fs, ind);
            |t| == |fs| - 2
            && t[ind] == fs[ind].(origin := fs[ind + 1].position,
                                  position := Min(fs[ind].position, fs[ind + 2].position))
            && t[ind + 1] == fs[ind + 2]
            && t[..ind] == fs[..ind] && t[ind + 2..] == fs[ind + 4..]
  {
    var t := MergeAtAsWritten(fs, ind);
    assert t[ind + 2..] == fs[ind + 4..];
  }

  /** Two bubbles from origins 10 and 13 on a genome of length 100, one pass
      after firing with step 2. */
  function CollidingBubbles(): seq<Fork> {
    [Fork(10, 8, -2, false), Fork(10, 12, 2, false), Fork(13, 11, -2, false), Fork(13, 15, 2, false)]
  }

  /** On two colliding bubbles covering [8, 15), the as-written merge leaves two
      left-moving forks and an extent of 6, so the right side of the merged
      bubble never advances again; the intended merge keeps a left and a
      right fork with extent 7, the width of the union. */
  lemma AsWrittenMergeDropsRightFork()
    ensures Overlaps(CollidingBubbles(), 0)
    ensures MergeAtAsWritten(CollidingBubbles(), 0) == [Fork(12, 8, -2, false), Fork(13, 11, -2, false)]
    ensures Extent(MergeAtAsWritten(CollidingBubbles(), 0)) == 6
    ensures forall i :: 0 <= i < 2 ==> MergeAtAsWritten(CollidingBubbles(), 0)[i].step < 0
    ensures MergeAt(CollidingBubbles(), 0) == [Fork(12, 8, -2, false), Fork(12, 15, 2, false)]
    ensures Extent(MergeAt(CollidingBubbles(), 0)) == 7
  {
    var fs := CollidingBubbles();
    AsWrittenSurvivors(fs, 0);
    var w := MergeAtAsWritten(fs, 0);
    assert w == [Fork(12, 8, -2, false), Fork(13, 11, -2, false)];
    assert w[1..] == [w[1]];
    var c := MergeAt(fs, 0);
    assert c == [Fork(12, 8, -2, false), Fork(12, 15, 2, false)];
    assert c[1..] == [c[1]];
  }

  // ---------------------------------------------------------------------------
  // Unreplicated ranges

  /** The lower and upper coordinate of a fork's bubble side. */
  function LeftBound(f: Fork): int {
    if f.step < 0 then f.position else f.origin
  }

  function RightBound(f: Fork): int {
    if f.step < 0 then f.origin else f.position
  }

  /** The gaps found by walking the forks with the previous right bound
      `cursor`: a gap up to each fork's left bound when it is longer than 1,
      then the tail up to `L` when the cursor is not at `L`. */
  function GapsFrom(fs: seq<Fork>, cursor: int, L: nat): seq<Span>
    decreases |fs|
  {
    if fs == [] then
      (if cursor != L then [Span(cursor, L)] else [])
    else
      GapBefore(fs[0], cursor) + GapsFrom(fs[1..], RightBound(fs[0]), L)
  }

  /** The gap between the previous right bound and a fork's left bound, kept
      only when it is longer than 1. */
  function GapBefore(f: Fork, cursor: int): seq<Span> {
    var left := LeftBound(f);
    if left > cursor && left - cursor > 1 then [Span(cursor, left)] else []
  }

  lemma GapsFromUnfold(fs: seq<Fork>, i: nat, cursor: int, L: nat)
    requires i < |fs|
    ensures GapsFrom(fs[i..], cursor, L) == GapBefore(fs[i], cursor) + GapsFrom(fs[i + 1..], RightBound(fs[i]), L)
  {
    assert fs[i..][1..] == fs[i + 1..];
  }

  lemma AssocSpans(a: seq<Span>, b: seq<Span>, c: seq<Span>)
    ensures a + (b + c) == a + b + c
  {
  }

  /** The unreplicated ranges of a fork list: the whole genome when there
      are no forks. */
  function Gaps(fs: seq<Fork>, L: nat): seq<Span> {
    if fs == [] then [Span(0, L)] else GapsFrom(fs, 0, L)
  }

  /** On a fork list within the genome every gap is a non-empty interval of
      the genome, so a position can be drawn from each one. */
  ghost predicate OnGenome(g: seq<Span>, L: nat) {
    forall i :: 0 <= i < |g| ==> 0 <= g[i].lo < g[i].hi <= L
  }

  lemma {:induction false} GapsFromOnGenome(fs: seq<Fork>, cursor: int, L: nat)
    requires InBounds(fs, L) && 0 <= cursor <= L
    ensures OnGenome(GapsFrom(fs, cursor, L), L)
    decreases |fs|
  {
    if fs != [] {
      var head: seq<Span> := GapBefore(fs[0], cursor);
      var tail: seq<Span> := GapsFrom(fs[1..], RightBound(fs[0]), L);
      assert GapsFrom(fs, cursor, L) == head + tail;
      assert 0 <= fs[0].origin <= L && 0 <= fs[0].position <= L;
      assert InBounds(fs[1..], L) by {
        forall i | 0 <= i < |fs[1..]|
          ensures 0 <= fs[1..][i].origin <= L && 0 <= fs[1..][i].position <= L
        {
          assert fs[1..][i] == fs[i + 1];
        }
      }
      GapsFromOnGenome(fs[1..], RightBound(fs[0]), L);
      assert OnGenome(head, L);
      forall i | 0 <= i < |head + tail|
        ensures 0 <= (head + tail)[i].lo < (head + tail)[i].hi <= L
      {
        if i >= |head| {
          assert (head + tail)[i] == tail[i - |head|];
        }
      }
    }
  }

  lemma GapsOnGenome(fs: seq<Fork>, L: nat)
    requires InBounds(fs, L) && (fs == [] ==> L > 0)
    ensures OnGenome(Gaps(fs, L), L)
  {
    if fs != [] {
      GapsFromOnGenome(fs, 0, L);
    }
  }

  /** A single pair fired from 50 with step 2 on a genome of length 100 leaves
      the two flanks [0, 48) and [52, 100) unreplicated. */
  lemma SinglePairGaps()
    ensures Gaps(ForkPair(50, 100, 2), 100) == [Span(0, 48), Span(52, 100)]
  {
    var fs := ForkPair(50, 100, 2);
    assert fs[1..][1..] == [];
    assert GapsFrom(fs[1..][1..], 52, 100) == [Span(52, 100)];
    assert GapsFrom(fs[1..], 50, 100) == [Span(52, 100)];
  }

  // ---------------------------------------------------------------------------
  // Coverage

  /** Total length of a list of spans. */
  function SpanTotal(g: seq<Span>): int {
    if g == [] then 0 else g[0].hi - g[0].lo + SpanTotal(g[1..])
  }

  lemma {:induction false} SpanTotalAppend(a: seq<Span>, b: seq<Span>)
    ensures SpanTotal(a + b) == SpanTotal(a) + SpanTotal(b)
    decreases |a|
  {
    if a == [] {
      assert a + b == b;
    } else {
      assert (a + b)[1..] == a[1..] + b;
      SpanTotalAppend(a[1..], b);
    }
  }

  /** How many gaps of length exactly 1 the gap walk passes over: the walk
      finds them but does not list them. */
  function UnitGapsFrom(fs: seq<Fork>, cursor: int): nat
    decreases |fs|
  {
    if fs == [] then 0
    else (if LeftBound(fs[0]) - cursor == 1 then 1 else 0) + UnitGapsFrom(fs[1..], RightBound(fs[0]))
  }

  /** `fs` is a sequence of bubbles on the genome, in order and without
      overlap, the first starting at or after `cursor`: each bubble is a
      left-moving fork and a right-moving fork sharing an origin, the left
      fork at or below the origin and the right fork at or above it. */
  ghost predicate BubblesFrom(fs: seq<Fork>, cursor: int, L: nat)
    decreases |fs|
  {
    if fs == [] then cursor <= L
    else
      && |fs| >= 2
      && fs[0].step < 0 && 0 <= fs[1].step
      && cursor <= fs[0].position <= fs[0].origin
      && fs[0].origin == fs[1].origin && fs[1].origin <= fs[1].position
      && BubblesFrom(fs[2..], fs[1].position, L)
  }

  ghost predicate Bubbles(fs: seq<Fork>, L: nat) {
    BubblesFrom(fs, 0, L)
  }

  /** Walking ordered, disjoint bubbles from `cursor`: the replicated length
      (the fork sum), the listed gaps and the unit gaps the walk skips add up
      to the rest of the genome, and every listed gap is at least 1 long. */
  lemma {:induction false} CoverageFrom(fs: seq<Fork>, cursor: int, L: nat)
    requires BubblesFrom(fs, cursor, L)
    ensures Extent(fs) + SpanTotal(GapsFrom(fs, cursor, L)) + UnitGapsFrom(fs, cursor) == L - cursor
    ensures |GapsFrom(fs, cursor, L)| <= SpanTotal(GapsFrom(fs, cursor, L))
    decreases |fs|
  {
    if fs != [] {
      var a, b, rest := fs[0], fs[1], fs[2..];
      assert fs[1..][0] == b && fs[1..][1..] == rest;
      var head := GapBefore(a, cursor);
      var tail := GapsFrom(rest, b.position, L);
      assert GapsFrom(fs[1..], a.origin, L) == tail;
      assert GapsFrom(fs, cursor, L) == head + tail;
      assert Extent(fs) == (a.origin - a.position) + (b.position - b.origin) + Extent(rest);
      assert UnitGapsFrom(fs, cursor) == (if a.position - cursor == 1 then 1 else 0) + UnitGapsFrom(rest, b.position);
      CoverageFrom(rest, b.position, L);
      SpanTotalAppend(head, tail);
    }
  }

  /** On ordered, disjoint bubbles the fork sum plus the unreplicated length
      (listed gaps and skipped unit gaps) is the genome length.  An empty list
      leaves the whole genome as one gap. */
  lemma Coverage(fs: seq<Fork>, L: nat)
    requires Bubbles(fs, L)
    ensures Extent(fs) + SpanTotal(Gaps(fs, L)) + UnitGapsFrom(fs, 0) == L
    ensures fs != [] ==> |Gaps(fs, L)| <= SpanTotal(Gaps(fs, L))
  {
    if fs != [] {
      CoverageFrom(fs, 0, L);
    }
  }

  /** A gap of length 1 is not listed: bubbles [0, 6) and [7, 10) on a genome
      of length 10 leave no listed gap, yet position 6 is unreplicated and the
      fork sum is 9. */
  lemma UnitGapUnlisted()
    ensures var fs := [Fork(3, 0, -3, false), Fork(3, 6, 3, false), Fork(8, 7, -1, false), Fork(8, 10, 2, false)];
            Bubbles(fs, 10) && Gaps(fs, 10) == [] && UnitGapsFrom(fs, 0) == 1 && Extent(fs) == 9
  {
    var fs := [Fork(3, 0, -3, false), Fork(3, 6, 3, false), Fork(8, 7, -1, false), Fork(8, 10, 2, false)];
    assert fs[1..][1..][1..][1..] == [] && fs[2..][2..] == [];
    assert fs[1..][1..][1..] == [fs[3]];
    assert Extent([fs[3]]) == 2 + Extent([]);
  }

  // ---------------------------------------------------------------------------
  // The cell

  class Cell {
    const genomeLength: nat
    const numReplicators: nat
    const stepSize: int
    var forkState: seq<Fork>

    ghost predicate Valid()
      reads this
    {
      InBounds(forkState, genomeLength)
    }

    constructor (genomeLength: nat, numReplicators: nat, stepSize: int)
      ensures this.genomeLength == genomeLength
      ensures this.numReplicators == numReplicators
      ensures this.stepSize == stepSize
      ensures forkState == []
      ensures Valid() && !FullyReplicated()
    {
      this.genomeLength := genomeLength;
      this.numReplicators := numReplicators;
      this.stepSize := stepSize;
      forkState := [];
    }

    /** No forks means nothing is replicated; otherwise the genome is done
        when the bubbles' total length equals the genome length. */
    function FullyReplicated(): (r: bool)
      reads this
      ensures forkState == [] ==> !r
      ensures forkState != [] ==> (r <==> Extent(forkState) == genomeLength)
    {
      if forkState == [] then false else genomeLength == Extent(forkState)
    }

    /** On ordered, disjoint bubbles the fork-sum test answers exactly
        whether no unreplicated length is left: there are forks, no gap is
        listed and the walk skips no unit gap. */
    lemma FullyReplicatedIff()
      requires Bubbles(forkState, genomeLength)
      ensures FullyReplicated()
          <==> forkState != [] && Gaps(forkState, genomeLength) == [] && UnitGapsFrom(forkState, 0) == 0
    {
      Coverage(forkState, genomeLength);
    }

    /** Fire a fork pair from `insertionPosition`, placed before the first
        fork whose position reaches it. */
    method InsertForkPair(insertionPosition: int)
      modifies this
      ensures forkState == WithForkPair(old(forkState), insertionPosition, genomeLength, stepSize)
      ensures old(Valid()) && 0 <= insertionPosition <= genomeLength ==> Valid()
    {
      var insertionIndex := 0;
      if forkState != [] {
        insertionIndex := |forkState|;
        var ind := 0;
        while ind < |forkState|
          invariant 0 <= ind <= |forkState|
          invariant InsertionIndexFrom(forkState, insertionPosition, ind) == InsertionIndex(forkState, insertionPosition)
          invariant insertionIndex == |forkState|
        {
          if insertionPosition <= forkState[ind].position {
            insertionIndex := ind;
            break;
          }
          ind := ind + 1;
        }
      }
      ghost var before := forkState;
      var right := Fork(insertionPosition, Clamp(insertionPosition + stepSize, genomeLength), stepSize, false);
      var left := Fork(insertionPosition, Clamp(insertionPosition - stepSize, genomeLength), -stepSize, false);
      var once := forkState[..insertionIndex] + [right] + forkState[insertionIndex..];
      forkState := once[..insertionIndex] + [left] + once[insertionIndex..];
      assert once[..insertionIndex] == before[..insertionIndex];
      assert once[insertionIndex..] == [right] + before[insertionIndex..];
      WithForkPairShape(before, insertionPosition, genomeLength, stepSize);
    }

    /** Move every fork by its step, clamped to the genome. */
    method StepForks()
      modifies this
      ensures |forkState| == |old(forkState)|
      ensures forall i :: 0 <= i < |forkState| ==> forkState[i] == StepOne(old(forkState)[i], genomeLength)
      ensures old(Valid()) ==> Valid()
    {
      var i := 0;
      while i < |forkState|
        invariant 0 <= i <= |forkState| == |old(forkState)|
        invariant forall j :: 0 <= j < i ==> forkState[j] == StepOne(old(forkState)[j], genomeLength)
        invariant forall j :: i <= j < |forkState| ==> forkState[j] == old(forkState)[j]
      {
        var f := forkState[i];
        f := f.(position := f.position + f.step);
        f := f.(position := Min(Max(f.position, 0), genomeLength));
        forkState := forkState[i := f];
        i := i + 1;
      }
    }

    /** Merge the first pair of colliding bubbles, if any.  Fewer than three
        forks is an error. */
    method MergeForks() returns (r: Result<(), Failure>)
      modifies this
      ensures |old(forkState)| < 3 ==> r == Err(TooFewForks) && forkState == old(forkState)
      ensures 3 <= |old(forkState)| ==> r == Ok(()) && forkState == Merged(old(forkState))
      ensures old(Valid()) ==> Valid()
    {
      if |forkState| < 3 {
        return Err(TooFewForks);
      }
      ghost var wasValid := Valid();
      var ind := 0;
      while ind + 3 < |forkState|
        invariant forkState == old(forkState)
        invariant FirstOverlapFrom(forkState, ind) == FirstOverlap(forkState)
        decreases |forkState| - ind
      {
        if forkState[ind + 1].position >= forkState[ind + 2].position {
          var merged := MergePair(forkState, ind);
          forkState := merged;
          if wasValid {
            MergedInBounds(old(forkState), genomeLength);
          }
          return Ok(());
        }
        ind := ind + 2;
      }
      return Ok(());
    }

    /** Top the list up to `numReplicators` forks, firing each new pair from a
        point drawn in one of the unreplicated ranges; stop early when no
        range is left.  `fired` lists the drawn points in order: each lies in
        a gap of the list as it stood when its pair was fired, and the list
        grows by two forks per point, passing `numReplicators` by at most
        one. */
    method ReplenishForks() returns (r: Result<(), Failure>, ghost fired: seq<int>)
      requires Valid()
      modifies this
      ensures Valid()
      ensures r == Err(EmptyGenome) <==> old(forkState) == [] && genomeLength == 0 && 0 < numReplicators
      ensures r.Err? ==> forkState == old(forkState)
      ensures numReplicators <= |old(forkState)| ==> forkState == old(forkState)
      ensures forkState == Fire(old(forkState), fired, genomeLength, stepSize)
      ensures |forkState| == |old(forkState)| + 2 * |fired|
      ensures FiredInGaps(old(forkState), fired, genomeLength, stepSize)
      ensures |old(forkState)| < numReplicators ==> |forkState| <= numReplicators + 1
      ensures r.Ok? ==> numReplicators <= |forkState| || (forkState != [] && Gaps(forkState, genomeLength) == [])
    {
      fired := [];
      if forkState == [] && genomeLength == 0 && 0 < numReplicators {
        return Err(EmptyGenome), fired;
      }
      var exhausted := false;
      while !exhausted && |forkState| < numReplicators
        invariant Valid()
        invariant forkState == [] ==> genomeLength > 0 || numReplicators == 0
        invariant forkState == Fire(old(forkState), fired, genomeLength, stepSize)
        invariant FiredInGaps(old(forkState), fired, genomeLength, stepSize)
        invariant |forkState| == |old(forkState)| + 2 * |fired|
        invariant |old(forkState)| < numReplicators ==> |forkState| <= numReplicators + 1
        invariant numReplicators <= |old(forkState)| ==> forkState == old(forkState)
        invariant exhausted ==> forkState != [] && Gaps(forkState, genomeLength) == []
        decreases numReplicators - |forkState|, if exhausted then 0 else 1
      {
        ghost var newPosition;
        exhausted, newPosition := FireFromGap();
        if !exhausted {
          FireSnoc(old(forkState), fired, genomeLength, stepSize, newPosition);
          fired := fired + [newPosition];
        }
      }
      return Ok(()), fired;
    }

    /** One pass of the replenishing loop: extract the gaps and, unless there
        are none, fire a pair from a point drawn in one of them. */
    method FireFromGap() returns (exhausted: bool, ghost newPosition: int)
      requires Valid() && (forkState == [] ==> genomeLength > 0)
      modifies this
      ensures Valid()
      ensures exhausted ==> forkState == old(forkState) && forkState != [] && Gaps(forkState, genomeLength) == []
      ensures !exhausted ==> InSomeGap(newPosition, Gaps(old(forkState), genomeLength))
                             && forkState == WithForkPair(old(forkState), newPosition, genomeLength, stepSize)
    {
      var ranges, lengths := UnreplicatedRanges();
      if |ranges| == 0 {
        return true, 0;
      }
      GapsOnGenome(forkState, genomeLength);
      var pick :| 0 <= pick < |ranges|;
      var samplePos :| ranges[pick].lo <= samplePos < ranges[pick].hi;
      assert InSomeGap(samplePos, Gaps(forkState, genomeLength));
      InsertForkPair(samplePos);
      return false, samplePos;
    }

    /** The unreplicated ranges and their lengths, the weights of the draw. */
    method UnreplicatedRanges() returns (ranges: seq<Span>, lengths: seq<nat>)
      requires Valid() && (forkState == [] ==> genomeLength > 0)
      ensures ranges == Gaps(forkState, genomeLength)
      ensures |lengths| == |ranges|
      ensures forall i :: 0 <= i < |ranges| ==> lengths[i] == ranges[i].hi - ranges[i].lo > 0
    {
      GapsOnGenome(forkState, genomeLength);
      if forkState == [] {
        return [Span(0, genomeLength)], [genomeLength];
      }
      var fs := forkState;
      ranges, lengths := [], [];
      var cumsum := 0;
      for i := 0 to |fs|
        invariant 0 <= cumsum <= genomeLength
        invariant ranges + GapsFrom(fs[i..], cumsum, genomeLength) == GapsFrom(fs, 0, genomeLength)
        invariant |lengths| == |ranges|
        invariant forall j :: 0 <= j < |ranges| ==> lengths[j] == ranges[j].hi - ranges[j].lo > 0
      {
        var fork := fs[i];
        var leftVal := fork.origin;
        var rightVal := fork.position;
        if fork.step < 0 {
          leftVal := fork.position;
          rightVal := fork.origin;
        }
        ghost var before := ranges;
        GapsFromUnfold(fs, i, cumsum, genomeLength);
        if leftVal > cumsum {
          var rangeLen := leftVal - cumsum;
          if rangeLen > 1 {
            ranges := ranges + [Span(cumsum, leftVal)];
            lengths := lengths + [rangeLen];
          }
        }
        assert ranges == before + GapBefore(fork, cumsum);
        AssocSpans(before, GapBefore(fork, cumsum), GapsFrom(fs[i + 1..], rightVal, genomeLength));
        cumsum := rightVal;
      }
      if cumsum != genomeLength {
        ranges := ranges + [Span(cumsum, genomeLength)];
        lengths := lengths + [genomeLength - cumsum];
      }
    }
  }

  /** The corrected merge on a local copy: widen the outer forks, then remove
      the two inner ones. */
  method MergePair(fs: seq<Fork>, ind: nat) returns (t: seq<Fork>)
    requires ind + 3 < |fs|
    ensures t == MergeAt(fs, ind)
  {
    t := fs;
    var m := t[ind + 1].position;
    t := t[ind := t[ind].(origin := m)];
    t := t[ind + 3 := t[ind + 3].(origin := m)];
    t := t[ind := t[ind].(position := Min(t[ind].position, t[ind + 2].position))];
    t := t[ind + 3 := t[ind + 3].(position := Max(t[ind + 1].position, t[ind + 3].position))];
    t := t[..ind + 1] + t[ind + 2..];
    t := t[..ind + 1] + t[ind + 2..];
    assert t[..ind] == fs[..ind];
    assert t[ind + 2..] == fs[ind + 4..];
  }
}
