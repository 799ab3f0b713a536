/** The replication state of one chromosome [0, L) as a fixed-capacity
    sequence of run lengths.  The run at an even index is replicated, the run
    at an odd index is unreplicated, and either may be empty.  This module
    holds the value-level meaning of the track and the facts the engines rely
    on; the in-place procedures live in TrackArray. */
module SegmentTrack {

  /** Sum of the entries of `s` whose index has parity `p`. */
  function ParitySum(s: seq<nat>, p: nat): nat
    requires p < 2
  {
    if s == [] then 0
    else ParitySum(s[..|s| - 1], p) + (if (|s| - 1) % 2 == p then s[|s| - 1] else 0)
  }

  /** Total length covered by the track. */
  function Sum(s: seq<nat>): nat {
    ParitySum(s, 0) + ParitySum(s, 1)
  }

  /** Total unreplicated length: the sum of the odd-indexed runs. */
  function OddSum(s: seq<nat>): nat {
    ParitySum(s, 1)
  }

  /** Coordinate at which run `i` starts. */
  function Start(s: seq<nat>, i: nat): nat
    requires i <= |s|
  {
    Sum(s[..i])
  }

  /** The run holding `pos`, searching from index `i`: the first index whose
      running sum exceeds `pos`, or the last index when none does. */
  function LocateFrom(s: seq<nat>, pos: nat, i: nat): (r: nat)
    requires i < |s|
    ensures i <= r < |s|
    decreases |s| - i
  {
    if i == |s| - 1 || pos < Start(s, i + 1) then i else LocateFrom(s, pos, i + 1)
  }

  function Locate(s: seq<nat>, pos: nat): (r: nat)
    requires |s| > 0
    ensures r < |s|
  {
    LocateFrom(s, pos, 0)
  }

  /** `pos` lies in a replicated (even-indexed) run. */
  predicate Replicated(s: seq<nat>, pos: nat)
    requires |s| > 0
  {
    Locate(s, pos) % 2 == 0
  }

  /** Every position below `n` that is replicated in `s` is replicated in
      `t`. */
  ghost predicate ReplicatedGrows(s: seq<nat>, t: seq<nat>, n: nat)
    requires |s| > 0 && |t| > 0
  {
    forall pos: nat :: pos < n && Replicated(s, pos) ==> Replicated(t, pos)
  }

  /** Below `n`, the positions replicated in `t` are those replicated in `s`
      plus `pos`. */
  ghost predicate ReplicatedAdds(s: seq<nat>, t: seq<nat>, n: nat, pos: nat)
    requires |s| > 0 && |t| > 0
  {
    forall q: nat :: q < n ==> (Replicated(t, q) <==> Replicated(s, q) || q == pos)
  }

  /** Every slot at index `b` or beyond is empty. */
  ghost predicate TailZero(s: seq<nat>, b: int) {
    forall i :: 0 <= i < |s| && b <= i ==> s[i] == 0
  }

  /** A new track for `k` origins: 2k+3 slots, all empty except the
      unreplicated run of length `genomeLength` at index 1. */
  function FreshTrack(genomeLength: nat, k: nat): (s: seq<nat>)
    ensures |s| == 2 * k + 3
  {
    [0, genomeLength] + seq(2 * k + 1, _ => 0)
  }

  /** The run at `i` replaced by (left, 1, right); the runs after it move two
      slots right and the last two slots fall off the end. */
  function Split(s: seq<nat>, i: nat, left: nat, right: nat): (t: seq<nat>)
    requires i + 2 < |s|
    ensures |t| == |s|
  {
    s[..i] + [left, 1, right] + s[i + 1..|s| - 2]
  }

  /** The track after an origin is placed at `pos` inside run `i`: the run
      becomes (pos - start, 1, end - 1 - pos). */
  function Place(s: seq<nat>, i: nat, pos: nat): (t: seq<nat>)
    requires i + 2 < |s| && Start(s, i) <= pos < Start(s, i + 1)
    ensures |t| == |s|
  {
    Split(s, i, pos - Start(s, i), Start(s, i + 1) - 1 - pos)
  }

  /** Slots `i` and `i+1` removed; the runs after them move two slots left and
      two empty slots enter at the end. */
  function RemovePair(s: seq<nat>, i: nat): (t: seq<nat>)
    requires i + 2 <= |s|
    ensures |t| == |s|
  {
    s[..i] + s[i + 2..] + [0, 0]
  }

  // ---------------------------------------------------------------------------
  // Sums

  lemma PrefixStep(s: seq<nat>, i: nat)
    requires i < |s|
    ensures ParitySum(s[..i + 1], 0) == ParitySum(s[..i], 0) + (if i % 2 == 0 then s[i] else 0)
    ensures ParitySum(s[..i + 1], 1) == ParitySum(s[..i], 1) + (if i % 2 == 1 then s[i] else 0)
    ensures Start(s, i + 1) == Start(s, i) + s[i]
  {
    assert s[..i + 1][..i] == s[..i];
  }

  lemma StartAll(s: seq<nat>)
    ensures Start(s, |s|) == Sum(s)
    ensures OddSum(s[..|s|]) == OddSum(s)
  {
    assert s[..|s|] == s;
  }

  lemma ParityShift(x: nat, y: nat, p: nat)
    requires p < 2
    ensures (x + y) % 2 == p <==> y % 2 == (p + x) % 2
  {
  }

  lemma ModTwoShift(x: nat)
    ensures (x + 2) % 2 == x % 2
  {
  }

  lemma {:induction false} ParitySumAppend(a: seq<nat>, b: seq<nat>, p: nat)
    requires p < 2
    ensures ParitySum(a + b, p) == ParitySum(a, p) + ParitySum(b, (p + |a|) % 2)
    decreases |b|
  {
    if b == [] {
      assert a + b == a;
    } else {
      var b' := b[..|b| - 1];
      var q := (p + |a|) % 2;
      assert (a + b)[..|a + b| - 1] == a + b';
      assert (a + b)[|a + b| - 1] == b[|b| - 1];
      ParityShift(|a|, |b| - 1, p);
      assert ParitySum(b, q) == ParitySum(b', q) + (if (|b| - 1) % 2 == q then b[|b| - 1] else 0);
      ParitySumAppend(a, b', p);
    }
  }

  lemma ParitySumTriple(x: nat, y: nat, z: nat, p: nat)
    requires p < 2
    ensures ParitySum([x], p) == (if p == 0 then x else 0)
    ensures ParitySum([x, y], p) == (if p == 0 then x else y)
    ensures ParitySum([x, y, z], p) == (if p == 0 then x + z else y)
  {
    assert [x, y, z][..2] == [x, y];
    assert [x, y][..1] == [x];
    assert [x][..0] == [];
  }

  lemma {:induction false} ParitySumUpdate(s: seq<nat>, i: nat, v: nat, p: nat)
    requires i < |s| && p < 2
    ensures ParitySum(s[i := v], p) + (if i % 2 == p then s[i] else 0)
         == ParitySum(s, p) + (if i % 2 == p then v else 0)
    decreases |s|
  {
    var n := |s| - 1;
    if i == n {
      assert s[i := v][..n] == s[..n];
    } else {
      assert s[i := v][..n] == s[..n][i := v];
      ParitySumUpdate(s[..n], i, v, p);
    }
  }

  /** Changing one run changes the total by exactly the difference. */
  lemma SumUpdate(s: seq<nat>, i: nat, v: nat)
    requires i < |s|
    ensures Sum(s[i := v]) + s[i] == Sum(s) + v
    ensures i % 2 == 0 ==> OddSum(s[i := v]) == OddSum(s)
    ensures i % 2 == 1 ==> OddSum(s[i := v]) + s[i] == OddSum(s) + v
  {
    ParitySumUpdate(s, i, v, 0);
    ParitySumUpdate(s, i, v, 1);
  }

  /** A parity sum is zero exactly when every run of that parity is empty. */
  lemma {:induction false} ParitySumZero(s: seq<nat>, p: nat)
    requires p < 2
    ensures ParitySum(s, p) == 0 <==> forall i :: 0 <= i < |s| && i % 2 == p ==> s[i] == 0
    decreases |s|
  {
    if s != [] {
      var n := |s| - 1;
      ParitySumZero(s[..n], p);
      assert forall i :: 0 <= i < n ==> s[..n][i] == s[i];
    }
  }

  lemma {:induction false} StartMonotone(s: seq<nat>, i: nat, j: nat)
    requires i <= j <= |s|
    ensures Start(s, i) <= Start(s, j)
    decreases j - i
  {
    if i < j {
      PrefixStep(s, j - 1);
      StartMonotone(s, i, j - 1);
    }
  }

  // ---------------------------------------------------------------------------
  // Locating a position

  lemma {:induction false} LocateFromContains(s: seq<nat>, pos: nat, i: nat)
    requires i < |s| && Start(s, i) <= pos < Sum(s)
    ensures Start(s, LocateFrom(s, pos, i)) <= pos < Start(s, LocateFrom(s, pos, i) + 1)
    decreases |s| - i
  {
    if i == |s| - 1 {
      StartAll(s);
    } else if pos >= Start(s, i + 1) {
      LocateFromContains(s, pos, i + 1);
    }
  }

  /** For a position inside the track, `Locate` names exactly the run whose
      coordinate range [Start(j), Start(j+1)) holds the position. */
  lemma LocateIff(s: seq<nat>, pos: nat, j: nat)
    requires j < |s| && pos < Sum(s)
    ensures Locate(s, pos) == j <==> Start(s, j) <= pos < Start(s, j + 1)
  {
    LocateFromContains(s, pos, 0);
    var r := Locate(s, pos);
    if Start(s, j) <= pos < Start(s, j + 1) {
      if r < j {
        StartMonotone(s, r + 1, j);
      } else if r > j {
        StartMonotone(s, j + 1, r);
      }
    }
  }

  /** The run holding an in-range position is never empty. */
  lemma LocateNonEmpty(s: seq<nat>, pos: nat)
    requires |s| > 0 && pos < Sum(s)
    ensures s[Locate(s, pos)] > 0
  {
    LocateFromContains(s, pos, 0);
    PrefixStep(s, Locate(s, pos));
  }

  /** A track has no unreplicated run exactly when its odd sum is zero, and
      exactly when every position of [0, Sum) lies in a replicated run. */
  lemma CompleteIff(s: seq<nat>)
    requires |s| > 0
    ensures (forall i :: 0 <= i < |s| && i % 2 == 1 ==> s[i] == 0) <==> OddSum(s) == 0
    ensures OddSum(s) == 0 <==> forall pos: nat :: pos < Sum(s) ==> Locate(s, pos) % 2 == 0
  {
    ParitySumZero(s, 1);
    if OddSum(s) == 0 {
      forall pos: nat | pos < Sum(s) ensures Locate(s, pos) % 2 == 0 {
        LocateNonEmpty(s, pos);
      }
    } else {
      var i :| 0 <= i < |s| && i % 2 == 1 && s[i] != 0;
      PrefixStep(s, i);
      StartMonotone(s, i + 1, |s|);
      StartAll(s);
      LocateIff(s, Start(s, i), i);
    }
  }

  // ---------------------------------------------------------------------------
  // A fresh track

  lemma FreshTrackFacts(genomeLength: nat, k: nat)
    ensures var s := FreshTrack(genomeLength, k);
      && Sum(s) == genomeLength
      && OddSum(s) == genomeLength
      && TailZero(s, 2)
      && forall pos: nat :: pos < genomeLength ==> Locate(s, pos) == 1
  {
    var s := FreshTrack(genomeLength, k);
    var zeros := seq(2 * k + 1, _ => 0);
    ParitySumZero(zeros, 0);
    ParitySumZero(zeros, 1);
    ParitySumAppend([0, genomeLength], zeros, 0);
    ParitySumAppend([0, genomeLength], zeros, 1);
    ParitySumTriple(0, genomeLength, 0, 0);
    ParitySumTriple(0, genomeLength, 0, 1);
    PrefixStep(s, 0);
    PrefixStep(s, 1);
    forall pos: nat | pos < genomeLength ensures Locate(s, pos) == 1 {
      LocateIff(s, pos, 1);
    }
  }

  // ---------------------------------------------------------------------------
  // Splitting an unreplicated run around a new origin

  lemma ParitySumAppend3(a: seq<nat>, b: seq<nat>, c: seq<nat>, p: nat)
    requires p < 2
    ensures ParitySum(a + b + c, p)
         == ParitySum(a, p) + ParitySum(b, (p + |a|) % 2) + ParitySum(c, (p + |a| + |b|) % 2)
  {
    ParitySumAppend(a + b, c, p);
    ParitySumAppend(a, b, p);
    assert |a + b| == |a| + |b|;
  }

  /** The parity sums of a track whose last two slots are empty, cut around
      slot `i`. */
  lemma ParitySumAround(s: seq<nat>, i: nat, p: nat)
    requires i + 2 < |s| && p < 2
    requires s[|s| - 2] == 0 && s[|s| - 1] == 0
    ensures ParitySum(s, p)
         == ParitySum(s[..i], p) + ParitySum([s[i]], (p + i) % 2) + ParitySum(s[i + 1..|s| - 2], (p + i + 1) % 2)
  {
    var a := s[..i];
    var m := s[i + 1..|s| - 2];
    var r := (p + i + 1) % 2;
    assert |a| == i;
    assert s == a + [s[i]] + (m + [0, 0]);
    ParitySumAppend3(a, [s[i]], m + [0, 0], p);
    ParitySumAppend(m, [0, 0], r);
    ParitySumTriple(0, 0, 0, (r + |m|) % 2);
  }

  /** The parity sums of a split track: the odd run `s[i]` gives way to
      `left` and `right` (odd) around a replicated unit (even). */
  lemma SplitSums(s: seq<nat>, i: nat, left: nat, right: nat, p: nat)
    requires i % 2 == 1 && i + 2 < |s| && p < 2
    requires s[|s| - 2] == 0 && s[|s| - 1] == 0
    ensures p == 1 ==> ParitySum(Split(s, i, left, right), p) + s[i] == ParitySum(s, p) + left + right
    ensures p == 0 ==> ParitySum(Split(s, i, left, right), p) == ParitySum(s, p) + 1
  {
    var a := s[..i];
    var m := s[i + 1..|s| - 2];
    var q := (p + i) % 2;
    assert |a| == i;
    assert Split(s, i, left, right) == a + [left, 1, right] + m;
    ParitySumAround(s, i, p);
    ParitySumAppend3(a, [left, 1, right], m, p);
    ModTwoShift(p + i + 1);
    assert (q == 0) == (p == 1);
    ParitySumTriple(s[i], 0, 0, q);
    ParitySumTriple(left, 1, right, q);
  }



  /** The split run starts where the old one did; the new origin sits at
      `left` past that start. */
  lemma SplitStarts(s: seq<nat>, i: nat, left: nat, right: nat)
    requires i + 2 < |s|
    ensures Start(Split(s, i, left, right), i + 1) == Start(s, i) + left
    ensures Start(Split(s, i, left, right), i + 2) == Start(s, i) + left + 1
  {
    var t := Split(s, i, left, right);
    assert t[..i] == s[..i];
    PrefixStep(t, i);
    PrefixStep(t, i + 1);
  }

  /** Placing an origin at `pos` inside the odd run `i`: the run becomes
      (pos - start, 1, end - 1 - pos), the total is unchanged, the unreplicated
      total drops by one, and `pos` now lies in the replicated run i+1. */
  lemma SplitFacts(s: seq<nat>, i: nat, pos: nat)
    requires i % 2 == 1 && i + 2 < |s|
    requires s[|s| - 2] == 0 && s[|s| - 1] == 0
    requires Start(s, i) <= pos < Start(s, i + 1)
    ensures var t := Split(s, i, pos - Start(s, i), Start(s, i + 1) - 1 - pos);
      && t[i] + t[i + 1] + t[i + 2] == s[i]
      && Sum(t) == Sum(s)
      && OddSum(t) + 1 == OddSum(s)
      && Locate(t, pos) == i + 1
  {
    PrefixStep(s, i);
    var left := pos - Start(s, i);
    var right := Start(s, i + 1) - 1 - pos;
    var t := Split(s, i, left, right);
    SplitSums(s, i, left, right, 0);
    SplitSums(s, i, left, right, 1);
    assert Sum(t) == Sum(s);
    assert pos < Sum(t) by {
      StartMonotone(s, i + 1, |s|);
      StartAll(s);
    }
    SplitStarts(s, i, left, right);
    LocateIff(t, pos, i + 1);
  }

  /** Split slot by slot: slots before `i` are kept, the three new slots hold
      (left, 1, right), and every later slot holds the slot two places left. */
  lemma SplitIndex(s: seq<nat>, i: nat, left: nat, right: nat)
    requires i + 2 < |s|
    ensures var t := Split(s, i, left, right);
      && (forall k :: 0 <= k < i ==> t[k] == s[k])
      && t[i] == left && t[i + 1] == 1 && t[i + 2] == right
      && (forall k :: i + 2 < k < |s| ==> t[k] == s[k - 2])
  {
  }

  /** A split below the bound `b` moves the empty tail two slots right. */
  lemma SplitTail(s: seq<nat>, i: nat, left: nat, right: nat, b: int)
    requires i + 2 < |s| && i < b && TailZero(s, b)
    ensures TailZero(Split(s, i, left, right), b + 2)
  {
    var t := Split(s, i, left, right);
    forall j | 0 <= j < |t| && b + 2 <= j ensures t[j] == 0 {
      assert t[j] == s[j - 2];
    }
  }

  // ---------------------------------------------------------------------------
  // Removing an exhausted pair of slots

  lemma ParitySumPairOut(s: seq<nat>, i: nat, p: nat)
    requires i + 2 <= |s| && p < 2
    ensures ParitySum(s, p)
         == ParitySum(s[..i], p) + ParitySum([s[i], s[i + 1]], (p + i) % 2) + ParitySum(s[i + 2..], (p + i) % 2)
  {
    var a := s[..i];
    assert |a| == i;
    assert s == a + [s[i], s[i + 1]] + s[i + 2..];
    ParitySumAppend3(a, [s[i], s[i + 1]], s[i + 2..], p);
    ModTwoShift(p + i);
  }

  /** Placing an origin at `pos` inside the unreplicated run `i` of a
      2k+3 track with `u` (at least one) origins still to place: the track
      still covers the same length, loses exactly one unreplicated unit,
      keeps its empty tail for u - 1, and `pos` now sits in the new
      replicated run. */
  lemma PlaceFacts(s: seq<nat>, i: nat, pos: nat, k: nat, u: nat)
    requires |s| == 2 * k + 3 && 1 <= u <= k && TailZero(s, 2 + 2 * (k - u))
    requires i % 2 == 1 && i < |s| && Start(s, i) <= pos < Start(s, i + 1)
    ensures i + 2 < |s|
    ensures var t := Split(s, i, pos - Start(s, i), Start(s, i + 1) - 1 - pos);
      && Sum(t) == Sum(s)
      && OddSum(t) + 1 == OddSum(s)
      && TailZero(t, 2 + 2 * (k - (u - 1)))
      && Locate(t, pos) == i + 1
  {
    PrefixStep(s, i);
    assert s[i] > 0;
    SplitFacts(s, i, pos);
    SplitTail(s, i, pos - Start(s, i), Start(s, i + 1) - 1 - pos, 2 + 2 * (k - u));
  }

  /** Total length of a concatenation. */
  lemma SumAppend(a: seq<nat>, b: seq<nat>)
    ensures Sum(a + b) == Sum(a) + Sum(b)
  {
    ParitySumAppend(a, b, 0);
    ParitySumAppend(a, b, 1);
  }

  /** Where the runs of a split track start: runs up to `i` start where they
      did, and a run `j` past `i` starts, two slots further right, at its old
      start plus the length the split added. */
  lemma SplitStartShift(s: seq<nat>, i: nat, left: nat, right: nat, j: nat)
    requires i + 2 < |s| && j <= |s| - 2
    ensures j <= i ==> Start(Split(s, i, left, right), j) == Start(s, j)
    ensures i < j ==> Start(Split(s, i, left, right), j + 2) + s[i] == Start(s, j) + left + 1 + right
  {
    var t := Split(s, i, left, right);
    if j <= i {
      assert t[..j] == s[..j];
    } else {
      var a, c := s[..i], s[i + 1..j];
      assert t[..j + 2] == a + [left, 1, right] + c;
      assert s[..j] == a + [s[i]] + c;
      SumAppend(a + [left, 1, right], c);
      SumAppend(a, [left, 1, right]);
      SumAppend(a + [s[i]], c);
      SumAppend(a, [s[i]]);
      ParitySumTriple(left, 1, right, 0);
      ParitySumTriple(left, 1, right, 1);
      ParitySumTriple(s[i], 0, 0, 0);
      ParitySumTriple(s[i], 0, 0, 1);
    }
  }

  /** A position in a run before the split run is still located in it. */
  lemma SplitLocateBefore(s: seq<nat>, i: nat, left: nat, right: nat, j: nat, q: nat)
    requires i + 2 < |s| && j < i
    requires Start(s, j) <= q < Start(s, j + 1) && q < Sum(Split(s, i, left, right))
    ensures Locate(Split(s, i, left, right), q) == j
  {
    SplitStartShift(s, i, left, right, j);
    SplitStartShift(s, i, left, right, j + 1);
    LocateIff(Split(s, i, left, right), q, j);
  }

  /** A position in a run after the split run is located two slots further
      right, in a run of the same parity. */
  lemma SplitLocateAfter(s: seq<nat>, i: nat, left: nat, right: nat, j: nat, q: nat)
    requires i < j && j + 2 < |s| && left + 1 + right == s[i]
    requires Start(s, j) <= q < Start(s, j + 1) && q < Sum(Split(s, i, left, right))
    ensures Locate(Split(s, i, left, right), q) == j + 2
  {
    SplitStartShift(s, i, left, right, j);
    SplitStartShift(s, i, left, right, j + 1);
    LocateIff(Split(s, i, left, right), q, j + 2);
  }

  /** A position of the split run other than the new origin's lies in the
      left remainder `i` or the right remainder `i + 2`. */
  lemma SplitLocateInside(s: seq<nat>, i: nat, left: nat, right: nat, q: nat)
    requires i + 2 < |s| && left + 1 + right == s[i]
    requires Start(s, i) <= q < Start(s, i + 1) && q != Start(s, i) + left && q < Sum(Split(s, i, left, right))
    ensures q < Start(s, i) + left ==> Locate(Split(s, i, left, right), q) == i
    ensures Start(s, i) + left < q ==> Locate(Split(s, i, left, right), q) == i + 2
  {
    PrefixStep(s, i);
    SplitStarts(s, i, left, right);
    if q < Start(s, i) + left {
      SplitStartShift(s, i, left, right, i);
      LocateIff(Split(s, i, left, right), q, i);
    } else {
      SplitStartShift(s, i, left, right, i + 1);
      LocateIff(Split(s, i, left, right), q, i + 2);
    }
  }

  /** Placing an origin at `pos` inside the odd run `i` makes exactly one more
      position replicated, namely `pos`: every other position keeps its
      status. */
  lemma SplitReplicated(s: seq<nat>, i: nat, pos: nat, q: nat)
    requires i % 2 == 1 && i + 2 < |s|
    requires s[|s| - 2] == 0 && s[|s| - 1] == 0
    requires Start(s, i) <= pos < Start(s, i + 1)
    requires q < Sum(s)
    ensures Replicated(Place(s, i, pos), q) <==> Replicated(s, q) || q == pos
  {
    var left, right := pos - Start(s, i), Start(s, i + 1) - 1 - pos;
    var t := Split(s, i, left, right);
    assert t == Place(s, i, pos);
    assert Sum(t) == Sum(s) && Locate(t, pos) == i + 1 && left + 1 + right == s[i] by {
      SplitFacts(s, i, pos);
      PrefixStep(s, i);
    }
    var j := Locate(s, q);
    LocateIff(s, q, j);
    if j < i {
      StartMonotone(s, j + 1, i);
      SplitLocateBefore(s, i, left, right, j, q);
    } else if j == i {
      if q != pos {
        SplitLocateInside(s, i, left, right, q);
      }
    } else {
      LocateNonEmpty(s, q);
      StartMonotone(s, i + 1, j);
      SplitLocateAfter(s, i, left, right, j, q);
    }
  }

  /** The split of SplitReplicated, for every position of the genome at
      once. */
  lemma SplitReplicatedAll(s: seq<nat>, i: nat, pos: nat)
    requires i % 2 == 1 && i + 2 < |s|
    requires s[|s| - 2] == 0 && s[|s| - 1] == 0
    requires Start(s, i) <= pos < Start(s, i + 1)
    ensures ReplicatedAdds(s, Place(s, i, pos), Sum(s), pos)
  {
    forall q: nat | q < Sum(s)
      ensures Replicated(Place(s, i, pos), q) <==> Replicated(s, q) || q == pos
    {
      SplitReplicated(s, i, pos, q);
    }
  }

  lemma RemovePairParity(s: seq<nat>, i: nat, p: nat)
    requires i + 2 <= |s| && p < 2
    ensures ParitySum(RemovePair(s, i), p) + (if i % 2 == p then s[i] else s[i + 1]) == ParitySum(s, p)
  {
    var a := s[..i];
    var b := s[i + 2..];
    var q := (p + i) % 2;
    assert |a| == i;
    ParitySumPairOut(s, i, p);
    ParitySumAppend3(a, b, [0, 0], p);
    ParitySumTriple(0, 0, 0, (p + |a| + |b|) % 2);
    assert ParitySum(RemovePair(s, i), p) == ParitySum(a, p) + ParitySum(b, q);
    ParitySumTriple(s[i], s[i + 1], 0, q);
    assert ParitySum([s[i], s[i + 1]], q) == if i % 2 == p then s[i] else s[i + 1];
  }




  /** Removing slots i and i+1 drops exactly their lengths from the parity
      sums (one run of each parity). */
  lemma RemovePairSums(s: seq<nat>, i: nat)
    requires i + 2 <= |s|
    ensures i % 2 == 1 ==> OddSum(RemovePair(s, i)) + s[i] == OddSum(s)
    ensures i % 2 == 0 ==> OddSum(RemovePair(s, i)) + s[i + 1] == OddSum(s)
    ensures Sum(RemovePair(s, i)) + s[i] + s[i + 1] == Sum(s)
  {
    RemovePairParity(s, i, 0);
    RemovePairParity(s, i, 1);
  }

  /** RemovePair slot by slot: slots before `i` are kept, each later slot
      holds the slot two places right, and the last two slots are empty. */
  lemma RemovePairIndex(s: seq<nat>, i: nat)
    requires i + 2 <= |s|
    ensures var t := RemovePair(s, i);
      && (forall k :: 0 <= k < i ==> t[k] == s[k])
      && (forall k :: i <= k < |s| - 2 ==> t[k] == s[k + 2])
      && t[|s| - 2] == 0 && t[|s| - 1] == 0
  {
  }

  /** Removing a pair keeps an empty tail empty; removing a pair below the
      bound moves the bound two slots left. */
  lemma RemovePairTail(s: seq<nat>, i: nat, b: int)
    requires i + 2 <= |s| && TailZero(s, b)
    ensures TailZero(RemovePair(s, i), b)
    ensures i + 1 < b ==> TailZero(RemovePair(s, i), b - 2)
  {
    var t := RemovePair(s, i);
    forall j | 0 <= j < |t| && b - 2 <= j && (i + 1 < b || b <= j) ensures t[j] == 0 {
      if j >= i && j + 2 < |s| {
        assert t[j] == s[j + 2];
      }
    }
  }
}
