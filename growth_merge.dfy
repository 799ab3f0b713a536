/** One grow-and-merge pass over a track, as values.  Gaps (odd slots) are
    visited from the highest index down to 1; each gap hands up to `rate`
    units to each occupied neighbour, and a gap left empty between two
    occupied runs is absorbed.  A final rule drops an empty leading pair. */
module GrowthMerge {
  import opened SegmentTrack

  function Min(a: nat, b: nat): nat {
    if a <= b then a else b
  }

  /** Moves min(s[from], rate) units from slot `from` to slot `to`. */
  function Give(s: seq<nat>, from: nat, to: nat, rate: nat): (t: seq<nat>)
    requires from < |s| && to < |s| && from != to
    ensures |t| == |s|
  {
    var m := Min(s[from], rate);
    s[to := s[to] + m][from := s[from] - m]
  }

  /** The transfers of the gap at `i`: first to the left run if it was
      occupied, then, if anything is left, to the right run if it was
      occupied.  Occupancy is judged before either transfer. */
  function Transfer(s: seq<nat>, i: nat, rate: nat): (t: seq<nat>)
    requires 1 <= i && i + 1 < |s|
    ensures |t| == |s|
  {
    var afterLeft := if s[i] > 0 && s[i - 1] > 0 then Give(s, i, i - 1, rate) else s;
    if s[i] > 0 && s[i + 1] > 0 && afterLeft[i] > 0 then Give(afterLeft, i, i + 1, rate)
    else afterLeft
  }

  /** The work done at gap `i`: the transfers, then the merge when the gap is
      empty and both neighbours were occupied.  The second component counts
      the merges (0 or 1). */
  function StepAt(s: seq<nat>, i: nat, rate: nat): (r: (seq<nat>, nat))
    requires 1 <= i && i + 1 < |s|
    ensures |r.0| == |s|
  {
    var t := Transfer(s, i, rate);
    if t[i] == 0 && s[i - 1] > 0 && s[i + 1] > 0 then
      (RemovePair(t[i - 1 := t[i - 1] + t[i + 1]], i), 1)
    else
      (t, 0)
  }

  /** The gaps `i`, `i - 2`, ..., 1 processed in that order, with the number
      of merges performed. */
  function Pass(s: seq<nat>, i: int, rate: nat): (r: (seq<nat>, nat))
    requires i + 1 < |s|
    ensures |r.0| == |s|
    decreases i
  {
    if i < 1 then (s, 0)
    else
      var step := StepAt(s, i, rate);
      var rest := Pass(step.0, i - 2, rate);
      (rest.0, rest.1 + step.1)
  }

  /** An empty leading pair (both slot 0 and slot 1 empty) is removed. */
  function Collapse(s: seq<nat>): (t: seq<nat>)
    requires |s| >= 2
    ensures |t| == |s|
  {
    if s[0] == 0 && s[1] == 0 then RemovePair(s, 0) else s
  }

  /** The highest odd index below |s| - 1, where the pass starts. */
  function LastGap(n: nat): (i: nat)
    requires n >= 3
    ensures i % 2 == 1 && i + 1 < n && n <= i + 3
  {
    if n % 2 == 1 then n - 2 else n - 3
  }

  /** The whole grow-and-merge pass: new track and merge count. */
  function Growth(s: seq<nat>, rate: nat): (r: (seq<nat>, nat))
    requires |s| >= 3
    ensures |r.0| == |s|
  {
    var pass := Pass(s, LastGap(|s|), rate);
    (Collapse(pass.0), pass.1)
  }

  // ---------------------------------------------------------------------------
  // Transfers

  lemma GiveFacts(s: seq<nat>, from: nat, to: nat, rate: nat)
    requires from < |s| && to < |s| && from % 2 != to % 2
    ensures var t := Give(s, from, to, rate);
      && t[from] == s[from] - Min(s[from], rate)
      && t[to] == s[to] + Min(s[from], rate)
      && (forall j :: 0 <= j < |s| && j != from && j != to ==> t[j] == s[j])
      && Sum(t) == Sum(s)
      && (from % 2 == 1 ==> OddSum(t) + Min(s[from], rate) == OddSum(s))
  {
    var m := Min(s[from], rate);
    var u := s[to := s[to] + m];
    SumUpdate(s, to, s[to] + m);
    SumUpdate(u, from, s[from] - m);
  }

  /** Each gap gives at most `rate` to each side, only to a side that was
      occupied, never gains, and the total is unchanged; every slot other than
      the gap and its two neighbours is untouched. */
  lemma TransferFacts(s: seq<nat>, i: nat, rate: nat)
    requires i % 2 == 1 && i + 1 < |s|
    ensures var t := Transfer(s, i, rate);
      && t[i] <= s[i]
      && s[i - 1] <= t[i - 1] <= s[i - 1] + rate
      && s[i + 1] <= t[i + 1] <= s[i + 1] + rate
      && (t[i - 1] > s[i - 1] ==> s[i - 1] > 0)
      && (t[i + 1] > s[i + 1] ==> s[i + 1] > 0)
      && (forall j :: 0 <= j < |s| && j != i - 1 && j != i && j != i + 1 ==> t[j] == s[j])
      && Sum(t) == Sum(s)
      && OddSum(t) <= OddSum(s)
  {
    var afterLeft := if s[i] > 0 && s[i - 1] > 0 then Give(s, i, i - 1, rate) else s;
    if s[i] > 0 && s[i - 1] > 0 {
      GiveFacts(s, i, i - 1, rate);
    }
    if s[i] > 0 && s[i + 1] > 0 && afterLeft[i] > 0 {
      GiveFacts(afterLeft, i, i + 1, rate);
    }
  }

  // ---------------------------------------------------------------------------
  // One gap, one pass

  lemma StepAtFacts(s: seq<nat>, i: nat, rate: nat)
    requires i % 2 == 1 && i + 1 < |s|
    ensures var r := StepAt(s, i, rate);
      && Sum(r.0) == Sum(s)
      && OddSum(r.0) <= OddSum(s)
      && r.1 <= 1
      && (r.1 == 1 ==> s[i - 1] > 0 && s[i + 1] > 0)
  {
    var t := Transfer(s, i, rate);
    TransferFacts(s, i, rate);
    if t[i] == 0 && s[i - 1] > 0 && s[i + 1] > 0 {
      var u := t[i - 1 := t[i - 1] + t[i + 1]];
      SumUpdate(t, i - 1, t[i - 1] + t[i + 1]);
      RemovePairSums(u, i);
    }
  }

  /** A merge at gap `i` needs an occupied slot i+1, so it happens below the
      empty-tail bound, and it moves that bound two slots left. */
  lemma StepAtTail(s: seq<nat>, i: nat, rate: nat, b: int)
    requires i % 2 == 1 && i + 1 < |s| && TailZero(s, b)
    ensures var r := StepAt(s, i, rate);
      && (r.1 == 1 ==> i + 1 < b)
      && TailZero(r.0, b - 2 * r.1)
  {
    var t := Transfer(s, i, rate);
    TransferFacts(s, i, rate);
    assert TailZero(t, b);
    if t[i] == 0 && s[i - 1] > 0 && s[i + 1] > 0 {
      var u := t[i - 1 := t[i - 1] + t[i + 1]];
      assert TailZero(u, b);
      RemovePairTail(u, i, b);
    }
  }

  lemma PassUnfold(s: seq<nat>, i: int, rate: nat)
    requires 1 <= i && i + 1 < |s|
    ensures Pass(s, i, rate).0 == Pass(StepAt(s, i, rate).0, i - 2, rate).0
    ensures Pass(s, i, rate).1 == Pass(StepAt(s, i, rate).0, i - 2, rate).1 + StepAt(s, i, rate).1
  {
  }

  lemma PassDone(s: seq<nat>, i: int, rate: nat)
    requires i < 1 && i + 1 < |s|
    ensures Pass(s, i, rate) == (s, 0)
  {
  }

  lemma {:induction false} PassFacts(s: seq<nat>, i: int, rate: nat)
    requires i % 2 == 1 && i + 1 < |s|
    ensures Sum(Pass(s, i, rate).0) == Sum(s)
    ensures OddSum(Pass(s, i, rate).0) <= OddSum(s)
    decreases i
  {
    if i >= 1 {
      StepAtFacts(s, i, rate);
      PassFacts(StepAt(s, i, rate).0, i - 2, rate);
    }
  }

  /** The capacity bookkeeping: with `u` of `k` origins unplaced, every slot
      from 2 + 2(k - u) on is empty.  A pass with `c` merges keeps this with
      u + c unplaced, and u + c never exceeds k. */
  lemma {:induction false} PassTail(s: seq<nat>, i: int, rate: nat, k: nat, u: nat)
    requires i % 2 == 1 && i + 1 < |s|
    requires u <= k && TailZero(s, 2 + 2 * (k - u))
    ensures u + Pass(s, i, rate).1 <= k
    ensures TailZero(Pass(s, i, rate).0, 2 + 2 * (k - u - Pass(s, i, rate).1))
    decreases i
  {
    if i >= 1 {
      var step := StepAt(s, i, rate);
      StepAtTail(s, i, rate, 2 + 2 * (k - u));
      PassTail(step.0, i - 2, rate, k, u + step.1);
    }
  }

  // ---------------------------------------------------------------------------
  // The whole pass

  lemma CollapseFacts(s: seq<nat>, b: int)
    requires |s| >= 2 && TailZero(s, b)
    ensures Sum(Collapse(s)) == Sum(s)
    ensures OddSum(Collapse(s)) == OddSum(s)
    ensures TailZero(Collapse(s), b)
  {
    if s[0] == 0 && s[1] == 0 {
      RemovePairSums(s, 0);
      RemovePairTail(s, 0, b);
    }
  }

  /** A grow-and-merge pass keeps the genome length and never increases the
      unreplicated length. */
  lemma GrowthConserves(s: seq<nat>, rate: nat)
    requires |s| >= 3
    ensures Sum(Growth(s, rate).0) == Sum(s)
    ensures OddSum(Growth(s, rate).0) <= OddSum(s)
  {
    PassFacts(s, LastGap(|s|), rate);
    CollapseFacts(Pass(s, LastGap(|s|), rate).0, |s|);
  }

  /** A grow-and-merge pass on a 2k+3 track with `u` unplaced origins returns
      a merge count `c` with u + c <= k and keeps the empty tail for u + c. */
  lemma GrowthTail(s: seq<nat>, rate: nat, k: nat, u: nat)
    requires |s| == 2 * k + 3 && u <= k && TailZero(s, 2 + 2 * (k - u))
    ensures u + Growth(s, rate).1 <= k
    ensures TailZero(Growth(s, rate).0, 2 + 2 * (k - u - Growth(s, rate).1))
  {
    var pass := Pass(s, LastGap(|s|), rate);
    PassTail(s, LastGap(|s|), rate, k, u);
    CollapseFacts(pass.0, 2 + 2 * (k - u - pass.1));
  }

  /** Replicated runs of 5 around a gap of 3, rate 4: the left run takes all
      3, the gap closes, and the track holds one run of 13 after one merge. */
  lemma MergeExample()
    ensures Growth([5, 3, 5, 0, 0], 4) == ([13, 0, 0, 0, 0], 1)
  {
    var s: seq<nat> := [5, 3, 5, 0, 0];
    assert StepAt(s, 3, 4) == (s, 0);
    var t := Transfer(s, 1, 4);
    assert t == [8, 0, 5, 0, 0];
    var u := t[0 := 13];
    assert u[..1] == [13] && u[3..] == [0, 0];
    assert RemovePair(u, 1) == [13, 0, 0, 0, 0];
    assert StepAt(s, 1, 4) == ([13, 0, 0, 0, 0], 1);
  }
}
