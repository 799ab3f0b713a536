/** The in-place procedures on the fixed-capacity track.  `main.rs` and
    `main_basic.rs` carry identical copies of these loops; both engines call
    the single version kept here. */
module TrackArray {
  import opened SegmentTrack
  import opened GrowthMerge

  /** The running-sum walk of `is_replicated` and of the insertion search:
      the run holding `position` and the running sum through that run. */
  method LocateIn(a: array<nat>, position: nat) returns (index: nat, cumsum: nat)
    requires a.Length > 0
    ensures index == Locate(a[..], position)
    ensures cumsum == Start(a[..], index + 1)
  {
    index := 0;
    cumsum := a[0];
    PrefixStep(a[..], 0);
    while !(index == a.Length - 1 || position < cumsum)
      invariant index < a.Length
      invariant cumsum == Start(a[..], index + 1)
      invariant LocateFrom(a[..], position, index) == Locate(a[..], position)
      decreases a.Length - index
    {
      index := index + 1;
      PrefixStep(a[..], index);
      cumsum := cumsum + a[index];
    }
  }

  /** The completeness test: no odd slot holds any length. */
  method AllGapsEmpty(a: array<nat>) returns (complete: bool)
    requires a.Length > 0
    ensures complete <==> forall i :: 0 <= i < a.Length && i % 2 == 1 ==> a[i] == 0
    ensures complete <==> OddSum(a[..]) == 0
  {
    CompleteIff(a[..]);
    for ind := 0 to a.Length
      invariant forall i :: 0 <= i < ind && i % 2 == 1 ==> a[i] == 0
    {
      if ind % 2 != 0 && a[ind] != 0 {
        return false;
      }
    }
    return true;
  }

  /** Shifts the slots after `i` two places right (the last two fall off) and
      writes (left, 1, right) at i, i+1, i+2. */
  method SplitIn(a: array<nat>, i: nat, left: nat, right: nat)
    requires i + 2 < a.Length
    modifies a
    ensures a[..] == Split(old(a[..]), i, left, right)
  {
    ghost var s := a[..];
    for index := a.Length downto i + 2
      invariant forall k :: index <= k < a.Length ==> a[k] == s[k - 2]
      invariant forall k :: 0 <= k < index ==> a[k] == s[k]
    {
      a[index] := a[index - 2];
    }
    a[i + 2] := right;
    a[i + 1] := 1;
    a[i] := left;
    SplitIndex(s, i, left, right);
    assert a[..] == Split(s, i, left, right);
  }

  /** Shifts the slots after `i + 1` two places left over slots i and i+1 and
      empties the last two slots. */
  method RemovePairIn(a: array<nat>, i: nat)
    requires i + 2 <= a.Length
    modifies a
    ensures a[..] == RemovePair(old(a[..]), i)
  {
    ghost var s := a[..];
    var n := a.Length;
    for stepIndex := i to n - 2
      invariant forall k :: i <= k < stepIndex ==> a[k] == s[k + 2]
      invariant forall k :: (0 <= k < i || stepIndex <= k < n) ==> a[k] == s[k]
    {
      a[stepIndex] := a[stepIndex + 2];
    }
    a[n - 2] := 0;
    a[n - 1] := 0;
    RemovePairIndex(s, i);
    assert a[..] == RemovePair(s, i);
  }

  /** The transfers of the gap at `index`, in place. */
  method TransferIn(a: array<nat>, index: nat, rate: nat)
    requires 1 <= index && index + 1 < a.Length
    modifies a
    ensures a[..] == Transfer(old(a[..]), index, rate)
  {
    var leftOccupied := a[index - 1] > 0;
    var rightOccupied := a[index + 1] > 0;
    if a[index] > 0 {
      if leftOccupied {
        var moveAmount := Min(a[index], rate);
        a[index - 1] := a[index - 1] + moveAmount;
        a[index] := a[index] - moveAmount;
      }
      if rightOccupied && a[index] > 0 {
        var moveAmount := Min(a[index], rate);
        a[index + 1] := a[index + 1] + moveAmount;
        a[index] := a[index] - moveAmount;
      }
    }
  }

  /** The work at one gap in place: transfers, then the merge of the two
      neighbours when the gap is emptied between two occupied runs. */
  method StepIn(a: array<nat>, index: nat, rate: nat) returns (merged: nat)
    requires 1 <= index && index + 1 < a.Length
    modifies a
    ensures a[..] == StepAt(old(a[..]), index, rate).0
    ensures merged == StepAt(old(a[..]), index, rate).1
  {
    var leftOccupied := a[index - 1] > 0;
    var rightOccupied := a[index + 1] > 0;
    TransferIn(a, index, rate);
    merged := 0;
    if a[index] == 0 && leftOccupied && rightOccupied {
      a[index - 1] := a[index - 1] + a[index + 1];
      RemovePairIn(a, index);
      merged := 1;
    }
  }

  /** The gaps from the highest down to 1, in place; returns the number of
      merges. */
  method PassIn(a: array<nat>, rate: nat) returns (merged: nat)
    requires a.Length >= 3
    modifies a
    ensures a[..] == Pass(old(a[..]), LastGap(a.Length), rate).0
    ensures merged == Pass(old(a[..]), LastGap(a.Length), rate).1
  {
    ghost var pass := Pass(a[..], LastGap(a.Length), rate);
    merged := 0;
    var index: int := LastGap(a.Length);
    while index >= 1
      invariant index + 1 < a.Length
      invariant Pass(a[..], index, rate).0 == pass.0
      invariant Pass(a[..], index, rate).1 + merged == pass.1
      decreases index
    {
      ghost var before := a[..];
      PassUnfold(before, index, rate);
      var m := StepIn(a, index, rate);
      merged := merged + m;
      index := index - 2;
    }
    PassDone(a[..], index, rate);
  }

  /** The grow-and-merge pass in place, then the removal of an empty leading
      pair; returns the number of merges. */
  method GrowAndMerge(a: array<nat>, rate: nat) returns (merged: nat)
    requires a.Length >= 3
    modifies a
    ensures a[..] == Growth(old(a[..]), rate).0
    ensures merged == Growth(old(a[..]), rate).1
  {
    merged := PassIn(a, rate);
    if a[0] == 0 && a[1] == 0 {
      RemovePairIn(a, 0);
    }
  }
}
