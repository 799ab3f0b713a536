/** The single-chromosome cell of `main.rs`: a fixed-capacity track of run
    lengths, a pool of unplaced origins, and the growth/synthesis phase. */
module Replicon {
  import opened Outcomes
  import opened SegmentTrack
  import opened GrowthMerge
  import opened TrackArray
  import opened PhaseGate

  class Cell {
    const genomeLength: nat
    var unassignedReplicators: nat
    var cellState: CellState
    const replicationRate: nat
    const replicationState: array<nat>

    /** How many origins the track has room for: its 2k+3 slots hold k. */
    function Capacity(): nat {
      if replicationState.Length < 3 then 0 else (replicationState.Length - 3) / 2
    }

    /** The track covers the genome, and with `unassignedReplicators` of the
        capacity still unplaced, every slot from 2 + 2(placed) on is empty. */
    ghost predicate Valid()
      reads this, replicationState
    {
      && replicationState.Length == 2 * Capacity() + 3
      && Sum(replicationState[..]) == genomeLength
      && unassignedReplicators <= Capacity()
      && TailZero(replicationState[..], 2 + 2 * (Capacity() - unassignedReplicators))
    }

    constructor (genomeLength: nat, numReplicators: nat, replicationRate: nat)
      ensures Valid() && fresh(replicationState)
      ensures replicationState[..] == FreshTrack(genomeLength, numReplicators)
      ensures Capacity() == numReplicators
      ensures this.genomeLength == genomeLength && this.replicationRate == replicationRate
      ensures unassignedReplicators == numReplicators && cellState == GPhase
    {
      var startVec := new nat[numReplicators * 2 + 3](_ => 0);
      startVec[1] := genomeLength;
      this.genomeLength := genomeLength;
      unassignedReplicators := numReplicators;
      cellState := GPhase;
      this.replicationRate := replicationRate;
      replicationState := startVec;
      new;
      assert replicationState[..] == FreshTrack(genomeLength, numReplicators);
      FreshTrackFacts(genomeLength, numReplicators);
    }

    /** Whether `position` lies in a replicated run; a position at or past
        the genome length is refused. */
    method IsReplicated(position: nat) returns (r: Result<bool, Failure>)
      requires Valid()
      ensures position >= genomeLength <==> r == Err(PositionBeyondGenome)
      ensures position < genomeLength ==> r == Ok(Locate(replicationState[..], position) % 2 == 0)
    {
      if position >= genomeLength {
        return Err(PositionBeyondGenome);
      }
      var checkIndex, _ := LocateIn(replicationState, position);
      return Ok(checkIndex % 2 == 0);
    }

    /** Whether no unreplicated length is left; equivalently, whether every
        genome position is replicated. */
    method IsFullyReplicated() returns (complete: bool)
      requires Valid()
      ensures complete <==> OddSum(replicationState[..]) == 0
      ensures complete <==> forall pos: nat :: pos < genomeLength ==> Locate(replicationState[..], pos) % 2 == 0
    {
      complete := AllGapsEmpty(replicationState);
      CompleteIff(replicationState[..]);
    }

    /** Converts a rank among the unreplicated coordinates into the gap that
        holds it and the genome position: `rank` unreplicated coordinates lie
        before `position`, and `segmentEnd` is where that gap ends. */
    method LocateRank(rank: nat) returns (insertIndex: nat, position: nat, segmentEnd: nat)
      requires Valid()
      requires rank < OddSum(replicationState[..])
      ensures insertIndex % 2 == 1 && insertIndex < replicationState.Length
      ensures OddSum(replicationState[..][..insertIndex]) + (position - Start(replicationState[..], insertIndex)) == rank
      ensures Start(replicationState[..], insertIndex) <= position < segmentEnd
      ensures segmentEnd == Start(replicationState[..], insertIndex + 1)
      ensures Locate(replicationState[..], position) == insertIndex
    {
      ghost var s := replicationState[..];
      StartAll(s);
      var ind := 0;
      var cumsum := 0;
      var remainder := rank;
      while !(ind % 2 == 1 && remainder < replicationState[ind])
        invariant ind < |s|
        invariant cumsum == Start(s, ind)
        invariant OddSum(s[..ind]) + remainder == rank
        decreases |s| - ind
      {
        PrefixStep(s, ind);
        if ind % 2 == 1 {
          remainder := remainder - replicationState[ind];
        }
        cumsum := cumsum + replicationState[ind];
        ind := ind + 1;
      }
      PrefixStep(s, ind);
      insertIndex := ind;
      position := cumsum + remainder;
      segmentEnd := cumsum + replicationState[ind];
      StartMonotone(s, ind + 1, |s|);
      LocateIff(s, position, ind);
    }

    /** Places unplaced origins one at a time, each at a uniformly drawn
        unreplicated coordinate, until none is unplaced or nothing is left
        unreplicated.  Every placement takes one unit of unreplicated length
        and keeps the genome covered; no position stops being replicated, and
        a fully replicated track is left as it was. */
    method AssignReplicators()
      requires Valid()
      modifies this, replicationState
      ensures Valid()
      ensures cellState == old(cellState)
      ensures unassignedReplicators <= old(unassignedReplicators)
      ensures unassignedReplicators == 0 || OddSum(replicationState[..]) == 0
      ensures OddSum(replicationState[..]) + (old(unassignedReplicators) - unassignedReplicators)
           == old(OddSum(replicationState[..]))
      ensures ReplicatedGrows(old(replicationState[..]), replicationState[..], genomeLength)
      ensures old(OddSum(replicationState[..])) == 0 ==>
                replicationState[..] == old(replicationState[..]) && unassignedReplicators == old(unassignedReplicators)
    {
      while unassignedReplicators > 0
        invariant Valid()
        invariant cellState == old(cellState)
        invariant unassignedReplicators <= old(unassignedReplicators)
        invariant OddSum(replicationState[..]) + (old(unassignedReplicators) - unassignedReplicators)
               == old(OddSum(replicationState[..]))
        invariant ReplicatedGrows(old(replicationState[..]), replicationState[..], genomeLength)
        invariant old(OddSum(replicationState[..])) == 0 ==>
                    replicationState[..] == old(replicationState[..]) && unassignedReplicators == old(unassignedReplicators)
        decreases unassignedReplicators
      {
        var numUnreplicated := OddSum(replicationState[..]);
        if numUnreplicated == 0 {
          return;
        }
        var rank :| 0 <= rank < numUnreplicated;
        var _, _ := PlaceRank(rank);
      }
    }

    /** Places one origin at the coordinate of unreplicated rank `rank`: the
        run holding it is split into (left, 1, right), that coordinate and no
        other becomes replicated, and one origin fewer is unplaced. */
    method PlaceRank(rank: nat) returns (insertIndex: nat, position: nat)
      requires Valid()
      requires 0 < unassignedReplicators && rank < OddSum(replicationState[..])
      modifies this, replicationState
      ensures Valid()
      ensures cellState == old(cellState)
      ensures unassignedReplicators + 1 == old(unassignedReplicators)
      ensures OddSum(replicationState[..]) + 1 == old(OddSum(replicationState[..]))
      ensures insertIndex % 2 == 1 && insertIndex + 2 < replicationState.Length && position < genomeLength
      ensures Locate(old(replicationState[..]), position) == insertIndex
      ensures Start(old(replicationState[..]), insertIndex) <= position < Start(old(replicationState[..]), insertIndex + 1)
      ensures OddSum(old(replicationState[..])[..insertIndex])
              + (position - Start(old(replicationState[..]), insertIndex)) == rank
      ensures replicationState[..] == Place(old(replicationState[..]), insertIndex, position)
      ensures Locate(replicationState[..], position) == insertIndex + 1
      ensures ReplicatedAdds(old(replicationState[..]), replicationState[..], genomeLength, position)
    {
      ghost var before := replicationState[..];
      var segmentEnd;
      insertIndex, position, segmentEnd := LocateRank(rank);
      var currentLength := replicationState[insertIndex];
      var leftCount := position + currentLength - segmentEnd;
      var rightCount := (segmentEnd - 1) - position;
      assert leftCount == position - Start(before, insertIndex) && rightCount == segmentEnd - 1 - position
        && insertIndex + 2 < |before| && position < genomeLength by {
        PrefixStep(before, insertIndex);
        PlaceFacts(before, insertIndex, position, Capacity(), unassignedReplicators);
        StartMonotone(before, insertIndex + 1, |before|);
        StartAll(before);
      }
      ghost var t := Place(before, insertIndex, position);
      assert t == Split(before, insertIndex, leftCount, rightCount);
      assert && Sum(t) == genomeLength
        && OddSum(t) + 1 == OddSum(before)
        && TailZero(t, 2 + 2 * (Capacity() - (unassignedReplicators - 1)))
        && Locate(t, position) == insertIndex + 1
        && ReplicatedAdds(before, t, genomeLength, position) by {
        PrefixStep(before, insertIndex);
        PlaceFacts(before, insertIndex, position, Capacity(), unassignedReplicators);
        SplitReplicatedAll(before, insertIndex, position);
      }
      SplitIn(replicationState, insertIndex, leftCount, rightCount);
      unassignedReplicators := unassignedReplicators - 1;
    }

    /** One grow-and-merge pass at the cell's rate; each merge frees one
        origin back into the unplaced pool. */
    method ReplicateAndMerge()
      requires Valid()
      modifies this, replicationState
      ensures Valid()
      ensures cellState == old(cellState)
      ensures replicationState[..] == Growth(old(replicationState[..]), replicationRate).0
      ensures unassignedReplicators == old(unassignedReplicators) + Growth(old(replicationState[..]), replicationRate).1
      ensures OddSum(replicationState[..]) <= old(OddSum(replicationState[..]))
    {
      ghost var before := replicationState[..];
      GrowthConserves(before, replicationRate);
      GrowthTail(before, replicationRate, Capacity(), unassignedReplicators);
      var merged := GrowAndMerge(replicationState, replicationRate);
      unassignedReplicators := unassignedReplicators + merged;
    }

    /** The synthesis-phase driver: leave the growth phase, then alternate
        placement and growth until nothing is unreplicated or `fuel` rounds
        have run.  Unreplicated length never increases. */
    method FullReplication(gate: seq<bool>, fuel: nat) returns (warmups: nat, iterations: nat, complete: bool)
      requires Valid()
      requires cellState == GPhase ==> true in gate
      modifies this, replicationState
      ensures Valid() && cellState == SPhase
      ensures complete <==> OddSum(replicationState[..]) == 0
      ensures iterations <= fuel && (!complete ==> iterations == fuel)
      ensures OddSum(replicationState[..]) <= old(OddSum(replicationState[..]))
    {
      cellState, warmups := EnterSPhase(cellState, gate);
      iterations := 0;
      complete := IsFullyReplicated();
      while !complete && iterations < fuel
        invariant Valid() && cellState == SPhase
        invariant complete <==> OddSum(replicationState[..]) == 0
        invariant iterations <= fuel
        invariant OddSum(replicationState[..]) <= old(OddSum(replicationState[..]))
        decreases fuel - iterations
      {
        AssignReplicators();
        ReplicateAndMerge();
        iterations := iterations + 1;
        complete := IsFullyReplicated();
      }
    }
  }
}
