/** The engine of `main_basic.rs`: a `Genome` holding the track, with
    placement driven by a weighted draw over the unreplicated runs, and a
    `SingleChromCell` that owns the genome and runs replication. */
module BasicReplicon {
  import opened Outcomes
  import opened SegmentTrack
  import opened GrowthMerge
  import opened TrackArray
  import opened PhaseGate

  /** The indices below `n` of the non-empty unreplicated runs, in increasing
      order: exactly the candidates the sampler draws from. */
  function GapsBelow(s: seq<nat>, n: nat): (g: seq<nat>)
    requires n <= |s|
    ensures forall j :: 0 <= j < |g| ==> g[j] < n && g[j] % 2 == 1 && s[g[j]] > 0
  {
    if n == 0 then []
    else GapsBelow(s, n - 1) + (if (n - 1) % 2 == 1 && s[n - 1] > 0 then [n - 1] else [])
  }

  /** The candidates are listed in increasing order, and every non-empty
      unreplicated run below `n` is among them. */
  lemma {:induction false} GapsBelowComplete(s: seq<nat>, n: nat)
    requires n <= |s|
    ensures forall j, k :: 0 <= j < k < |GapsBelow(s, n)| ==> GapsBelow(s, n)[j] < GapsBelow(s, n)[k]
    ensures forall i :: 0 <= i < n && i % 2 == 1 && s[i] > 0 ==> i in GapsBelow(s, n)
  {
    if n > 0 {
      GapsBelowComplete(s, n - 1);
    }
  }

  /** There is no candidate run below `n` exactly when the slots below `n`
      hold no unreplicated length. */
  lemma {:induction false} NoGapBelowIff(s: seq<nat>, n: nat)
    requires n <= |s|
    ensures |GapsBelow(s, n)| == 0 <==> ParitySum(s[..n], 1) == 0
  {
    if n > 0 {
      NoGapBelowIff(s, n - 1);
      PrefixStep(s, n - 1);
    } else {
      assert s[..0] == [];
    }
  }

  lemma NoGapIff(s: seq<nat>)
    ensures |GapsBelow(s, |s|)| == 0 <==> OddSum(s) == 0
  {
    NoGapBelowIff(s, |s|);
    StartAll(s);
  }

  /** Each candidate point lies inside the run it was drawn from, and each
      weight is that run's length. */
  ghost predicate PointsInGaps(s: seq<nat>, g: seq<nat>, points: seq<nat>, lengths: seq<nat>)
    requires forall j :: 0 <= j < |g| ==> g[j] < |s|
  {
    && |points| == |g| && |lengths| == |g|
    && forall j :: 0 <= j < |g| ==>
         && lengths[j] == s[g[j]]
         && Start(s, g[j]) <= points[j] < Start(s, g[j]) + lengths[j]
  }

  /** The facts one placement needs about the track: the split fits, the
      position lies in run `i`, which ends at `cumsum`, and placing the origin
      keeps the total, takes one unit of unreplicated length, uses one free
      slot pair and makes exactly `position` newly replicated. */
  lemma PlaceStep(s: seq<nat>, position: nat, k: nat, free: nat, i: nat, cumsum: nat)
    requires |s| == 2 * k + 3 && 1 <= free <= k && TailZero(s, 2 + 2 * (k - free))
    requires position < Sum(s) && Locate(s, position) % 2 == 1
    requires i == Locate(s, position) && cumsum == Start(s, i + 1)
    ensures i + 2 < |s| && Start(s, i) <= position < cumsum && cumsum == Start(s, i) + s[i]
    ensures var t := Place(s, i, position);
      && Sum(t) == Sum(s)
      && OddSum(t) + 1 == OddSum(s)
      && TailZero(t, 2 + 2 * (k - (free - 1)))
      && Locate(t, position) == i + 1
      && ReplicatedAdds(s, t, Sum(s), position)
  {
    StartAll(s);
    LocateIff(s, position, i);
    PrefixStep(s, i);
    PlaceFacts(s, i, position, k, free);
    SplitReplicatedAll(s, i, position);
  }

  lemma PointsInGapsSnoc(s: seq<nat>, g: seq<nat>, points: seq<nat>, lengths: seq<nat>, i: nat, point: nat)
    requires forall j :: 0 <= j < |g| ==> g[j] < |s|
    requires PointsInGaps(s, g, points, lengths)
    requires i < |s| && Start(s, i) <= point < Start(s, i) + s[i]
    ensures PointsInGaps(s, g + [i], points + [point], lengths + [s[i]])
  {
  }

  class Genome {
    const genomeLength: nat
    const numOrigins: nat
    const replicationState: array<nat>

    ghost predicate Valid()
      reads replicationState
    {
      replicationState.Length == 2 * numOrigins + 3 && Sum(replicationState[..]) == genomeLength
    }

    constructor (genomeLength: nat, numOrigins: nat)
      ensures Valid() && fresh(replicationState)
      ensures replicationState[..] == FreshTrack(genomeLength, numOrigins)
      ensures this.genomeLength == genomeLength && this.numOrigins == numOrigins
    {
      var startVec := new nat[numOrigins * 2 + 3](_ => 0);
      startVec[1] := genomeLength;
      this.genomeLength := genomeLength;
      this.numOrigins := numOrigins;
      replicationState := startVec;
      new;
      assert replicationState[..] == FreshTrack(genomeLength, numOrigins);
      FreshTrackFacts(genomeLength, numOrigins);
    }

    /** Whether `position` lies in a replicated run; a position at or past
        the genome length is refused. */
    method IsReplicated(position: nat) returns (r: Result<bool, Failure>)
      requires Valid()
      ensures position >= genomeLength <==> r == Err(PositionBeyondGenome)
      ensures position < genomeLength ==> r == Ok(Locate(replicationState[..], position) % 2 == 0)
    {
      if position >= genomeLength {
        return Err(PositionBeyondGenome);
      }
      var checkIndex, _ := LocateIn(replicationState, position);
      return Ok(checkIndex % 2 == 0);
    }

    /** Whether no unreplicated length is left; equivalently, whether every
        genome position is replicated. */
    method IsFullyReplicated() returns (complete: bool)
      requires Valid()
      ensures complete <==> OddSum(replicationState[..]) == 0
      ensures complete <==> forall pos: nat :: pos < genomeLength ==> Locate(replicationState[..], pos) % 2 == 0
    {
      complete := AllGapsEmpty(replicationState);
      CompleteIff(replicationState[..]);
    }

    /** One uniformly drawn point inside each non-empty unreplicated run, and
        the run lengths that weight the later choice among them. */
    method Candidates() returns (points: seq<nat>, lengths: seq<nat>)
      requires Valid()
      ensures PointsInGaps(replicationState[..], GapsBelow(replicationState[..], replicationState.Length), points, lengths)
    {
      ghost var s := replicationState[..];
      var cumsum := 0;
      points := [];
      lengths := [];
      for ind := 0 to replicationState.Length
        invariant cumsum == Start(s, ind)
        invariant PointsInGaps(s, GapsBelow(s, ind), points, lengths)
      {
        PrefixStep(s, ind);
        ghost var g := GapsBelow(s, ind);
        if ind % 2 != 0 && replicationState[ind] != 0 {
          assert GapsBelow(s, ind + 1) == g + [ind];
          var point :| cumsum <= point < cumsum + replicationState[ind];
          PointsInGapsSnoc(s, g, points, lengths, ind, point);
          lengths := lengths + [replicationState[ind]];
          points := points + [point];
        } else {
          assert GapsBelow(s, ind + 1) == g;
        }
        cumsum := cumsum + replicationState[ind];
      }
    }

    /** A point inside some unreplicated run, chosen among one candidate per
        run; refused when no unreplicated run is left. */
    method RandomUnreplicatedPoint() returns (r: Result<nat, Failure>)
      requires Valid()
      ensures r.Err? <==> OddSum(replicationState[..]) == 0
      ensures r.Err? ==> r.error == NoUnreplicatedRange
      ensures r.Ok? ==> r.value < genomeLength && Locate(replicationState[..], r.value) % 2 == 1
    {
      ghost var s := replicationState[..];
      NoGapIff(s);
      var points, lengths := Candidates();
      if |lengths| == 0 {
        return Err(NoUnreplicatedRange);
      }
      var choice :| 0 <= choice < |lengths|;
      ghost var g := GapsBelow(s, |s|)[choice];
      PrefixStep(s, g);
      StartMonotone(s, g + 1, |s|);
      StartAll(s);
      LocateIff(s, points[choice], g);
      return Ok(points[choice]);
    }

    /** Places up to `numReplicators` origins, each at a sampled unreplicated
        point, stopping early when nothing is left to sample.  The track must
        have room: with `numReplicators` more origins it still fits, which is
        what keeps the two-slot shift from overrunning it.  No position stops
        being replicated, and a fully replicated track is left as it was. */
    method AssignReplicators(numReplicators: nat) returns (ghost placed: nat)
      requires Valid()
      requires numReplicators <= numOrigins
      requires TailZero(replicationState[..], 2 + 2 * (numOrigins - numReplicators))
      modifies replicationState
      ensures Valid()
      ensures placed <= numReplicators
      ensures placed < numReplicators ==> OddSum(replicationState[..]) == 0
      ensures OddSum(replicationState[..]) + placed == old(OddSum(replicationState[..]))
      ensures TailZero(replicationState[..], 2 + 2 * (numOrigins - numReplicators + placed))
      ensures ReplicatedGrows(old(replicationState[..]), replicationState[..], genomeLength)
      ensures old(OddSum(replicationState[..])) == 0 ==> replicationState[..] == old(replicationState[..])
    {
      placed := 0;
      for rep := 0 to numReplicators
        invariant Valid()
        invariant placed == rep
        invariant OddSum(replicationState[..]) + placed == old(OddSum(replicationState[..]))
        invariant TailZero(replicationState[..], 2 + 2 * (numOrigins - numReplicators + placed))
        invariant ReplicatedGrows(old(replicationState[..]), replicationState[..], genomeLength)
        invariant old(OddSum(replicationState[..])) == 0 ==> replicationState[..] == old(replicationState[..])
      {
        var sampled := RandomUnreplicatedPoint();
        if sampled.Err? {
          return;
        }
        var _ := PlaceOrigin(sampled.value, numReplicators - rep);
        placed := placed + 1;
      }
    }

    /** Splits the unreplicated run holding `position` into (left, 1, right)
        while `free` origin slots remain: `position`, and no other position,
        becomes replicated, and one slot fewer is free. */
    method PlaceOrigin(position: nat, free: nat) returns (insertIndex: nat)
      requires Valid()
      requires position < genomeLength && Locate(replicationState[..], position) % 2 == 1
      requires 1 <= free <= numOrigins
      requires TailZero(replicationState[..], 2 + 2 * (numOrigins - free))
      modifies replicationState
      ensures Valid()
      ensures OddSum(replicationState[..]) + 1 == old(OddSum(replicationState[..]))
      ensures TailZero(replicationState[..], 2 + 2 * (numOrigins - (free - 1)))
      ensures insertIndex == Locate(old(replicationState[..]), position) && insertIndex + 2 < replicationState.Length
      ensures Start(old(replicationState[..]), insertIndex) <= position < Start(old(replicationState[..]), insertIndex + 1)
      ensures replicationState[..] == Place(old(replicationState[..]), insertIndex, position)
      ensures Replicated(replicationState[..], position)
      ensures ReplicatedAdds(old(replicationState[..]), replicationState[..], genomeLength, position)
    {
      ghost var before := replicationState[..];
      var cumsum;
      insertIndex, cumsum := LocateIn(replicationState, position);
      PlaceStep(before, position, numOrigins, free, insertIndex, cumsum);
      var currentLength := replicationState[insertIndex];
      var leftCount := position + currentLength - cumsum;
      var rightCount := (cumsum - 1) - position;
      ghost var t := Place(before, insertIndex, position);
      assert t == Split(before, insertIndex, leftCount, rightCount);
      SplitIn(replicationState, insertIndex, leftCount, rightCount);
    }

    /** One grow-and-merge pass with the given step size; returns the number
        of merges. */
    method ReplicateAndMerge(stepSize: nat) returns (numMerged: nat)
      requires Valid()
      modifies replicationState
      ensures Valid()
      ensures replicationState[..] == Growth(old(replicationState[..]), stepSize).0
      ensures numMerged == Growth(old(replicationState[..]), stepSize).1
      ensures OddSum(replicationState[..]) <= old(OddSum(replicationState[..]))
    {
      GrowthConserves(replicationState[..], stepSize);
      numMerged := GrowAndMerge(replicationState, stepSize);
    }
  }

  /** What one synthesis round did: the origins it was given (`quota`), how
      many it placed, the track after placement, and how many pairs its
      growth pass merged. */
  datatype RoundRecord = RoundRecord(quota: nat, placed: nat, track: seq<nat>, merged: nat)

  /** The track round `j` starts from: `start` for the first round, and the
      outcome of the previous round's growth pass for every later one. */
  ghost function RoundStart(start: seq<nat>, rounds: seq<RoundRecord>, j: nat, rate: nat): (r: seq<nat>)
    requires |start| > 0
    ensures |r| > 0
    ensures 0 < j <= |rounds| && |rounds[j - 1].track| >= 3 ==> |r| == |rounds[j - 1].track|
  {
    if j == 0 || j > |rounds| || |rounds[j - 1].track| < 3 then start else Growth(rounds[j - 1].track, rate).0
  }

  /** The origins round `j` is given: `first` for the first round, and what
      the previous round merged for every later one. */
  function Offered(rounds: seq<RoundRecord>, j: nat, first: nat): nat {
    if j == 0 || j > |rounds| then first else rounds[j - 1].merged
  }

  /** One round as the synthesis loop runs it from the track `prev`: its
      quota is what it was offered; it placed at most that many origins,
      fewer only when nothing was left unreplicated, each placement taking
      one unit of unreplicated length and unreplicating no position; and
      its merge count is that of the growth pass over the placed track. */
  ghost predicate RoundOk(r: RoundRecord, prev: seq<nat>, offered: nat, rate: nat, n: nat) {
    && |prev| >= 3 && |r.track| == |prev|
    && r.quota == offered
    && r.placed <= r.quota
    && OddSum(r.track) + r.placed == OddSum(prev)
    && (r.placed < r.quota ==> OddSum(r.track) == 0)
    && ReplicatedGrows(prev, r.track, n)
    && r.merged == Growth(r.track, rate).1
  }

  /** A record of synthesis rounds run from the track `start` on a genome of
      length `n`: each round is a `RoundOk` round that starts from the track
      the previous one grew to and is offered what the previous one merged. */
  ghost predicate RoundHistory(rounds: seq<RoundRecord>, rate: nat, first: nat, start: seq<nat>, n: nat) {
    && |start| >= 3
    && forall j {:trigger RoundStart(start, rounds, j, rate)} :: 0 <= j < |rounds| ==>
         RoundOk(rounds[j], RoundStart(start, rounds, j, rate), Offered(rounds, j, first), rate, n)
  }

  /** A round that starts from where the history left off and is offered
      what the previous round merged extends the history. */
  lemma RoundHistoryStep(rounds: seq<RoundRecord>, rate: nat, first: nat, start: seq<nat>, n: nat, r: RoundRecord)
    requires RoundHistory(rounds, rate, first, start, n)
    requires RoundOk(r, RoundStart(start, rounds, |rounds|, rate), Offered(rounds, |rounds|, first), rate, n)
    ensures RoundHistory(rounds + [r], rate, first, start, n)
  {
    var rs := rounds + [r];
    forall j | 0 <= j < |rs|
      ensures RoundOk(rs[j], RoundStart(start, rs, j, rate), Offered(rs, j, first), rate, n)
    {
      var prev, offered := RoundStart(start, rounds, j, rate), Offered(rounds, j, first);
      assert RoundStart(start, rs, j, rate) == prev && Offered(rs, j, first) == offered by {
        if 0 < j {
          assert rs[j - 1] == rounds[j - 1];
        }
      }
      var rec := if j < |rounds| then rounds[j] else r;
      assert rs[j] == rec;
      assert RoundOk(rec, prev, offered, rate, n);
    }
  }

  /** After a non-empty history, the track is the growth of the last
      round's placed track. */
  lemma RoundHistoryLast(rounds: seq<RoundRecord>, rate: nat, first: nat, start: seq<nat>, n: nat)
    requires RoundHistory(rounds, rate, first, start, n) && |rounds| > 0
    ensures |rounds[|rounds| - 1].track| >= 3
    ensures RoundStart(start, rounds, |rounds|, rate) == Growth(rounds[|rounds| - 1].track, rate).0
  {
    assert RoundOk(rounds[|rounds| - 1], RoundStart(start, rounds, |rounds| - 1, rate),
      Offered(rounds, |rounds| - 1, first), rate, n);
  }

  class SingleChromCell {
    const numReplicators: nat
    const replicationRate: nat
    var cellState: CellState
    const genome: Genome

    ghost predicate Valid()
      reads genome.replicationState
    {
      genome.Valid() && genome.numOrigins == numReplicators
    }

    constructor (genomeLength: nat, replicationRate: nat, numReplicators: nat)
      ensures Valid() && fresh(genome) && fresh(genome.replicationState)
      ensures genome.replicationState[..] == FreshTrack(genomeLength, numReplicators)
      ensures genome.genomeLength == genomeLength
      ensures this.numReplicators == numReplicators && this.replicationRate == replicationRate
      ensures cellState == GPhase
    {
      this.numReplicators := numReplicators;
      this.replicationRate := replicationRate;
      cellState := GPhase;
      genome := new Genome(genomeLength, numReplicators);
    }

    /** One round of the synthesis loop: place `quota` origins, then grow
        and merge.  `mid` is the track after placement: placement took one
        unit of unreplicated length per placed origin and unreplicated no
        position, and the round ends with `Growth` of `mid`, whose merge
        count is returned; that is what the next round may place, and the
        track keeps room for that many. */
    method Round(quota: nat) returns (numMerged: nat, ghost placed: nat, ghost mid: seq<nat>)
      requires Valid()
      requires quota <= numReplicators
      requires TailZero(genome.replicationState[..], 2 + 2 * (numReplicators - quota))
      modifies genome.replicationState
      ensures Valid()
      ensures placed <= quota && |mid| == genome.replicationState.Length
      ensures OddSum(mid) + placed == old(OddSum(genome.replicationState[..]))
      ensures placed < quota ==> OddSum(mid) == 0
      ensures ReplicatedGrows(old(genome.replicationState[..]), mid, genome.genomeLength)
      ensures genome.replicationState[..] == Growth(mid, replicationRate).0
      ensures numMerged == Growth(mid, replicationRate).1
      ensures numMerged <= numReplicators
      ensures TailZero(genome.replicationState[..], 2 + 2 * (numReplicators - numMerged))
      ensures OddSum(genome.replicationState[..]) <= old(OddSum(genome.replicationState[..]))
    {
      placed := genome.AssignReplicators(quota);
      mid := genome.replicationState[..];
      GrowthTail(mid, replicationRate, numReplicators, 0);
      numMerged := genome.ReplicateAndMerge(replicationRate);
    }

    /** `Round`, with the round appended to the run's history `rounds`:
        the history still satisfies `RoundHistory`, the track is where the
        history says it is, and the merge count is what it offers next. */
    method RecordedRound(quota: nat, ghost start: seq<nat>, ghost rounds: seq<RoundRecord>)
        returns (numMerged: nat, ghost next: seq<RoundRecord>)
      requires Valid()
      requires quota <= numReplicators
      requires TailZero(genome.replicationState[..], 2 + 2 * (numReplicators - quota))
      requires RoundHistory(rounds, replicationRate, numReplicators, start, genome.genomeLength)
      requires genome.replicationState[..] == RoundStart(start, rounds, |rounds|, replicationRate)
      requires quota == Offered(rounds, |rounds|, numReplicators)
      modifies genome.replicationState
      ensures Valid()
      ensures |next| == |rounds| + 1 && next[..|rounds|] == rounds
      ensures RoundHistory(next, replicationRate, numReplicators, start, genome.genomeLength)
      ensures genome.replicationState[..] == RoundStart(start, next, |next|, replicationRate)
      ensures |next[|rounds|].track| == genome.replicationState.Length
        && genome.replicationState[..] == Growth(next[|rounds|].track, replicationRate).0
      ensures numMerged == Offered(next, |next|, numReplicators) && numMerged <= numReplicators
      ensures TailZero(genome.replicationState[..], 2 + 2 * (numReplicators - numMerged))
      ensures OddSum(genome.replicationState[..]) <= old(OddSum(genome.replicationState[..]))
    {
      ghost var placed, mid;
      numMerged, placed, mid := Round(quota);
      ghost var r := RoundRecord(quota, placed, mid, numMerged);
      RoundHistoryStep(rounds, replicationRate, numReplicators, start, genome.genomeLength, r);
      next := rounds + [r];
      assert next[..|rounds|] == rounds;
      assert RoundStart(start, next, |next|, replicationRate) == Growth(mid, replicationRate).0;
    }

    /** Leaves the growth phase, then alternates placement and growth until
        nothing is unreplicated or `fuel` rounds have run.  The first round
        places every origin; each later round places as many as the previous
        round's merges freed.  `rounds` records each round (see
        `RoundHistory`), starting from the track as it was on entry; the
        track ends as the last round grew it. */
    method RunReplication(gate: seq<bool>, fuel: nat)
        returns (warmups: nat, iterations: nat, complete: bool, ghost rounds: seq<RoundRecord>)
      requires Valid()
      requires TailZero(genome.replicationState[..], 2)
      requires cellState == GPhase ==> true in gate
      modifies this, genome.replicationState
      ensures Valid() && cellState == SPhase
      ensures complete <==> OddSum(genome.replicationState[..]) == 0
      ensures iterations <= fuel && (!complete ==> iterations == fuel)
      ensures OddSum(genome.replicationState[..]) <= old(OddSum(genome.replicationState[..]))
      ensures |rounds| == iterations
      ensures RoundHistory(rounds, replicationRate, numReplicators, old(genome.replicationState[..]), genome.genomeLength)
      ensures genome.replicationState[..] == RoundStart(old(genome.replicationState[..]), rounds, iterations, replicationRate)
      ensures iterations > 0 ==>
        (|rounds[iterations - 1].track| == genome.replicationState.Length
         && genome.replicationState[..] == Growth(rounds[iterations - 1].track, replicationRate).0)
    {
      ghost var start := genome.replicationState[..];
      cellState, warmups := EnterSPhase(cellState, gate);
      var unassignedReplicators := numReplicators;
      iterations := 0;
      rounds := [];
      complete := genome.IsFullyReplicated();
      while !complete && iterations < fuel
        invariant Valid() && cellState == SPhase
        invariant complete <==> OddSum(genome.replicationState[..]) == 0
        invariant iterations <= fuel
        invariant OddSum(genome.replicationState[..]) <= OddSum(start)
        invariant unassignedReplicators <= numReplicators
        invariant TailZero(genome.replicationState[..], 2 + 2 * (numReplicators - unassignedReplicators))
        invariant |rounds| == iterations
        invariant RoundHistory(rounds, replicationRate, numReplicators, start, genome.genomeLength)
        invariant genome.replicationState[..] == RoundStart(start, rounds, iterations, replicationRate)
        invariant unassignedReplicators == Offered(rounds, iterations, numReplicators)
        decreases fuel - iterations
      {
        var numMerged;
        numMerged, rounds := RecordedRound(unassignedReplicators, start, rounds);
        unassignedReplicators := 0;
        unassignedReplicators := unassignedReplicators + numMerged;
        iterations := iterations + 1;
        complete := genome.IsFullyReplicated();
      }
      if iterations > 0 {
        RoundHistoryLast(rounds, replicationRate, numReplicators, start, genome.genomeLength);
      }
    }
  }
}
