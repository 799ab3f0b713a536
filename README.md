# rusty_replicon in Dafny

A model of the replication-state engine of rusty_replicon, a stochastic
simulator of DNA replication. A chromosome of length L is replicated
from origins. Each origin fires and grows a replicated region until the
regions meet and merge. The repository keeps this state in four near-variant
forms, and the model covers all four:

- **Parity track** (`src/main.rs` `Cell`, `src/main_basic.rs` `Genome`). A
  fixed array of 2k+3 run lengths. Even slots are replicated runs, odd slots
  are unreplicated gaps. Modules: `SegmentTrack` (the value-level
  specification: sums, run starts, location, split, pair removal),
  `GrowthMerge` (one grow/merge pass as functions), `TrackArray` (the in-place
  array loops, proved against those functions), `PhaseGate` (the
  growth-to-synthesis gate), `Replicon` (`main.rs`) and `BasicReplicon`
  (`main_basic.rs`).
- **Range list** (`src/main_archive.rs` `Chromosome`). A list of
  `(replicated, length)` ranges. Point replication splits the containing
  range and merges the new point with equal neighbours. Module
  `ArchiveReplicon`. Each range list also has a per-position view
  (`Expand`), and replication is proved to set exactly one position of that
  view.
- **Fork list** (`src/main_forkstruct.rs` `Cell`). A list of forks
  `(origin, position, step)`. Origins fire left/right fork pairs, forks step
  and clamp, colliding bubbles merge, and new pairs are drawn from the gaps
  that remain unreplicated. Module `ForkReplicon`.

`Outcomes` holds the shared `Result`/`Failure` types. Every `panic!` of the
source on a bad argument becomes an `Err` value.

Random draws are never reproduced. A sampled rank, position or weighted choice
becomes a nondeterministic choice (`:|`) restricted to the values the
distribution can produce. The accept/reject loop is one accepted draw. The
growth-to-synthesis gate is a sequence of boolean outcomes. The driver loops
take a fuel bound.

## Model

| member | source | states |
|---|---|---|
| SegmentTrack.FreshTrackFacts | src/main.rs:22-31 | a new track of 2k+3 slots sums to L, all of it unreplicated, every slot after index 1 is zero, and every position lies in run 1 |
| SegmentTrack.LocateIff | src/main.rs:42-52 | the located run is exactly the run whose start is at or below the position and whose end is above it |
| SegmentTrack.LocateNonEmpty | src/main.rs:42-52 | the run that holds a position inside the genome is never empty |
| SegmentTrack.CompleteIff | src/main.rs:54-62 | all odd slots are zero iff the odd sum is zero iff every position lies in an even (replicated) run |
| SegmentTrack.SplitFacts | src/main.rs:106-117 | splitting odd run i at a position inside it into (left, 1, right) keeps the total at L, uses left + 1 + right = the old length, lowers the unreplicated total by exactly 1 and puts the position in the new replicated run |
| SegmentTrack.SplitIndex | src/main.rs:110-117 | the split leaves slots before i alone, writes left, 1, right at i..i+2 and moves every later slot two places right |
| SegmentTrack.PlaceFacts | src/main.rs:106-120 | with an origin still unplaced, the last two slots are empty and i+2 is inside the track; after the split, the sums and the position facts of SplitFacts hold and one less origin is unplaced |
| SegmentTrack.SplitStartShift | src/main.rs:110-117 | after a split at run i, runs up to i keep their starts, and every later run starts where it did before, two slots further right |
| SegmentTrack.SplitReplicated | src/main.rs:106-120 | after placing at a position, a coordinate is replicated iff it was replicated before or is that position |
| SegmentTrack.SplitReplicatedAll | src/main.rs:106-120 | the same for every coordinate of the genome at once: the placed position is the only one that changes status |
| SegmentTrack.RemovePairSums | src/main.rs:148-153 | removing a gap and its right neighbour lowers the total by their two lengths and the odd total by the gap's length |
| SegmentTrack.RemovePairIndex | src/main.rs:149-153 | pair removal shifts every later slot two places left and zeroes the last two slots |
| GrowthMerge.GiveFacts | src/main.rs:134-141 | a transfer moves min(gap, rate) units from the gap to its neighbour, changes nothing else and keeps the total |
| GrowthMerge.TransferFacts | src/main.rs:129-143 | each side gains at most `rate`, only a neighbour that was non-zero before gains, the total is kept and the odd total never increases |
| GrowthMerge.StepAtFacts | src/main.rs:129-157 | one gap's step keeps the total, never raises the odd total and merges at most once, and only when both neighbours were occupied |
| GrowthMerge.StepAtTail | src/main.rs:146-157 | a merge frees two trailing slots, so the empty tail grows by two per merge |
| GrowthMerge.PassFacts | src/main.rs:126-158 | the right-to-left pass over all gaps keeps the total and never raises the odd total |
| GrowthMerge.PassTail | src/main.rs:126-158 | the merges of a pass are bounded by the origins placed, and each one frees a pair of slots |
| GrowthMerge.CollapseFacts | src/main.rs:159-166 | collapsing a leading empty pair keeps both sums and the empty tail |
| GrowthMerge.GrowthConserves | src/main.rs:123-167 | a whole grow/merge pass keeps the total at L and never raises the unreplicated total |
| GrowthMerge.GrowthTail | src/main.rs:146-166 | the merge count of a pass never exceeds the number of placed origins, and the free tail grows by two slots per merge |
| GrowthMerge.MergeExample | src/main.rs:146-157 | [5, 3, 5] at rate 4 becomes a single run of 13 with one merge |
| TrackArray.LocateIn | src/main.rs:42-50 | the running-sum loop returns the located run and the end of that run |
| TrackArray.AllGapsEmpty | src/main.rs:54-62 | the scan answers true iff every odd slot is zero, which holds iff the odd sum is zero |
| TrackArray.SplitIn | src/main.rs:110-117 | the in-place shift and the three writes leave the array equal to `Split` of its old contents |
| TrackArray.RemovePairIn | src/main.rs:148-153 | the in-place left shift and the zeroing leave the array equal to `RemovePair` of its old contents |
| TrackArray.TransferIn | src/main.rs:132-143 | the two guarded transfers leave the array equal to `Transfer` of its old contents |
| TrackArray.StepIn | src/main.rs:129-157 | one gap's transfer and merge leave the array equal to `StepAt`, and the merge flag is returned |
| TrackArray.PassIn | src/main.rs:126-158 | the reverse loop over odd slots leaves the array equal to `Pass` and returns its merge count |
| TrackArray.GrowAndMerge | src/main.rs:123-167 | the whole pass, including the leading-pair collapse, equals `Growth` and returns its merge count |
| PhaseGate.EnterSPhase | src/main.rs:171-178 | the gate loop ends in the synthesis phase after exactly as many draws as it takes to reach the first accepting one |
| Replicon.Cell.constructor | src/main.rs:22-31 | the track is the fresh 2k+3 track with k unplaced origins, in the growth phase |
| Replicon.Cell.IsReplicated | src/main.rs:33-53 | a position at or past L is refused; otherwise the answer is whether the located run index is even |
| Replicon.Cell.IsFullyReplicated | src/main.rs:54-62 | true iff no unreplicated length is left, that is iff every position is replicated |
| Replicon.Cell.LocateRank | src/main.rs:82-98 | rank r of the unreplicated coordinates maps to an odd run and to a position inside that run, with r = the odd length before the run plus the offset |
| Replicon.Cell.PlaceRank | src/main.rs:82-120 | the placed position is the coordinate of unreplicated rank `rank`, inside the odd run it was located in; the new track is that run split into (left, 1, right) around it; the position becomes replicated and no other coordinate changes status; exactly one unit of unreplicated length and one unplaced origin are used |
| Replicon.Cell.AssignReplicators | src/main.rs:63-122 | placement stops when all origins are placed or nothing is unreplicated; each placement costs exactly one unit of unreplicated length and keeps the track covering L; no replicated position becomes unreplicated; a fully replicated track and the pool are left exactly as they were |
| Replicon.Cell.ReplicateAndMerge | src/main.rs:123-167 | the track becomes `Growth` of the old one, every merge returns one origin to the unplaced pool, and the unreplicated total never rises |
| Replicon.Cell.FullReplication | src/main.rs:168-194 | after the gate the cell is in the synthesis phase; the loop stops when replication is complete or the fuel runs out, and unreplicated length never rises |
| BasicReplicon.GapsBelow | src/main_basic.rs:68-75 | every listed slot is a non-empty odd run |
| BasicReplicon.GapsBelowComplete | src/main_basic.rs:68-75 | the list is increasing and holds every non-empty odd run |
| BasicReplicon.NoGapIff | src/main_basic.rs:63-79 | there is no candidate iff no unreplicated length is left |
| BasicReplicon.Genome.constructor | src/main_basic.rs:24-31 | the track is the fresh 2k+3 track with L at index 1 |
| BasicReplicon.Genome.IsReplicated | src/main_basic.rs:33-53 | out-of-range positions are refused; otherwise the answer is the parity of the located run |
| BasicReplicon.Genome.IsFullyReplicated | src/main_basic.rs:54-62 | true iff every odd slot is zero, which holds iff every position is replicated |
| BasicReplicon.Genome.Candidates | src/main_basic.rs:63-75 | one candidate per non-empty odd run, lying inside that run, weighted by the run's length |
| BasicReplicon.Genome.RandomUnreplicatedPoint | src/main_basic.rs:63-79 | an error iff no unreplicated length is left; otherwise a position in an unreplicated run |
| BasicReplicon.PlaceStep | src/main_basic.rs:99-120 | at the run located for an unreplicated position the running sum is that run's end, and splitting there keeps the total, takes one unit of unreplicated length, uses one free slot pair, and makes that position and no other replicated |
| BasicReplicon.Genome.PlaceOrigin | src/main_basic.rs:99-120 | the running-sum search finds the run holding the position; the new track is that run split into (left, 1, right) around it; the position becomes replicated and no other coordinate changes status |
| BasicReplicon.Genome.AssignReplicators | src/main_basic.rs:80-122 | at most the requested origins are placed, fewer only when nothing is left unreplicated, each placement costs one unit of unreplicated length, and the genome stays covered; no replicated position becomes unreplicated, and a fully replicated track is left as it was |
| BasicReplicon.Genome.ReplicateAndMerge | src/main_basic.rs:123-169 | the track becomes `Growth` of the old one, the returned count is its merge count, and unreplicated length never rises |
| BasicReplicon.RoundHistoryStep | src/main_basic.rs:204-213 | appending a round that starts from the track the history ends on (the start track for the first round, otherwise `Growth` of the previous round's placed track), is offered the previous round's merge count (all replicators for the first), places no more than offered, takes one unit of unreplicated length per origin, unreplicates no position and reports `Growth`'s merge count keeps the run's history well formed |
| BasicReplicon.RoundHistoryLast | src/main_basic.rs:204-213 | after at least one round the track the history ends on is `Growth` of the last round's placed track |
| BasicReplicon.SingleChromCell.constructor | src/main_basic.rs:180-187 | a fresh genome with one origin slot per replicator, in the growth phase |
| BasicReplicon.SingleChromCell.Round | src/main_basic.rs:206-215 | one round places at most the quota, fewer only when nothing is left unreplicated, never unreplicates a position, and then the track becomes `Growth` of the placed track; the returned count is exactly that pass's merge count, and it keeps the capacity invariant for the next quota |
| BasicReplicon.SingleChromCell.RecordedRound | src/main_basic.rs:204-213 | one round of the loop extends the run's history by exactly one record, the history stays well formed, the track is where the history ends, and the merge count is what the history offers to the next round |
| BasicReplicon.SingleChromCell.RunReplication | src/main_basic.rs:188-223 | the returned history has one record per round and ties every track to the one before: the first round starts from the track on entry, each later round starts from `Growth` of the previous round's placed track, every placed track keeps every replicated position of its start and has exactly `placed` less unreplicated length, every quota is the previous round's merge count (all replicators for the first), and the final track is `Growth` of the last placed track; the loop stops on completion or when the fuel runs out |
| ArchiveReplicon.Chromosome.constructor | src/main_archive.rs:16-26 | one unreplicated range of length L, so every position reads unreplicated |
| ArchiveReplicon.RangeIndexContains | src/main_archive.rs:39-48 | the range found by the running sum is the one whose span holds the position |
| ArchiveReplicon.Chromosome.FindRange | src/main_archive.rs:39-48 | the loop returns that range index and the running sum up to and including it |
| ArchiveReplicon.StatusIsExpand | src/main_archive.rs:122-133 | the flag of the located range is the position's entry in the per-position view |
| ArchiveReplicon.Chromosome.IsReplicated | src/main_archive.rs:110-134 | negative and too-large positions are refused; otherwise the answer is the located range's flag, which is the position's view entry |
| ArchiveReplicon.ReplicateReplicatedIsIdentity | src/main_archive.rs:53-56 | replicating a position whose range is already replicated changes nothing |
| ArchiveReplicon.CarveAt | src/main_archive.rs:58-89 | the split replaces the located range by its unreplicated left part, a replicated point and its right part, dropping empty parts, and reports where the point landed |
| ArchiveReplicon.ReplicateSplitsRange | src/main_archive.rs:58-86 | with both remainders positive, the range becomes [left, 1, right] with left + 1 + right equal to its old length |
| ArchiveReplicon.SpliceIn | src/main_archive.rs:61-86 | the remove/insert sequence produces the split list |
| ArchiveReplicon.MergeAround | src/main_archive.rs:88-104 | the corrected merge (see Findings): the right and then left neighbour merges, each absorbing the neighbour's length, applied to the split list |
| ArchiveReplicon.ReplicatedMergingCoverage | src/main_archive.rs:88-104 | with merges that absorb the neighbour's length, replication keeps the total at L, keeps lengths non-negative, and changes exactly the replicated position in the per-position view |
| ArchiveReplicon.Chromosome.Replicate | src/main_archive.rs:27-108 | negative and too-large positions are refused and leave the state alone; otherwise the state becomes the merged split and exactly that position turns replicated |
| ArchiveReplicon.FreshReplicated100 | src/main_archive.rs:150-155 | on a fresh length-500 chromosome, replicating 100 gives [100 unreplicated, 1 replicated, 399 unreplicated] |
| ArchiveReplicon.ReplicateSinglePosition | src/main_archive.rs:150-155 | after replicating 100 on a fresh length-500 chromosome, position 100 reads replicated |
| ArchiveReplicon.OutOfBoundsLow | src/main_archive.rs:157-162 | replicating -2 is refused as a negative position |
| ArchiveReplicon.OutOfBoundsHigh | src/main_archive.rs:164-169 | replicating 510 on a length-500 chromosome is refused as beyond the genome |
| ArchiveReplicon.AsWrittenGrowsRight | src/main_archive.rs:89-104 | as written, replicating 101 next to the point at 100 gives a replicated range of 2 and still totals 500 |
| ArchiveReplicon.AsWrittenGrowsLeft | src/main_archive.rs:89-104 | as written, replicating 99 next to the point at 100 gives a replicated range of 2 and still totals 500 |
| ArchiveReplicon.AsWrittenLeftMergeLosesLength | src/main_archive.rs:98-104 | as written, replicating 100, 101 and 102 leaves a chromosome that totals 499, and position 102 reads unreplicated |
| ArchiveReplicon.AsWrittenRightMergeLosesLength | src/main_archive.rs:90-97 | as written, replicating 100, 99 and 98 leaves a chromosome that totals 499 |
| ForkReplicon.Cell.constructor | src/main_forkstruct.rs:25-32 | the fork list starts empty and the cell does not read as fully replicated |
| ForkReplicon.Cell.FullyReplicated | src/main_forkstruct.rs:33-45 | false on an empty fork list; otherwise true iff the fork sum `Extent` equals the genome length |
| ForkReplicon.Cell.FullyReplicatedIff | src/main_forkstruct.rs:33-45 | on ordered, disjoint bubbles the fork-sum test holds iff the list is non-empty, no gap is listed and no unit gap is skipped |
| ForkReplicon.InsertionIndexIff | src/main_forkstruct.rs:48-57 | the insertion index is exactly the first index whose fork position is at or past the insertion position, or the list length |
| ForkReplicon.WithForkPairShape | src/main_forkstruct.rs:58-80 | insertion adds two forks at that index, a left fork (step -s) then a right fork (step +s), both rooted at the insertion position with clamped positions; the other forks keep their order, and coordinates stay on the genome |
| ForkReplicon.Cell.InsertForkPair | src/main_forkstruct.rs:46-81 | the search loop and the two inserts leave the list with the pair inserted at the insertion index |
| ForkReplicon.StepOneFacts | src/main_forkstruct.rs:82-87 | a stepped fork keeps origin, step and flag, and moves by its step, clamped to [0, L] |
| ForkReplicon.Cell.StepForks | src/main_forkstruct.rs:82-87 | every fork is stepped in place; the length and order are unchanged |
| ForkReplicon.FirstOverlapFromFacts | src/main_forkstruct.rs:92-107 | the scan over even offsets returns the first collision, and -1 means no visited pair collides |
| ForkReplicon.MergedShape | src/main_forkstruct.rs:88-109 | a pass merges at most once: no collision leaves the list unchanged, and a collision shrinks it by exactly two and leaves the forks outside the merged bubble in place |
| ForkReplicon.MergeAtExtent | src/main_forkstruct.rs:94-101 | the merged bubble spans from the leftmost to the rightmost of the two bubbles' positions |
| ForkReplicon.MergedInBounds | src/main_forkstruct.rs:94-101 | merging keeps every coordinate on the genome |
| ForkReplicon.MergePair | src/main_forkstruct.rs:94-103 | the corrected merge (see Findings): the field updates and the removal of both inner forks on a copy equal the merged list |
| ForkReplicon.Cell.MergeForks | src/main_forkstruct.rs:88-109 | fewer than three forks is an error that changes nothing; otherwise the list becomes the merged list |
| ForkReplicon.AsWrittenSurvivors | src/main_forkstruct.rs:102-103 | as written, the survivors are the widened fork at ind and the untouched original fork at ind+2 |
| ForkReplicon.AsWrittenMergeDropsRightFork | src/main_forkstruct.rs:93-104 | as written, two colliding bubbles over [8, 15) merge into two left-moving forks of extent 6; the intended merge keeps a left and a right fork of extent 7 |
| ForkReplicon.GapsFromOnGenome | src/main_forkstruct.rs:118-156 | on forks within the genome every extracted gap is a non-empty interval inside [0, L] |
| ForkReplicon.GapsOnGenome | src/main_forkstruct.rs:114-156 | the same for the whole extraction, where an empty fork list gives [0, L) |
| ForkReplicon.SinglePairGaps | src/main_forkstruct.rs:118-156 | a single pair fired from 50 with step 2 on a genome of length 100 leaves [0, 48) and [52, 100) |
| ForkReplicon.SpanTotalAppend | src/main_forkstruct.rs:118-156 | the total length of concatenated gap lists is the sum of their totals |
| ForkReplicon.CoverageFrom | src/main_forkstruct.rs:118-156 | walking ordered, disjoint bubbles from a cursor, the fork sum, the listed gaps and the skipped unit gaps add up to the rest of the genome, and each listed gap is at least 1 long |
| ForkReplicon.Coverage | src/main_forkstruct.rs:33-45 | on ordered, disjoint bubbles the fork sum used by the completion test plus the unreplicated length is exactly L |
| ForkReplicon.UnitGapUnlisted | src/main_forkstruct.rs:137-149 | bubbles [0, 6) and [7, 10) on a genome of 10 list no gap, although position 6 is unreplicated and the fork sum is 9 |
| ForkReplicon.FireSnoc | src/main_forkstruct.rs:157-173 | firing one more point from a gap of the current list adds its pair to the list and extends the record of fired points |
| ForkReplicon.Cell.FireFromGap | src/main_forkstruct.rs:113-173 | one pass of the replenishing loop: with no gap listed the list is left alone and is non-empty; otherwise a pair is fired from a point that lies in one of the current gaps |
| ForkReplicon.Cell.UnreplicatedRanges | src/main_forkstruct.rs:114-156 | the push loop returns exactly the gaps, each weighted by its positive length |
| ForkReplicon.Cell.ReplenishForks | src/main_forkstruct.rs:110-175 | the new list is the old one with a pair fired at each drawn point, in order, so it grows by exactly two forks per point, and each point lay in a gap of the list as it stood then; pairs are added only while fewer than `numReplicators` forks exist, so the count passes it by at most one; the method stops early only when no gap is left, and an empty genome with no forks is an error |

## Left out

- Random number generation is not modelled: ChaCha8 streams, `Uniform`, `WeightedIndex` and `gen_range`. Each draw is a nondeterministic choice over the values it can produce. The model does not say how likely each value is, so the length weighting of the draw is not captured.
- The accept/reject loops around each draw (`gen::<f64>() > 0.9`) are one accepted draw. Their termination is only probabilistic.
- Floating-point draws of the growth-to-synthesis gate are a sequence of boolean outcomes. The gate requires an accepting outcome to exist. The source loop may in principle never end.
- The driver loops (`full_replication`, `run_replication`) take a fuel bound. Termination of the real loop depends on randomness.
- Timing, printing, sleeping and the `main` functions are I/O and are left out.
- Machine-width integers (`usize`, `isize`) are unbounded here. The model does not capture overflow or the wrap-around of `usize` subtraction.
- `main_forkstruct.rs`'s `main` driver loop is left out. It is I/O and sleeping around the three modelled passes.
- BasicReplicon.Genome.AssignReplicators: requires that the requested number of origins fits the free slots of the track. rusty_replicon has no such check. Without room, the shift loop at src/main_basic.rs:114-116 stays in bounds but overwrites the last two slots, losing their length. It panics only when the position falls in the last odd run, where the write to `insert_index + 2` at line 118 is past the end.
- BasicReplicon.SingleChromCell.Round: requires that the quota fits the free slots. The driver keeps this true, and RunReplication's loop invariant keeps it.
- ArchiveReplicon.Chromosome.constructor: takes the genome length as a natural number. A negative `isize` length is not modelled.
- ArchiveReplicon.Chromosome.Replicate: uses the merges that absorb the neighbour's length. The merges as written are kept as `ReplicatedAsWritten`, with the lemmas listed under Findings.
- ForkReplicon.Cell.MergeForks: removes the two inner forks. The source's removal is kept as `MergeAtAsWritten`, with the lemmas listed under Findings. The outer `while` that runs exactly once is straight-line code here.
- ForkReplicon.Cell.ReplenishForks: requires every fork to lie on the genome, which all the modelled operations preserve. Outside that, the tail draw `Uniform::new(cursor, L)` would panic, and that panic is not modelled.
- ForkReplicon.Cell.UnreplicatedRanges: requires a non-empty genome when the fork list is empty. `ReplenishForks` checks this first and returns `EmptyGenome`, which models rusty_replicon's panic on `Uniform::new(0, 0)`.
- ArchiveReplicon.MergeAround: implements the merges that absorb the neighbour's length, not the merges of lines 90-104 as written. Those are kept as `ReplicatedAsWritten`, with the lemmas listed under Findings.
- ForkReplicon.MergePair: removes both inner forks, not the fork that `remove(ind + 2)` reaches after the first removal. The as-written removal is `MergeAtAsWritten`, with the lemmas listed under Findings.
- ForkReplicon.Cell.FullyReplicated: its link to the gaps (`Coverage`, `Cell.FullyReplicatedIff`) is proved only for ordered, disjoint bubbles. Overlapping bubbles count their overlap twice in the fork sum, and the model does not say what the test then answers. Gaps of length 1 are not listed by the gap walk (`UnitGapUnlisted`), so an empty gap list alone does not mean the test holds.
- The `to_delete` field of a fork is carried along but never read, as in rusty_replicon.
- The double-ended queue of `main_archive.rs` is a sequence value that `Replicate` reassigns. The model does not represent its ring buffer or its capacity.

## Findings

| source | as written | input that shows it | evidently intended | confidence | as-written member | corrected member |
|---|---|---|---|---|---|---|
| src/main_archive.rs:98-104 | the left merge adds 1 to the new point's length and drops the left neighbour | fresh length-500 chromosome, replicate 100, then 101, then 102: the list totals 499 and 102 reads unreplicated | add the left neighbour's length | not executed | ArchiveReplicon.AsWrittenLeftMergeLosesLength | ArchiveReplicon.ReplicatedMergingCoverage |
| src/main_archive.rs:90-97 | the right merge doubles the new point's own length and drops the right neighbour | fresh length-500 chromosome, replicate 100, then 99, then 98: the list totals 499 | add the right neighbour's length | not executed | ArchiveReplicon.AsWrittenRightMergeLosesLength | ArchiveReplicon.ReplicatedMergingCoverage |
| src/main_forkstruct.rs:102-103 | after `remove(ind + 1)` the second removal `remove(ind + 2)` drops the widened right fork, originally at ind+3, and keeps the stale left fork of the second bubble | forks (10,8,-2), (10,12,2), (13,11,-2), (13,15,2): the merge leaves two left-moving forks of extent 6 | remove the two inner forks, keeping the widened right fork; extent 7 | not executed | ForkReplicon.AsWrittenMergeDropsRightFork | ForkReplicon.MergeAtExtent |
