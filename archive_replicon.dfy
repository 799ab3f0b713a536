/** The engine of `main_archive.rs`: a chromosome as a double-ended list of
    ranges, each replicated or not, with point replication that splits the
    containing range and merges the new point with equal neighbours. */
module ArchiveReplicon {
  import opened Outcomes

  datatype Range = Range(replicated: bool, length: int)

  function MinInt(a: int, b: int): int {
    if a <= b then a else b
  }

  /** Sum of the range lengths. */
  function Total(rs: seq<Range>): int {
    if rs == [] then 0 else Total(rs[..|rs| - 1]) + rs[|rs| - 1].length
  }

  /** The range holding `position`, searching from `i`: the first index whose
      running sum exceeds `position`, or the last index when none does. */
  function RangeIndexFrom(rs: seq<Range>, position: int, i: nat): (r: nat)
    requires i < |rs|
    ensures i <= r < |rs|
    decreases |rs| - i
  {
    if i == |rs| - 1 || position < Total(rs[..i + 1]) then i else RangeIndexFrom(rs, position, i + 1)
  }

  function RangeIndex(rs: seq<Range>, position: int): (r: nat)
    requires |rs| > 0
    ensures r < |rs|
  {
    RangeIndexFrom(rs, position, 0)
  }

  function Insert(rs: seq<Range>, i: nat, r: Range): (t: seq<Range>)
    requires i <= |rs|
    ensures |t| == |rs| + 1
  {
    rs[..i] + [r] + rs[i..]
  }

  function Remove(rs: seq<Range>, i: nat): (t: seq<Range>)
    requires i < |rs|
    ensures |t| == |rs| - 1
  {
    rs[..i] + rs[i + 1..]
  }

  /** `n` copies of `b`. */
  function Fill(b: bool, n: int): (r: seq<bool>)
    ensures |r| == if n < 0 then 0 else n
    ensures forall k :: 0 <= k < |r| ==> r[k] == b
    decreases n
  {
    if n <= 0 then [] else Fill(b, n - 1) + [b]
  }

  /** The per-position view of one range. */
  function Run(r: Range): seq<bool> {
    Fill(r.replicated, r.length)
  }

  /** The per-position view of the chromosome: entry p says whether genome
      position p is replicated. */
  function Expand(rs: seq<Range>): seq<bool> {
    if rs == [] then [] else Expand(rs[..|rs| - 1]) + Run(rs[|rs| - 1])
  }

  ghost predicate NonNegative(rs: seq<Range>) {
    forall i :: 0 <= i < |rs| ==> rs[i].length >= 0
  }

  /** A well-formed chromosome of length L: at least one range, no negative
      length, lengths summing to L. */
  ghost predicate WellFormed(rs: seq<Range>, genomeLength: int) {
    |rs| > 0 && NonNegative(rs) && Total(rs) == genomeLength
  }

  /** The split phase of `replicate` at an unreplicated position: the range
      is replaced by a replicated point, the unreplicated remainders to its
      right and left are inserted when positive.  Returns the new list and
      the index of the new point. */
  function Carve(rs: seq<Range>, position: int): (r: (seq<Range>, nat))
    requires |rs| > 0
    ensures r.1 < |r.0| && r.0[r.1] == Range(true, 1)
  {
    var idx := RangeIndex(rs, position);
    var cumsum := Total(rs[..idx + 1]);
    var currentLength := rs[idx].length;
    var leftCount := position - ((cumsum - 1) - currentLength) - 1;
    var rightCount := (cumsum - 1) - position;
    (Splice(rs, idx, leftCount, rightCount), idx + if leftCount > 0 then 1 else 0)
  }

  /** The list edits of the split: range `idx` is removed, the replicated
      point inserted in its place, then the right remainder after it and the
      left remainder before it, each only when positive. */
  function Splice(rs: seq<Range>, idx: nat, leftCount: int, rightCount: int): (t: seq<Range>)
    requires idx < |rs|
    ensures var loc := idx + if leftCount > 0 then 1 else 0;
      loc < |t| && t[loc] == Range(true, 1)
  {
    var t0 := Insert(Remove(rs, idx), idx, Range(true, 1));
    var t1 := if rightCount > 0 then Insert(t0, MinInt(idx + 1, |t0|), Range(false, rightCount)) else t0;
    if leftCount > 0 then Insert(t1, idx, Range(false, leftCount)) else t1
  }

  /** `replicate` with the merge branches as rusty_replicon writes them. */
  function ReplicatedAsWritten(rs: seq<Range>, position: int): (t: seq<Range>)
    requires |rs| > 0
  {
    if rs[RangeIndex(rs, position)].replicated then rs
    else
      var (t2, loc) := Carve(rs, position);
      MergeLeftAsWritten(MergeRightAsWritten(t2, loc), loc)
  }

  /** The right merge as written: the point's length is doubled, whatever
      the neighbour's length. */
  function MergeRightAsWritten(t: seq<Range>, loc: nat): (u: seq<Range>)
    requires loc < |t|
    ensures loc < |u|
  {
    if loc < |t| - 1 && t[loc].replicated == t[loc + 1].replicated
    then Remove(t[loc := Range(t[loc].replicated, t[loc].length + t[loc].length)], loc + 1)
    else t
  }

  /** The left merge as written: the point's length grows by 1, whatever the
      neighbour's length. */
  function MergeLeftAsWritten(t: seq<Range>, loc: nat): (u: seq<Range>)
    requires loc < |t|
    ensures |u| > 0
  {
    if loc > 0 && t[loc].replicated == t[loc - 1].replicated
    then Remove(t[loc := Range(t[loc].replicated, t[loc].length + 1)], loc - 1)
    else t
  }

  /** `replicate` with the merges absorbing the neighbour's whole length. */
  function ReplicatedMerging(rs: seq<Range>, position: int): (t: seq<Range>)
    requires |rs| > 0
  {
    if rs[RangeIndex(rs, position)].replicated then rs
    else
      var (t2, loc) := Carve(rs, position);
      var t3 := MergeRight(t2, loc);
      MergeLeft(t3, loc)
  }

  /** Absorbs the range after `loc` into it when both have the same state. */
  function MergeRight(t: seq<Range>, loc: nat): (u: seq<Range>)
    requires loc < |t|
    ensures loc < |u|
  {
    if loc < |t| - 1 && t[loc].replicated == t[loc + 1].replicated
    then Remove(t[loc := Range(t[loc].replicated, t[loc].length + t[loc + 1].length)], loc + 1)
    else t
  }

  /** Absorbs the range before `loc` into it when both have the same state. */
  function MergeLeft(t: seq<Range>, loc: nat): (u: seq<Range>)
    requires loc < |t|
    ensures |u| > 0
  {
    if loc > 0 && t[loc].replicated == t[loc - 1].replicated
    then Remove(t[loc := Range(t[loc].replicated, t[loc].length + t[loc - 1].length)], loc - 1)
    else t
  }

  // ---------------------------------------------------------------------------
  // Totals and the per-position view

  lemma {:induction false} TotalAppend(a: seq<Range>, b: seq<Range>)
    ensures Total(a + b) == Total(a) + Total(b)
    decreases |b|
  {
    if b == [] {
      assert a + b == a;
    } else {
      var b' := b[..|b| - 1];
      assert (a + b)[..|a + b| - 1] == a + b';
      TotalAppend(a, b');
    }
  }

  lemma TotalPrefixStep(rs: seq<Range>, i: nat)
    requires i < |rs|
    ensures Total(rs[..i + 1]) == Total(rs[..i]) + rs[i].length
  {
    assert rs[..i + 1][..i] == rs[..i];
  }

  lemma {:induction false} ExpandAppend(a: seq<Range>, b: seq<Range>)
    ensures Expand(a + b) == Expand(a) + Expand(b)
    decreases |b|
  {
    if b == [] {
      assert a + b == a;
    } else {
      var b' := b[..|b| - 1];
      assert (a + b)[..|a + b| - 1] == a + b';
      ExpandAppend(a, b');
    }
  }

  lemma {:induction false} ExpandLength(rs: seq<Range>)
    requires NonNegative(rs)
    ensures |Expand(rs)| == Total(rs)
    decreases |rs|
  {
    if rs != [] {
      ExpandLength(rs[..|rs| - 1]);
    }
  }

  lemma ExpandSingle(r: Range)
    ensures Expand([r]) == Run(r)
  {
    assert [r][..0] == [];
  }

  lemma ExpandSnoc(a: seq<Range>, x: Range)
    ensures Expand(a + [x]) == Expand(a) + Run(x)
    ensures Total(a + [x]) == Total(a) + x.length
  {
    assert (a + [x])[..|a|] == a;
  }

  /** The view of a list cut at one range. */
  lemma ExpandCut(a: seq<Range>, x: Range, b: seq<Range>)
    ensures Expand(a + [x] + b) == Expand(a) + Run(x) + Expand(b)
    ensures Total(a + [x] + b) == Total(a) + x.length + Total(b)
  {
    ExpandAppend(a + [x], b);
    TotalAppend(a + [x], b);
    ExpandSnoc(a, x);
  }

  /** Cutting the list around range `i`. */
  lemma ExpandAround(rs: seq<Range>, i: nat)
    requires i < |rs|
    ensures Expand(rs) == Expand(rs[..i]) + Run(rs[i]) + Expand(rs[i + 1..])
    ensures Total(rs) == Total(rs[..i]) + rs[i].length + Total(rs[i + 1..])
  {
    var a, x, b := rs[..i], rs[i], rs[i + 1..];
    CutAt(rs, i);
    ExpandCut(a, x, b);
  }

  lemma CutAt(rs: seq<Range>, i: nat)
    requires i < |rs|
    ensures rs == rs[..i] + [rs[i]] + rs[i + 1..]
  {
  }

  lemma {:induction false} PrefixMonotone(rs: seq<Range>, i: nat, j: nat)
    requires NonNegative(rs) && i <= j <= |rs|
    ensures Total(rs[..i]) <= Total(rs[..j])
    decreases j - i
  {
    if i < j {
      TotalPrefixStep(rs, j - 1);
      PrefixMonotone(rs, i, j - 1);
    }
  }

  lemma {:induction false} RangeIndexFromContains(rs: seq<Range>, position: int, i: nat)
    requires NonNegative(rs) && i < |rs| && position < Total(rs)
    requires Total(rs[..i]) <= position
    ensures var r := RangeIndexFrom(rs, position, i);
      Total(rs[..r]) <= position < Total(rs[..r + 1])
    decreases |rs| - i
  {
    TotalPrefixStep(rs, i);
    if i == |rs| - 1 {
      assert rs[..i + 1] == rs;
    } else if Total(rs[..i + 1]) <= position {
      RangeIndexFromContains(rs, position, i + 1);
    }
  }

  /** The located range holds `position`: its running sums bracket it. */
  lemma RangeIndexContains(rs: seq<Range>, position: int)
    requires |rs| > 0 && NonNegative(rs) && 0 <= position < Total(rs)
    ensures var r := RangeIndex(rs, position);
      Total(rs[..r]) <= position < Total(rs[..r + 1])
  {
    assert rs[..0] == [];
    RangeIndexFromContains(rs, position, 0);
  }

  /** The range located for a position carries that position's state in the
      per-position view. */
  lemma StatusIsExpand(rs: seq<Range>, genomeLength: int, position: int)
    requires WellFormed(rs, genomeLength) && 0 <= position < genomeLength
    ensures position < |Expand(rs)|
    ensures rs[RangeIndex(rs, position)].replicated == Expand(rs)[position]
  {
    var r := RangeIndex(rs, position);
    RangeIndexContains(rs, position);
    TotalPrefixStep(rs, r);
    ExpandAround(rs, r);
    ExpandLength(rs[..r]);
    ExpandLength(rs);
  }

  // ---------------------------------------------------------------------------
  // Replication, corrected merges

  /** The ranges the split puts in place of the located one. */
  function Middle(leftCount: int, rightCount: int): seq<Range> {
    (if leftCount > 0 then [Range(false, leftCount)] else [])
    + [Range(true, 1)]
    + (if rightCount > 0 then [Range(false, rightCount)] else [])
  }

  lemma InsertAt(a: seq<Range>, b: seq<Range>, x: Range)
    ensures Insert(a + b, |a|, x) == a + [x] + b
  {
    assert (a + b)[..|a|] == a && (a + b)[|a|..] == b;
  }

  lemma RemoveAt(a: seq<Range>, x: Range, b: seq<Range>)
    ensures Remove(a + [x] + b, |a|) == a + b
  {
    assert (a + [x] + b)[..|a|] == a && (a + [x] + b)[|a| + 1..] == b;
  }

  lemma Assoc(a: seq<Range>, b: seq<Range>, c: seq<Range>)
    ensures a + (b + c) == a + b + c
  {
  }

  /** The splice puts (left, point, right) in place of range `idx`, leaving
      out a remainder that is not positive. */
  lemma SpliceShape(rs: seq<Range>, idx: nat, leftCount: int, rightCount: int)
    requires idx < |rs|
    ensures Splice(rs, idx, leftCount, rightCount) == rs[..idx] + Middle(leftCount, rightCount) + rs[idx + 1..]
  {
    var a := rs[..idx];
    var b := rs[idx + 1..];
    var point := Range(true, 1);
    var left := if leftCount > 0 then [Range(false, leftCount)] else [];
    var right := if rightCount > 0 then [Range(false, rightCount)] else [];
    assert rs == a + [rs[idx]] + b;
    RemoveAt(a, rs[idx], b);
    InsertAt(a, b, point);
    var t0 := a + [point] + b;
    var t1 := if rightCount > 0 then Insert(t0, idx + 1, Range(false, rightCount)) else t0;
    if rightCount > 0 {
      InsertAt(a + [point], b, Range(false, rightCount));
    } else {
      assert a + [point] + right == a + [point];
    }
    assert t1 == a + [point] + right + b;
    if leftCount > 0 {
      Assoc(a + [point], right, b);
      Assoc(a, [point], right + b);
      InsertAt(a, [point] + (right + b), Range(false, leftCount));
      Assoc(a + left, [point], right + b);
      Assoc(a + left + [point], right, b);
    } else {
      assert a + left == a;
    }
    assert Splice(rs, idx, leftCount, rightCount) == a + left + [point] + right + b;
    Assoc(a, left + [point], right);
    Assoc(a, left, [point]);
  }

  /** The shape of the split at an unreplicated position of a well-formed
      chromosome: the located range gives way to (left, point, right), with
      left the distance from the range start and left + 1 + right its old
      length. */
  lemma CarveShape(rs: seq<Range>, genomeLength: int, position: int)
    requires WellFormed(rs, genomeLength) && 0 <= position < genomeLength
    ensures var idx := RangeIndex(rs, position);
      var leftCount := position - Total(rs[..idx]);
      var rightCount := Total(rs[..idx]) + rs[idx].length - 1 - position;
      && 0 <= leftCount && 0 <= rightCount
      && leftCount + 1 + rightCount == rs[idx].length
      && Carve(rs, position).0 == rs[..idx] + Middle(leftCount, rightCount) + rs[idx + 1..]
      && Carve(rs, position).1 == idx + if leftCount > 0 then 1 else 0
  {
    var idx := RangeIndex(rs, position);
    RangeIndexContains(rs, position);
    TotalPrefixStep(rs, idx);
    SpliceShape(rs, idx, position - Total(rs[..idx]), Total(rs[..idx]) + rs[idx].length - 1 - position);
  }

  lemma RunsJoin(replicated: bool, x: int, y: int)
    requires x >= 0 && y >= 0
    ensures Run(Range(replicated, x)) + Run(Range(replicated, y)) == Run(Range(replicated, x + y))
  {
  }

  /** The middle of the split reads as the old unreplicated range with the
      point at offset `leftCount` replicated. */
  lemma ExpandMiddle(leftCount: int, rightCount: int)
    requires leftCount >= 0 && rightCount >= 0
    ensures Expand(Middle(leftCount, rightCount))
         == Run(Range(false, leftCount + 1 + rightCount))[leftCount := true]
  {
    var l := if leftCount > 0 then [Range(false, leftCount)] else [];
    var r := if rightCount > 0 then [Range(false, rightCount)] else [];
    ExpandAppend(l + [Range(true, 1)], r);
    ExpandAppend(l, [Range(true, 1)]);
    ExpandSingle(Range(true, 1));
    if leftCount > 0 {
      ExpandSingle(Range(false, leftCount));
    }
    if rightCount > 0 {
      ExpandSingle(Range(false, rightCount));
    }
    var fl, fr := Fill(false, leftCount), Fill(false, rightCount);
    assert Expand(Middle(leftCount, rightCount)) == fl + [true] + fr;
    RunsJoin(false, leftCount, 1);
    RunsJoin(false, leftCount + 1, rightCount);
    assert Fill(false, 1) == [false];
    UpdateInside(fl, [false], fr, 0, true);
    assert [false][0 := true] == [true];
  }

  /** Two neighbouring ranges with the same state read the same as one range
      of their summed length. */
  lemma MergePairKeeps(t: seq<Range>, i: nat, merged: Range)
    requires NonNegative(t) && i + 1 < |t| && t[i].replicated == t[i + 1].replicated
    requires merged == Range(t[i].replicated, t[i].length + t[i + 1].length)
    ensures Expand(t[..i] + [merged] + t[i + 2..]) == Expand(t)
    ensures NonNegative(t[..i] + [merged] + t[i + 2..])
  {
    assert t == t[..i] + [t[i], t[i + 1]] + t[i + 2..];
    PairView(t[..i], t[i], t[i + 1], t[i + 2..], merged);
    MergePairNonNegative(t, i, merged);
  }

  lemma PairView(p: seq<Range>, x: Range, y: Range, q: seq<Range>, merged: Range)
    requires x.length >= 0 && y.length >= 0 && x.replicated == y.replicated
    requires merged == Range(x.replicated, x.length + y.length)
    ensures Expand(p + [merged] + q) == Expand(p + [x, y] + q)
  {
    assert Expand(p + [x, y] + q) == Expand(p) + Run(x) + (Run(y) + Expand(q)) by {
      assert p + [x, y] + q == p + [x] + ([y] + q);
      ExpandCut(p, x, [y] + q);
      ExpandCons(y, q);
    }
    assert Expand(p + [merged] + q) == Expand(p) + (Run(x) + Run(y)) + Expand(q) by {
      RunsJoin(x.replicated, x.length, y.length);
      ExpandCut(p, merged, q);
    }
    Regroup(Expand(p), Run(x), Run(y), Expand(q));
  }

  lemma Regroup(a: seq<bool>, b: seq<bool>, c: seq<bool>, d: seq<bool>)
    ensures a + b + (c + d) == a + (b + c) + d
  {
  }

  lemma ExpandCons(y: Range, q: seq<Range>)
    ensures Expand([y] + q) == Run(y) + Expand(q)
  {
    ExpandAppend([y], q);
    ExpandSingle(y);
  }

  lemma AssocBool(a: seq<bool>, b: seq<bool>, c: seq<bool>)
    ensures a + (b + c) == a + b + c
  {
  }

  lemma MergePairNonNegative(t: seq<Range>, i: nat, merged: Range)
    requires NonNegative(t) && i + 1 < |t| && merged.length >= 0
    ensures NonNegative(t[..i] + [merged] + t[i + 2..])
  {
    var q := t[i + 2..];
    var u := t[..i] + [merged] + q;
    forall k | 0 <= k < |u|
      ensures u[k].length >= 0
    {
      if k < i {
        assert u[k] == t[k];
      } else if k > i {
        assert u[k] == q[k - i - 1] == t[k + 1];
      }
    }
  }

  lemma RemoveAfterUpdate(t: seq<Range>, loc: nat, m: Range)
    requires loc + 1 < |t|
    ensures Remove(t[loc := m], loc + 1) == t[..loc] + [m] + t[loc + 2..]
  {
    var u := t[loc := m];
    assert u[..loc + 1] == t[..loc] + [m];
    assert u[loc + 2..] == t[loc + 2..];
  }

  lemma RemoveBeforeUpdate(t: seq<Range>, loc: nat, m: Range)
    requires 0 < loc < |t|
    ensures Remove(t[loc := m], loc - 1) == t[..loc - 1] + [m] + t[loc + 1..]
  {
    var u := t[loc := m];
    assert u[..loc - 1] == t[..loc - 1];
    assert u[loc..] == [m] + t[loc + 1..];
    Assoc(t[..loc - 1], [m], t[loc + 1..]);
  }

  lemma MergeRightKeeps(t: seq<Range>, loc: nat)
    requires NonNegative(t) && loc < |t|
    ensures Expand(MergeRight(t, loc)) == Expand(t) && NonNegative(MergeRight(t, loc))
  {
    if loc < |t| - 1 && t[loc].replicated == t[loc + 1].replicated {
      var merged := Range(t[loc].replicated, t[loc].length + t[loc + 1].length);
      RemoveAfterUpdate(t, loc, merged);
      MergePairKeeps(t, loc, merged);
    }
  }

  lemma MergeLeftKeeps(t: seq<Range>, loc: nat)
    requires NonNegative(t) && loc < |t|
    ensures Expand(MergeLeft(t, loc)) == Expand(t) && NonNegative(MergeLeft(t, loc))
  {
    if loc > 0 && t[loc].replicated == t[loc - 1].replicated {
      var merged := Range(t[loc].replicated, t[loc].length + t[loc - 1].length);
      RemoveBeforeUpdate(t, loc, merged);
      assert merged == Range(t[loc - 1].replicated, t[loc - 1].length + t[loc].length);
      MergePairKeeps(t, loc - 1, merged);
    }
  }

  /** The split alone already reads as the old view with the position
      replicated. */
  lemma CarveCoverage(rs: seq<Range>, genomeLength: int, position: int)
    requires WellFormed(rs, genomeLength) && 0 <= position < genomeLength
    requires !rs[RangeIndex(rs, position)].replicated
    ensures position < |Expand(rs)|
    ensures NonNegative(Carve(rs, position).0)
    ensures Expand(Carve(rs, position).0) == Expand(rs)[position := true]
  {
    var idx := RangeIndex(rs, position);
    var a, b := rs[..idx], rs[idx + 1..];
    var leftCount := position - Total(a);
    var rightCount := Total(a) + rs[idx].length - 1 - position;
    var t := Carve(rs, position).0;
    assert 0 <= leftCount && 0 <= rightCount && rs[idx] == Range(false, leftCount + 1 + rightCount)
        && t == a + Middle(leftCount, rightCount) + b by {
      CarveShape(rs, genomeLength, position);
    }
    SplicedCoverage(rs, idx, leftCount, rightCount);
  }

  /** Splicing (left, point, right) in place of an unreplicated range reads
      as the old view with the point's position replicated. */
  lemma SplicedCoverage(rs: seq<Range>, idx: nat, leftCount: int, rightCount: int)
    requires NonNegative(rs) && idx < |rs| && leftCount >= 0 && rightCount >= 0
    requires rs[idx] == Range(false, leftCount + 1 + rightCount)
    ensures 0 <= Total(rs[..idx]) + leftCount < |Expand(rs)|
    ensures NonNegative(rs[..idx] + Middle(leftCount, rightCount) + rs[idx + 1..])
    ensures Expand(rs[..idx] + Middle(leftCount, rightCount) + rs[idx + 1..])
         == Expand(rs)[Total(rs[..idx]) + leftCount := true]
  {
    var a := rs[..idx];
    var b := rs[idx + 1..];
    ExpandAround(rs, idx);
    ExpandLength(a);
    ExpandLength(rs);
    ExpandSpliced(a, rs[idx], b, leftCount, rightCount);
    MiddleNonNegative(a, b, leftCount, rightCount);
  }

  /** The view of a list with a split middle in place of an unreplicated
      range `x`. */
  lemma ExpandSpliced(a: seq<Range>, x: Range, b: seq<Range>, leftCount: int, rightCount: int)
    requires leftCount >= 0 && rightCount >= 0 && x == Range(false, leftCount + 1 + rightCount)
    ensures Expand(a + Middle(leftCount, rightCount) + b)
         == (Expand(a) + Run(x) + Expand(b))[|Expand(a)| + leftCount := true]
  {
    var mid := Middle(leftCount, rightCount);
    ExpandAppend(a + mid, b);
    ExpandAppend(a, mid);
    ExpandMiddle(leftCount, rightCount);
    UpdateInside(Expand(a), Run(x), Expand(b), leftCount, true);
  }

  lemma UpdateInside(x: seq<bool>, y: seq<bool>, z: seq<bool>, k: nat, v: bool)
    requires k < |y|
    ensures x + y[k := v] + z == (x + y + z)[|x| + k := v]
  {
    var lhs, rhs := x + y[k := v] + z, (x + y + z)[|x| + k := v];
    forall j | 0 <= j < |lhs|
      ensures lhs[j] == rhs[j]
    {
      if j < |x| {
      } else if j < |x| + |y| {
        assert lhs[j] == y[k := v][j - |x|];
      } else {
        assert lhs[j] == z[j - |x| - |y|];
      }
    }
  }

  lemma MiddleNonNegative(a: seq<Range>, b: seq<Range>, leftCount: int, rightCount: int)
    requires NonNegative(a) && NonNegative(b)
    ensures NonNegative(a + Middle(leftCount, rightCount) + b)
  {
    var u := a + Middle(leftCount, rightCount) + b;
    var m := |Middle(leftCount, rightCount)|;
    forall k | 0 <= k < |u|
      ensures u[k].length >= 0
    {
      if k < |a| {
        assert u[k] == a[k];
      } else if k >= |a| + m {
        assert u[k] == b[k - |a| - m];
      }
    }
  }

  /** Replicating a position of a well-formed chromosome of length L keeps
      it well formed of length L, marks that position replicated and leaves
      every other position as it was. */
  lemma ReplicatedMergingCoverage(rs: seq<Range>, genomeLength: int, position: int)
    requires WellFormed(rs, genomeLength) && 0 <= position < genomeLength
    ensures WellFormed(ReplicatedMerging(rs, position), genomeLength)
    ensures position < |Expand(rs)|
    ensures Expand(ReplicatedMerging(rs, position)) == Expand(rs)[position := true]
  {
    var idx := RangeIndex(rs, position);
    StatusIsExpand(rs, genomeLength, position);
    ExpandLength(rs);
    if rs[idx].replicated {
      assert Expand(rs)[position := true] == Expand(rs);
    } else {
      CarveCoverage(rs, genomeLength, position);
      var (t2, loc) := Carve(rs, position);
      MergeRightKeeps(t2, loc);
      MergeLeftKeeps(MergeRight(t2, loc), loc);
      ExpandLength(ReplicatedMerging(rs, position));
    }
  }

  /** When both remainders are positive no merge applies, and the located
      range becomes (unreplicated left, replicated 1, unreplicated right)
      with the same total length. */
  lemma ReplicateSplitsRange(rs: seq<Range>, genomeLength: int, position: int)
    requires WellFormed(rs, genomeLength) && 0 <= position < genomeLength
    requires !rs[RangeIndex(rs, position)].replicated
    requires var idx := RangeIndex(rs, position);
      0 < position - Total(rs[..idx]) && position < Total(rs[..idx]) + rs[idx].length - 1
    ensures var idx := RangeIndex(rs, position);
      var leftCount := position - Total(rs[..idx]);
      var rightCount := Total(rs[..idx]) + rs[idx].length - 1 - position;
      && leftCount + 1 + rightCount == rs[idx].length
      && ReplicatedMerging(rs, position)
         == rs[..idx] + [Range(false, leftCount), Range(true, 1), Range(false, rightCount)] + rs[idx + 1..]
  {
    var idx := RangeIndex(rs, position);
    var a, b := rs[..idx], rs[idx + 1..];
    var leftCount := position - Total(a);
    var rightCount := Total(a) + rs[idx].length - 1 - position;
    var (t2, loc) := Carve(rs, position);
    var mid := [Range(false, leftCount), Range(true, 1), Range(false, rightCount)];
    assert leftCount + 1 + rightCount == rs[idx].length && t2 == a + mid + b && loc == idx + 1 by {
      CarveShape(rs, genomeLength, position);
      assert Middle(leftCount, rightCount) == mid;
    }
    assert 0 < loc && loc + 1 < |t2| && t2[loc] == Range(true, 1)
        && !t2[loc + 1].replicated && !t2[loc - 1].replicated by {
      assert t2[loc + 1] == Range(false, rightCount) && t2[loc - 1] == Range(false, leftCount);
    }
    IsolatedPointStays(t2, loc);
    assert ReplicatedMerging(rs, position) == MergeLeft(MergeRight(t2, loc), loc);
  }

  lemma IsolatedPointStays(t: seq<Range>, loc: nat)
    requires 0 < loc && loc + 1 < |t|
    requires t[loc].replicated && !t[loc + 1].replicated && !t[loc - 1].replicated
    ensures MergeLeft(MergeRight(t, loc), loc) == t
  {
  }

  /** A replicated position leaves the chromosome as it was. */
  lemma ReplicateReplicatedIsIdentity(rs: seq<Range>, position: int)
    requires |rs| > 0 && rs[RangeIndex(rs, position)].replicated
    ensures ReplicatedMerging(rs, position) == rs
    ensures ReplicatedAsWritten(rs, position) == rs
  {
  }

  // ---------------------------------------------------------------------------
  // Replication as written

  /** The split of a concrete step, from the located range and the length
      before it. */
  lemma CarveAt(rs: seq<Range>, genomeLength: int, position: int, idx: nat, before: int)
    requires WellFormed(rs, genomeLength) && 0 <= position < genomeLength
    requires RangeIndex(rs, position) == idx && Total(rs[..idx]) == before
    ensures var leftCount := position - before;
      var rightCount := before + rs[idx].length - 1 - position;
      Carve(rs, position) == (rs[..idx] + Middle(leftCount, rightCount) + rs[idx + 1..],
                              idx + if leftCount > 0 then 1 else 0)
  {
    CarveShape(rs, genomeLength, position);
  }

  lemma FreshReplicated100()
    ensures ReplicatedAsWritten([Range(false, 500)], 100)
         == [Range(false, 100), Range(true, 1), Range(false, 399)]
  {
    var c0 := [Range(false, 500)];
    assert c0[..0] == [] && c0[..1] == c0;
    assert Total(c0) == 500;
    assert RangeIndex(c0, 100) == 0;
    var t2 := [Range(false, 100), Range(true, 1), Range(false, 399)];
    assert Carve(c0, 100) == (t2, 1) by {
      CarveAt(c0, 500, 100, 0, 0);
      assert Middle(100, 399) == t2;
      assert c0[..0] + t2 + c0[1..] == t2;
    }
    assert MergeRightAsWritten(t2, 1) == t2;
    assert MergeLeftAsWritten(t2, 1) == t2;
  }

  lemma AsWrittenGrowsRight()
    ensures ReplicatedAsWritten([Range(false, 100), Range(true, 1), Range(false, 399)], 101)
         == [Range(false, 100), Range(true, 2), Range(false, 398)]
  {
    var c1 := [Range(false, 100), Range(true, 1), Range(false, 399)];
    var t2 := [Range(false, 100), Range(true, 1), Range(true, 1), Range(false, 398)];
    assert Carve(c1, 101) == (t2, 2) by {
      assert c1[..1] == [Range(false, 100)] && c1[..2] == [Range(false, 100), Range(true, 1)] && c1[..3] == c1;
      assert c1[..0] == [];
      assert RangeIndex(c1, 101) == 2;
      CarveAt(c1, 500, 101, 2, 101);
      assert c1[..2] + Middle(0, 398) + c1[3..] == t2;
    }
    assert MergeRightAsWritten(t2, 2) == t2;
    assert t2[2 := Range(true, 2)] == [Range(false, 100), Range(true, 1), Range(true, 2), Range(false, 398)];
  }

  lemma AsWrittenGrowsRightAgain()
    ensures ReplicatedAsWritten([Range(false, 100), Range(true, 2), Range(false, 398)], 102)
         == [Range(false, 100), Range(true, 2), Range(false, 397)]
  {
    var c2 := [Range(false, 100), Range(true, 2), Range(false, 398)];
    var t2 := [Range(false, 100), Range(true, 2), Range(true, 1), Range(false, 397)];
    assert Carve(c2, 102) == (t2, 2) by {
      assert c2[..1] == [Range(false, 100)] && c2[..2] == [Range(false, 100), Range(true, 2)] && c2[..3] == c2;
      assert c2[..0] == [];
      assert RangeIndex(c2, 102) == 2;
      CarveAt(c2, 500, 102, 2, 102);
      assert c2[..2] + Middle(0, 397) + c2[3..] == t2;
    }
    assert MergeRightAsWritten(t2, 2) == t2;
    assert t2[2 := Range(true, 2)] == [Range(false, 100), Range(true, 2), Range(true, 2), Range(false, 397)];
  }

  lemma AsWrittenGrowsLeft()
    ensures ReplicatedAsWritten([Range(false, 100), Range(true, 1), Range(false, 399)], 99)
         == [Range(false, 99), Range(true, 2), Range(false, 399)]
  {
    var c1 := [Range(false, 100), Range(true, 1), Range(false, 399)];
    var t2 := [Range(false, 99), Range(true, 1), Range(true, 1), Range(false, 399)];
    assert Carve(c1, 99) == (t2, 1) by {
      assert c1[..0] == [] && c1[..1] == [Range(false, 100)] && c1[..3] == c1;
      assert RangeIndex(c1, 99) == 0;
      CarveAt(c1, 500, 99, 0, 0);
      assert c1[..0] + Middle(99, 0) + c1[1..] == t2;
    }
    assert t2[1 := Range(true, 2)] == [Range(false, 99), Range(true, 2), Range(true, 1), Range(false, 399)];
    var t3 := [Range(false, 99), Range(true, 2), Range(false, 399)];
    assert MergeRightAsWritten(t2, 1) == t3;
    assert MergeLeftAsWritten(t3, 1) == t3;
  }

  lemma AsWrittenGrowsLeftAgain()
    ensures ReplicatedAsWritten([Range(false, 99), Range(true, 2), Range(false, 399)], 98)
         == [Range(false, 98), Range(true, 2), Range(false, 399)]
  {
    var c2 := [Range(false, 99), Range(true, 2), Range(false, 399)];
    var t2 := [Range(false, 98), Range(true, 1), Range(true, 2), Range(false, 399)];
    assert Carve(c2, 98) == (t2, 1) by {
      assert c2[..0] == [] && c2[..1] == [Range(false, 99)] && c2[..3] == c2;
      assert RangeIndex(c2, 98) == 0;
      CarveAt(c2, 500, 98, 0, 0);
      assert c2[..0] + Middle(98, 0) + c2[1..] == t2;
    }
    assert t2[1 := Range(true, 2)] == [Range(false, 98), Range(true, 2), Range(true, 2), Range(false, 399)];
    var t3 := [Range(false, 98), Range(true, 2), Range(false, 399)];
    assert MergeRightAsWritten(t2, 1) == t3;
    assert MergeLeftAsWritten(t3, 1) == t3;
  }

  /** Replicating 100, 101 and 102 of a fresh 500-long chromosome in turn:
      the third call extends the replicated range to the right by one and
      merges the new point with its left neighbour adding 1 instead of the
      neighbour's length 2, so the chromosome shrinks to 499 and position 102
      still reads unreplicated.  The corrected replication keeps 500. */
  lemma AsWrittenLeftMergeLosesLength()
    ensures var c1 := ReplicatedAsWritten([Range(false, 500)], 100);
      var c2 := ReplicatedAsWritten(c1, 101);
      var c3 := ReplicatedAsWritten(c2, 102);
      && c3 == [Range(false, 100), Range(true, 2), Range(false, 397)]
      && Total(c3) == 499
      && !c3[RangeIndex(c3, 102)].replicated
  {
    FreshReplicated100();
    AsWrittenGrowsRight();
    AsWrittenGrowsRightAgain();
    ShrunkChromosome();
  }

  lemma ShrunkChromosome()
    ensures var c3 := [Range(false, 100), Range(true, 2), Range(false, 397)];
      Total(c3) == 499 && RangeIndex(c3, 102) == 2
  {
    var c3 := [Range(false, 100), Range(true, 2), Range(false, 397)];
    assert c3[..1] == [Range(false, 100)] && c3[..2] == [Range(false, 100), Range(true, 2)] && c3[..3] == c3;
    TotalOfThree(Range(false, 100), Range(true, 2), Range(false, 397));
  }

  /** Replicating 100, 99 and 98 of a fresh 500-long chromosome in turn: the
      third call merges the new point with its right neighbour by doubling
      the point's length 1 instead of adding the neighbour's length 2, so
      the chromosome shrinks to 499. */
  lemma AsWrittenRightMergeLosesLength()
    ensures var c1 := ReplicatedAsWritten([Range(false, 500)], 100);
      var c2 := ReplicatedAsWritten(c1, 99);
      var c3 := ReplicatedAsWritten(c2, 98);
      && c3 == [Range(false, 98), Range(true, 2), Range(false, 399)]
      && Total(c3) == 499
  {
    FreshReplicated100();
    AsWrittenGrowsLeft();
    AsWrittenGrowsLeftAgain();
    TotalOfThree(Range(false, 98), Range(true, 2), Range(false, 399));
  }

  lemma TotalOfThree(x: Range, y: Range, z: Range)
    ensures Total([x, y, z]) == x.length + y.length + z.length
  {
    var c := [x, y, z];
    assert c[..0] == [] && c[..3] == c;
    TotalPrefixStep(c, 0);
    TotalPrefixStep(c, 1);
    TotalPrefixStep(c, 2);
  }

  // ---------------------------------------------------------------------------
  // The list edits, step by step

  /** The edits of the split, one insertion or removal at a time. */
  method SpliceIn(ranges: seq<Range>, insertIndex: nat, leftCount: int, rightCount: int) returns (rs: seq<Range>)
    requires insertIndex < |ranges|
    ensures rs == Splice(ranges, insertIndex, leftCount, rightCount)
  {
    rs := Remove(ranges, insertIndex);
    rs := Insert(rs, insertIndex, Range(true, 1));
    if rightCount > 0 {
      rs := Insert(rs, MinInt(insertIndex + 1, |rs|), Range(false, rightCount));
    }
    if leftCount > 0 {
      rs := Insert(rs, insertIndex, Range(false, leftCount));
    }
  }

  /** The merges of the new point at `loc` with its right, then its left
      neighbour. */
  method MergeAround(carved: seq<Range>, loc: nat) returns (rs: seq<Range>)
    requires loc < |carved|
    ensures rs == MergeLeft(MergeRight(carved, loc), loc)
  {
    rs := carved;
    if loc < |rs| - 1 && rs[loc].replicated == rs[loc + 1].replicated {
      rs := rs[loc := Range(rs[loc].replicated, rs[loc].length + rs[loc + 1].length)];
      rs := Remove(rs, loc + 1);
    }
    assert rs == MergeRight(carved, loc);
    ghost var rightMerged := rs;
    if loc > 0 && rs[loc].replicated == rs[loc - 1].replicated {
      rs := rs[loc := Range(rs[loc].replicated, rs[loc].length + rs[loc - 1].length)];
      rs := Remove(rs, loc - 1);
    }
    assert rs == MergeLeft(rightMerged, loc);
  }

  // ---------------------------------------------------------------------------
  // The chromosome object

  class Chromosome {
    const genomeLength: nat
    var ranges: seq<Range>

    ghost predicate Valid()
      reads this
    {
      WellFormed(ranges, genomeLength)
    }

    /** A single unreplicated range covering the genome.  The origin count
        only sizes the list's initial capacity. */
    constructor (genomeLength: nat, numOrigins: nat)
      ensures Valid()
      ensures this.genomeLength == genomeLength
      ensures ranges == [Range(false, genomeLength)]
      ensures Expand(ranges) == Fill(false, genomeLength)
    {
      this.genomeLength := genomeLength;
      ranges := [Range(false, genomeLength)];
      new;
      assert ranges[..0] == [];
      ExpandSingle(Range(false, genomeLength));
    }

    /** The running-sum walk: the range holding `position` and the running
        sum through it. */
    method FindRange(position: int) returns (index: nat, cumsum: int)
      requires |ranges| > 0
      ensures index == RangeIndex(ranges, position)
      ensures cumsum == Total(ranges[..index + 1])
    {
      index := 0;
      cumsum := ranges[0].length;
      TotalPrefixStep(ranges, 0);
      assert ranges[..0] == [];
      while !(index == |ranges| - 1 || position < cumsum)
        invariant index < |ranges|
        invariant cumsum == Total(ranges[..index + 1])
        invariant RangeIndexFrom(ranges, position, index) == RangeIndex(ranges, position)
        decreases |ranges| - index
      {
        index := index + 1;
        TotalPrefixStep(ranges, index);
        cumsum := cumsum + ranges[index].length;
      }
    }

    /** Replicates `position`: refused below 0 and at or past the genome
        length; a replicated position changes nothing; otherwise the range is
        split around the point and the point merged with equal neighbours. */
    method Replicate(position: int) returns (r: Result<(), Failure>)
      requires Valid()
      modifies this
      ensures Valid()
      ensures position < 0 ==> r == Err(NegativePosition) && ranges == old(ranges)
      ensures 0 <= position && genomeLength <= position ==> r == Err(PositionBeyondGenome) && ranges == old(ranges)
      ensures 0 <= position < genomeLength ==> r.Ok? && ranges == ReplicatedMerging(old(ranges), position)
      ensures 0 <= position < genomeLength ==>
        position < |Expand(old(ranges))| && Expand(ranges) == Expand(old(ranges))[position := true]
    {
      if position < 0 {
        return Err(NegativePosition);
      }
      if position >= genomeLength {
        return Err(PositionBeyondGenome);
      }
      ghost var before := ranges;
      var insertIndex, cumsum := FindRange(position);
      var currentLength := ranges[insertIndex].length;
      if ranges[insertIndex].replicated {
        ReplicatedMergingCoverage(before, genomeLength, position);
        return Ok(());
      }
      var leftCount := position - ((cumsum - 1) - currentLength) - 1;
      var rightCount := (cumsum - 1) - position;
      var carved := SpliceIn(ranges, insertIndex, leftCount, rightCount);
      var newDataLoc := insertIndex + if leftCount > 0 then 1 else 0;
      assert Carve(before, position) == (carved, newDataLoc);
      ranges := MergeAround(carved, newDataLoc);
      assert ranges == ReplicatedMerging(before, position);
      ReplicatedMergingCoverage(before, genomeLength, position);
      return Ok(());
    }

    /** Whether `position` is replicated: refused below 0 and at or past the
        genome length; otherwise the state of the located range, which is the
        position's entry in the per-position view. */
    method IsReplicated(position: int) returns (r: Result<bool, Failure>)
      requires Valid()
      ensures position < 0 ==> r == Err(NegativePosition)
      ensures 0 <= position && genomeLength <= position ==> r == Err(PositionBeyondGenome)
      ensures 0 <= position < genomeLength ==> r == Ok(ranges[RangeIndex(ranges, position)].replicated)
      ensures 0 <= position < genomeLength ==> position < |Expand(ranges)| && r == Ok(Expand(ranges)[position])
    {
      if position < 0 {
        return Err(NegativePosition);
      }
      if position >= genomeLength {
        return Err(PositionBeyondGenome);
      }
      StatusIsExpand(ranges, genomeLength, position);
      var checkIndex, _ := FindRange(position);
      return Ok(ranges[checkIndex].replicated);
    }
  }

  /** A fresh 500-long chromosome with position 100 replicated reports it
      replicated. */
  method ReplicateSinglePosition() returns (replicated: Result<bool, Failure>)
    ensures replicated == Ok(true)
  {
    var chromosome := new Chromosome(500, 10);
    var _ := chromosome.Replicate(100);
    replicated := chromosome.IsReplicated(100);
  }

  /** Replicating a negative position is refused. */
  method OutOfBoundsLow() returns (r: Result<(), Failure>)
    ensures r == Err(NegativePosition)
  {
    var chromosome := new Chromosome(500, 10);
    r := chromosome.Replicate(-2);
  }

  /** Replicating past the genome end is refused. */
  method OutOfBoundsHigh() returns (r: Result<(), Failure>)
    ensures r == Err(PositionBeyondGenome)
  {
    var chromosome := new Chromosome(500, 10);
    r := chromosome.Replicate(510);
  }
}
