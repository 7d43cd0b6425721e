/** Joining two regions that touch, as DataSubset::merge_regions does: the repetitions that
    line up become one region, and what comes before and after stays as it was. */
module RegionMerging {
  import opened Arith
  import opened Basics
  import opened Regions
  import opened RegionIntersection
  import opened RegionDifference

  /** Repetition first of the checked region meets repetition 0 of the other one, reps more follow. */
  datatype Joint = Joint(first: nat, reps: nat, merged: Region)

  /** The checked region and a later one that is not yet out of reach. */
  ghost predicate Candidates(c: Region, i: Region) {
    c.Valid() && i.Valid() && Apart(c, i) && Comparable(c, i) && Less(c, i) && i.start <= c.RangeEnd() + 1
  }

  lemma LaterStartsAfter(c: Region, i: Region)
    requires c.Valid() && i.Valid() && Apart(c, i) && Less(c, i)
    ensures c.end < i.start && c.stride > 0
  {
    OuterPoints(i);
    if i.start <= c.end {
      assert InBlock(c, 0, i.start);
      assert In(c, i.start);
    }
  }

  function FindJoint(c: Region, i: Region): Option<Joint>
    requires Candidates(c, i)
  {
    LaterStartsAfter(c, i);
    if Mod(i.start - 1 - c.end, c.stride) == 0 then
      var first := Div(i.start - 1 - c.end, c.stride);
      EndJoint(c, i, first);
      var reps := Min(c.reps - first, i.reps);
      Some(Joint(first, reps, Make(c.start + Mul(first, c.stride), i.end, reps, c.stride)))
    else if Mod(i.end + 1 - c.start, c.stride) == 0 then
      var first := Div(i.end + 1 - c.start, c.stride);
      StartJoint(c, i, first);
      var reps := Min(c.reps - first, i.reps);
      Some(Joint(first, reps, Make(i.start, c.end + Mul(first, c.stride), reps, c.stride)))
    else None
  }

  /** The other region begins right after repetition first. */
  lemma EndJoint(c: Region, i: Region, first: nat)
    requires Candidates(c, i) && c.end < i.start && c.stride > 0
    requires Mod(i.start - 1 - c.end, c.stride) == 0 && first == Div(i.start - 1 - c.end, c.stride)
    ensures first <= c.reps && i.start == c.end + Mul(first, c.stride) + 1
  {
    DivMod(i.start - 1 - c.end, c.stride);
    if c.reps < first { MulMono(c.reps, first, c.stride); }
  }

  /** The other region fills a gap up to the start of repetition first. */
  lemma {:induction false} StartJoint(c: Region, i: Region, first: nat)
    requires Candidates(c, i) && c.end < i.start && c.stride > 0
    requires Mod(i.start - 1 - c.end, c.stride) != 0
    requires Mod(i.end + 1 - c.start, c.stride) == 0 && first == Div(i.end + 1 - c.start, c.stride)
    ensures 0 < first <= c.reps && i.end + 1 == c.start + Mul(first, c.stride)
  {
    DivMod(i.end + 1 - c.start, c.stride);
    if i.start == c.RangeEnd() + 1 { DivUnique(i.start - 1 - c.end, c.reps, c.stride); }
    OuterPoints(i);
    assert c.reps > 0;
    var k := OutsideIsGap(c, i.start);
    MulMono(k, k + 1, c.stride);
    BlockStartOutside(c, i, k + 1);
    if k + 1 < first { MulMono(k + 1, first, c.stride); }
  }

  /** No block of c starts inside the first block of a region apart from it. */
  lemma BlockStartOutside(c: Region, i: Region, k: nat)
    requires c.Valid() && i.Valid() && Apart(c, i) && k <= c.reps
    ensures !(i.start <= c.start + Mul(k, c.stride) <= i.end)
  {
    var x := c.start + Mul(k, c.stride);
    assert InBlock(c, k, x);
    assert In(c, x);
    assert !InBlock(i, 0, x);
  }

  /** Whatever goes on for more than one repetition has the same stride on both sides. */
  lemma JointStride(c: Region, i: Region, j: Joint)
    requires Candidates(c, i) && FindJoint(c, i) == Some(j)
    ensures j.first <= c.reps && j.reps <= i.reps && j.first + j.reps <= c.reps
    ensures j.reps == c.reps - j.first || j.reps == i.reps
    ensures j.reps > 0 ==> c.reps > 0 && i.reps > 0 && c.stride == i.stride
  {
    LaterStartsAfter(c, i);
    if Mod(i.start - 1 - c.end, c.stride) == 0 {
      EndJoint(c, i, j.first);
      if j.reps > 0 { MulMono(j.first, c.reps, c.stride); }
    } else {
      StartJoint(c, i, j.first);
      MulMono(j.first, c.reps, c.stride);
    }
  }

  /** The joint as raw blocks: repetition k pairs block first + k of c with block k of i. */
  ghost predicate Paired(c: Region, i: Region, first: nat, reps: nat, lo: nat, hi: nat) {
    && (reps > 0 ==> c.stride == i.stride)
    && ((lo == c.start + Mul(first, c.stride) && hi == i.end && c.end + Mul(first, c.stride) + 1 == i.start)
      || (lo == i.start && hi == c.end + Mul(first, c.stride) && i.end + 1 == c.start + Mul(first, c.stride)))
  }

  lemma PairDenotes(c: Region, i: Region, first: nat, reps: nat, lo: nat, hi: nat, x: nat)
    requires c.start <= c.end && i.start <= i.end && Paired(c, i, first, reps, lo, hi)
    ensures In(Region(lo, hi, reps, c.stride), x) <==> InBlocks(c, first, first + reps, x) || InBlocks(i, 0, reps, x)
  {
    var raw := Region(lo, hi, reps, c.stride);
    if In(raw, x) {
      var k := BlockOf(raw, x);
      MulPlus(first, k, c.stride);
      assert InBlock(c, first + k, x) || InBlock(i, k, x);
    }
    if InBlocks(c, first, first + reps, x) {
      var k: nat :| first <= k <= first + reps && InBlock(c, k, x);
      MulMono(first, k, c.stride);
      assert InBlock(raw, k - first, x);
    }
    if InBlocks(i, 0, reps, x) {
      var k: nat :| k <= reps && InBlock(i, k, x);
      MulPlus(first, k, c.stride);
      assert InBlock(raw, k, x);
    }
  }

  /** Two joined repetitions leave room before the next pair. */
  lemma PairGap(c: Region, i: Region, first: nat, reps: nat, lo: nat, hi: nat)
    requires c.Valid() && i.Valid() && Apart(c, i) && Paired(c, i, first, reps, lo, hi)
    requires first + reps <= c.reps && 0 < reps <= i.reps
    ensures hi + 1 <= lo + c.stride
  {
    MulPlus(first, 1, c.stride);
    BlockStartOutside(c, i, first + 1);
    var y := i.start + i.stride;
    assert InBlock(i, 1, y);
    assert In(i, y);
    assert !InBlock(c, first, y);
  }

  lemma {:induction false} PairFits(c: Region, i: Region, first: nat, reps: nat, lo: nat, hi: nat)
    requires c.Valid() && i.Valid() && Paired(c, i, first, reps, lo, hi)
    requires first + reps <= c.reps && reps <= i.reps
    ensures lo <= hi && hi + Mul(reps, c.stride) <= Max(c.RangeEnd(), i.RangeEnd()) <= MAX
    ensures Min(c.start, i.start) <= lo
  {
    MulPlus(first, reps, c.stride);
    MulMono(first + reps, c.reps, c.stride);
    MulMono(reps, i.reps, i.stride);
  }

  /** The regions that replace c and i: the joint, what precedes it in c, and what follows it. */
  function Replacement(c: Region, i: Region, j: Joint): set<Region>
    requires c.Valid() && i.Valid() && j.first + j.reps <= c.reps && j.reps <= i.reps
  {
    {j.merged} + Before(c, j) + After(c, i, j)
  }

  function Before(c: Region, j: Joint): set<Region> {
    if j.first > 0 then {Make(c.start, c.end, j.first - 1, c.stride)} else {}
  }

  function After(c: Region, i: Region, j: Joint): set<Region>
    requires c.Valid() && i.Valid() && j.first + j.reps <= c.reps && j.reps <= i.reps
  {
    if j.first + j.reps < c.reps then {c.Reps(j.first + j.reps + 1, c.reps)}
    else if j.reps < i.reps then {i.Reps(j.reps + 1, i.reps)}
    else {}
  }

  ghost predicate Covered(s: set<Region>, c: Region, c0: nat, c1: int, i: Region, i0: nat, i1: int) {
    forall x: nat :: Covers(s, x) <==> InBlocks(c, c0, c1, x) || InBlocks(i, i0, i1, x)
  }

  /** What a joint found for c and i amounts to. */
  ghost predicate Joins(c: Region, i: Region, j: Joint) {
    && Candidates(c, i) && j.first + j.reps <= c.reps && j.reps <= i.reps
    && (j.first + j.reps == c.reps || j.reps == i.reps)
    && exists lo, hi :: Paired(c, i, j.first, j.reps, lo, hi) && j.merged == Make(lo, hi, j.reps, c.stride)
  }

  lemma FoundJoins(c: Region, i: Region, j: Joint)
    requires Candidates(c, i) && FindJoint(c, i) == Some(j)
    ensures Joins(c, i, j)
  {
    JointStride(c, i, j);
    LaterStartsAfter(c, i);
    if Mod(i.start - 1 - c.end, c.stride) == 0 {
      EndJoint(c, i, j.first);
      assert Paired(c, i, j.first, j.reps, c.start + Mul(j.first, c.stride), i.end);
    } else {
      StartJoint(c, i, j.first);
      assert Paired(c, i, j.first, j.reps, i.start, c.end + Mul(j.first, c.stride));
    }
  }

  lemma JointPairs(c: Region, i: Region, j: Joint) returns (lo: nat, hi: nat)
    requires Joins(c, i, j)
    ensures Paired(c, i, j.first, j.reps, lo, hi) && j.merged == Make(lo, hi, j.reps, c.stride)
  {
    lo, hi :| Paired(c, i, j.first, j.reps, lo, hi) && j.merged == Make(lo, hi, j.reps, c.stride);
  }

  lemma MergedCovers(c: Region, i: Region, j: Joint)
    requires Joins(c, i, j)
    ensures j.merged.Valid() && (j.merged.reps > 0 ==> j.reps > 0 && j.merged.stride == c.stride)
    ensures c.start <= j.merged.start && j.merged.RangeEnd() <= Max(c.RangeEnd(), i.RangeEnd())
    ensures Covered({j.merged}, c, j.first, j.first + j.reps, i, 0, j.reps)
  {
    var lo, hi := JointPairs(c, i, j);
    PairFits(c, i, j.first, j.reps, lo, hi);
    if j.reps > 0 { PairGap(c, i, j.first, j.reps, lo, hi); }
    MakeValid(lo, hi, j.reps, c.stride);
    forall x: nat ensures Covers({j.merged}, x)
      <==> InBlocks(c, j.first, j.first + j.reps, x) || InBlocks(i, 0, j.reps, x)
    {
      OnlyMember(j.merged, x);
      MakeDenotes(lo, hi, j.reps, c.stride, x);
      PairDenotes(c, i, j.first, j.reps, lo, hi, x);
    }
  }

  lemma RepsWithin(r: Region, first: nat, last: nat)
    requires r.Valid() && first <= last <= r.reps
    ensures r.Reps(first, last).Valid()
    ensures r.Reps(first, last).reps > 0 ==> r.reps > 0 && r.Reps(first, last).stride == r.stride
    ensures r.start <= r.Reps(first, last).start && r.Reps(first, last).RangeEnd() <= r.RangeEnd()
  {
    RepsValid(r, first, last);
    MulMono(last, r.reps, r.stride);
  }

  lemma RepsCover(r: Region, first: nat, last: nat)
    requires r.Valid() && first <= last <= r.reps
    ensures forall x: nat :: Covers({r.Reps(first, last)}, x) <==> InBlocks(r, first, last, x)
  {
    forall x: nat ensures Covers({r.Reps(first, last)}, x) <==> InBlocks(r, first, last, x) {
      OnlyMember(r.Reps(first, last), x);
      RepsDenotes(r, first, last, x);
    }
  }

  lemma BeforeCovers(c: Region, i: Region, j: Joint)
    requires c.Valid() && j.first <= c.reps
    ensures Covered(Before(c, j), c, 0, j.first - 1, i, 1, 0)
    ensures j.first > 0 ==> Before(c, j) == {c.Reps(0, j.first - 1)}
  {
    if j.first > 0 { RepsCover(c, 0, j.first - 1); }
  }

  lemma AfterCovers(c: Region, i: Region, j: Joint)
    requires c.Valid() && i.Valid() && j.first + j.reps <= c.reps && j.reps <= i.reps
    requires j.reps == c.reps - j.first || j.reps == i.reps
    ensures Covered(After(c, i, j), c, j.first + j.reps + 1, c.reps, i, j.reps + 1, i.reps)
  {
    if j.first + j.reps < c.reps { RepsCover(c, j.first + j.reps + 1, c.reps); }
    else if j.reps < i.reps { RepsCover(i, j.reps + 1, i.reps); }
  }

  lemma SplitBlocks(r: Region, first: nat, mid: int, last: nat, x: nat)
    requires first <= mid + 1 <= last + 1
    ensures InBlocks(r, first, last, x) <==> InBlocks(r, first, mid, x) || InBlocks(r, mid + 1, last, x)
    ensures r.Valid() && last <= r.reps ==> !(InBlocks(r, first, mid, x) && InBlocks(r, mid + 1, last, x))
    ensures r.Valid() && last <= r.reps && InBlocks(r, first, last, x) ==> In(r, x)
  {
    if r.Valid() && last <= r.reps && InBlocks(r, first, mid, x) && InBlocks(r, mid + 1, last, x) {
      var k: nat :| first <= k <= mid && InBlock(r, k, x);
      var l: nat :| mid + 1 <= l <= last && InBlock(r, l, x);
      BlockOrder(r, k, l, x, x);
    }
  }

  /** The replacement denotes the same indices, in disjoint pieces. */
  lemma ReplacementExact(c: Region, i: Region, j: Joint)
    requires Joins(c, i, j)
    ensures Points(Replacement(c, i, j)) == PointsOf(c) + PointsOf(i)
    ensures PairwiseApart(Replacement(c, i, j))
  {
    MergedCovers(c, i, j);
    BeforeCovers(c, i, j);
    AfterCovers(c, i, j);
    var before, merged, after := Before(c, j), {j.merged}, After(c, i, j);
    forall x: nat
      ensures Covers(merged, x) ==> !Covers(before, x) && !Covers(after, x)
      ensures Covers(before, x) ==> !Covers(after, x)
      ensures Covers(merged + before + after, x) <==> In(c, x) || In(i, x)
    {
      assert In(c, x) <==> InBlocks(c, 0, c.reps, x);
      assert In(i, x) <==> InBlocks(i, 0, i.reps, x);
      SplitBlocks(c, 0, j.first - 1, c.reps, x);
      SplitBlocks(c, j.first, j.first + j.reps, c.reps, x);
      SplitBlocks(i, 0, j.reps, i.reps, x);
      CoversUnion(merged, before, x);
      CoversUnion(merged + before, after, x);
    }
    ApartUnion(merged, before);
    forall x: nat | Covers(merged + before, x) ensures !Covers(after, x) {
      CoversUnion(merged, before, x);
    }
    ApartUnion(merged + before, after);
    assert Points(Replacement(c, i, j)) == PointsOf(c) + PointsOf(i);
  }

  /** A strided piece keeps the stride of c or i and stays within the range of the regions that have it. */
  ghost predicate Inherits(p: Region, c: Region, i: Region) {
    p.reps > 0 ==>
      || (c.reps > 0 && p.stride == c.stride && c.start <= p.start && p.RangeEnd() <= c.RangeEnd())
      || (i.reps > 0 && p.stride == i.stride && i.start <= p.start && p.RangeEnd() <= i.RangeEnd())
      || (c.reps > 0 && i.reps > 0 && p.stride == c.stride == i.stride
          && c.start <= p.start && p.RangeEnd() <= Max(c.RangeEnd(), i.RangeEnd()))
  }

  /** A run of repetitions inherits from the region it was taken from. */
  lemma RepsInherit(r: Region, first: nat, last: nat, c: Region, i: Region)
    requires r.Valid() && first <= last <= r.reps && (r == c || r == i)
    ensures r.Reps(first, last).Valid() && Inherits(r.Reps(first, last), c, i)
  {
    RepsWithin(r, first, last);
  }

  lemma MergedInherits(c: Region, i: Region, j: Joint)
    requires Joins(c, i, j)
    ensures j.merged.Valid() && Inherits(j.merged, c, i)
  {
    MergedCovers(c, i, j);
  }

  lemma ReplacementInherits(c: Region, i: Region, j: Joint)
    requires c.Valid() && i.Valid() && j.first + j.reps <= c.reps && j.reps <= i.reps
    requires j.merged.Valid() && Inherits(j.merged, c, i)
    ensures forall p :: p in Replacement(c, i, j) ==> p.Valid() && Inherits(p, c, i)
  {
    forall p | p in Before(c, j) ensures p.Valid() && Inherits(p, c, i) {
      BeforeCovers(c, i, j);
      RepsInherit(c, 0, j.first - 1, c, i);
    }
    forall p | p in After(c, i, j) ensures p.Valid() && Inherits(p, c, i) {
      if j.first + j.reps < c.reps { RepsInherit(c, j.first + j.reps + 1, c.reps, c, i); }
      else { RepsInherit(i, j.reps + 1, i.reps, c, i); }
    }
  }

  lemma InheritedComparable(r: Region, p: Region, c: Region, i: Region)
    requires r.Valid() && Comparable(r, c) && Comparable(r, i) && Inherits(p, c, i)
    requires c.start <= i.start <= c.RangeEnd() + 1
    ensures Comparable(r, p)
  {
  }

  lemma PiecesComparable(p: Region, q: Region, c: Region, i: Region)
    requires Inherits(p, c, i) && Inherits(q, c, i) && Comparable(c, i) && c.start <= i.start
    ensures Comparable(p, q)
  {
  }

  // ----- the measure: where blocks start -----

  ghost predicate StartsBlock(r: Region, x: nat) {
    exists k: nat :: k <= r.reps && x == r.start + Mul(k, r.stride)
  }

  lemma BlockStartIn(r: Region, x: nat)
    requires r.start <= r.end && StartsBlock(r, x)
    ensures In(r, x)
  {
    var k: nat :| k <= r.reps && x == r.start + Mul(k, r.stride);
    assert InBlock(r, k, x);
  }

  lemma MakeStarts(lo: nat, hi: nat, reps: nat, stride: nat, x: nat)
    requires StartsBlock(Make(lo, hi, reps, stride), x)
    ensures StartsBlock(Region(lo, hi, reps, stride), x)
  {
    var k: nat :| k <= Make(lo, hi, reps, stride).reps && x == lo + Mul(k, Make(lo, hi, reps, stride).stride);
    if k == 0 { assert x == lo + Mul(0, stride); }
  }

  lemma {:induction false} RepsStarts(r: Region, first: nat, last: nat, x: nat)
    requires first <= last <= r.reps && r.start <= r.end && StartsBlock(r.Reps(first, last), x)
    ensures StartsBlock(r, x) && r.start + Mul(first, r.stride) <= x <= r.start + Mul(last, r.stride)
  {
    var raw := Region(r.start + Mul(first, r.stride), r.end + Mul(first, r.stride), last - first, r.stride);
    MakeStarts(raw.start, raw.end, raw.reps, raw.stride, x);
    var k: nat :| k <= raw.reps && x == raw.start + Mul(k, raw.stride);
    MulPlus(first, k, r.stride);
    MulMono(first + k, last, r.stride);
    assert first + k <= r.reps;
  }

  /** The start of a block that the joint swallows: i's first block, or the block of c it runs into. */
  ghost function Swallowed(c: Region, i: Region, j: Joint): nat {
    if j.merged.start == i.start then c.start + Mul(j.first, c.stride) else i.start
  }

  lemma MergedStarts(c: Region, i: Region, j: Joint, x: nat)
    requires Joins(c, i, j) && StartsBlock(j.merged, x)
    ensures StartsBlock(c, x) || StartsBlock(i, x)
    ensures j.merged.start == i.start ==> StartsBlock(i, x)
    ensures j.merged.start != i.start ==> StartsBlock(c, x)
  {
    var lo, hi := JointPairs(c, i, j);
    MakeStarts(lo, hi, j.reps, c.stride, x);
    var k: nat :| k <= j.reps && x == lo + Mul(k, c.stride);
    MulPlus(j.first, k, c.stride);
    if lo == i.start {
      if k == 0 { assert x == i.start + Mul(0, i.stride); }
    } else {
      assert x == c.start + Mul(j.first + k, c.stride);
    }
  }

  lemma AfterStarts(c: Region, i: Region, j: Joint, p: Region, x: nat)
    requires c.Valid() && i.Valid() && j.first + j.reps <= c.reps && j.reps <= i.reps
    requires p in After(c, i, j) && StartsBlock(p, x)
    ensures (StartsBlock(c, x) && x != c.start + Mul(j.first, c.stride)) || (StartsBlock(i, x) && x != i.start)
  {
    if j.first + j.reps < c.reps {
      RepsStarts(c, j.first + j.reps + 1, c.reps, x);
      MulMono(j.first, j.first + j.reps + 1, c.stride);
    } else {
      RepsStarts(i, j.reps + 1, i.reps, x);
      MulMono(0, j.reps + 1, i.stride);
    }
  }

  lemma BeforeStarts(c: Region, j: Joint, p: Region, x: nat)
    requires c.Valid() && j.first <= c.reps && p in Before(c, j) && StartsBlock(p, x)
    ensures StartsBlock(c, x) && x != c.start + Mul(j.first, c.stride)
  {
    assert Mul(0, c.stride) == 0;
    RepsStarts(c, 0, j.first - 1, x);
    MulMono(j.first - 1, j.first, c.stride);
  }

  /** Every block start of the replacement was one before, and one block start is gone. */
  lemma FewerStarts(c: Region, i: Region, j: Joint, p: Region, x: nat)
    requires Joins(c, i, j) && p in Replacement(c, i, j) && StartsBlock(p, x)
    ensures (StartsBlock(c, x) || StartsBlock(i, x)) && x != Swallowed(c, i, j)
  {
    SwallowedStarts(c, i, j);
    if p == j.merged {
      MergedStarts(c, i, j, x);
    } else if p in Before(c, j) {
      BeforeStarts(c, j, p, x);
    } else {
      AfterStarts(c, i, j, p, x);
    }
    if StartsBlock(c, x) { BlockStartIn(c, x); }
    if StartsBlock(i, x) { BlockStartIn(i, x); }
  }

  lemma SwallowedStarts(c: Region, i: Region, j: Joint)
    requires Candidates(c, i) && j.first <= c.reps
    ensures StartsBlock(c, c.start + Mul(j.first, c.stride)) && In(c, c.start + Mul(j.first, c.stride))
    ensures StartsBlock(i, i.start) && In(i, i.start)
  {
    BlockStartIn(c, c.start + Mul(j.first, c.stride));
    assert i.start == i.start + Mul(0, i.stride);
    BlockStartIn(i, i.start);
  }
}
