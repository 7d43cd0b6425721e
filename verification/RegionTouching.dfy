/** What merging leaves: when it joins two regions, which regions cannot touch any more, and that without strides the
    result is determined by the indices alone. */
module RegionTouching {
  import opened Arith
  import opened Regions
  import opened RegionDifference
  import opened RegionMerging
  import opened RegionSets

  /** i begins right after a repetition of c, or its first block ends right before one. */
  ghost predicate Touches(c: Region, i: Region) {
    exists k: nat :: k <= c.reps && TouchesAt(c, i, k)
  }

  predicate TouchesAt(c: Region, i: Region, k: nat) {
    i.start == c.end + Mul(k, c.stride) + 1 || i.end + 1 == c.start + Mul(k, c.stride)
  }

  /** Two regions are joined exactly when they touch. */
  lemma JointExact(c: Region, i: Region)
    requires Candidates(c, i)
    ensures FindJoint(c, i).Some? <==> Touches(c, i)
    ensures FindJoint(c, i).Some? && i.start == c.end + 1 ==> FindJoint(c, i).value.first == 0
  {
    LaterStartsAfter(c, i);
    if FindJoint(c, i).Some? {
      if Mod(i.start - 1 - c.end, c.stride) == 0 {
        EndJoint(c, i, FindJoint(c, i).value.first);
      } else {
        StartJoint(c, i, FindJoint(c, i).value.first);
      }
      assert TouchesAt(c, i, FindJoint(c, i).value.first);
    }
    if k: nat :| k <= c.reps && TouchesAt(c, i, k) { TouchingFound(c, i, k); }
  }

  lemma TouchingFound(c: Region, i: Region, k: nat)
    requires Candidates(c, i) && k <= c.reps && TouchesAt(c, i, k)
    ensures FindJoint(c, i).Some?
  {
    LaterStartsAfter(c, i);
    if i.start == c.end + Mul(k, c.stride) + 1 {
      DivUnique(i.start - 1 - c.end, k, c.stride);
    } else {
      DivUnique(i.end + 1 - c.start, k, c.stride);
    }
  }

  /** What starts beyond c's range and one more does not touch c. */
  lemma OutOfReach(c: Region, i: Region)
    requires c.Valid() && i.Valid() && c.RangeEnd() + 1 < i.start
    ensures !Touches(c, i)
  {
    forall k: nat | k <= c.reps ensures !TouchesAt(c, i, k) { MulMono(k, c.reps, c.stride); }
  }

  // ----- what stays apart -----

  /** An unstrided region that none begins right after. */
  ghost predicate Still(a: Region, s: set<Region>) {
    a.reps == 0 ==> forall b :: b in s ==> b.start != a.end + 1
  }

  ghost predicate NoneTouch(s: set<Region>) {
    forall a :: a in s ==> Still(a, s)
  }

  /** All regions before c are still. */
  ghost predicate Quiet(s: set<Region>, c: Region) {
    forall a :: a in s && Less(a, c) ==> Still(a, s)
  }

  lemma QuietMore(s: set<Region>, c: Region)
    requires Separate(s) && c in s && forall i :: i in Later(s, c) ==> !Touches(c, i)
    ensures Still(c, s)
  {
    forall b | b in s && c.reps == 0 ensures b.start != c.end + 1 {
      if b.start == c.end + 1 {
        assert b in Later(s, c) && TouchesAt(c, b, 0);
      }
    }
  }

  /** Joining two later regions starts none right after a still one. */
  lemma StaysStill(s: set<Region>, c: Region, i: Region, j: Joint, a: Region)
    requires Separate(s) && c in s && i in s && a in s && Joins(c, i, j) && Less(a, c) && Still(a, s)
    ensures Still(a, s - {c, i} + Replacement(c, i, j))
  {
    var p := Replacement(c, i, j);
    forall b | b in s - {c, i} + p && a.reps == 0 ensures b.start != a.end + 1 {
      if b in p && b.start == a.end + 1 {
        assert StartsBlock(b, b.start) by { assert b.start == b.start + Mul(0, b.stride); }
        FewerStarts(c, i, j, b, b.start);
        if StartsBlock(c, b.start) { NotInside(s, a, c, b.start); } else { NotInside(s, a, i, b.start); }
      }
    }
  }

  /** A later block that starts right after an unstrided region is its region's first one. */
  lemma NotInside(s: set<Region>, a: Region, r: Region, x: nat)
    requires Separate(s) && a in s && r in s && Less(a, r) && a.reps == 0 && StartsBlock(r, x) && x == a.end + 1
    ensures r.start == x
  {
    var k: nat :| k <= r.reps && x == r.start + Mul(k, r.stride);
    OuterPoints(r);
    InPlain(a, r.start);
    assert Apart(a, r);
  }

  /** What a join leaves before c is a first part of c, and nothing begins right after its block. */
  lemma BeforeStill(s: set<Region>, c: Region, i: Region, j: Joint, a: Region)
    requires Separate(s) && c in s && i in s && Joins(c, i, j) && a in Replacement(c, i, j) && Less(a, c)
    requires i.start == c.end + 1 ==> j.first == 0
    requires forall q :: q in Later(s, c) && Less(q, i) ==> !Touches(c, q)
    ensures Still(a, s - {c, i} + Replacement(c, i, j))
  {
    var p := Replacement(c, i, j);
    OnlyBefore(c, i, j, a);
    if a.reps == 0 {
      forall b | b in s - {c, i} + p ensures b.start != c.end + 1 {
        if b in p { PieceNotThere(c, i, j, b); } else if b.start == c.end + 1 { EarlierTouches(s, c, i, b); }
      }
    }
  }

  lemma EarlierTouches(s: set<Region>, c: Region, i: Region, b: Region)
    requires Separate(s) && c in s && i in s && Candidates(c, i) && b in s && b != i && b.start == c.end + 1
    ensures b in Later(s, c) && Less(b, i) && Touches(c, b)
  {
    LaterStartsAfter(c, i);
    assert TouchesAt(c, b, 0);
    OuterPoints(b);
    OuterPoints(i);
    assert Apart(b, i);
  }

  /** Of the pieces only what precedes the joint sorts before c. */
  lemma OnlyBefore(c: Region, i: Region, j: Joint, a: Region)
    requires Joins(c, i, j) && a in Replacement(c, i, j) && Less(a, c)
    ensures j.first > 0 && (a.reps == 0 ==> a.start == c.start && a.end == c.end)
  {
    MergedLater(c, i, j);
    if a in After(c, i, j) { AfterLater(c, i, j, a); }
  }

  lemma MergedLater(c: Region, i: Region, j: Joint)
    requires Joins(c, i, j)
    ensures Less(c, j.merged)
  {
    var lo, hi := JointPairs(c, i, j);
    LaterStartsAfter(c, i);
    PairFits(c, i, j.first, j.reps, lo, hi);
    if j.first > 0 { MulMono(0, j.first, c.stride); }
  }

  lemma AfterLater(c: Region, i: Region, j: Joint, a: Region)
    requires Joins(c, i, j) && a in After(c, i, j)
    ensures a.start > c.start
  {
    LaterStartsAfter(c, i);
    if j.first + j.reps < c.reps {
      MulMono(0, j.first + j.reps + 1, c.stride);
    }
  }

  lemma PieceNotThere(c: Region, i: Region, j: Joint, b: Region)
    requires Joins(c, i, j) && b in Replacement(c, i, j) && j.first > 0 && i.start != c.end + 1
    ensures b.start != c.end + 1
  {
    LaterStartsAfter(c, i);
    assert StartsBlock(b, b.start) by { assert b.start == b.start + Mul(0, b.stride); }
    FewerStarts(c, i, j, b, b.start);
    if StartsBlock(c, b.start) {
      var k: nat :| k <= c.reps && b.start == c.start + Mul(k, c.stride);
      if k > 0 { MulMono(1, k, c.stride); }
    }
  }

  /** After a join all regions before c are still again. */
  lemma JoinQuiet(s: set<Region>, c: Region, i: Region, j: Joint)
    requires Separate(s) && c in s && i in s && Joins(c, i, j) && Quiet(s, c)
    requires i.start == c.end + 1 ==> j.first == 0
    requires forall q :: q in Later(s, c) && Less(q, i) ==> !Touches(c, q)
    ensures Quiet(s - {c, i} + Replacement(c, i, j), c)
  {
    var p := Replacement(c, i, j);
    forall a | a in s - {c, i} + p && Less(a, c) ensures Still(a, s - {c, i} + p) {
      if a in p { BeforeStill(s, c, i, j, a); } else { StaysStill(s, c, i, j, a); }
    }
  }

  /** The whole of one join. */
  lemma Replaced(s: set<Region>, c: Region, i: Region, j: Joint) returns (t: set<Region>)
    requires Separate(s) && c in s && i in s && Joins(c, i, j)
    requires i.start == c.end + 1 ==> j.first == 0
    requires forall q :: q in Later(s, c) && Less(q, i) ==> !Touches(c, q)
    ensures t == s - {c, i} + Replacement(c, i, j) && c !in Replacement(c, i, j) && i !in Replacement(c, i, j)
    ensures Separate(t) && Points(t) == Points(s) && Strides(t) <= Strides(s) && StartSet(t) < StartSet(s)
    ensures Quiet(s, c) ==> Quiet(t, c)
  {
    ReplaceKeeps(s, c, i, j);
    ReplaceLowersStarts(s, c, i, j);
    if Quiet(s, c) { JoinQuiet(s, c, i, j); }
    t := s - {c, i} + Replacement(c, i, j);
  }

  lemma InPlaceOf(s: set<Region>, p: set<Region>, c: Region, i: Region)
    requires c !in p && i !in p
    ensures s + p - {i} - {c} == s - {c, i} + p
  {
  }

  // ----- without strides -----

  /** Unstrided regions with room between them: the maximal intervals. */
  ghost predicate Canonical(s: set<Region>) {
    AllValid(s) && PairwiseApart(s) && NoneTouch(s) && forall r :: r in s ==> r.reps == 0
  }

  lemma Maximal(s: set<Region>, r: Region)
    requires Canonical(s) && r in s
    ensures !Covers(s, r.end + 1) && (r.start > 0 ==> !Covers(s, r.start - 1))
    ensures forall x: nat :: r.start <= x <= r.end ==> Covers(s, x)
  {
    forall q | q in s ensures !In(q, r.end + 1) && (r.start > 0 ==> !In(q, r.start - 1)) {
      NotNext(s, r, q);
      NotNext(s, q, r);
    }
    forall x: nat | r.start <= x <= r.end ensures Covers(s, x) { InPlain(r, x); }
  }

  /** Two such regions are not next to each other. */
  lemma NotNext(s: set<Region>, a: Region, b: Region)
    requires Canonical(s) && a in s && b in s
    ensures !In(b, a.end + 1) && (b.start > 0 ==> !In(a, b.start - 1))
  {
    InPlain(b, a.end + 1);
    InPlain(b, a.end);
    InPlain(a, a.end);
    InPlain(b, b.start);
    InPlain(a, b.start);
    if b.start > 0 { InPlain(a, b.start - 1); }
    assert a != b ==> Apart(a, b);
    assert Still(a, s);
  }

  /** One set of intervals for one set of indices. */
  lemma CanonicalUnique(s: set<Region>, t: set<Region>)
    requires Canonical(s) && Canonical(t) && Points(s) == Points(t)
    ensures s == t
  {
    forall r | r in s ensures r in t { SameInterval(s, t, r); }
    forall r | r in t ensures r in s { SameInterval(t, s, r); }
  }

  lemma SameInterval(s: set<Region>, t: set<Region>, r: Region)
    requires Canonical(s) && Canonical(t) && Points(s) == Points(t) && r in s
    ensures r in t
  {
    forall x: nat ensures Covers(s, x) <==> Covers(t, x) { assert x in Points(s) <==> x in Points(t); }
    Maximal(s, r);
    assert Covers(t, r.start);
    var q :| q in t && In(q, r.start);
    InPlain(q, r.start);
    Maximal(t, q);
    assert q.start == r.start && q.end == r.end;
  }
}
