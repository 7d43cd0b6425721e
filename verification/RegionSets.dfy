/** Sets of disjoint regions, and the loops that erase and insert while walking them in order. */
module RegionSets {
  import opened Arith
  import opened Regions
  import opened RegionIntersection
  import opened RegionDifference
  import opened RegionMerging

  /** The invariant of a subset's regions. Regions of different strides stay out of each other's range. */
  ghost predicate Separate(s: set<Region>) {
    AllValid(s) && PairwiseApart(s) && forall a, b :: a in s && b in s ==> Comparable(a, b)
  }

  ghost function Strides(s: set<Region>): set<nat> {
    set r | r in s && r.reps > 0 :: r.stride
  }

  ghost predicate OneStride(s: set<Region>) {
    forall a, b :: a in s && b in s && a.reps > 0 && b.reps > 0 ==> a.stride == b.stride
  }

  ghost predicate Bounded(s: set<Region>) {
    forall r :: r in s ==> r.RangeEnd() < MAX
  }

  /** The elements an in-order walk has yet to visit after r. */
  function Later(s: set<Region>, r: Region): set<Region> {
    set q | q in s && Less(r, q)
  }

  // ----- merging -----

  ghost predicate SomeStart(s: set<Region>, x: nat) {
    exists r :: r in s && StartsBlock(r, x)
  }

  /** Where the blocks of a set begin; its size is the total number of blocks. */
  ghost function StartSet(s: set<Region>): set<nat> {
    set x: nat | x <= MAX && SomeStart(s, x)
  }

  lemma StartInSet(s: set<Region>, r: Region, x: nat)
    requires AllValid(s) && r in s && StartsBlock(r, x)
    ensures x in StartSet(s)
  {
    BlockStartIn(r, x);
    InRange(r, x);
  }

  /** Replacing two regions by their joint keeps the index set and the invariant, and loses a block start. */
  lemma ReplaceKeeps(s: set<Region>, c: Region, i: Region, j: Joint)
    requires Separate(s) && c in s && i in s && Joins(c, i, j)
    ensures var p := Replacement(c, i, j); c !in p && i !in p
    ensures var t := s - {c, i} + Replacement(c, i, j);
      Separate(t) && Points(t) == Points(s) && Strides(t) <= Strides(s)
  {
    var p := Replacement(c, i, j);
    var rest := s - {c, i};
    MergedInherits(c, i, j);
    ReplacementInherits(c, i, j);
    ReplacementExact(c, i, j);
    ReplacementIsNew(c, i, j);
    LaterStartsAfter(c, i);
    forall x: nat ensures Covers(rest, x) ==> !Covers(p, x)
      ensures Covers(rest + p, x) <==> Covers(s, x)
    {
      CoversUnion(rest, p, x);
      assert Covers(p, x) <==> x in Points(p);
      if r :| r in rest && In(r, x) { assert Apart(r, c) && Apart(r, i); }
      if r :| r in s && In(r, x) { assert r in rest || r == c || r == i; }
    }
    ApartUnion(rest, p);
    assert Points(rest + p) == Points(s);
    forall a, b | a in rest + p && b in rest + p ensures Comparable(a, b) {
      if a in rest && b in p { InheritedComparable(a, b, c, i); }
      else if a in p && b in rest { InheritedComparable(b, a, c, i); }
      else if a in p && b in p { PiecesComparable(a, b, c, i); }
    }
    InheritedStrides(s, rest, p, c, i);
  }

  lemma InheritedStrides(s: set<Region>, rest: set<Region>, p: set<Region>, c: Region, i: Region)
    requires rest <= s && c in s && i in s && forall q :: q in p ==> Inherits(q, c, i)
    ensures Strides(rest + p) <= Strides(s)
  {
    forall q | q in rest + p && q.reps > 0 ensures q.stride in Strides(s) {
      assert q in rest || q in p;
      if q in p {
        assert c.reps > 0 ==> c.stride in Strides(s);
        assert i.reps > 0 ==> i.stride in Strides(s);
      }
    }
  }

  lemma ReplacementIsNew(c: Region, i: Region, j: Joint)
    requires Joins(c, i, j)
    ensures c !in Replacement(c, i, j) && i !in Replacement(c, i, j)
  {
    SwallowedStarts(c, i, j);
    MergedCovers(c, i, j);
    ReplacementExact(c, i, j);
    var x, y := c.start + Mul(j.first, c.stride), i.start;
    assert InBlock(c, j.first, x) && InBlock(i, 0, y);
    assert InBlocks(c, j.first, j.first + j.reps, x) && InBlocks(i, 0, j.reps, y);
    OnlyMember(j.merged, x);
    OnlyMember(j.merged, y);
    assert In(j.merged, x) && In(j.merged, y);
    forall p | p in Replacement(c, i, j) ensures p != c && p != i {
      assert p != j.merged ==> Apart(j.merged, p);
    }
  }

  lemma ReplaceLowersStarts(s: set<Region>, c: Region, i: Region, j: Joint)
    requires Separate(s) && c in s && i in s && Joins(c, i, j)
    ensures StartSet(s - {c, i} + Replacement(c, i, j)) < StartSet(s)
  {
    var p, gone := Replacement(c, i, j), Swallowed(c, i, j);
    SwallowedStarts(c, i, j);
    forall r, x: nat | r in p && StartsBlock(r, x)
      ensures (StartsBlock(c, x) || StartsBlock(i, x)) && x != gone
    {
      FewerStarts(c, i, j, r, x);
    }
    StartsDrop(s, c, i, p, gone);
  }

  lemma StartsDrop(s: set<Region>, c: Region, i: Region, p: set<Region>, gone: nat)
    requires Separate(s) && c in s && i in s
    requires (StartsBlock(c, gone) && In(c, gone)) || (StartsBlock(i, gone) && In(i, gone))
    requires forall r, x: nat :: r in p && StartsBlock(r, x) ==> (StartsBlock(c, x) || StartsBlock(i, x)) && x != gone
    ensures StartSet(s - {c, i} + p) < StartSet(s)
  {
    StartInSet(s, if StartsBlock(c, gone) && In(c, gone) then c else i, gone);
    forall x: nat | SomeStart(s - {c, i} + p, x) ensures SomeStart(s, x) && x != gone {
      var r :| r in s - {c, i} + p && StartsBlock(r, x);
      if r !in p { OtherStart(s, c, i, r, x); }
    }
    assert gone !in StartSet(s - {c, i} + p);
  }

  lemma OtherStart(s: set<Region>, c: Region, i: Region, r: Region, x: nat)
    requires Separate(s) && c in s && i in s && r in s && r != c && r != i && StartsBlock(r, x)
    ensures SomeStart(s, x) && !In(c, x) && !In(i, x)
  {
    BlockStartIn(r, x);
    assert Apart(r, c) && Apart(r, i);
  }

  // ----- removing one region from a set of pieces -----

  /** What a walk that removes r from a set of pieces keeps: some indices of r may go, nothing else,
      and pieces already passed no longer meet r. */
  ghost predicate Removing(pieces: set<Region>, ahead: set<Region>, all: iset<nat>, r: Region) {
    && AllValid(pieces) && PairwiseApart(pieces) && ahead <= pieces
    && Points(pieces) <= all && all - PointsOf(r) <= Points(pieces)
    && forall p :: p in pieces && p !in ahead ==> Apart(p, r)
  }

  ghost function Waiting(ahead: set<Region>): set<nat> {
    set x: nat | x <= MAX && Covers(ahead, x)
  }

  /** Where the walk goes on after it has been replaced: at the next old element,
      so it also passes the new pieces that sort behind that element, but not those before it. */
  method Resume(ahead: set<Region>, added: set<Region>) returns (rest: set<Region>)
    ensures ahead <= rest <= ahead + added
    ensures forall p :: p in rest && p !in ahead ==> ahead != {} && exists n :: IsFirst(n, ahead) && Less(n, p)
  {
    if ahead == {} { return {}; }
    var n := First(ahead);
    rest := ahead + Later(added, n);
  }

  /** A replacement that is still ahead cannot hold the first index of the element it replaces. */
  lemma WaitingShrinks(pieces: set<Region>, ahead: set<Region>, it: Region, added: set<Region>, rest: set<Region>)
    requires AllValid(pieces) && PairwiseApart(pieces) && ahead <= pieces && IsFirst(it, ahead)
    requires AllValid(added) && Points(added) <= PointsOf(it)
    requires ahead - {it} <= rest <= ahead - {it} + added
    requires forall p :: p in rest && p !in ahead - {it} ==>
      ahead - {it} != {} && exists n :: IsFirst(n, ahead - {it}) && Less(n, p)
    ensures Waiting(rest) < Waiting(ahead)
  {
    OuterPoints(it);
    forall x: nat | Covers(rest, x) ensures Covers(ahead, x) && x != it.start {
      var p :| p in rest && In(p, x);
      if p in ahead - {it} {
        assert Apart(it, p);
      } else {
        assert x in Points(added) && In(it, x);
        PieceStartsLater(it, added, p);
        var n :| IsFirst(n, ahead - {it}) && Less(n, p);
        OuterPoints(n);
        OuterPoints(p);
        assert Apart(it, n) && Less(it, n);
        InRange(p, x);
        assert n.start != it.start;
      }
    }
    InRange(it, it.start);
    assert Covers(ahead, it.start);
    assert it.start in Waiting(ahead);
    assert it.start !in Waiting(rest);
  }

  lemma PieceStartsLater(it: Region, added: set<Region>, p: Region)
    requires AllValid(added) && Points(added) <= PointsOf(it) && p in added
    ensures it.start <= p.start && p.RangeEnd() <= it.RangeEnd()
  {
    assert InBlock(p, 0, p.start) && InBlock(p, p.reps, p.RangeEnd());
    assert In(p, p.start) && In(p, p.RangeEnd());
    assert p.start in Points(added) && p.RangeEnd() in Points(added);
    InRange(it, p.start);
    InRange(it, p.RangeEnd());
  }

  /** One step of the walk keeps Removing. */
  lemma StepRemoves(pieces: set<Region>, ahead: set<Region>, all: iset<nat>, r: Region,
      it: Region, added: set<Region>, rest: set<Region>)
    requires Removing(pieces, ahead, all, r) && it in ahead
    requires AllValid(added) && PairwiseApart(added) && Points(added) == PointsOf(it) - PointsOf(r)
    requires ahead - {it} <= rest <= ahead - {it} + added
    ensures Removing(pieces - {it} + added, rest, all, r)
  {
    var others := pieces - {it};
    forall x: nat | Covers(others, x) ensures !Covers(added, x) {
      var q :| q in others && In(q, x);
      assert Apart(q, it);
      assert Covers(added, x) <==> x in Points(added);
    }
    ApartUnion(others, added);
    forall x: nat ensures Covers(others + added, x) ==> x in all
      ensures x in all - PointsOf(r) ==> Covers(others + added, x)
    {
      CoversUnion(others, added, x);
      if q :| q in others && In(q, x) { assert x in Points(pieces); }
      if Covers(added, x) { assert x in Points(added) && x in Points(pieces); }
      if x in all - PointsOf(r) {
        assert x in Points(pieces);
        var q :| q in pieces && In(q, x);
        assert q == it ==> x in Points(added);
        assert q != it ==> q in others;
      }
    }
    forall p | p in others + added && p !in rest ensures Apart(p, r) {
      if p in added {
        forall x: nat | In(p, x) ensures !In(r, x) { assert x in Points(added); }
      }
    }
  }

  /** When the walk is over, exactly the indices of r are gone. */
  lemma WalkOver(pieces: set<Region>, ahead: set<Region>, all: iset<nat>, r: Region)
    requires Removing(pieces, ahead, all, r) && forall p :: p in ahead ==> Apart(p, r)
    ensures Points(pieces) == all - PointsOf(r)
  {
    forall x: nat | x in Points(pieces) ensures x !in PointsOf(r) {
      var p :| p in pieces && In(p, x);
      assert Apart(p, r);
    }
  }
}
