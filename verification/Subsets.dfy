/** Data subsets: disjoint regions with union, difference, bounding, equality and membership. */
module Subsets {
  import opened Arith
  import opened Basics
  import opened Regions
  import opened RegionIntersection
  import opened RegionDifference
  import opened RegionMerging
  import opened RegionSets
  import opened RegionTouching

  const FULL: Region := Plain(0, MAX)

  class DataSubset {
    var regions: set<Region>

    ghost predicate Valid()
      reads this
    {
      Separate(regions)
    }

    ghost function Indices(): iset<nat>
      reads this
    {
      Points(regions)
    }

    constructor ()
      ensures Valid() && Indices() == iset{} && regions == {}
    {
      regions := {};
      new;
      assert Points({}) == iset{};
    }

    /** n blocks, each stride after the one before. */
    constructor Strided(first: nat, last: nat, n: nat, stride: nat)
      requires first <= last && n > 0 && (n == 1 || first + stride > last)
      requires last + Mul(n - 1, stride) <= MAX
      ensures Valid() && OneStride(regions)
      ensures Indices() == PointsOf(Region(first, last, n - 1, stride))
    {
      var r := Make(first, last, n - 1, stride);
      regions := {r};
      new;
      MakeValid(first, last, n - 1, stride);
      OneRegion(r);
      forall x: nat ensures x in PointsOf(r) <==> In(Region(first, last, n - 1, stride), x) {
        MakeDenotes(first, last, n - 1, stride, x);
      }
    }

    /** Simplified from a list of disjoint bounds. */
    constructor FromBounds(bounds: seq<(nat, nat)>)
      requires forall k :: 0 <= k < |bounds| ==> bounds[k].0 <= bounds[k].1 <= MAX
      requires forall j, k :: 0 <= j < k < |bounds| ==> bounds[j].1 < bounds[k].0 || bounds[k].1 < bounds[j].0
      ensures Valid() && OneStride(regions)
      ensures forall x: nat :: x in Indices() <==> exists k :: 0 <= k < |bounds| && bounds[k].0 <= x <= bounds[k].1
      ensures Canonical(regions)
    {
      regions := {};
      new;
      for k := 0 to |bounds|
        invariant regions == set j | 0 <= j < k :: Plain(bounds[j].0, bounds[j].1)
      {
        regions := regions + {Plain(bounds[k].0, bounds[k].1)};
      }
      PlainsSeparate(bounds, regions);
      ghost var plain := regions;
      MergeRegions();
      StridesShrink(regions, plain);
      forall r | r in regions ensures r.reps == 0 { assert r.reps > 0 ==> r.stride in Strides(regions); }
    }

    /** Walks the regions after c for one that touches it; joins the two and leaves c to be erased. */
    method JoinWithLater(c: Region) returns (erase: bool)
      requires Valid() && c in regions
      modifies this
      ensures !erase ==> regions == old(regions) && forall i :: i in Later(regions, c) ==> !Touches(c, i)
      ensures erase ==> exists i :: i in Later(old(regions), c) && Touches(c, i)
      ensures erase && Quiet(old(regions), c) ==> Quiet(regions - {c}, c)
      ensures erase ==> c in regions && Separate(regions - {c}) && Points(regions - {c}) == old(Indices())
      ensures erase ==> Strides(regions - {c}) <= Strides(old(regions))
      ensures erase ==> StartSet(regions - {c}) < StartSet(old(regions))
    {
      erase := false;
      var ahead := Later(regions, c);
      while ahead != {}
        invariant regions == old(regions) && ahead <= Later(regions, c)
        invariant forall q :: q in Later(regions, c) && q !in ahead ==> !Touches(c, q)
        decreases |ahead|
      {
        var i := First(ahead);
        LaterStartsAfter(c, i);
        if c.RangeEnd() < i.start - 1 {
          forall q | q in ahead ensures !Touches(c, q) { OutOfReach(c, q); }
          break;
        }
        var joint := FindJoint(c, i);
        JointExact(c, i);
        if joint.Some? {
          FoundJoins(c, i, joint.value);
          Replace(c, i, joint.value);
          return true;
        }
        ahead := ahead - {i};
      }
    }

    /** Puts what the joint leaves in the place of i. */
    method Replace(c: Region, i: Region, j: Joint)
      requires Valid() && c in regions && i in regions && c != i && Joins(c, i, j)
      requires i.start == c.end + 1 ==> j.first == 0
      requires forall q :: q in Later(regions, c) && Less(q, i) ==> !Touches(c, q)
      modifies this
      ensures Quiet(old(regions), c) ==> Quiet(regions - {c}, c)
      ensures c in regions && Separate(regions - {c}) && Points(regions - {c}) == old(Indices())
      ensures Strides(regions - {c}) <= Strides(old(regions))
      ensures StartSet(regions - {c}) < StartSet(old(regions))
    {
      ghost var t := Replaced(regions, c, i, j);
      var pieces := Replacement(c, i, j);
      InPlaceOf(regions, pieces, c, i);
      regions := regions + pieces - {i};
    }

    ghost function Pending(check: Option<Region>): set<Region>
      reads this
    {
      if check == None then {} else set r | r in regions && !Less(r, check.value)
    }

    /** Simplifies the regions in place: every join lowers the number of blocks, every other step moves on. */
    method MergeRegions()
      requires Valid()
      modifies this
      ensures Valid() && Indices() == old(Indices())
      ensures Strides(regions) <= Strides(old(regions)) && NoneTouch(regions)
    {
      var check: Option<Region> := None;
      if regions != {} {
        var f := First(regions);
        check := Some(f);
      }
      while check.Some?
        invariant Valid() && Indices() == old(Indices())
        invariant Strides(regions) <= Strides(old(regions))
        invariant if check.Some? then check.value in regions && Quiet(regions, check.value) else NoneTouch(regions)
        decreases StartSet(regions), Pending(check)
      {
        var c := check.value;
        ghost var before := Pending(check);
        var erase := JoinWithLater(c);
        if !erase { QuietMore(regions, c); }
        var later := Later(regions, c);
        if later == {} {
          check := None;
        } else {
          var n := First(later);
          check := Some(n);
        }
        if erase {
          regions := regions - {c};
        } else {
          assert c in before && c !in Pending(check);
        }
        forall a | a in regions && (check.Some? ==> Less(a, check.value)) ensures Still(a, regions) {
          assert Less(a, c) || a == c || a in later;
        }
      }
    }

    // ----- queries -----

    /** The first index, MAX when there is none. */
    method Start() returns (s: nat)
      requires Valid()
      ensures s <= MAX && (regions == {} ==> s == MAX)
      ensures regions != {} ==> s in Indices() && forall x: nat :: x in Indices() ==> s <= x
    {
      if regions == {} { return MAX; }
      var f := First(regions);
      s := f.start;
      OuterPoints(f);
      forall x: nat | Covers(regions, x) ensures s <= x {
        var r :| r in regions && In(r, x);
        InRange(r, x);
      }
      assert Covers(regions, s);
    }

    /** The last index, MAX when there is none. */
    method End() returns (e: nat)
      requires Valid()
      ensures e <= MAX && (regions == {} ==> e == MAX)
      ensures regions != {} ==> e in Indices() && forall x: nat :: x in Indices() ==> x <= e
      ensures regions != {} ==> forall r :: r in regions ==> r.RangeEnd() <= e
    {
      if regions == {} { return MAX; }
      e := 0;
      var ahead := regions;
      while ahead != {}
        invariant ahead <= regions
        invariant forall r :: r in regions && r !in ahead ==> r.RangeEnd() <= e
        invariant ahead == regions ==> e == 0
        invariant ahead != regions ==> exists r :: r in regions && e == r.RangeEnd()
        decreases |ahead|
      {
        var r := First(ahead);
        ahead := ahead - {r};
        e := Max(e, r.RangeEnd());
      }
      var r :| r in regions && e == r.RangeEnd();
      assert InBlock(r, r.reps, e);
      assert In(r, e) && Covers(regions, e);
      forall x: nat | Covers(regions, x) ensures x <= e {
        var q :| q in regions && In(q, x);
        InRange(q, x);
      }
    }

    /** The regions cut to [start, end]. */
    method BoundedRegions(start: nat, end: nat) returns (ret: set<Region>)
      requires Valid() && start <= end <= MAX
      ensures ret == Bound(regions, start, end)
      ensures AllValid(ret) && PairwiseApart(ret) && Strides(ret) <= Strides(regions)
      ensures Points(ret) == Indices() * Interval(start, end)
      ensures forall p :: p in ret ==> start <= p.start && p.RangeEnd() <= end
    {
      if regions == {} {
        assert Points({}) == iset{};
        return {};
      }
      var s := Start();
      var e := End();
      if start <= s && e <= end {
        ret := regions;
        AllWithin(regions, start, end);
      } else {
        assert s in Points(regions) && e in Points(regions);
        ret := CutRegions(start, end);
      }
      ForEachWithin(ret, start, end);
    }

    /** The parts of all regions between two indices. */
    method CutRegions(start: nat, end: nat) returns (ret: set<Region>)
      requires Valid() && start <= end <= MAX
      ensures CutSoFar(regions, {}, ret, start, end)
    {
      ret := {};
      var ahead := regions;
      CutNothing(regions, start, end);
      while ahead != {}
        invariant ahead <= regions && CutSoFar(regions, ahead, ret, start, end)
        decreases |ahead|
      {
        var r := First(ahead);
        if r.start > end {
          CutEnough(regions, ahead, ret, start, end);
          return;
        }
        CutStep(regions, ahead, ret, r, start, end);
        if r.RangeEnd() >= start {
          ret := ret + Intersect(r, Plain(start, end));
        }
        ahead := ahead - {r};
      }
    }

    /** Whether an index belongs to the subset. */
    method Includes(idx: nat) returns (yes: bool)
      requires Valid() && idx <= MAX
      ensures yes <==> idx in Indices()
    {
      var r := BoundedRegions(idx, idx);
      yes := r != {};
      AnyPoint(r, regions, idx);
    }

    // ----- union -----

    constructor Union(a: DataSubset, b: DataSubset)
      requires a.Valid() && b.Valid() && OneStride(a.regions) && OneStride(b.regions)
      ensures Valid() && OneStride(regions)
      ensures Indices() == a.Indices() + b.Indices()
      ensures (a.regions == {} ==> regions == b.regions) && (b.regions == {} ==> regions == a.regions)
      ensures a.regions != {} && b.regions != {} ==> NoneTouch(regions)
    {
      var combined, simplify := Combine(a.regions, b.regions);
      regions := combined;
      new;
      if simplify {
        MergeRegions();
        StridesShrink(regions, combined);
      }
    }

    /** The regions of a, cut into blocks if the strides differ, plus what b adds to them. */
    static method Combine(a: set<Region>, b: set<Region>) returns (sofar: set<Region>, simplify: bool)
      requires Separate(a) && Separate(b) && OneStride(a) && OneStride(b)
      ensures Separate(sofar) && OneStride(sofar) && Points(sofar) == Points(a) + Points(b)
      ensures a == {} || b == {} ==> !simplify && sofar == a + b
      ensures a != {} && b != {} && !simplify ==> sofar == {FULL}
    {
      if a == {} || b == {} {
        assert Points({}) == iset{};
        return if a == {} then b else a, false;
      }
      if FULL in a || FULL in b {
        FullCovers(a, b);
        return {FULL}, false;
      }
      var aStride := LastStride(a);
      var bStride := LastStride(b);
      ghost var stride := if bStride != 0 then bStride else aStride;
      sofar := a;
      if aStride != 0 && bStride != 0 && aStride != bStride {
        sofar := SingleBlocks(a);
      }
      var ahead := b;
      assert b - ahead == {};
      assert Points({}) == iset{};
      while ahead != {}
        invariant ahead <= b
        invariant AllValid(sofar) && PairwiseApart(sofar) && StrideIs(sofar, stride)
        invariant Points(sofar) == Points(a) + Points(b - ahead)
        decreases |ahead|
      {
        var br := First(ahead);
        var adding := Additions(br, sofar, stride);
        Extend(a, b, ahead, sofar, br, adding, stride);
        sofar := sofar + adding;
        ahead := ahead - {br};
      }
      assert b - ahead == b;
      StrideIsSeparate(sofar, stride);
      simplify := true;
    }

    /** The pieces of br outside all regions of sofar. */
    static method Additions(br: Region, sofar: set<Region>, ghost stride: nat) returns (adding: set<Region>)
      requires br.Valid() && AllValid(sofar) && PairwiseApart(sofar) && StrideIs(sofar + {br}, stride)
      ensures Pieces(adding, stride, PointsOf(br) - Points(sofar))
    {
      var bend := br.RangeEnd();
      adding := {br};
      OneRegion(br);
      var ahead := sofar;
      assert Points(sofar - ahead) == iset{};
      while ahead != {}
        invariant ahead <= sofar && forall p, q :: p in sofar - ahead && q in ahead ==> Less(p, q)
        invariant Pieces(adding, stride, PointsOf(br) - Points(sofar - ahead))
        decreases |ahead|
      {
        var r := First(ahead);
        if r.start > bend {
          break;
        }
        ghost var rest := PointsOf(br) - Points(sofar - ahead);
        if r.RangeEnd() >= br.start {
          adding := RemoveFrom(adding, r, stride, rest);
        } else {
          OutOfRange(br, r);
          assert rest == rest - PointsOf(r);
        }
        VisitNext(sofar, ahead, r);
        assert rest - PointsOf(r) == PointsOf(br) - Points(sofar - (ahead - {r}));
        ahead := ahead - {r};
      }
      BeyondEnd(br, sofar, ahead);
    }

    /** Removes r from every piece, walking the pieces while replacing them. */
    static method RemoveFrom(adding0: set<Region>, r: Region, ghost stride: nat, ghost all: iset<nat>)
      returns (adding: set<Region>)
      requires r.Valid() && (r.reps > 0 ==> r.stride == stride) && Pieces(adding0, stride, all)
      ensures Pieces(adding, stride, all - PointsOf(r))
    {
      adding := adding0;
      var ahead := adding;
      while ahead != {}
        invariant Removing(adding, ahead, all, r) && StrideIs(adding, stride)
        decreases Waiting(ahead)
      {
        var it := First(ahead);
        var valid := Minus(it, r);
        ghost var now := ahead;
        if valid == {it} {
          ahead := ahead - {it};
          assert adding - {it} + valid == adding;
        } else {
          ahead := Resume(ahead - {it}, valid);
        }
        StepRemoves(adding, now, all, r, it, valid, ahead);
        WaitingShrinks(adding, now, it, valid, ahead);
        adding := adding - {it} + valid;
      }
      WalkOver(adding, ahead, all, r);
    }

    // ----- difference -----

    /** What this subset has and other lacks. Operands of different strides must not both be unbounded. */
    method Difference(other: DataSubset) returns (c: DataSubset)
      requires Valid() && other.Valid() && OneStride(regions) && OneStride(other.regions)
      requires OneStride(regions + other.regions) || Bounded(regions) || Bounded(other.regions)
      ensures fresh(c) && c.Valid() && c.Indices() == Indices() - other.Indices()
      ensures OneStride(regions + other.regions) ==> OneStride(c.regions)
      ensures if regions == {} || other.regions == {} then c.regions == regions else NoneTouch(c.regions)
    {
      c := new DataSubset();
      if regions == {} || other.regions == {} {
        c.regions := regions;
        assert Points({}) == iset{};
        assert c.Indices() == Indices() - other.Indices();
        return;
      }
      var aStride := LastStride(regions);
      var bStride := LastStride(other.regions);
      ghost var s, cut := if bStride != 0 then bStride else aStride, MAX;
      var remaining := regions;
      if aStride != 0 && bStride != 0 && aStride != bStride {
        var bEnd := other.End();
        cut := bEnd;
        remaining := CutAt(bEnd, s, aStride);
      }
      remaining := SubtractAll(remaining, other.regions, Indices(), s, aStride, cut);
      c.regions := remaining;
      SidesSeparate(remaining, s, aStride, cut);
      c.MergeRegions();
      if OneStride(regions + other.regions) {
        SidesOneStride(remaining, s, aStride);
        StridesShrink(c.regions, remaining);
      }
    }

    /** For operands of different strides: single blocks up to cut, regions as they are beyond. */
    method CutAt(cut: nat, ghost s: nat, ghost aStride: nat) returns (remaining: set<Region>)
      requires Valid() && cut <= MAX && StrideIs(regions, aStride)
      ensures AllValid(remaining) && PairwiseApart(remaining) && AllSides(remaining, s, aStride, cut)
      ensures Points(remaining) == Indices()
    {
      var lower := BoundedRegions(0, cut);
      remaining := SingleBlocks(lower);
      ForEachWithin(remaining, 0, cut);
      ghost var low := remaining;
      if cut != MAX {
        var upper := BoundedRegions(cut + 1, MAX);
        forall r | r in upper && r.reps > 0 ensures r.stride == aStride {
          assert r.stride in Strides(upper);
        }
        forall x: nat | Covers(low, x) ensures !Covers(upper, x) {
          assert x in Points(low) && (Covers(upper, x) <==> x in Points(upper));
        }
        ApartUnion(low, upper);
        PointsUnion(low, upper);
        remaining := remaining + upper;
      }
      AllBelowMax(regions);
      assert Points(remaining) == Indices();
    }

    static method SubtractAll(remaining0: set<Region>, bs: set<Region>, ghost all: iset<nat>,
        ghost s: nat, ghost aStride: nat, ghost cut: nat) returns (remaining: set<Region>)
      requires AllValid(bs) && StrideIs(bs, s) && forall b :: b in bs ==> b.RangeEnd() <= cut
      requires AllValid(remaining0) && PairwiseApart(remaining0) && AllSides(remaining0, s, aStride, cut)
      requires Points(remaining0) == all
      ensures AllValid(remaining) && PairwiseApart(remaining) && AllSides(remaining, s, aStride, cut)
      ensures Points(remaining) == all - Points(bs)
    {
      remaining := remaining0;
      var ahead := bs;
      assert Points(bs - ahead) == iset{};
      while ahead != {}
        invariant ahead <= bs
        invariant AllValid(remaining) && PairwiseApart(remaining) && AllSides(remaining, s, aStride, cut)
        invariant Points(remaining) == all - Points(bs - ahead)
        decreases |ahead|
      {
        var b := First(ahead);
        remaining := SubtractFrom(remaining, b, Points(remaining), s, aStride, cut);
        VisitNext(bs, ahead, b);
        ahead := ahead - {b};
      }
      assert bs - ahead == bs;
    }

    /** Removes b from the regions it can meet, walking them while replacing them. */
    static method SubtractFrom(remaining0: set<Region>, b: Region, ghost all: iset<nat>,
        ghost s: nat, ghost aStride: nat, ghost cut: nat) returns (remaining: set<Region>)
      requires b.Valid() && b.RangeEnd() <= cut && (b.reps > 0 ==> b.stride == s)
      requires AllValid(remaining0) && PairwiseApart(remaining0) && AllSides(remaining0, s, aStride, cut)
      requires Points(remaining0) == all
      ensures AllValid(remaining) && PairwiseApart(remaining) && AllSides(remaining, s, aStride, cut)
      ensures Points(remaining) == all - PointsOf(b)
    {
      remaining := remaining0;
      var ahead := remaining;
      while ahead != {}
        invariant Removing(remaining, ahead, all, b) && AllSides(remaining, s, aStride, cut)
        decreases Waiting(ahead)
      {
        var it := First(ahead);
        if b.start > it.RangeEnd() {
          RangesApart(it, b);
          PassedShrinks(remaining, ahead, it);
          ahead := ahead - {it};
          continue;
        }
        if it.start > b.RangeEnd() {
          forall p | p in ahead ensures Apart(p, b) { RangesApart(p, b); }
          break;
        }
        var pieces := Minus(it, b);
        var rest := Resume(ahead - {it}, pieces);
        StepRemoves(remaining, ahead, all, b, it, pieces, rest);
        WaitingShrinks(remaining, ahead, it, pieces, rest);
        PieceSides(it, b, pieces, s, aStride, cut);
        remaining, ahead := remaining - {it} + pieces, rest;
      }
      WalkOver(remaining, ahead, all, b);
    }

    // ----- equality and inclusion -----

    /** Equality of index sets, except that unbounded operands of different strides are called different. */
    method Equals(other: DataSubset) returns (same: bool)
      requires Valid() && other.Valid() && OneStride(regions) && OneStride(other.regions)
      ensures same <==> (Indices() == other.Indices()
        && (OneStride(regions + other.regions) || Bounded(regions) || Bounded(other.regions)))
    {
      var s := Start();
      var os := other.Start();
      EmptyIffNone(regions);
      EmptyIffNone(other.regions);
      if s != os { return false; }
      if (regions == {}) != (other.regions == {}) { return false; }
      if regions == other.regions {
        assert regions + other.regions == regions;
        return true;
      }
      var e := End();
      var oe := other.End();
      if e != oe { return false; }
      var aStride := LastStride(regions);
      var bStride := LastStride(other.regions);
      if aStride != 0 && bStride != 0 && aStride != bStride && e == MAX {
        ReachesMax(regions);
        ReachesMax(other.regions);
        return false;
      }
      same := NothingLeft(other);
    }

    method NothingLeft(other: DataSubset) returns (same: bool)
      requires Valid() && other.Valid() && OneStride(regions) && OneStride(other.regions)
      requires OneStride(regions + other.regions) || Bounded(regions) || Bounded(other.regions)
      ensures same <==> Indices() == other.Indices()
    {
      assert other.regions + regions == regions + other.regions;
      var d := Difference(other);
      var d' := other.Difference(this);
      EmptyIffNone(d.regions);
      EmptyIffNone(d'.regions);
      same := d.regions == {} && d'.regions == {};
      MutualDifference(Indices(), other.Indices());
    }

    /** Whether [0, end] is included without gaps. */
    method IncludesAll(end: nat) returns (yes: bool)
      requires Valid() && OneStride(regions) && end <= MAX
      ensures yes <==> Interval(0, end) <= Indices()
    {
      var remaining := {Plain(0, end)};
      ghost var s := AnyStride(regions);
      OneRegion(Plain(0, end));
      PlainInterval(0, end);
      var ahead := regions;
      assert Points(regions - ahead) == iset{};
      while ahead != {}
        invariant ahead <= regions && forall p, q :: p in regions - ahead && q in ahead ==> Less(p, q)
        invariant Pieces(remaining, s, Interval(0, end) - Points(regions - ahead))
        decreases |ahead|
      {
        var r := First(ahead);
        if r.start > end {
          break;
        }
        remaining := RemoveFrom(remaining, r, s, Interval(0, end) - Points(regions - ahead));
        VisitNext(regions, ahead, r);
        assert Interval(0, end) - Points(regions - ahead) - PointsOf(r)
            == Interval(0, end) - Points(regions - (ahead - {r}));
        ahead := ahead - {r};
      }
      OneRegion(Plain(0, end));
      BeyondEnd(Plain(0, end), regions, ahead);
      EmptyIffNone(remaining);
      yes := remaining == {};
    }
  }

  // ----- the walks of the difference -----

  /** On each side of cut a strided region has the stride of that side, and none straddles it. */
  ghost predicate Sides(p: Region, s: nat, aStride: nat, cut: nat) {
    || (p.RangeEnd() <= cut && (p.reps > 0 ==> p.stride == s))
    || (cut < p.start && (p.reps > 0 ==> p.stride == aStride))
  }

  ghost predicate AllSides(t: set<Region>, s: nat, aStride: nat, cut: nat) {
    forall p :: p in t ==> Sides(p, s, aStride, cut)
  }

  lemma SidesSeparate(t: set<Region>, s: nat, aStride: nat, cut: nat)
    requires AllValid(t) && PairwiseApart(t) && AllSides(t, s, aStride, cut)
    ensures Separate(t)
  {
    forall a, b | a in t && b in t ensures Comparable(a, b) {
      assert Sides(a, s, aStride, cut) && Sides(b, s, aStride, cut);
    }
  }

  lemma SidesOneStride(t: set<Region>, s: nat, aStride: nat)
    requires AllValid(t) && AllSides(t, s, aStride, MAX)
    ensures OneStride(t)
  {
    forall p | p in t && p.reps > 0 ensures p.stride == s {
      assert Sides(p, s, aStride, MAX);
    }
  }

  lemma RangesApart(a: Region, b: Region)
    requires a.RangeEnd() < b.start || b.RangeEnd() < a.start
    ensures Apart(a, b)
  {
    OutOfRange(a, b);
    forall x: nat | In(a, x) ensures !In(b, x) {
      assert x in PointsOf(a);
    }
  }

  lemma PassedShrinks(pieces: set<Region>, ahead: set<Region>, it: Region)
    requires AllValid(pieces) && PairwiseApart(pieces) && ahead <= pieces && IsFirst(it, ahead)
    ensures Waiting(ahead - {it}) < Waiting(ahead)
  {
    assert Points({}) == iset{};
    WaitingShrinks(pieces, ahead, it, {}, ahead - {it});
  }

  lemma PieceSides(it: Region, b: Region, pieces: set<Region>, s: nat, aStride: nat, cut: nat)
    requires Sides(it, s, aStride, cut) && b.RangeEnd() <= cut && (b.reps > 0 ==> b.stride == s)
    requires AllValid(pieces) && Points(pieces) <= PointsOf(it)
    requires forall r :: r in pieces && r.reps > 0 ==>
      (it.reps > 0 && r.stride == it.stride) || (b.reps > 0 && r.stride == b.stride && RangesMeet(it, b))
    ensures AllSides(pieces, s, aStride, cut)
  {
    forall p | p in pieces ensures Sides(p, s, aStride, cut) {
      PieceStartsLater(it, pieces, p);
    }
  }

  lemma AllBelowMax(s: set<Region>)
    requires AllValid(s)
    ensures forall x: nat :: x in Points(s) ==> x <= MAX
  {
    forall x: nat | x in Points(s) ensures x <= MAX {
      var r :| r in s && In(r, x);
      InRange(r, x);
    }
  }

  lemma EmptyIffNone(s: set<Region>)
    requires AllValid(s)
    ensures s == {} <==> Points(s) == iset{}
  {
    if r :| r in s {
      OuterPoints(r);
      assert Covers(s, r.start);
      assert r.start in Points(s);
    }
  }

  lemma PlainsSeparate(bounds: seq<(nat, nat)>, s: set<Region>)
    requires forall k :: 0 <= k < |bounds| ==> bounds[k].0 <= bounds[k].1 <= MAX
    requires forall j, k :: 0 <= j < k < |bounds| ==> bounds[j].1 < bounds[k].0 || bounds[k].1 < bounds[j].0
    requires s == set j | 0 <= j < |bounds| :: Plain(bounds[j].0, bounds[j].1)
    ensures Separate(s) && OneStride(s)
    ensures forall x: nat :: x in Points(s) <==> exists k :: 0 <= k < |bounds| && bounds[k].0 <= x <= bounds[k].1
  {
    forall a, b | a in s && b in s && a != b ensures Apart(a, b) {
      var j :| 0 <= j < |bounds| && a == Plain(bounds[j].0, bounds[j].1);
      var k :| 0 <= k < |bounds| && b == Plain(bounds[k].0, bounds[k].1);
      RangesApart(a, b);
    }
    forall x: nat ensures x in Points(s) <==> exists k :: 0 <= k < |bounds| && bounds[k].0 <= x <= bounds[k].1 {
      if r :| r in s && In(r, x) { InPlain(r, x); }
      if k :| 0 <= k < |bounds| && bounds[k].0 <= x <= bounds[k].1 {
        InPlain(Plain(bounds[k].0, bounds[k].1), x);
        assert Plain(bounds[k].0, bounds[k].1) in s;
      }
    }
  }

  lemma MutualDifference(a: iset<nat>, b: iset<nat>)
    ensures a == b <==> a - b == iset{} && b - a == iset{}
  {
    if a - b == iset{} && b - a == iset{} {
      forall x: nat ensures x in a <==> x in b {
        assert x !in a - b && x !in b - a;
      }
    }
  }

  lemma ReachesMax(s: set<Region>)
    requires AllValid(s) && MAX in Points(s)
    ensures !Bounded(s)
  {
    var r :| r in s && In(r, MAX);
    InRange(r, MAX);
  }

  lemma PlainInterval(first: nat, last: nat)
    ensures PointsOf(Plain(first, last)) == Interval(first, last)
  {
    forall x: nat ensures In(Plain(first, last), x) <==> Between(first, last, x) {
      InPlain(Plain(first, last), x);
    }
  }

  ghost function AnyStride(s: set<Region>): (stride: nat)
    requires AllValid(s) && OneStride(s)
    ensures StrideIs(s, stride)
  {
    if r :| r in s && r.reps > 0 then r.stride else 0
  }

  // ----- strides -----

  /** The stride of the last strided region, 0 when there is none. */
  method LastStride(s: set<Region>) returns (stride: nat)
    requires AllValid(s)
    ensures stride == 0 ==> forall r :: r in s ==> r.reps == 0
    ensures stride != 0 ==> exists r :: r in s && r.reps > 0 && r.stride == stride
    ensures OneStride(s) ==> StrideIs(s, stride)
  {
    stride := 0;
    var ahead := s;
    while ahead != {}
      invariant ahead <= s
      invariant stride == 0 ==> forall r :: r in s && r !in ahead ==> r.reps == 0
      invariant stride != 0 ==> exists r :: r in s && r.reps > 0 && r.stride == stride
      decreases |ahead|
    {
      var r := First(ahead);
      ahead := ahead - {r};
      if r.reps > 0 { stride := r.stride; }
    }
  }

  /** Every block on its own. */
  method SingleBlocks(s: set<Region>) returns (out: set<Region>)
    requires AllValid(s) && PairwiseApart(s)
    ensures AllValid(out) && PairwiseApart(out) && Points(out) == Points(s)
    ensures forall r :: r in out ==> r.reps == 0
  {
    out := {};
    var ahead := s;
    assert s - ahead == {};
    while ahead != {}
      invariant ahead <= s
      invariant AllValid(out) && PairwiseApart(out) && Points(out) == Points(s - ahead)
      invariant forall r :: r in out ==> r.reps == 0
      decreases |ahead|
    {
      var r := First(ahead);
      var blocks := {};
      assert Points(blocks) == BlockPoints(r, 0, -1);
      for i := 0 to r.reps + 1
        invariant AllValid(blocks) && PairwiseApart(blocks) && Points(blocks) == BlockPoints(r, 0, i - 1)
        invariant forall q :: q in blocks ==> q.reps == 0
      {
        OneMoreBlock(r, i, blocks);
        blocks := blocks + {r.Rep(i)};
      }
      assert BlockPoints(r, 0, r.reps) == PointsOf(r);
      VisitNext(s, ahead, r);
      forall x: nat | Covers(out, x) ensures !Covers(blocks, x) {
        assert x in Points(out) && (Covers(blocks, x) <==> x in Points(blocks));
        var q :| q in s - ahead && In(q, x);
        assert Apart(q, r);
      }
      ApartUnion(out, blocks);
      PointsUnion(out, blocks);
      out := out + blocks;
      ahead := ahead - {r};
    }
    assert s - ahead == s;
  }

  lemma OneMoreBlock(r: Region, i: nat, blocks: set<Region>)
    requires r.Valid() && i <= r.reps
    requires AllValid(blocks) && PairwiseApart(blocks) && Points(blocks) == BlockPoints(r, 0, i - 1)
    ensures r.Rep(i).Valid() && PairwiseApart(blocks + {r.Rep(i)})
    ensures Points(blocks + {r.Rep(i)}) == BlockPoints(r, 0, i)
  {
    RepDenotes(r, i, 0);
    forall x: nat ensures Covers({r.Rep(i)}, x) <==> InBlocks(r, i, i, x)
      ensures Covers(blocks, x) ==> !Covers({r.Rep(i)}, x)
      ensures Covers(blocks + {r.Rep(i)}, x) <==> InBlocks(r, 0, i, x)
    {
      RepDenotes(r, i, x);
      OnlyMember(r.Rep(i), x);
      assert Covers(blocks, x) <==> x in Points(blocks);
      SplitBlocks(r, 0, i - 1, i, x);
      CoversUnion(blocks, {r.Rep(i)}, x);
    }
    ApartUnion(blocks, {r.Rep(i)});
    assert Points(blocks + {r.Rep(i)}) == BlockPoints(r, 0, i);
  }

  lemma PointsUnion(s: set<Region>, t: set<Region>)
    ensures Points(s + t) == Points(s) + Points(t)
  {
    forall x: nat ensures Covers(s + t, x) <==> Covers(s, x) || Covers(t, x) {
      CoversUnion(s, t, x);
    }
  }

  lemma OneRegion(r: Region)
    ensures Points({r}) == PointsOf(r)
  {
    forall x: nat ensures Covers({r}, x) <==> In(r, x) { OnlyMember(r, x); }
  }

  /** Passing r adds its indices to those of the regions already passed. */
  lemma VisitNext(s: set<Region>, ahead: set<Region>, r: Region)
    requires ahead <= s && r in ahead
    ensures Points(s - (ahead - {r})) == Points(s - ahead) + PointsOf(r)
  {
    assert s - (ahead - {r}) == s - ahead + {r};
    PointsUnion(s - ahead, {r});
    OneRegion(r);
  }

  lemma FullCovers(s: set<Region>, t: set<Region>)
    requires AllValid(s) && AllValid(t) && FULL in s + t
    ensures FULL.Valid() && Points({FULL}) == Points(s) + Points(t) && Separate({FULL})
  {
    OneRegion(FULL);
    PointsUnion(s, t);
    forall x: nat ensures x in PointsOf(FULL) <==> x in Points(s + t) {
      InPlain(FULL, x);
      if r :| r in s + t && In(r, x) { InRange(r, x); }
      if In(FULL, x) { assert Covers(s + t, x); }
    }
  }

  lemma StrideIsSeparate(s: set<Region>, stride: nat)
    requires AllValid(s) && PairwiseApart(s) && StrideIs(s, stride)
    ensures Separate(s)
  {
  }

  lemma StridesShrink(t: set<Region>, s: set<Region>)
    requires Strides(t) <= Strides(s) && OneStride(s)
    ensures OneStride(t)
  {
    forall p, q | p in t && q in t && p.reps > 0 && q.reps > 0 ensures p.stride == q.stride {
      assert p.stride in Strides(t) && q.stride in Strides(t);
    }
  }

  // ----- the walks of the union -----

  lemma Extend(a: set<Region>, b: set<Region>, ahead: set<Region>, sofar: set<Region>,
      br: Region, adding: set<Region>, stride: nat)
    requires AllValid(sofar) && PairwiseApart(sofar) && StrideIs(sofar, stride) && ahead <= b && br in ahead
    requires Points(sofar) == Points(a) + Points(b - ahead)
    requires Pieces(adding, stride, PointsOf(br) - Points(sofar))
    ensures AllValid(sofar + adding) && PairwiseApart(sofar + adding) && StrideIs(sofar + adding, stride)
    ensures Points(sofar + adding) == Points(a) + Points(b - (ahead - {br}))
  {
    forall x: nat | Covers(sofar, x) ensures !Covers(adding, x) {
      assert x in Points(sofar) && x !in Points(adding);
    }
    ApartUnion(sofar, adding);
    PointsUnion(sofar, adding);
    VisitNext(b, ahead, br);
  }

  lemma OutOfRange(a: Region, b: Region)
    requires a.RangeEnd() < b.start || b.RangeEnd() < a.start
    ensures PointsOf(a) !! PointsOf(b)
  {
    forall x: nat | In(a, x) ensures !In(b, x) {
      InRange(a, x);
      if In(b, x) { InRange(b, x); }
    }
  }

  lemma BeyondEnd(br: Region, s: set<Region>, ahead: set<Region>)
    requires ahead <= s && forall q :: q in ahead ==> q.start > br.RangeEnd()
    ensures PointsOf(br) - Points(s - ahead) == PointsOf(br) - Points(s)
  {
    forall x: nat | In(br, x) && Covers(s, x) ensures Covers(s - ahead, x) {
      InRange(br, x);
      var q :| q in s && In(q, x);
      InRange(q, x);
      assert q in s - ahead;
    }
    forall x: nat | Covers(s - ahead, x) ensures Covers(s, x) {
      var q :| q in s - ahead && In(q, x);
      assert q in s;
    }
  }

  lemma AnyPoint(r: set<Region>, s: set<Region>, idx: nat)
    requires AllValid(r) && Points(r) == Points(s) * Interval(idx, idx)
    ensures r != {} <==> idx in Points(s)
  {
    if p :| p in r {
      OuterPoints(p);
      assert Covers(r, p.start);
      assert p.start in Points(r) && p.start in Interval(idx, idx);
    }
    assert idx in Interval(idx, idx);
    assert idx in Points(s) ==> idx in Points(r);
    assert idx in Points(r) ==> Covers(r, idx);
  }

  // ----- bounding -----

  /** The cut regions as a function of the set: the regions themselves when nothing lies outside. */
  ghost function Bound(s: set<Region>, start: nat, end: nat): set<Region>
    requires AllValid(s) && start <= end <= MAX
  {
    if Points(s) <= Interval(start, end) then s else CutEach(s, start, end)
  }

  ghost function CutEach(s: set<Region>, start: nat, end: nat): set<Region>
    requires AllValid(s) && start <= end <= MAX
  {
    set r, p | r in s && p in Intersect(r, Plain(start, end)) :: p
  }

  lemma CutOne(s: set<Region>, ahead: set<Region>, r: Region, start: nat, end: nat)
    requires AllValid(s) && ahead <= s && r in ahead && start <= end <= MAX && r.start <= end
    ensures CutEach(s - (ahead - {r}), start, end) == CutEach(s - ahead, start, end)
      + if r.RangeEnd() >= start then Intersect(r, Plain(start, end)) else {}
  {
    assert s - (ahead - {r}) == s - ahead + {r};
  }

  lemma CutRest(s: set<Region>, ahead: set<Region>, start: nat, end: nat)
    requires AllValid(s) && ahead <= s && start <= end <= MAX && forall r :: r in ahead ==> r.start > end
    ensures CutEach(s, start, end) == CutEach(s - ahead, start, end)
  {
  }

  /** All regions but those ahead have been cut. */
  ghost predicate CutSoFar(s: set<Region>, ahead: set<Region>, ret: set<Region>, start: nat, end: nat)
    requires AllValid(s) && ahead <= s && start <= end <= MAX
  {
    && AllValid(ret) && PairwiseApart(ret) && Strides(ret) <= Strides(s)
    && Points(ret) == Points(s - ahead) * Interval(start, end)
    && ret == CutEach(s - ahead, start, end)
  }

  lemma CutNothing(s: set<Region>, start: nat, end: nat)
    requires AllValid(s) && start <= end <= MAX
    ensures CutSoFar(s, s, {}, start, end)
  {
    assert s - s == {};
    assert Points({}) == iset{};
  }

  lemma CutStep(s: set<Region>, ahead: set<Region>, ret: set<Region>, r: Region, start: nat, end: nat)
    requires Separate(s) && ahead <= s && r in ahead && start <= end <= MAX && r.start <= end
    requires CutSoFar(s, ahead, ret, start, end)
    ensures var t := if r.RangeEnd() >= start then ret + Intersect(r, Plain(start, end)) else ret;
            CutSoFar(s, ahead - {r}, t, start, end)
  {
    BoundOne(s, ahead, ret, r, start, end);
    CutOne(s, ahead, r, start, end);
  }

  lemma CutEnough(s: set<Region>, ahead: set<Region>, ret: set<Region>, start: nat, end: nat)
    requires AllValid(s) && ahead <= s && start <= end <= MAX && CutSoFar(s, ahead, ret, start, end)
    requires exists r :: IsFirst(r, ahead) && r.start > end
    ensures CutSoFar(s, {}, ret, start, end)
  {
    NothingBefore(ahead, end);
    BoundRest(s, ahead, start, end);
    CutRest(s, ahead, start, end);
    assert s - {} == s;
  }

  lemma AllWithin(s: set<Region>, start: nat, end: nat)
    requires start <= end && forall x: nat :: x in Points(s) ==> start <= x <= end
    ensures Points(s) == Points(s) * Interval(start, end) && Points(s) <= Interval(start, end)
  {
    forall x: nat | x in Points(s) ensures x in Interval(start, end) { assert Between(start, end, x); }
  }

  lemma ForEachWithin(s: set<Region>, start: nat, end: nat)
    requires AllValid(s) && Points(s) <= Interval(start, end)
    ensures forall p :: p in s ==> start <= p.start && p.RangeEnd() <= end
  {
    forall p | p in s ensures start <= p.start && p.RangeEnd() <= end {
      assert InBlock(p, 0, p.start) && InBlock(p, p.reps, p.RangeEnd());
      assert In(p, p.start) && In(p, p.RangeEnd());
      assert Covers(s, p.start) && Covers(s, p.RangeEnd());
      assert p.start in Points(s) && p.RangeEnd() in Points(s);
    }
  }

  lemma NothingBefore(ahead: set<Region>, end: nat)
    requires AllValid(ahead) && exists r :: IsFirst(r, ahead) && r.start > end
    ensures forall x: nat :: Covers(ahead, x) ==> x > end
  {
    forall x: nat | Covers(ahead, x) ensures x > end {
      var r :| r in ahead && In(r, x);
      InRange(r, x);
    }
  }

  lemma BoundOne(s: set<Region>, ahead: set<Region>, ret: set<Region>, r: Region, start: nat, end: nat)
    requires Separate(s) && ahead <= s && r in ahead && start <= end <= MAX
    requires AllValid(ret) && PairwiseApart(ret) && Strides(ret) <= Strides(s)
    requires Points(ret) == Points(s - ahead) * Interval(start, end)
    ensures var t := if r.RangeEnd() >= start then ret + Intersect(r, Plain(start, end)) else ret;
      && AllValid(t) && PairwiseApart(t) && Strides(t) <= Strides(s)
      && Points(t) == Points(s - (ahead - {r})) * Interval(start, end)
  {
    var cut := Intersect(r, Plain(start, end));
    ClipPieces(r, start, end, r.stride);
    forall x: nat ensures Covers(s - (ahead - {r}), x) <==> Covers(s - ahead, x) || In(r, x) {
      OnlyMember(r, x);
      CoversUnion(s - ahead, {r}, x);
      assert s - ahead + {r} == s - (ahead - {r});
    }
    forall x: nat | Covers(ret, x) ensures !Covers(cut, x) {
      assert x in Points(ret);
      var q :| q in s - ahead && In(q, x);
      assert Apart(q, r);
      assert Covers(cut, x) <==> x in Points(cut);
    }
    if r.RangeEnd() >= start {
      ApartUnion(ret, cut);
      forall x: nat ensures Covers(ret + cut, x) <==> Covers(s - (ahead - {r}), x) && Between(start, end, x) {
        CoversUnion(ret, cut, x);
        assert (Covers(ret, x) <==> x in Points(ret)) && (Covers(cut, x) <==> x in Points(cut));
      }
      assert Points(ret + cut) == Points(s - (ahead - {r})) * Interval(start, end);
      IntersectShape(r, Plain(start, end));
      assert r.reps > 0 ==> r.stride in Strides(s);
    } else {
      forall x: nat | In(r, x) ensures !Between(start, end, x) { InRange(r, x); }
      assert Points(ret) == Points(s - (ahead - {r})) * Interval(start, end);
    }
  }

  lemma BoundRest(s: set<Region>, ahead: set<Region>, start: nat, end: nat)
    requires ahead <= s && forall x: nat :: Covers(ahead, x) ==> x > end
    ensures Points(s - ahead) * Interval(start, end) == Points(s) * Interval(start, end)
  {
    forall x: nat ensures Covers(s, x) <==> Covers(s - ahead, x) || Covers(ahead, x) {
      CoversUnion(s - ahead, ahead, x);
      assert s - ahead + ahead == s;
    }
  }
}
