/** Difference of two regions, with the merging of adjacent pieces it relies on. */
module RegionDifference {
  import opened Arith
  import opened Basics
  import opened Regions
  import opened RegionIntersection

  // ----- the order of a region set -----

  predicate Less(a: Region, b: Region) {
    if a.start != b.start then a.start < b.start
    else if a.end != b.end then a.end < b.end
    else if a.reps != b.reps then a.reps < b.reps
    else a.stride < b.stride
  }

  ghost predicate IsFirst(r: Region, s: set<Region>) {
    r in s && forall q :: q in s ==> q == r || Less(r, q)
  }

  ghost predicate IsLast(r: Region, s: set<Region>) {
    r in s && forall q :: q in s ==> q == r || Less(q, r)
  }

  lemma {:induction false} FirstExists(s: set<Region>) returns (r: Region)
    requires s != {}
    ensures IsFirst(r, s)
  {
    r :| r in s;
    var rest := s - {r};
    if rest != {} {
      var q := FirstExists(rest);
      var r0 := r;
      if Less(q, r) { r := q; }
      forall p | p in s ensures p == r || Less(r, p) {
        assert p == r0 || p in rest;
      }
    } else {
      assert s == {r};
    }
  }

  lemma {:induction false} LastExists(s: set<Region>) returns (r: Region)
    requires s != {}
    ensures IsLast(r, s)
  {
    r :| r in s;
    var rest := s - {r};
    if rest != {} {
      var q := LastExists(rest);
      var r0 := r;
      if Less(r, q) { r := q; }
      forall p | p in s ensures p == r || Less(p, r) {
        assert p == r0 || p in rest;
      }
    } else {
      assert s == {r};
    }
  }

  method First(s: set<Region>) returns (r: Region)
    requires s != {}
    ensures IsFirst(r, s)
  {
    ghost var w := FirstExists(s);
    r :| r in s && forall q :: q in s ==> q == r || Less(r, q);
  }

  method Last(s: set<Region>) returns (r: Region)
    requires s != {}
    ensures IsLast(r, s)
  {
    ghost var w := LastExists(s);
    r :| r in s && forall q :: q in s ==> q == r || Less(q, r);
  }

  // ----- merging -----

  function TryMerge(a: Region, b: Region): Option<Region> {
    if Less(b, a) then TryMergeOrdered(b, a) else TryMergeOrdered(a, b)
  }

  function TryMergeOrdered(a: Region, b: Region): Option<Region> {
    if a.RangeEnd() == MAX then None
    else if a.reps == 0 && b.reps == 0 then
      if a.end + 1 == b.start then Some(Plain(a.start, b.end)) else None
    else
      var s := if a.reps > 0 then a.stride else b.stride;
      if a.start + Mul(a.reps + 1, s) == b.start && a.end + Mul(a.reps + 1, s) == b.end
      then Some(Make(a.start, a.end, a.reps + b.reps + 1, s))
      else None
  }

  ghost predicate SameStride(a: Region, b: Region) {
    a.reps > 0 && b.reps > 0 ==> a.stride == b.stride
  }

  lemma ChainValid(a: Region, b: Region, s: nat)
    requires a.Valid() && b.Valid() && (a.reps > 0 ==> a.stride == s) && (b.reps > 0 ==> b.stride == s)
    requires a.reps > 0 || b.reps > 0
    requires a.start + Mul(a.reps + 1, s) == b.start && a.end + Mul(a.reps + 1, s) == b.end
    ensures a.end + Mul(a.reps + b.reps + 1, s) == b.RangeEnd() && a.end + 1 < a.start + s
  {
    MulPlus(a.reps + 1, b.reps, s);
  }

  /** A chain of equal blocks at one distance is one strided region. */
  lemma ChainDenotes(a: Region, b: Region, s: nat, x: nat)
    requires a.Valid() && b.Valid() && (a.reps > 0 ==> a.stride == s) && (b.reps > 0 ==> b.stride == s)
    requires a.start + Mul(a.reps + 1, s) == b.start && a.end + Mul(a.reps + 1, s) == b.end
    ensures In(Region(a.start, a.end, a.reps + b.reps + 1, s), x) <==> In(a, x) || In(b, x)
  {
    var n := a.reps + 1;
    var raw := Region(a.start, a.end, n + b.reps, s);
    if In(raw, x) {
      var k := BlockOf(raw, x);
      if k <= a.reps {
        assert InBlock(a, k, x);
      } else {
        MulPlus(n, k - n, s);
        assert InBlock(b, k - n, x);
      }
    }
    if In(a, x) {
      var k := BlockOf(a, x);
      assert InBlock(raw, k, x);
    }
    if In(b, x) {
      var k := BlockOf(b, x);
      MulPlus(n, k, s);
      assert InBlock(raw, n + k, x);
    }
  }

  lemma MergeOrderedDenotes(a: Region, b: Region, x: nat)
    requires a.Valid() && b.Valid() && SameStride(a, b) && TryMergeOrdered(a, b).Some?
    ensures In(TryMergeOrdered(a, b).value, x) <==> In(a, x) || In(b, x)
  {
    if a.reps == 0 && b.reps == 0 {
      InPlain(a, x);
      InPlain(b, x);
      InPlain(Plain(a.start, b.end), x);
    } else {
      var s := if a.reps > 0 then a.stride else b.stride;
      ChainValid(a, b, s);
      MakeDenotes(a.start, a.end, a.reps + b.reps + 1, s, x);
      ChainDenotes(a, b, s, x);
    }
  }

  lemma MergeOrderedValid(a: Region, b: Region)
    requires a.Valid() && b.Valid() && SameStride(a, b) && TryMergeOrdered(a, b).Some?
    ensures var m := TryMergeOrdered(a, b).value;
      && m.Valid()
      && (m.reps > 0 ==> (a.reps > 0 && m.stride == a.stride) || (b.reps > 0 && m.stride == b.stride))
  {
    if a.reps > 0 || b.reps > 0 {
      var s := if a.reps > 0 then a.stride else b.stride;
      ChainValid(a, b, s);
      MakeValid(a.start, a.end, a.reps + b.reps + 1, s);
    }
  }

  /** A successful merge denotes the union of its operands. */
  lemma TryMergeDenotes(a: Region, b: Region)
    requires a.Valid() && b.Valid() && SameStride(a, b) && TryMerge(a, b).Some?
    ensures var m := TryMerge(a, b).value;
      && m.Valid()
      && (m.reps > 0 ==> (a.reps > 0 && m.stride == a.stride) || (b.reps > 0 && m.stride == b.stride))
    ensures forall x: nat :: In(TryMerge(a, b).value, x) <==> In(a, x) || In(b, x)
  {
    var p, q := if Less(b, a) then b else a, if Less(b, a) then a else b;
    MergeOrderedValid(p, q);
    forall x: nat ensures In(TryMerge(a, b).value, x) <==> In(a, x) || In(b, x) {
      MergeOrderedDenotes(p, q, x);
    }
  }

  ghost predicate StrideIs(s: set<Region>, stride: nat) {
    forall r :: r in s && r.reps > 0 ==> r.stride == stride
  }

  /** A set of pieces of one stride that denotes the given indices. */
  ghost predicate Pieces(s: set<Region>, stride: nat, d: iset<nat>) {
    AllValid(s) && PairwiseApart(s) && StrideIs(s, stride) && Points(s) == d
  }

  /** q's first block is one stride behind p's last one and as long, or two single blocks touch. */
  predicate Follows(p: Region, q: Region)
    requires p.Valid() && q.Valid()
  {
    if p.reps == 0 && q.reps == 0 then q.start == p.end + 1
    else
      var last, stride := p.Rep(p.reps), if p.reps > 0 then p.stride else q.stride;
      q.start == last.start + stride && q.end == last.end + stride
  }

  /** Two regions merge exactly when one follows the other, whichever order they come in, unless it has no end. */
  lemma TryMergeExact(a: Region, b: Region)
    requires a.Valid() && b.Valid() && SameStride(a, b)
    ensures TryMerge(a, b).Some? <==> (Follows(a, b) && a.RangeEnd() != MAX) || (Follows(b, a) && b.RangeEnd() != MAX)
  {
    FollowsBehind(a, b);
    FollowsBehind(b, a);
    MulPlus(a.reps, 1, a.stride);
    MulPlus(b.reps, 1, b.stride);
    UsualProduct(1, a.stride);
    UsualProduct(1, b.stride);
  }

  lemma FollowsBehind(p: Region, q: Region)
    requires p.Valid() && q.Valid()
    ensures Follows(p, q) ==> p.start < q.start
  {
  }

  /** One region of the set holds both. */
  ghost predicate Together(s: set<Region>, p: Region, q: Region) {
    exists r :: r in s && PointsOf(p) + PointsOf(q) <= PointsOf(r)
  }

  /** Every region of t lies in one of s. */
  ghost predicate Coarser(s: set<Region>, t: set<Region>) {
    forall p {:trigger Together(s, p, p)} :: p in t ==> Together(s, p, p)
  }

  lemma StaysTogether(s: set<Region>, t: set<Region>, p: Region, q: Region)
    requires Coarser(s, t) && Together(t, p, q)
    ensures Together(s, p, q)
  {
    var r :| r in t && PointsOf(p) + PointsOf(q) <= PointsOf(r);
    assert Together(s, r, r);
  }

  lemma CoarserTwice(s: set<Region>, t: set<Region>, u: set<Region>)
    requires Coarser(s, t) && Coarser(t, u)
    ensures Coarser(s, u)
  {
    forall p | p in u ensures Together(s, p, p) { StaysTogether(s, t, p, p); }
  }

  /** Where the end of a and the start of b merge, one region holds both. */
  ghost predicate SeamJoined(s: set<Region>, a: set<Region>, b: set<Region>) {
    forall p, q :: IsLast(p, a) && IsFirst(q, b) && TryMerge(p, q).Some? ==> Together(s, p, q)
  }

  lemma SeamStays(s: set<Region>, t: set<Region>, a: set<Region>, b: set<Region>)
    requires Coarser(s, t) && SeamJoined(t, a, b)
    ensures SeamJoined(s, a, b)
  {
    forall p, q | IsLast(p, a) && IsFirst(q, b) && TryMerge(p, q).Some? ensures Together(s, p, q) {
      StaysTogether(s, t, p, q);
    }
  }

  /** The last two regions do not merge. */
  ghost predicate Folded(s: set<Region>) {
    forall p, q :: IsLast(p, s) && IsLast(q, s - {p}) ==> TryMerge(q, p).None?
  }

  lemma Coarsened(s: set<Region>, p: Region, q: Region)
    requires p in s && q in s && AllValid(s) && SameStride(p, q) && TryMerge(p, q).Some?
    ensures var t := s - {p, q} + {TryMerge(p, q).value}; Coarser(t, s) && Together(t, p, q)
  {
    var m, t := TryMerge(p, q).value, s - {p, q} + {TryMerge(p, q).value};
    TryMergeDenotes(p, q);
    assert PointsOf(p) + PointsOf(q) <= PointsOf(m);
    forall r | r in s ensures Together(t, r, r) {
      if r != p && r != q { assert r in t && PointsOf(r) + PointsOf(r) <= PointsOf(r); }
    }
  }

  lemma ReplaceByMerge(s: set<Region>, p: Region, q: Region, stride: nat, d: iset<nat>)
    requires Pieces(s, stride, d) && p in s && q in s && p != q && TryMerge(p, q).Some?
    ensures Pieces(s - {p, q} + {TryMerge(p, q).value}, stride, d)
  {
    var m, t := TryMerge(p, q).value, s - {p, q} + {TryMerge(p, q).value};
    TryMergeDenotes(p, q);
    forall x: nat ensures Covers(t, x) <==> Covers(s, x) {
      if r :| r in t && In(r, x) {
        if r == m { assert Covers(s, x); }
      }
      if r :| r in s && In(r, x) {
        if r == p || r == q { assert m in t && In(m, x); } else { assert r in t; }
      }
    }
    forall a, b | a in t && b in t && a != b ensures Apart(a, b) {
      forall x: nat | In(a, x) ensures !In(b, x) {
        assert a != m ==> Apart(a, p) && Apart(a, q);
        assert b != m ==> Apart(b, p) && Apart(b, q) && Apart(p, b) && Apart(q, b);
      }
    }
  }

  lemma NonEmpty(r: Region)
    requires r.Valid()
    ensures In(r, r.start)
  {
    assert InBlock(r, 0, r.start);
  }

  lemma MergeStep(a: set<Region>, b: set<Region>, p: Region, q: Region, stride: nat, d: iset<nat>)
    requires a !! b && Pieces(a + b, stride, d) && p in a && q in b && TryMerge(p, q).Some?
    ensures var m := TryMerge(p, q).value;
      (a - {p} + {m}) !! (b - {q}) && Pieces(a - {p} + {m} + (b - {q}), stride, d)
  {
    var m := TryMerge(p, q).value;
    ReplaceByMerge(a + b, p, q, stride, d);
    TryMergeDenotes(p, q);
    NonEmpty(p);
    assert a - {p} + {m} + (b - {q}) == a + b - {p, q} + {m};
    assert m in b ==> !Apart(m, p);
  }

  lemma SetsAreCoarse(s: set<Region>)
    ensures Coarser(s, s)
  {
    forall p | p in s ensures Together(s, p, p) { assert PointsOf(p) + PointsOf(p) <= PointsOf(p); }
  }

  lemma OneLast(s: set<Region>, p: Region, q: Region)
    requires IsLast(p, s) && IsLast(q, s)
    ensures p == q
  {
  }

  lemma OneFirst(s: set<Region>, p: Region, q: Region)
    requires IsFirst(p, s) && IsFirst(q, s)
    ensures p == q
  {
  }

  /** The seam as it is met first: merged if its two ends merge. */
  lemma SeamMet(a: set<Region>, b: set<Region>, p: Region, q: Region, t: set<Region>)
    requires IsLast(p, a) && IsFirst(q, b) && (TryMerge(p, q).Some? ==> Together(t, p, q))
    ensures SeamJoined(t, a, b)
  {
    forall p', q' | IsLast(p', a) && IsFirst(q', b) && TryMerge(p', q').Some? ensures Together(t, p', q') {
      OneLast(a, p, p');
      OneFirst(b, q, q');
    }
  }

  /** What the walk along the seam keeps. */
  ghost predicate Seaming(a: set<Region>, b: set<Region>, a0: set<Region>, b0: set<Region>, stride: nat,
      d: iset<nat>)
  {
    && a !! b && a != {} && Pieces(a + b, stride, d) && Coarser(a + b, a0 + b0)
    && ((a == a0 && b == b0) || SeamJoined(a + b, a0, b0))
  }

  lemma SeamStep(a: set<Region>, b: set<Region>, p: Region, q: Region, a0: set<Region>, b0: set<Region>, stride: nat,
      d: iset<nat>)
    requires Seaming(a, b, a0, b0, stride, d) && IsLast(p, a) && IsFirst(q, b) && TryMerge(p, q).Some?
    ensures Seaming(a - {p} + {TryMerge(p, q).value}, b - {q}, a0, b0, stride, d)
  {
    var m, was := TryMerge(p, q).value, a + b;
    var now := was - {p, q} + {m};
    Coarsened(was, p, q);
    CoarserTwice(now, was, a0 + b0);
    if a == a0 && b == b0 { SeamMet(a0, b0, p, q, now); } else { SeamStays(now, was, a0, b0); }
    MergeStep(a, b, p, q, stride, d);
    assert a - {p} + {m} + (b - {q}) == now;
  }

  lemma SeamEnds(a: set<Region>, b: set<Region>, p: Region, q: Region, a0: set<Region>, b0: set<Region>, stride: nat,
      d: iset<nat>)
    requires Seaming(a, b, a0, b0, stride, d) && IsLast(p, a) && IsFirst(q, b) && TryMerge(p, q).None?
    ensures Seaming(a + b, {}, a0, b0, stride, d)
  {
    if a == a0 && b == b0 { SeamMet(a0, b0, p, q, a + b); }
    assert a + b + {} == a + b;
  }

  /** Merges the end of a with the start of b for as long as they line up. */
  method MergeSeam(a0: set<Region>, b0: set<Region>, ghost stride: nat, ghost d: iset<nat>) returns (a: set<Region>)
    requires a0 != {} && a0 !! b0 && Pieces(a0 + b0, stride, d)
    ensures Pieces(a, stride, d) && Coarser(a, a0 + b0) && SeamJoined(a, a0, b0)
  {
    var b := b0;
    a := a0;
    SetsAreCoarse(a0 + b0);
    while b != {}
      invariant Seaming(a, b, a0, b0, stride, d)
      decreases |b|
    {
      var p := Last(a);
      var q := First(b);
      var m := TryMerge(p, q);
      if m == None {
        SeamEnds(a, b, p, q, a0, b0, stride, d);
        a, b := a + b, {};
      } else {
        SeamStep(a, b, p, q, a0, b0, stride, d);
        a, b := a - {p} + {m.value}, b - {q};
      }
    }
    assert a + b == a;
  }

  /** Folds the last two regions of a set while they line up. */
  method FoldEnd(a0: set<Region>, ghost stride: nat, ghost d: iset<nat>) returns (a: set<Region>)
    requires Pieces(a0, stride, d)
    ensures Pieces(a, stride, d) && Coarser(a, a0) && Folded(a)
  {
    a := a0;
    SetsAreCoarse(a0);
    while |a| > 1
      invariant Pieces(a, stride, d) && Coarser(a, a0)
      decreases |a|
    {
      var p := Last(a);
      var rest := a - {p};
      assert |rest| == |a| - 1;
      var q := Last(rest);
      var m := TryMerge(q, p);
      if m == None {
        NotFolded(a, p, q);
        return;
      }
      FoldStep(a, p, q, a0, stride, d);
      a := rest - {q} + {m.value};
    }
    AtMostOne(a);
  }

  lemma FoldStep(a: set<Region>, p: Region, q: Region, a0: set<Region>, stride: nat, d: iset<nat>)
    requires Pieces(a, stride, d) && Coarser(a, a0) && p in a && q in a - {p} && TryMerge(q, p).Some?
    ensures var now := a - {p} - {q} + {TryMerge(q, p).value};
            Pieces(now, stride, d) && Coarser(now, a0) && |now| < |a|
  {
    var m := TryMerge(q, p).value;
    ReplaceByMerge(a, q, p, stride, d);
    Coarsened(a, q, p);
    CoarserTwice(a - {q, p} + {m}, a, a0);
    assert a - {q, p} == a - {p} - {q};
  }

  lemma NotFolded(a: set<Region>, p: Region, q: Region)
    requires IsLast(p, a) && IsLast(q, a - {p}) && TryMerge(q, p).None?
    ensures Folded(a)
  {
    forall p', q' | IsLast(p', a) && IsLast(q', a - {p'}) ensures TryMerge(q', p').None? {
      OneLast(a, p, p');
      OneLast(a - {p}, q, q');
    }
  }

  lemma AtMostOne(a: set<Region>)
    requires |a| <= 1
    ensures Folded(a)
  {
    if a != {} {
      var r :| r in a;
      assert |a - {r}| == |a| - 1;
      assert a - {r} == {} && a == {r};
    }
  }

  /** Merges two sets along their seam and at their end: no index is lost or added, no region is cut up, the two ends
      of the seam come to lie in one region if they merge at all, and the last two regions do not merge any more. */
  method MergeAdjacent(a0: set<Region>, b0: set<Region>, ghost stride: nat) returns (a: set<Region>)
    requires a0 !! b0 && AllValid(a0 + b0) && PairwiseApart(a0 + b0) && StrideIs(a0 + b0, stride)
    ensures Pieces(a, stride, Points(a0 + b0))
    ensures Coarser(a, a0 + b0) && SeamJoined(a, a0, b0) && Folded(a)
  {
    if a0 == {} {
      assert a0 + b0 == b0;
      SetsAreCoarse(b0);
      a := b0;
    } else {
      a := MergeSeam(a0, b0, stride, Points(a0 + b0));
    }
    ghost var was := a;
    a := FoldEnd(a, stride, Points(a0 + b0));
    CoarserTwice(a, was, a0 + b0);
    SeamStays(a, was, a0, b0);
  }

  // ----- difference -----

  /** Membership in a strided region repeats with its stride, inside its range. */
  lemma {:induction false} ShiftInvariant(b: Region, k: nat, x: nat)
    requires b.Valid() && b.reps > 0 && b.start + Mul(k, b.stride) <= x <= b.RangeEnd()
    ensures In(b, x) <==> In(b, x - Mul(k, b.stride))
  {
    var y := x - Mul(k, b.stride);
    InByRemainder(b, x);
    InByRemainder(b, y);
    var q := Quotient(y - b.start, b.stride);
    MulPlus(q, k, b.stride);
    DivUnique(y - b.start, q, b.stride);
    DivUnique(x - b.start, q + k, b.stride);
  }

  /** What is left of p after removing b, when p lies within b's range. */
  ghost predicate Within(p: Region, b: Region) {
    b.start <= p.start && p.RangeEnd() <= b.RangeEnd()
  }

  lemma BlockMinus(p: Region, b: Region)
    requires p.Valid() && p.reps == 0 && b.Valid() && b.reps > 0 && Within(p, b)
    ensures b.Inverted().Valid()
    ensures Pieces(Intersect(p, b.Inverted()), b.stride, PointsOf(p) - PointsOf(b))
  {
    InvertedValid(b);
    var s := Intersect(p, b.Inverted());
    IntersectShape(p, b.Inverted());
    forall x: nat ensures x in Points(s) <==> x in PointsOf(p) - PointsOf(b) {
      InPlain(p, x);
      IntersectDenotes(p, b.Inverted(), x);
      InvertedDenotes(b, x);
    }
  }

  lemma OuterPoints(q: Region)
    requires q.Valid()
    ensures In(q, q.start) && In(q, q.end)
    ensures q.reps > 0 ==> In(q, q.start + q.stride)
  {
    assert InBlock(q, 0, q.start) && InBlock(q, 0, q.end);
    assert InBlock(q, 1, q.start + q.stride);
  }

  /** A set of pieces inside a stretch shorter than the stride has no strided member. */
  lemma ShortIsPlain(s: set<Region>, stride: nat, first: nat, last: nat)
    requires AllValid(s) && StrideIs(s, stride) && last < first + stride
    requires forall x: nat :: Covers(s, x) ==> first <= x <= last
    ensures forall q :: q in s ==> q.reps == 0 && first <= q.start && q.end <= last
  {
    forall q | q in s ensures q.reps == 0 && first <= q.start && q.end <= last {
      OuterPoints(q);
      assert Covers(s, q.start) && Covers(s, q.end);
      assert q.reps > 0 ==> Covers(s, q.start + q.stride);
    }
  }

  /** The second repetition's pieces, repeated over all repetitions but the first and last. */
  function Replicate(s: set<Region>, reps: nat, stride: nat): set<Region> {
    set q | q in s :: Make(q.start, q.end, reps, stride)
  }

  lemma MiddlePiece(p: Region, b: Region, q: Region, x: nat)
    requires p.Valid() && p.reps > 1 && b.Valid() && b.reps > 0 && Within(p, b) && p.stride == b.stride
    requires q.Valid() && q.reps == 0 && p.start + p.stride <= q.start && q.end <= p.end + p.stride
    ensures var m := Make(q.start, q.end, p.reps - 2, b.stride);
      && m.Valid() && (m.reps > 0 ==> m.stride == b.stride)
      && (In(m, x) <==> In(Region(q.start, q.end, p.reps - 2, p.stride), x))
  {
    MulPlus(p.reps - 2, 2, p.stride);
    MakeValid(q.start, q.end, p.reps - 2, p.stride);
    MakeDenotes(q.start, q.end, p.reps - 2, p.stride, x);
  }

  lemma CopyIsMiddle(p: Region, b: Region, q: Region, x: nat)
    requires p.Valid() && p.reps > 1 && b.Valid() && b.reps > 0 && Within(p, b) && p.stride == b.stride
    requires q.Valid() && q.reps == 0 && p.start + p.stride <= q.start && q.end <= p.end + p.stride
    requires Apart(q, b) && In(Make(q.start, q.end, p.reps - 2, b.stride), x)
    ensures !In(b, x) && exists j: nat :: 1 <= j < p.reps && InBlock(p, j, x)
  {
    var n := p.stride;
    MiddlePiece(p, b, q, x);
    var k := BlockOf(Region(q.start, q.end, p.reps - 2, n), x);
    MulPlus(k, 1, n);
    MulMono(k + 1, p.reps, n);
    InPlain(q, x - Mul(k, n));
    ShiftInvariant(b, k, x);
    assert InBlock(p, k + 1, x);
  }

  lemma MiddleIsCopy(p: Region, b: Region, s: set<Region>, j: nat, x: nat)
    requires p.Valid() && p.reps > 1 && b.Valid() && b.reps > 0 && Within(p, b) && p.stride == b.stride
    requires AllValid(s)
    requires forall q :: q in s ==> q.reps == 0 && p.start + p.stride <= q.start && q.end <= p.end + p.stride
    requires PointsOf(p.Rep(1)) - PointsOf(b) <= Points(s)
    requires 1 <= j < p.reps && InBlock(p, j, x) && !In(b, x)
    ensures Covers(Replicate(s, p.reps - 2, b.stride), x)
  {
    var n, y := p.stride, x - Mul(j - 1, p.stride);
    MulPlus(j - 1, 1, n);
    MulMono(j, p.reps, n);
    ShiftInvariant(b, j - 1, x);
    RepDenotes(p, 1, y);
    assert y in PointsOf(p.Rep(1)) - PointsOf(b);
    var q :| q in s && In(q, y);
    InPlain(q, y);
    MiddlePiece(p, b, q, x);
    assert InBlock(Region(q.start, q.end, p.reps - 2, n), j - 1, x);
    assert Make(q.start, q.end, p.reps - 2, b.stride) in Replicate(s, p.reps - 2, b.stride);
  }

  /** Middle repetitions all lose the same indices, so the second one stands for them. */
  lemma MiddleMinus(p: Region, b: Region, s: set<Region>, x: nat)
    requires p.Valid() && p.reps > 1 && b.Valid() && b.reps > 0 && Within(p, b) && p.stride == b.stride
    requires AllValid(s)
    requires forall q :: q in s ==> q.reps == 0 && p.start + p.stride <= q.start && q.end <= p.end + p.stride
    requires Points(s) == PointsOf(p.Rep(1)) - PointsOf(b)
    ensures Covers(Replicate(s, p.reps - 2, b.stride), x) <==>
      !In(b, x) && exists j: nat :: 1 <= j < p.reps && InBlock(p, j, x)
  {
    var t := Replicate(s, p.reps - 2, b.stride);
    if r :| r in t && In(r, x) {
      var q :| q in s && r == Make(q.start, q.end, p.reps - 2, b.stride);
      forall y: nat | In(q, y) ensures !In(b, y) {
        assert y in Points(s);
      }
      CopyIsMiddle(p, b, q, x);
    }
    if j: nat :| 1 <= j < p.reps && InBlock(p, j, x) && !In(b, x) {
      MiddleIsCopy(p, b, s, j, x);
    }
  }

  /** Copies of disjoint pieces of one repetition stay disjoint. */
  lemma ReplicateApart(p: Region, b: Region, s: set<Region>)
    requires p.Valid() && p.reps > 1 && b.Valid() && b.reps > 0 && Within(p, b) && p.stride == b.stride
    requires AllValid(s) && PairwiseApart(s)
    requires forall q :: q in s ==> q.reps == 0 && p.start + p.stride <= q.start && q.end <= p.end + p.stride
    ensures var t := Replicate(s, p.reps - 2, b.stride);
      AllValid(t) && PairwiseApart(t) && StrideIs(t, b.stride)
  {
    var t, n := Replicate(s, p.reps - 2, b.stride), p.stride;
    forall r | r in t ensures r.Valid() && (r.reps > 0 ==> r.stride == b.stride) {
      var q :| q in s && r == Make(q.start, q.end, p.reps - 2, b.stride);
      MiddlePiece(p, b, q, 0);
    }
    forall r, r' | r in t && r' in t && r != r' ensures Apart(r, r') {
      var q :| q in s && r == Make(q.start, q.end, p.reps - 2, b.stride);
      var q' :| q' in s && r' == Make(q'.start, q'.end, p.reps - 2, b.stride);
      forall x: nat | In(r, x) ensures !In(r', x) {
        MiddlePiece(p, b, q, x);
        MiddlePiece(p, b, q', x);
        if In(r', x) {
          var i := BlockOf(Region(q.start, q.end, p.reps - 2, n), x);
          var j := BlockOf(Region(q'.start, q'.end, p.reps - 2, n), x);
          CopiesApart(p, q, q', i, j, x);
        }
      }
    }
  }

  lemma CopiesApart(p: Region, q: Region, q': Region, i: nat, j: nat, x: nat)
    requires p.Valid() && p.reps > 1 && q.Valid() && q'.Valid() && q.reps == 0 && q'.reps == 0 && Apart(q, q')
    requires p.start + p.stride <= q.start && q.end <= p.end + p.stride
    requires p.start + p.stride <= q'.start && q'.end <= p.end + p.stride
    requires q.start + Mul(i, p.stride) <= x <= q.end + Mul(i, p.stride)
    ensures !(q'.start + Mul(j, p.stride) <= x <= q'.end + Mul(j, p.stride))
  {
    if i == j {
      InPlain(q, x - Mul(i, p.stride));
      InPlain(q', x - Mul(i, p.stride));
    } else if i < j {
      MulMono(i, j, p.stride);
    } else {
      MulMono(j, i, p.stride);
    }
  }

  lemma UnionPieces(s: set<Region>, t: set<Region>, stride: nat, d: iset<nat>, e: iset<nat>)
    requires Pieces(s, stride, d) && Pieces(t, stride, e) && d !! e
    ensures Pieces(s + t, stride, d + e) && s !! t
  {
    forall x: nat ensures x in Points(s + t) <==> x in d + e {
      CoversUnion(s, t, x);
    }
    forall x: nat | Covers(s, x) ensures !Covers(t, x) {
      assert x in Points(s);
      assert x !in Points(t);
    }
    ApartUnion(s, t);
    forall r | r in s ensures r !in t {
      NonEmpty(r);
      assert Covers(s, r.start);
    }
  }

  ghost predicate InBlocks(p: Region, first: nat, last: int, x: nat) {
    exists k: nat :: first <= k <= last && InBlock(p, k, x)
  }

  ghost function BlockPoints(p: Region, first: nat, last: int): iset<nat> {
    iset x: nat | InBlocks(p, first, last, x)
  }

  lemma BlockPointsSplit(p: Region)
    requires p.Valid() && p.reps > 0
    ensures PointsOf(p) == BlockPoints(p, 0, 0) + BlockPoints(p, 1, p.reps - 1) + BlockPoints(p, p.reps, p.reps)
    ensures BlockPoints(p, 0, 0) !! BlockPoints(p, 1, p.reps - 1)
    ensures BlockPoints(p, 0, p.reps - 1) !! BlockPoints(p, p.reps, p.reps)
    ensures BlockPoints(p, 0, 0) <= BlockPoints(p, 0, p.reps - 1)
    ensures BlockPoints(p, 1, p.reps - 1) <= BlockPoints(p, 0, p.reps - 1)
  {
    forall i: nat, j: nat, x: nat | InBlock(p, i, x) && InBlock(p, j, x) ensures i == j {
      if i < j { BlockOrder(p, i, j, x, x); } else if j < i { BlockOrder(p, j, i, x, x); }
    }
    forall x: nat | x in PointsOf(p)
      ensures x in BlockPoints(p, 0, 0) + BlockPoints(p, 1, p.reps - 1) + BlockPoints(p, p.reps, p.reps)
    {
      var k := BlockOf(p, x);
      assert k == 0 || 1 <= k <= p.reps - 1 || k == p.reps;
    }
  }

  lemma OneRepMinus(p: Region, b: Region, n: nat)
    requires p.Valid() && b.Valid() && b.reps > 0 && Within(p, b) && n <= p.reps
    ensures p.Rep(n).Valid() && b.Inverted().Valid()
    ensures Pieces(Intersect(p.Rep(n), b.Inverted()), b.stride, BlockPoints(p, n, n) - PointsOf(b))
    ensures PointsOf(p.Rep(n)) == BlockPoints(p, n, n)
  {
    forall x: nat ensures x in PointsOf(p.Rep(n)) <==> x in BlockPoints(p, n, n) {
      RepDenotes(p, n, x);
    }
    MulMono(n, p.reps, p.stride);
    RepDenotes(p, n, 0);
    BlockMinus(p.Rep(n), b);
    assert PointsOf(p.Rep(n)) - PointsOf(b) == BlockPoints(p, n, n) - PointsOf(b);
  }

  /** Removes strided b from a strided region inside b's range: first, middle and last repetitions apart. */
  method StridedMinus(p: Region, b: Region) returns (mid: set<Region>)
    requires p.Valid() && p.reps > 0 && b.Valid() && b.reps > 0 && Within(p, b) && p.stride == b.stride
    ensures Pieces(mid, b.stride, PointsOf(p) - PointsOf(b))
  {
    InvertedValid(b);
    BlockPointsSplit(p);
    OneRepMinus(p, b, 0);
    mid := Intersect(p.Rep(0), b.Inverted());
    if p.reps > 1 {
      OneRepMinus(p, b, 1);
      var second := Intersect(p.Rep(1), b.Inverted());
      MiddlePieces(p, b, second);
      UnionPieces(mid, Replicate(second, p.reps - 2, b.stride), b.stride,
        BlockPoints(p, 0, 0) - PointsOf(b), BlockPoints(p, 1, p.reps - 1) - PointsOf(b));
      mid := mid + Replicate(second, p.reps - 2, b.stride);
    }
    OneRepMinus(p, b, p.reps);
    ghost var sofar := BlockPoints(p, 0, 0) + BlockPoints(p, 1, p.reps - 1) - PointsOf(b);
    assert Points(mid) == sofar;
    UnionPieces(mid, Intersect(p.Rep(p.reps), b.Inverted()), b.stride,
                sofar, BlockPoints(p, p.reps, p.reps) - PointsOf(b));
    mid := mid + Intersect(p.Rep(p.reps), b.Inverted());
    assert Points(mid) == PointsOf(p) - PointsOf(b);
  }

  lemma MiddlePieces(p: Region, b: Region, second: set<Region>)
    requires p.Valid() && p.reps > 1 && b.Valid() && b.reps > 0 && Within(p, b) && p.stride == b.stride
    requires p.Rep(1).Valid() && b.Inverted().Valid() && second == Intersect(p.Rep(1), b.Inverted())
    requires PointsOf(p.Rep(1)) == BlockPoints(p, 1, 1)
    requires Pieces(second, b.stride, BlockPoints(p, 1, 1) - PointsOf(b))
    ensures Pieces(Replicate(second, p.reps - 2, b.stride), b.stride, BlockPoints(p, 1, p.reps - 1) - PointsOf(b))
  {
    forall x: nat | Covers(second, x) ensures p.start + p.stride <= x <= p.end + p.stride {
      assert x in Points(second);
      assert InBlocks(p, 1, 1, x) && Mul(1, p.stride) == p.stride;
    }
    ShortIsPlain(second, b.stride, p.start + p.stride, p.end + p.stride);
    ReplicateApart(p, b, second);
    var t := Replicate(second, p.reps - 2, b.stride);
    forall x: nat ensures Covers(t, x) <==> InBlocks(p, 1, p.reps - 1, x) && !In(b, x) {
      MiddleMinus(p, b, second, x);
    }
    assert Points(t) == BlockPoints(p, 1, p.reps - 1) - PointsOf(b);
  }

  ghost predicate Between(first: nat, last: nat, x: nat) {
    first <= x <= last
  }

  ghost function Interval(first: nat, last: nat): iset<nat> {
    iset x: nat | Between(first, last, x)
  }

  lemma ClipPieces(a: Region, first: nat, last: nat, stride: nat)
    requires a.Valid() && first <= last <= MAX && (a.reps > 0 ==> a.stride == stride)
    ensures Pieces(Intersect(a, Plain(first, last)), stride, PointsOf(a) * Interval(first, last))
    ensures OneStrided(Intersect(a, Plain(first, last)))
  {
    var b := Plain(first, last);
    IntersectShape(a, b);
    forall x: nat ensures Covers(Intersect(a, b), x) <==> In(a, x) && Between(first, last, x) {
      IntersectDenotes(a, b, x);
      InPlain(b, x);
    }
    assert Points(Intersect(a, b)) == PointsOf(a) * Interval(first, last);
  }

  lemma PieceWithin(s: set<Region>, p: Region, b: Region)
    requires p in s && p.Valid() && b.Valid() && Points(s) <= Interval(b.start, b.RangeEnd())
    ensures Within(p, b)
  {
    assert InBlock(p, 0, p.start) && InBlock(p, p.reps, p.RangeEnd());
    assert In(p, p.start) && In(p, p.RangeEnd());
    assert Covers(s, p.start) && Covers(s, p.RangeEnd());
    assert p.start in Points(s) && p.RangeEnd() in Points(s);
  }

  lemma SplitOff(s: set<Region>, p: Region, stride: nat, d: iset<nat>)
    requires Pieces(s, stride, d) && p in s
    ensures Pieces(s - {p}, stride, d - PointsOf(p)) && PointsOf(p) <= d
    ensures Pieces({p}, stride, PointsOf(p))
  {
    forall x: nat ensures Covers(s - {p}, x) <==> x in d && !In(p, x) {
      if r :| r in s - {p} && In(r, x) {
        assert Apart(r, p) && Covers(s, x) && x in Points(s);
      }
      if x in d && !In(p, x) {
        assert x in Points(s);
        var r :| r in s && In(r, x);
        assert r in s - {p};
      }
    }
    forall x: nat | In(p, x) ensures x in d {
      assert Covers(s, x) && x in Points(s);
    }
    assert Points(s - {p}) == d - PointsOf(p);
    assert Points({p}) == PointsOf(p);
  }

  /** Still to do: the parts. Done: everything of d outside the parts and outside b. */
  ghost predicate Progress(parts: set<Region>, mid: set<Region>, b: Region, d: iset<nat>) {
    && Pieces(parts, b.stride, Points(parts)) && Points(parts) <= d
    && Pieces(mid, b.stride, d - Points(parts) - PointsOf(b))
  }

  lemma PartDone(parts: set<Region>, mid: set<Region>, b: Region, d: iset<nat>, it: Region, add: set<Region>)
    requires Progress(parts, mid, b, d) && it in parts
    requires Pieces(add, b.stride, PointsOf(it) - PointsOf(b))
    ensures Progress(parts - {it}, mid + add, b, d)
  {
    SplitOff(parts, it, b.stride, Points(parts));
    var done, more := d - Points(parts) - PointsOf(b), PointsOf(it) - PointsOf(b);
    UnionPieces(mid, add, b.stride, done, more);
    assert done + more == d - Points(parts - {it}) - PointsOf(b);
  }

  /** Takes the unstrided portions one by one, leaving at most one strided portion. */
  method PlainParts(parts0: set<Region>, b: Region, ghost d: iset<nat>) returns (parts: set<Region>, mid: set<Region>)
    requires b.Valid() && b.reps > 0 && d <= Interval(b.start, b.RangeEnd())
    requires OneStrided(parts0) && Pieces(parts0, b.stride, d)
    ensures Progress(parts, mid, b, d)
    ensures parts <= parts0 && forall r :: r in parts ==> r.reps > 0
  {
    InvertedValid(b);
    parts, mid := parts0, {};
    var ahead := parts;
    assert Points(mid) == d - Points(parts) - PointsOf(b);
    while ahead != {}
      invariant ahead <= parts <= parts0 && (forall r :: r in parts && r !in ahead ==> r.reps > 0)
      invariant Progress(parts, mid, b, d)
      decreases |ahead|
    {
      var it := First(ahead);
      ahead := ahead - {it};
      if it.reps == 0 {
        PieceWithin(parts, it, b);
        BlockMinus(it, b);
        PartDone(parts, mid, b, d, it, Intersect(it, b.Inverted()));
        mid := mid + Intersect(it, b.Inverted());
        parts := parts - {it};
      }
    }
  }

  /** The part of a inside the range of strided b, less b. */
  method MiddleDifference(a: Region, b: Region) returns (mid: set<Region>)
    requires a.Valid() && b.Valid() && b.reps > 0 && (a.reps > 0 ==> a.stride == b.stride)
    ensures Pieces(mid, b.stride, PointsOf(a) * Interval(b.start, b.RangeEnd()) - PointsOf(b))
  {
    ghost var d := PointsOf(a) * Interval(b.start, b.RangeEnd());
    ClipPieces(a, b.start, b.RangeEnd(), b.stride);
    var parts;
    parts, mid := PlainParts(Intersect(a, Plain(b.start, b.RangeEnd())), b, d);
    if parts != {} {
      var p := First(parts);
      assert parts == {p};
      PieceWithin(parts, p, b);
      SplitOff(parts, p, b.stride, Points(parts));
      var strided := StridedMinus(p, b);
      PartDone(parts, mid, b, d, p, strided);
      mid := mid + strided;
      parts := parts - {p};
    }
    assert d - Points(parts) - PointsOf(b) == d - PointsOf(b);
  }

  ghost function Below(a: Region, b: Region): iset<nat> {
    if b.start > 0 then PointsOf(a) * Interval(0, b.start - 1) else iset{}
  }

  ghost function Inside(a: Region, b: Region): iset<nat> {
    if b.reps > 0 then PointsOf(a) * Interval(b.start, b.RangeEnd()) - PointsOf(b) else iset{}
  }

  ghost function Above(a: Region, b: Region): iset<nat> {
    if b.RangeEnd() < MAX then PointsOf(a) * Interval(b.RangeEnd() + 1, MAX) else iset{}
  }

  /** Indices of a below b's range, inside it without b, and above it make up the difference. */
  lemma ThreeWaySplit(a: Region, b: Region)
    requires a.Valid() && b.Valid()
    ensures Below(a, b) + Inside(a, b) + Above(a, b) == PointsOf(a) - PointsOf(b)
    ensures Below(a, b) !! Inside(a, b) && (Below(a, b) + Inside(a, b)) !! Above(a, b)
  {
    forall x: nat ensures x in Below(a, b) + Inside(a, b) + Above(a, b) <==> x in PointsOf(a) - PointsOf(b) {
      if In(a, x) { InRange(a, x); }
      if In(b, x) { InRange(b, x); }
      if b.reps == 0 { InPlain(b, x); }
    }
  }

  /** No valid region has stride 0, so pieces of stride 0 are all unstrided. */
  ghost function CommonStride(a: Region, b: Region): nat {
    if b.reps > 0 then b.stride else if a.reps > 0 then a.stride else 0
  }

  /** Difference is exact: its pieces are disjoint and hold exactly the indices of a that b lacks. A strided a of
      which b has no index stays one region, merged again if it was taken apart, unless it is two blocks around a
      plain b. The last two pieces do not merge, unless b is plain and has no end. */
  method Minus(a: Region, b: Region) returns (ret: set<Region>)
    requires a.Valid() && b.Valid() && Comparable(a, b)
    ensures AllValid(ret) && PairwiseApart(ret)
    ensures Points(ret) == PointsOf(a) - PointsOf(b)
    ensures forall r :: r in ret && r.reps > 0 ==>
      (a.reps > 0 && r.stride == a.stride) || (b.reps > 0 && r.stride == b.stride && RangesMeet(a, b))
    ensures Apart(a, b) && (if b.reps == 0 then a.reps != 1 else a.reps > 0) ==> |ret| == 1
    ensures b.reps > 0 || b.end < MAX ==> Folded(ret)
  {
    OverlapsExact(a, b);
    if !Overlaps(a, b) {
      assert Points({a}) == PointsOf(a) - PointsOf(b);
      AtMostOne({a});
      return {a};
    }
    ret := OverlappingMinus(a, b);
  }

  method Join(ret: set<Region>, more: set<Region>, ghost s: nat, ghost d: iset<nat>,
      ghost e: iset<nat>) returns (out: set<Region>)
    requires Pieces(ret, s, d) && Pieces(more, s, e) && d !! e
    ensures Pieces(out, s, d + e)
    ensures Coarser(out, ret + more) && SeamJoined(out, ret, more) && Folded(out)
  {
    UnionPieces(ret, more, s, d, e);
    out := MergeAdjacent(ret, more, s);
  }

  method BelowAndInside(a: Region, b: Region, ghost s: nat) returns (ret: set<Region>)
    requires a.Valid() && b.Valid() && (a.reps > 0 ==> a.stride == s) && (b.reps > 0 ==> b.stride == s)
    ensures Pieces(ret, s, Below(a, b) + Inside(a, b)) && (b.reps == 0 ==> ret == BottomOf(a, b))
    ensures b.reps > 0 ==> Folded(ret)
  {
    ThreeWaySplit(a, b);
    ret := {};
    assert Points(ret) == iset{};
    if b.start > 0 {
      ClipPieces(a, 0, b.start - 1, s);
      ret := Intersect(a, Plain(0, b.start - 1));
    }
    if b.reps > 0 {
      var mid := MiddleDifference(a, b);
      ret := Join(ret, mid, s, Below(a, b), Inside(a, b));
    }
    assert Below(a, b) + Inside(a, b) == Points(ret);
  }

  method OverlappingMinus(a: Region, b: Region) returns (ret: set<Region>)
    requires a.Valid() && b.Valid() && (a.reps == 0 || b.reps == 0 || a.stride == b.stride)
    ensures Pieces(ret, CommonStride(a, b), PointsOf(a) - PointsOf(b))
    ensures InGap(a, b) && a.reps > 1 ==> |ret| == 1
    ensures b.reps > 0 || b.end < MAX ==> Folded(ret)
  {
    ghost var s := CommonStride(a, b);
    ghost var d, e := Below(a, b) + Inside(a, b), Above(a, b);
    ret := BelowAndInside(a, b, s);
    AbovePieces(a, b, s);
    ThreeWaySplit(a, b);
    ret := WithAbove(a, b, ret, s, d, e);
    if InGap(a, b) && a.reps > 1 { GapMergedAgain(a, b, ret, s); }
  }

  /** What lies below b. */
  function BottomOf(a: Region, b: Region): set<Region>
    requires a.Valid() && b.Valid()
  {
    if b.start == 0 then {} else Intersect(a, Plain(0, b.start - 1))
  }

  /** A plain b between two blocks of a. */
  ghost predicate InGap(a: Region, b: Region) {
    a.reps > 0 && b.reps == 0 && RangesMeet(a, b) && Apart(a, b)
  }

  /** The block before the gap. */
  lemma GapAt(a: Region, b: Region) returns (k: nat)
    requires a.Valid() && b.Valid() && InGap(a, b)
    ensures k < a.reps && a.end + Mul(k, a.stride) < b.start && b.end < a.start + Mul(k, a.stride) + a.stride
    ensures a.start + Mul(k, a.stride) + a.stride <= a.RangeEnd()
  {
    NonEmpty(a);
    InPlain(b, a.start);
    MulPlus(a.reps, 1, a.stride);
    k := QuotientBelow(b.start - a.start, a.reps + 1, a.stride);
    InPlain(b, b.start);
    assert !InBlock(a, k, b.start);
    MulPlus(k, 1, a.stride);
    if k == a.reps { assert false; }
    MulMono(k + 1, a.reps, a.stride);
    assert InBlock(a, k + 1, a.start + Mul(k + 1, a.stride));
    InPlain(b, a.start + Mul(k + 1, a.stride));
  }

  lemma UpToWhole(a: Region, b: Region, first: nat, last: nat)
    requires a.Valid() && b.Valid() && b.reps == 0 && a.reps > 0 && first <= last <= a.reps
    requires b.start <= a.start + Mul(last, a.stride) && a.end + Mul(last, a.stride) <= b.end
    ensures IntersectUpTo(a, b, first, last) == {a.Reps(first, last)}
  {
    assert a.Rep(last) in Clip(a.Rep(last), b);
  }

  /** Everything below an index in the gap behind block k. */
  lemma LowCut(a: Region, end: nat, k: nat)
    requires a.Valid() && a.reps > 0 && end < a.RangeEnd()
    requires k <= a.reps && a.end + Mul(k, a.stride) <= end < a.start + Mul(k, a.stride) + a.stride
    ensures Intersect(a, Plain(0, end)) == {a.Reps(0, k)}
  {
    var low := Plain(0, end);
    var last := LastBlock(a, low, 0);
    DivUnique(end - a.start, k, a.stride);
    DivUnique(end - a.start, last, a.stride);
    UpToWhole(a, low, 0, k);
  }

  lemma AtWhole(a: Region, b: Region, k: nat)
    requires a.Valid() && b.Valid() && b.reps == 0 && a.reps > 0 && k <= a.reps
    requires b.start == a.start + Mul(k, a.stride) && b.end == MAX
    ensures IntersectAt(a, b, k) == {a.Reps(k, a.reps)}
  {
    MulMono(k, a.reps, a.stride);
    assert a.Rep(k) in Clip(a.Rep(k), b);
  }

  lemma AtNext(a: Region, b: Region, k: nat)
    requires a.Valid() && b.Valid() && b.reps == 0 && a.reps > 0 && k < a.reps
    requires a.end + Mul(k, a.stride) < b.start && b.end == MAX
    ensures IntersectAt(a, b, k) == {a.Reps(k + 1, a.reps)}
  {
    assert Clip(a.Rep(k), b) == {};
    assert IntersectFrom(a, b, k + 1) == {a.Reps(k + 1, a.reps)};
  }

  lemma HighFirst(a: Region, start: nat, k: nat)
    requires a.Valid() && a.reps > 0 && a.start < start <= a.RangeEnd()
    requires Mul(k, a.stride) <= start - a.start < Mul(k, a.stride) + a.stride
    ensures k <= a.reps && Intersect(a, Plain(start, MAX)) == IntersectAt(a, Plain(start, MAX), k)
  {
    var first := FirstBlock(a, Plain(start, MAX));
    DivUnique(start - a.start, first, a.stride);
    DivUnique(start - a.start, k, a.stride);
  }

  /** Everything from an index in the gap behind block k. */
  lemma HighCut(a: Region, start: nat, k: nat)
    requires a.Valid() && a.reps > 0 && k < a.reps
    requires a.end + Mul(k, a.stride) < start <= a.start + Mul(k, a.stride) + a.stride && start <= a.RangeEnd()
    ensures Intersect(a, Plain(start, MAX)) == {a.Reps(k + 1, a.reps)}
  {
    if start == a.start + Mul(k, a.stride) + a.stride {
      assert Mul(k + 1, a.stride) == Mul(k, a.stride) + a.stride;
      HighFirst(a, start, k + 1);
      AtWhole(a, Plain(start, MAX), k + 1);
    } else {
      HighFirst(a, start, k);
      AtNext(a, Plain(start, MAX), k);
    }
  }

  /** Cutting a at the gap leaves the blocks before it and the blocks behind it. */
  lemma GapCut(a: Region, b: Region) returns (k: nat)
    requires a.Valid() && b.Valid() && InGap(a, b)
    ensures k < a.reps && BottomOf(a, b) == {a.Reps(0, k)}
    ensures b.RangeEnd() < MAX && TopOf(a, b) == {a.Reps(k + 1, a.reps)}
  {
    k := GapAt(a, b);
    assert b.RangeEnd() == b.end && a.RangeEnd() <= MAX;
    GapBelow(a, b, k, b.start - 1);
    GapAbove(a, b, k, b.end + 1);
  }

  lemma GapBelow(a: Region, b: Region, k: nat, end: nat)
    requires a.Valid() && b.Valid() && a.reps > 0 && end < a.RangeEnd() && end + 1 == b.start
    requires k <= a.reps && a.end + Mul(k, a.stride) <= end < a.start + Mul(k, a.stride) + a.stride
    ensures BottomOf(a, b) == {a.Reps(0, k)}
  {
    LowCut(a, end, k);
    BottomIs(a, b, end, {a.Reps(0, k)});
  }

  lemma GapAbove(a: Region, b: Region, k: nat, start: nat)
    requires a.Valid() && b.Valid() && a.reps > 0 && k < a.reps && start == b.RangeEnd() + 1 <= MAX
    requires a.end + Mul(k, a.stride) < start <= a.start + Mul(k, a.stride) + a.stride && start <= a.RangeEnd()
    ensures TopOf(a, b) == {a.Reps(k + 1, a.reps)}
  {
    HighCut(a, start, k);
    TopIs(a, b, start, {a.Reps(k + 1, a.reps)});
  }

  lemma BottomIs(a: Region, b: Region, end: nat, s: set<Region>)
    requires a.Valid() && b.Valid() && end + 1 == b.start && Intersect(a, Plain(0, end)) == s
    ensures BottomOf(a, b) == s
  {
  }

  lemma TopIs(a: Region, b: Region, start: nat, s: set<Region>)
    requires a.Valid() && b.Valid() && start == b.RangeEnd() + 1 <= MAX && Intersect(a, Plain(start, MAX)) == s
    ensures TopOf(a, b) == s
  {
  }

  lemma GapRejoins(a: Region, k: nat)
    requires a.Valid() && a.reps > 1 && k < a.reps
    ensures TryMerge(a.Reps(0, k), a.Reps(k + 1, a.reps)).Some?
    ensures PointsOf(a) == PointsOf(a.Reps(0, k)) + PointsOf(a.Reps(k + 1, a.reps))
  {
    GapFollows(a, k);
    forall x: nat
      ensures In(a, x) <==> In(a.Reps(0, k), x) || In(a.Reps(k + 1, a.reps), x)
    {
      RepsDenotes(a, 0, k, x);
      RepsDenotes(a, k + 1, a.reps, x);
      if In(a, x) { var i := BlockOf(a, x); }
    }
  }

  lemma GapFollows(a: Region, k: nat)
    requires a.Valid() && a.reps > 1 && k < a.reps
    ensures TryMerge(a.Reps(0, k), a.Reps(k + 1, a.reps)).Some?
  {
    var p, q := a.Reps(0, k), a.Reps(k + 1, a.reps);
    RepsValid(a, 0, k);
    RepsValid(a, k + 1, a.reps);
    MulPlus(k, 1, a.stride);
    UsualProduct(1, a.stride);
    MulMono(k + 1, a.reps, a.stride);
    TryMergeExact(p, q);
    PiecesFollow(a, k, p, q);
  }

  lemma PiecesFollow(a: Region, k: nat, p: Region, q: Region)
    requires a.Valid() && a.reps > 1 && k < a.reps
    requires p.Valid() && q.Valid() && p == a.Reps(0, k) && q == a.Reps(k + 1, a.reps)
    ensures Follows(p, q)
  {
    MulPlus(k, 1, a.stride);
    UsualProduct(1, a.stride);
    MulMono(k + 1, a.reps, a.stride);
    MulMono(1, a.reps, a.stride);
  }

  lemma GapMergedAgain(a: Region, b: Region, ret: set<Region>, s: nat)
    requires a.Valid() && b.Valid() && InGap(a, b) && a.reps > 1
    requires Pieces(ret, s, PointsOf(a) - PointsOf(b))
    requires b.RangeEnd() < MAX ==> SeamJoined(ret, BottomOf(a, b), TopOf(a, b))
    ensures |ret| == 1
  {
    var k := GapCut(a, b);
    GapRejoins(a, k);
    var p, q := a.Reps(0, k), a.Reps(k + 1, a.reps);
    SingleEnds(p, q);
    assert Together(ret, p, q);
    var r :| r in ret && PointsOf(p) + PointsOf(q) <= PointsOf(r);
    OnePiece(ret, r, s, PointsOf(a) - PointsOf(b));
  }

  lemma SingleEnds(p: Region, q: Region)
    ensures IsLast(p, {p}) && IsFirst(q, {q})
  {
  }

  lemma OnePiece(ret: set<Region>, r: Region, s: nat, d: iset<nat>)
    requires Pieces(ret, s, d) && r in ret && d <= PointsOf(r)
    ensures |ret| == 1
  {
    forall q | q in ret ensures q == r {
      NonEmpty(q);
      assert Covers(ret, q.start) && q.start in Points(ret);
      assert In(r, q.start) && !Apart(q, r);
    }
    assert ret == {r};
  }

  /** What lies above b's range. */
  function TopOf(a: Region, b: Region): set<Region>
    requires a.Valid() && b.Valid()
  {
    if b.RangeEnd() == MAX then {} else Intersect(a, Plain(b.RangeEnd() + 1, MAX))
  }

  lemma NoPieces(stride: nat)
    ensures Pieces({}, stride, iset{})
  {
    assert Points({}) == iset{};
  }

  lemma PiecesFrom(a: Region, first: nat, s: nat, top: set<Region>)
    requires a.Valid() && first <= MAX && (a.reps > 0 ==> a.stride == s) && top == Intersect(a, Plain(first, MAX))
    ensures Pieces(top, s, PointsOf(a) * Interval(first, MAX))
  {
    ClipPieces(a, first, MAX, s);
  }

  lemma AbovePieces(a: Region, b: Region, s: nat)
    requires a.Valid() && b.Valid() && (a.reps > 0 ==> a.stride == s)
    ensures Pieces(TopOf(a, b), s, Above(a, b))
  {
    if b.RangeEnd() == MAX { NoPieces(s); } else { PiecesFrom(a, b.RangeEnd() + 1, s, TopOf(a, b)); }
  }

  method WithAbove(a: Region, b: Region, lower: set<Region>, ghost s: nat, ghost d: iset<nat>, ghost e: iset<nat>)
    returns (ret: set<Region>)
    requires a.Valid() && b.Valid() && Pieces(lower, s, d) && Pieces(TopOf(a, b), s, e) && d !! e
    ensures Pieces(ret, s, d + e)
    ensures b.RangeEnd() < MAX ==> SeamJoined(ret, lower, TopOf(a, b)) && Folded(ret)
    ensures b.RangeEnd() == MAX ==> ret == lower
  {
    if b.RangeEnd() == MAX {
      assert Points({}) == iset{};
      assert d + e == d;
      return lower;
    }
    ret := Join(lower, Intersect(a, Plain(b.RangeEnd() + 1, MAX)), s, d, e);
  }
}
