/** Overlap test and intersection of two regions. */
module RegionIntersection {
  import opened Arith
  import opened Basics
  import opened Regions

  predicate RangesMeet(a: Region, b: Region) {
    a.start <= b.RangeEnd() && b.start <= a.RangeEnd()
  }

  /** Two strided regions can be compared only when they share a stride or stay out of each other's range. */
  predicate Comparable(a: Region, b: Region) {
    a.reps == 0 || b.reps == 0 || a.stride == b.stride || !RangesMeet(a, b)
  }

  function Overlaps(a: Region, b: Region): bool
    requires a.Valid() && b.Valid() && Comparable(a, b)
  {
    if !RangesMeet(a, b) then false
    else if a.reps == 0 || b.reps == 0 then true
    else StridedOverlap(a, b)
  }

  /** Looks only at the repetitions around the later of the two starts. */
  function StridedOverlap(a: Region, b: Region): bool
    requires a.Valid() && b.Valid() && RangesMeet(a, b) && a.reps > 0 && b.reps > 0
  {
    var from := Max(a.start, b.start);
    FirstOverlapInReps(a, from);
    FirstOverlapInReps(b, from);
    OverlapAround(a, b, Div(from - a.start, a.stride), Div(from - b.start, b.stride))
  }

  function OverlapAround(a: Region, b: Region, i: nat, j: nat): bool
    requires a.Valid() && b.Valid() && i <= a.reps && j <= b.reps
  {
    || RangesMeet(a.Rep(i), b.Rep(j))
    || (i < a.reps && RangesMeet(b.Rep(j), a.Rep(i + 1)))
    || (j < b.reps && RangesMeet(a.Rep(i), b.Rep(j + 1)))
  }

  lemma FirstOverlapInReps(r: Region, from: nat)
    requires r.Valid() && r.reps > 0 && r.start <= from <= r.RangeEnd()
    ensures Div(from - r.start, r.stride) <= r.reps
  {
    MulPlus(r.reps, 1, r.stride);
    var k := QuotientBelow(from - r.start, r.reps + 1, r.stride);
    DivUnique(from - r.start, k, r.stride);
  }

  /** Intersection of two single blocks. */
  function Clip(a: Region, b: Region): set<Region> {
    if a.start > b.end || b.start > a.end then {}
    else {Plain(Max(a.start, b.start), Min(a.end, b.end))}
  }

  /** Intersection; not defined when both regions are strided. */
  function Intersect(a: Region, b: Region): set<Region>
    requires a.Valid() && b.Valid() && (a.reps == 0 || b.reps == 0)
  {
    if b.reps > 0 then IntersectBlock(b, a) else IntersectBlock(a, b)
  }

  function IntersectBlock(a: Region, b: Region): set<Region>
    requires a.Valid() && b.Valid() && b.reps == 0
  {
    if !Overlaps(a, b) then {}
    else if a.reps == 0 then {Plain(Max(a.start, b.start), Min(a.end, b.end))}
    else if b.start > a.start then
      FirstOverlapInReps(a, b.start);
      IntersectAt(a, b, Div(b.start - a.start, a.stride))
    else IntersectFrom(a, b, 0)
  }

  /** An intersection that starts inside or just after repetition first, which may be cut. */
  function IntersectAt(a: Region, b: Region, first: nat): set<Region>
    requires a.Valid() && b.Valid() && b.reps == 0 && a.reps > 0 && first <= a.reps && a.start <= b.end
  {
    var cut := Clip(a.Rep(first), b);
    if a.Rep(first) in cut then IntersectFrom(a, b, first)
    else if first == a.reps then cut
    else cut + IntersectFrom(a, b, first + 1)
  }

  /** The part of an intersection that lies in repetitions first and later. */
  function IntersectFrom(a: Region, b: Region, first: nat): set<Region>
    requires a.Valid() && b.Valid() && b.reps == 0 && a.reps > 0 && first <= a.reps && a.start <= b.end
  {
    if b.end < a.RangeEnd() then
      FirstOverlapInReps(a, b.end);
      IntersectUpTo(a, b, first, Div(b.end - a.start, a.stride))
    else {a.Reps(first, a.reps)}
  }

  /** Repetitions first to last, of which the last may be cut. */
  function IntersectUpTo(a: Region, b: Region, first: nat, last: nat): set<Region>
    requires a.Valid() && b.Valid() && b.reps == 0 && a.reps > 0 && last <= a.reps
  {
    if last < first then {}
    else
      var cut := Clip(a.Rep(last), b);
      if a.Rep(last) in cut then {a.Reps(first, last)}
      else if last == first then cut
      else cut + {a.Reps(first, last - 1)}
  }

  // ----- intersection is exact -----

  lemma ClipDenotes(a: Region, b: Region, x: nat)
    requires a.Valid() && b.Valid() && a.reps == 0 && b.reps == 0
    ensures Covers(Clip(a, b), x) <==> In(a, x) && In(b, x)
    ensures a in Clip(a, b) <==> b.start <= a.start && a.end <= b.end
  {
    InPlain(a, x);
    InPlain(b, x);
    forall r | r in Clip(a, b) ensures In(r, x) <==> r.start <= x <= r.end {
      InPlain(r, x);
    }
  }

  ghost predicate InFrom(a: Region, first: nat, x: nat) {
    exists k: nat :: first <= k <= a.reps && InBlock(a, k, x)
  }

  lemma BlockOrder(a: Region, i: nat, j: nat, x: nat, y: nat)
    requires a.Valid() && InBlock(a, i, x) && InBlock(a, j, y) && i < j
    requires a.reps > 0
    ensures x + 1 < a.start + Mul(j, a.stride) <= y
  {
    MulPlus(i, 1, a.stride);
    MulMono(i + 1, j, a.stride);
  }

  /** The last repetition that starts no later than b ends. */
  lemma LastBlock(a: Region, b: Region, first: nat) returns (last: nat)
    requires a.Valid() && b.Valid() && b.reps == 0 && a.reps > 0 && first <= a.reps && a.start <= b.end
    requires b.end < a.RangeEnd()
    ensures last <= a.reps && Mul(last, a.stride) <= b.end - a.start < Mul(last, a.stride) + a.stride
    ensures IntersectFrom(a, b, first) == IntersectUpTo(a, b, first, last)
  {
    FirstOverlapInReps(a, b.end);
    last := Quotient(b.end - a.start, a.stride);
  }

  lemma IntersectFromDenotes(a: Region, b: Region, first: nat, x: nat)
    requires a.Valid() && b.Valid() && b.reps == 0 && a.reps > 0 && first <= a.reps && a.start <= b.end
    requires b.start <= a.start + Mul(first, a.stride)
    ensures Covers(IntersectFrom(a, b, first), x) <==> InFrom(a, first, x) && In(b, x)
  {
    InPlain(b, x);
    if b.end < a.RangeEnd() {
      var last := LastBlock(a, b, first);
      UpToDenotes(a, b, first, last, x);
    } else {
      RepsDenotes(a, first, a.reps, x);
      OnlyMember(a.Reps(first, a.reps), x);
      if k: nat :| first <= k <= a.reps && InBlock(a, k, x) {
        MulMono(k, a.reps, a.stride);
        MulMono(first, k, a.stride);
      }
    }
  }

  lemma OnlyMember(r: Region, x: nat)
    ensures Covers({r}, x) <==> In(r, x)
  {
    assert In(r, x) ==> r in {r};
  }

  /** Which of the repetitions from first on lie in b: those before last entirely, those after not at all. */
  lemma BlockAgainstEnd(a: Region, b: Region, first: nat, last: nat, k: nat, x: nat)
    requires a.Valid() && b.Valid() && b.reps == 0 && a.reps > 0 && last <= a.reps
    requires b.start <= a.start + Mul(first, a.stride) && a.start <= b.end
    requires Mul(last, a.stride) <= b.end - a.start < Mul(last, a.stride) + a.stride
    requires first <= k && InBlock(a, k, x)
    ensures b.start <= x && (k < last ==> x <= b.end) && (k > last ==> b.end < x)
  {
    MulMono(first, k, a.stride);
    if k < last { MulMono(k, last, a.stride); }
    if k > last { MulMono(last, k, a.stride); }
  }

  lemma {:induction false} UpToDenotes(a: Region, b: Region, first: nat, last: nat, x: nat)
    requires a.Valid() && b.Valid() && b.reps == 0 && a.reps > 0 && last <= a.reps
    requires b.start <= a.start + Mul(first, a.stride) && a.start <= b.end
    requires Mul(last, a.stride) <= b.end - a.start < Mul(last, a.stride) + a.stride
    ensures Covers(IntersectUpTo(a, b, first, last), x) <==> InFrom(a, first, x) && In(b, x)
  {
    InPlain(b, x);
    forall k: nat | first <= k <= a.reps && InBlock(a, k, x)
      ensures b.start <= x && (k < last ==> x <= b.end) && (k > last ==> b.end < x)
    {
      BlockAgainstEnd(a, b, first, last, k, x);
    }
    if first <= last {
      RepDenotes(a, last, x);
      ClipDenotes(a.Rep(last), b, x);
      var cut := Clip(a.Rep(last), b);
      if a.Rep(last) in cut {
        RepsDenotes(a, first, last, x);
        OnlyMember(a.Reps(first, last), x);
      } else if first < last {
        RepsDenotes(a, first, last - 1, x);
        CoversUnion(cut, {a.Reps(first, last - 1)}, x);
        OnlyMember(a.Reps(first, last - 1), x);
      }
    }
  }

  lemma CoversUnion(s: set<Region>, t: set<Region>, x: nat)
    ensures Covers(s + t, x) <==> Covers(s, x) || Covers(t, x)
  {
    if r :| r in s && In(r, x) { assert r in s + t; }
    if r :| r in t && In(r, x) { assert r in s + t; }
  }

  lemma FirstBlock(a: Region, b: Region) returns (first: nat)
    requires a.Valid() && b.Valid() && b.reps == 0 && a.reps > 0
    requires a.start < b.start <= a.RangeEnd() && a.start <= b.end
    ensures first <= a.reps && Mul(first, a.stride) <= b.start - a.start < Mul(first, a.stride) + a.stride
    ensures IntersectBlock(a, b) == IntersectAt(a, b, first)
  {
    FirstOverlapInReps(a, b.start);
    first := Quotient(b.start - a.start, a.stride);
  }

  lemma IntersectBlockDenotes(a: Region, b: Region, x: nat)
    requires a.Valid() && b.Valid() && b.reps == 0
    ensures Covers(IntersectBlock(a, b), x) <==> In(a, x) && In(b, x)
  {
    InPlain(b, x);
    if In(a, x) { InRange(a, x); }
    if !Overlaps(a, b) {
    } else if a.reps == 0 {
      ClipDenotes(a, b, x);
    } else if b.start > a.start {
      var first := FirstBlock(a, b);
      IntersectFirst(a, b, first, x);
    } else {
      IntersectFromDenotes(a, b, 0, x);
      assert InFrom(a, 0, x) <==> In(a, x);
    }
  }

  lemma {:induction false} IntersectFirst(a: Region, b: Region, first: nat, x: nat)
    requires a.Valid() && b.Valid() && b.reps == 0 && a.reps > 0
    requires a.start <= b.start && a.start <= b.end && first <= a.reps
    requires Mul(first, a.stride) <= b.start - a.start < Mul(first, a.stride) + a.stride
    ensures Covers(IntersectAt(a, b, first), x) <==> In(a, x) && In(b, x)
  {
    InPlain(b, x);
    RepDenotes(a, first, x);
    ClipDenotes(a.Rep(first), b, x);
    MulPlus(first, 1, a.stride);
    var cut := Clip(a.Rep(first), b);
    if In(a, x) && In(b, x) {
      var k := BlockOf(a, x);
      if k < first { BlockOrder(a, k, first, x, a.start + Mul(first, a.stride)); }
      assert InFrom(a, first, x);
      if k > first { assert InFrom(a, first + 1, x); }
    }
    if a.Rep(first) in cut {
      IntersectFromDenotes(a, b, first, x);
    } else if first < a.reps {
      IntersectFromDenotes(a, b, first + 1, x);
      CoversUnion(cut, IntersectFrom(a, b, first + 1), x);
    }
  }

  /** Intersection denotes exactly the common indices. */
  lemma IntersectDenotes(a: Region, b: Region, x: nat)
    requires a.Valid() && b.Valid() && (a.reps == 0 || b.reps == 0)
    ensures Covers(Intersect(a, b), x) <==> In(a, x) && In(b, x)
  {
    if b.reps > 0 { IntersectBlockDenotes(b, a, x); } else { IntersectBlockDenotes(a, b, x); }
  }

  // ----- the shape of an intersection -----

  /** Strided members come from region src and keep its stride. */
  ghost predicate StrideFrom(s: set<Region>, src: Region) {
    forall r :: r in s && r.reps > 0 ==> src.reps > 0 && r.stride == src.stride
  }

  ghost predicate OneStrided(s: set<Region>) {
    forall p, q :: p in s && q in s && p.reps > 0 && q.reps > 0 ==> p == q
  }

  ghost predicate Shape(s: set<Region>, src: Region) {
    AllValid(s) && PairwiseApart(s) && StrideFrom(s, src) && OneStrided(s)
  }

  lemma ApartUnion(s: set<Region>, t: set<Region>)
    requires PairwiseApart(s) && PairwiseApart(t)
    requires forall x: nat :: Covers(s, x) ==> !Covers(t, x)
    ensures PairwiseApart(s + t)
  {
    forall a, b | a in s + t && b in s + t && a != b ensures Apart(a, b) {
      forall x: nat | In(a, x) ensures !In(b, x) {
        assert a in s ==> Covers(s, x);
        assert b in s && In(b, x) ==> Covers(s, x);
      }
    }
  }

  lemma ShapeUnion(cut: set<Region>, s: set<Region>, src: Region)
    requires Shape(cut, src) && Shape(s, src) && (forall r :: r in cut ==> r.reps == 0)
    requires forall x: nat :: Covers(cut, x) ==> !Covers(s, x)
    ensures Shape(cut + s, src)
  {
    ApartUnion(cut, s);
  }

  lemma ClipShape(a: Region, b: Region, src: Region)
    requires a.Valid() && b.Valid() && a.reps == 0 && b.reps == 0
    ensures Shape(Clip(a, b), src) && forall r :: r in Clip(a, b) ==> r.reps == 0
  {
  }

  lemma UpToShape(a: Region, b: Region, first: nat, last: nat)
    requires a.Valid() && b.Valid() && b.reps == 0 && a.reps > 0 && last <= a.reps
    ensures Shape(IntersectUpTo(a, b, first, last), a)
  {
    if first <= last {
      RepDenotes(a, last, 0);
      var cut := Clip(a.Rep(last), b);
      if a.Rep(last) in cut {
        RepsValid(a, first, last);
      } else if first < last {
        RepsValid(a, first, last - 1);
        forall x: nat | Covers(cut, x) ensures !Covers({a.Reps(first, last - 1)}, x) {
          ClipDenotes(a.Rep(last), b, x);
          RepDenotes(a, last, x);
          RepsDenotes(a, first, last - 1, x);
          if k: nat :| first <= k <= last - 1 && InBlock(a, k, x) {
            BlockOrder(a, k, last, x, x);
          }
        }
        ClipShape(a.Rep(last), b, a);
        ShapeUnion(cut, {a.Reps(first, last - 1)}, a);
      }
    }
  }

  lemma IntersectFromShape(a: Region, b: Region, first: nat)
    requires a.Valid() && b.Valid() && b.reps == 0 && a.reps > 0 && first <= a.reps && a.start <= b.end
    ensures Shape(IntersectFrom(a, b, first), a)
  {
    if b.end < a.RangeEnd() {
      var last := LastBlock(a, b, first);
      UpToShape(a, b, first, last);
    } else {
      RepsValid(a, first, a.reps);
    }
  }

  lemma CutApartFromRest(a: Region, b: Region, first: nat, x: nat)
    requires a.Valid() && b.Valid() && b.reps == 0 && a.reps > 0 && first < a.reps && a.start <= b.end
    requires b.start <= a.start + Mul(first + 1, a.stride)
    requires a.Rep(first).Valid()
    ensures Covers(Clip(a.Rep(first), b), x) ==> !Covers(IntersectFrom(a, b, first + 1), x)
  {
    ClipDenotes(a.Rep(first), b, x);
    RepDenotes(a, first, x);
    IntersectFromDenotes(a, b, first + 1, x);
    if k: nat :| first + 1 <= k <= a.reps && InBlock(a, k, x) && InBlock(a, first, x) {
      BlockOrder(a, first, k, x, x);
    }
  }

  lemma IntersectAtShape(a: Region, b: Region, first: nat)
    requires a.Valid() && b.Valid() && b.reps == 0 && a.reps > 0 && first <= a.reps && a.start <= b.end
    requires b.start <= a.start + Mul(first, a.stride) + a.stride
    ensures Shape(IntersectAt(a, b, first), a)
  {
    RepDenotes(a, first, 0);
    var cut := Clip(a.Rep(first), b);
    if a.Rep(first) in cut {
      IntersectFromShape(a, b, first);
    } else if first == a.reps {
      ClipShape(a.Rep(first), b, a);
    } else {
      var rest := IntersectFrom(a, b, first + 1);
      RestShape(a, b, first, cut, rest);
      ClipShape(a.Rep(first), b, a);
      ShapeUnion(cut, rest, a);
    }
  }

  lemma RestShape(a: Region, b: Region, first: nat, cut: set<Region>, rest: set<Region>)
    requires a.Valid() && b.Valid() && b.reps == 0 && a.reps > 0 && first < a.reps && a.start <= b.end
    requires b.start <= a.start + Mul(first, a.stride) + a.stride && a.Rep(first).Valid()
    requires cut == Clip(a.Rep(first), b) && rest == IntersectFrom(a, b, first + 1)
    ensures Shape(rest, a) && forall x: nat :: Covers(cut, x) ==> !Covers(rest, x)
  {
    MulMono(first, first + 1, a.stride);
    IntersectFromShape(a, b, first + 1);
    forall x: nat | Covers(cut, x) ensures !Covers(rest, x) { CutApartFromRest(a, b, first, x); }
  }

  lemma IntersectBlockShape(a: Region, b: Region)
    requires a.Valid() && b.Valid() && b.reps == 0
    ensures Shape(IntersectBlock(a, b), a)
  {
    if !RangesMeet(a, b) {
    } else if a.reps == 0 {
      ClipDenotes(a, b, 0);
    } else if b.start > a.start {
      var first := FirstBlock(a, b);
      IntersectAtShape(a, b, first);
    } else {
      IntersectFromShape(a, b, 0);
    }
  }

  /** Pieces of an intersection are valid, disjoint, of the operand's stride, and at most one is strided. */
  lemma IntersectShape(a: Region, b: Region)
    requires a.Valid() && b.Valid() && (a.reps == 0 || b.reps == 0)
    ensures Shape(Intersect(a, b), if b.reps > 0 then b else a)
  {
    if b.reps > 0 { IntersectBlockShape(b, a); } else { IntersectBlockShape(a, b); }
  }

  // ----- the overlap test -----

  lemma RepsMeet(a: Region, b: Region, i: nat, j: nat)
    requires a.Valid() && b.Valid() && i <= a.reps && j <= b.reps
    ensures RangesMeet(a.Rep(i), b.Rep(j)) <==> exists x: nat :: InBlock(a, i, x) && InBlock(b, j, x)
  {
    if RangesMeet(a.Rep(i), b.Rep(j)) {
      var x := Max(a.start + Mul(i, a.stride), b.start + Mul(j, b.stride));
      assert InBlock(a, i, x) && InBlock(b, j, x);
    }
  }

  /** A common index can be shifted back to the first block of the later region. */
  lemma {:induction false} ShiftBack(a: Region, b: Region, i: nat, j: nat, from: nat, x: nat)
    requires a.Valid() && b.Valid() && a.reps > 0 && b.reps > 0 && a.stride == b.stride
    requires b.start <= a.start && InBlock(a, i, x) && InBlock(b, j, x) && j <= b.reps
    requires Mul(from, a.stride) <= a.start - b.start < Mul(from, a.stride) + a.stride
    ensures from <= j - i <= from + 1
    ensures InBlock(a, 0, x - Mul(i, a.stride)) && InBlock(b, j - i, x - Mul(i, a.stride))
  {
    var s := a.stride;
    MulPlus(from, i, s);
    MulPlus(j, 1, s);
    MulCancel(from + i, j + 1, s);
    MulPlus(from + i, 2, s);
    MulCancel(j, from + i + 2, s);
    MulMono(i, j, s);
  }

  /** The two repetitions the overlap test starts from. */
  lemma Around(a: Region, b: Region) returns (i: nat, j: nat)
    requires a.Valid() && b.Valid() && RangesMeet(a, b) && a.reps > 0 && b.reps > 0
    ensures i <= a.reps && j <= b.reps && StridedOverlap(a, b) == OverlapAround(a, b, i, j)
    ensures RepAt(a, Max(a.start, b.start), i) && RepAt(b, Max(a.start, b.start), j)
  {
    i := FirstAround(a, Max(a.start, b.start));
    j := FirstAround(b, Max(a.start, b.start));
  }

  lemma FirstAround(r: Region, from: nat) returns (k: nat)
    requires r.Valid() && r.reps > 0 && r.start <= from <= r.RangeEnd()
    ensures k <= r.reps && RepAt(r, from, k) && k == Div(from - r.start, r.stride)
  {
    FirstOverlapInReps(r, from);
    k := Quotient(from - r.start, r.stride);
  }

  /** The repetition of r that starts at or last before an index. */
  ghost predicate RepAt(r: Region, from: nat, k: nat)
    requires r.start <= from
  {
    Mul(k, r.stride) <= from - r.start < Mul(k, r.stride) + r.stride
  }

  lemma FoundNearFirst(a: Region, b: Region, m: nat, n: nat, j: nat, x: nat)
    requires a.Valid() && b.Valid() && a.reps > 0 && b.reps > 0 && a.stride == b.stride
    requires InBlock(a, m, x) && InBlock(b, n, x) && n <= b.reps && b.start <= a.start
    requires Mul(j, b.stride) <= a.start - b.start < Mul(j, b.stride) + b.stride
    ensures j <= b.reps
    ensures RangesMeet(a.Rep(0), b.Rep(j)) || (j < b.reps && RangesMeet(a.Rep(0), b.Rep(j + 1)))
  {
    ShiftBack(a, b, m, n, j, x);
    RepsMeet(a, b, 0, n - m);
  }

  lemma OverlapFound(a: Region, b: Region, i: nat, j: nat, x: nat)
    requires a.Valid() && b.Valid() && a.reps > 0 && b.reps > 0 && a.stride == b.stride
    requires i <= a.reps && j <= b.reps && In(a, x) && In(b, x)
    requires RepAt(a, Max(a.start, b.start), i) && RepAt(b, Max(a.start, b.start), j)
    ensures OverlapAround(a, b, i, j)
  {
    var m := BlockOf(a, x);
    var n := BlockOf(b, x);
    if b.start <= a.start {
      DivUnique(0, i, a.stride);
      FoundNearFirst(a, b, m, n, j, x);
    } else {
      DivUnique(0, j, b.stride);
      FoundNearFirst(b, a, n, m, i, x);
    }
  }

  lemma AroundIsOverlap(a: Region, b: Region, i: nat, j: nat)
    requires a.Valid() && b.Valid() && i <= a.reps && j <= b.reps && OverlapAround(a, b, i, j)
    ensures exists x: nat :: In(a, x) && In(b, x)
  {
    RepsMeet(a, b, i, j);
    if i < a.reps { RepsMeet(a, b, i + 1, j); }
    if j < b.reps { RepsMeet(a, b, i, j + 1); }
    var x: nat, m: nat, n: nat :| m <= a.reps && n <= b.reps && InBlock(a, m, x) && InBlock(b, n, x);
    assert In(a, x) && In(b, x);
  }

  /** A negative answer always means no common index; between two strided or two unstrided regions a positive one
      always means some, and otherwise that the two ranges share an index. */
  lemma OverlapsExact(a: Region, b: Region)
    requires a.Valid() && b.Valid() && Comparable(a, b)
    ensures !Overlaps(a, b) ==> Apart(a, b)
    ensures a.reps > 0 && b.reps > 0 ==> (Overlaps(a, b) <==> !Apart(a, b))
    ensures a.reps == 0 && b.reps == 0 ==> (Overlaps(a, b) <==> !Apart(a, b))
    ensures Overlaps(a, b) ==> Max(a.start, b.start) <= Min(a.RangeEnd(), b.RangeEnd())
    ensures a.reps == 0 || b.reps == 0 ==> (Overlaps(a, b) <== Max(a.start, b.start) <= Min(a.RangeEnd(), b.RangeEnd()))
  {
    forall x: nat | In(a, x) && In(b, x) ensures Overlaps(a, b) {
      InRange(a, x);
      InRange(b, x);
      if a.reps > 0 && b.reps > 0 {
        var i, j := Around(a, b);
        OverlapFound(a, b, i, j, x);
      }
    }
    if Overlaps(a, b) && a.reps == 0 && b.reps == 0 {
      InPlain(a, Max(a.start, b.start));
      InPlain(b, Max(a.start, b.start));
    } else if Overlaps(a, b) && a.reps > 0 && b.reps > 0 {
      var i, j := Around(a, b);
      AroundIsOverlap(a, b, i, j);
    }
  }

  /** With one operand unstrided the test compares ranges only: here it answers yes although nothing is shared. */
  lemma OverlapsIsConservative()
    ensures var a, b := Region(0, 1, 2, 10), Plain(5, 6);
      a.Valid() && b.Valid() && Overlaps(a, b) && Apart(a, b)
  {
    var a, b := Region(0, 1, 2, 10), Plain(5, 6);
    forall x: nat | In(a, x) ensures !In(b, x) {
      InPlain(b, x);
      var k := BlockOf(a, x);
    }
  }
}
