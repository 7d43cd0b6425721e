/** Strided regions of an index space, after DataRegion. A region stands for the
    block [start, end] and reps further copies of it, each stride further on. */
module Regions {
  import opened Arith

  /** The greatest index. A region that ends there is how the program writes "unbounded". */
  const MAX: nat := 0xFFFF_FFFF_FFFF_FFFF

  datatype Region = Region(start: nat, end: nat, reps: nat, stride: nat) {

    /** What the normalising constructor guarantees: blocks of a strided region
        neither touch nor overlap, and an unstrided region has stride MAX. */
    ghost predicate Valid() {
      && start <= end <= MAX
      && (reps == 0 ==> stride == MAX)
      && (reps > 0 ==> end + 1 < start + stride && end + Mul(reps, stride) <= MAX)
    }

    function RangeEnd(): nat {
      end + Mul(reps, stride)
    }

    function Count(): nat
      requires start <= end
    {
      (end - start + 1) * (reps + 1)
    }

    function Rep(n: nat): Region
      requires n <= reps && start <= end
    {
      Plain(start + Mul(n, stride), end + Mul(n, stride))
    }

    function Reps(first: nat, last: nat): Region
      requires first <= last <= reps && start <= end
    {
      Make(start + Mul(first, stride), end + Mul(first, stride), last - first, stride)
    }

    /** The gaps between consecutive blocks. */
    function Inverted(): Region
      requires Valid() && reps > 0
    {
      Make(end + 1, start + stride - 1, reps - 1, stride)
    }
  }

  function Plain(first: nat, last: nat): Region
  {
    Region(first, last, 0, MAX)
  }

  /** The normalising constructor: back-to-back repetitions collapse into one block. */
  function Make(first: nat, last: nat, reps: nat, stride: nat): Region
  {
    if last == MAX || reps == 0 then Plain(first, last)
    else if last + 1 == first + stride then Plain(first, last + Mul(reps, stride))
    else Region(first, last, reps, stride)
  }

  // ----- what a region denotes -----

  ghost predicate InBlock(r: Region, k: nat, x: nat) {
    r.start + Mul(k, r.stride) <= x <= r.end + Mul(k, r.stride)
  }

  ghost predicate In(r: Region, x: nat) {
    exists k: nat :: k <= r.reps && InBlock(r, k, x)
  }

  ghost predicate Covers(s: set<Region>, x: nat) {
    exists r :: r in s && In(r, x)
  }

  /** The index set a set of regions stands for. */
  ghost function Points(s: set<Region>): iset<nat> {
    iset x: nat | Covers(s, x)
  }

  ghost function PointsOf(r: Region): iset<nat> {
    iset x: nat | In(r, x)
  }

  ghost predicate Apart(a: Region, b: Region) {
    forall x: nat :: In(a, x) ==> !In(b, x)
  }

  ghost predicate PairwiseApart(s: set<Region>) {
    forall a, b :: a in s && b in s && a != b ==> Apart(a, b)
  }

  ghost predicate AllValid(s: set<Region>) {
    forall r :: r in s ==> r.Valid()
  }

  lemma InPlain(r: Region, x: nat)
    requires r.reps == 0
    ensures In(r, x) <==> r.start <= x <= r.end
  {
    if r.start <= x <= r.end {
      assert InBlock(r, 0, x);
    }
  }

  lemma BlockOf(r: Region, x: nat) returns (k: nat)
    requires In(r, x)
    ensures k <= r.reps && InBlock(r, k, x)
  {
    k :| k <= r.reps && InBlock(r, k, x);
  }

  /** Every index lies inside the overall range. */
  lemma InRange(r: Region, x: nat)
    requires In(r, x)
    ensures r.start <= x <= r.RangeEnd()
  {
    var k := BlockOf(r, x);
    MulMono(k, r.reps, r.stride);
  }

  /** Membership by quotient and remainder. */
  lemma InByRemainder(r: Region, x: nat)
    requires r.Valid() && r.reps > 0
    ensures In(r, x) <==>
      r.start <= x <= r.RangeEnd() && Mod(x - r.start, r.stride) <= r.end - r.start
  {
    if In(r, x) {
      var k := BlockOf(r, x);
      InRange(r, x);
      DivUnique(x - r.start, k, r.stride);
    }
    if r.start <= x <= r.RangeEnd() && Mod(x - r.start, r.stride) <= r.end - r.start {
      MulPlus(r.reps, 1, r.stride);
      var k := QuotientBelow(x - r.start, r.reps + 1, r.stride);
      DivUnique(x - r.start, k, r.stride);
      assert InBlock(r, k, x);
    }
  }

  // ----- building regions -----

  /** Normalising changes neither the indices nor the field invariants. */
  lemma MakeDenotes(first: nat, last: nat, reps: nat, stride: nat, x: nat)
    requires first <= last && last + Mul(reps, stride) <= MAX
    requires reps > 0 ==> last + 1 <= first + stride
    ensures In(Make(first, last, reps, stride), x) <==> In(Region(first, last, reps, stride), x)
  {
    var raw, m := Region(first, last, reps, stride), Make(first, last, reps, stride);
    if reps > 0 && last + 1 == first + stride {
      InPlain(m, x);
      if In(raw, x) {
        InRange(raw, x);
      }
      if In(m, x) {
        MulPlus(reps, 1, stride);
        var k := QuotientBelow(x - first, reps + 1, stride);
        assert InBlock(raw, k, x);
      }
    } else if reps == 0 {
      InPlain(m, x);
      InPlain(raw, x);
    } else {
      MulMono(1, reps, stride);
    }
  }

  lemma MakeValid(first: nat, last: nat, reps: nat, stride: nat)
    requires first <= last && last + Mul(reps, stride) <= MAX
    requires reps > 0 ==> last + 1 <= first + stride
    ensures Make(first, last, reps, stride).Valid()
    ensures Make(first, last, reps, stride).start == first
    ensures Make(first, last, reps, stride).RangeEnd() == last + Mul(reps, stride)
    ensures Make(first, last, reps, stride).reps > 0 ==> Make(first, last, reps, stride).stride == stride
  {
    if reps > 0 {
      MulMono(1, reps, stride);
    }
  }

  lemma {:induction false} ShiftedBlocks(r: Region, first: nat, last: nat, x: nat)
    requires first <= last
    ensures var raw := Region(r.start + Mul(first, r.stride), r.end + Mul(first, r.stride), last - first, r.stride);
      In(raw, x) <==> exists k: nat :: first <= k <= last && InBlock(r, k, x)
  {
    var raw := Region(r.start + Mul(first, r.stride), r.end + Mul(first, r.stride), last - first, r.stride);
    if In(raw, x) {
      var j := BlockOf(raw, x);
      MulPlus(first, j, r.stride);
      assert InBlock(r, first + j, x);
    }
    if k: nat :| first <= k <= last && InBlock(r, k, x) {
      MulPlus(first, k - first, r.stride);
      assert InBlock(raw, k - first, x);
    }
  }

  /** Taking repetitions first..last keeps exactly those blocks. */
  lemma RepsDenotes(r: Region, first: nat, last: nat, x: nat)
    requires r.Valid() && first <= last <= r.reps
    ensures In(r.Reps(first, last), x) <==> exists k: nat :: first <= k <= last && InBlock(r, k, x)
  {
    MulMono(first, last, r.stride);
    MulMono(last, r.reps, r.stride);
    MakeDenotes(r.start + Mul(first, r.stride), r.end + Mul(first, r.stride), last - first, r.stride, x);
    ShiftedBlocks(r, first, last, x);
  }

  lemma {:induction false} RepsValid(r: Region, first: nat, last: nat)
    requires r.Valid() && first <= last <= r.reps
    ensures r.Reps(first, last).Valid()
    ensures r.Reps(first, last).reps > 0 ==> r.reps > 0 && r.Reps(first, last).stride == r.stride
    ensures r.Reps(first, last).start == r.start + Mul(first, r.stride)
    ensures r.Reps(first, last).RangeEnd() == r.end + Mul(last, r.stride)
  {
    MulMono(first, last, r.stride);
    MulMono(last, r.reps, r.stride);
    MakeValid(r.start + Mul(first, r.stride), r.end + Mul(first, r.stride), last - first, r.stride);
  }

  lemma RepDenotes(r: Region, n: nat, x: nat)
    requires r.Valid() && n <= r.reps
    ensures r.Rep(n).Valid()
    ensures In(r.Rep(n), x) <==> InBlock(r, n, x)
  {
    MulMono(n, r.reps, r.stride);
    InPlain(r.Rep(n), x);
  }

  lemma InvertedValid(r: Region)
    requires r.Valid() && r.reps > 0
    ensures r.Inverted().Valid()
    ensures r.Inverted().reps > 0 ==> r.Inverted().stride == r.stride
    ensures r.Inverted().start == r.end + 1
  {
    MulPlus(r.reps - 1, 1, r.stride);
    MakeValid(r.end + 1, r.start + r.stride - 1, r.reps - 1, r.stride);
  }

  lemma {:induction false} GapIsOutside(r: Region, k: nat, x: nat)
    requires r.Valid() && r.reps > 0 && k < r.reps
    requires r.end + 1 + Mul(k, r.stride) <= x <= r.start + r.stride - 1 + Mul(k, r.stride)
    ensures r.start <= x <= r.RangeEnd() && !In(r, x)
  {
    MulPlus(k, 1, r.stride);
    MulMono(k + 1, r.reps, r.stride);
    if In(r, x) {
      InByRemainder(r, x);
      DivUnique(x - r.start, k, r.stride);
    }
  }

  lemma OutsideIsGap(r: Region, x: nat) returns (k: nat)
    requires r.Valid() && r.reps > 0
    requires r.start <= x <= r.RangeEnd() && !In(r, x)
    ensures k < r.reps
    ensures r.end + 1 + Mul(k, r.stride) <= x <= r.start + r.stride - 1 + Mul(k, r.stride)
  {
    MulPlus(r.reps, 1, r.stride);
    k := QuotientBelow(x - r.start, r.reps + 1, r.stride);
    assert !InBlock(r, k, x) && !InBlock(r, r.reps, x);
  }

  /** Inside the range of a strided region, its gaps are its complement. */
  lemma InvertedDenotes(r: Region, x: nat)
    requires r.Valid() && r.reps > 0
    ensures In(r.Inverted(), x) <==> r.start <= x <= r.RangeEnd() && !In(r, x)
  {
    MulPlus(r.reps - 1, 1, r.stride);
    MakeDenotes(r.end + 1, r.start + r.stride - 1, r.reps - 1, r.stride, x);
    var gaps := Region(r.end + 1, r.start + r.stride - 1, r.reps - 1, r.stride);
    if In(gaps, x) {
      var k := BlockOf(gaps, x);
      GapIsOutside(r, k, x);
    }
    if r.start <= x <= r.RangeEnd() && !In(r, x) {
      var k := OutsideIsGap(r, x);
      assert InBlock(gaps, k, x);
    }
  }
}
