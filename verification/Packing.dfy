/** Counting the indices of a subset, and packing its elements into a contiguous buffer and back. */
module Packing {
  import opened Arith
  import opened Basics
  import opened Regions
  import opened RegionIntersection
  import opened RegionDifference
  import opened RegionMerging
  import opened Subsets

  // ----- the order of elements -----

  /** The indices first..last in increasing order. */
  ghost function Run(first: nat, last: nat): seq<nat> {
    if last < first then [] else seq(last + 1 - first, i requires 0 <= i => first + i)
  }

  /** The indices of the first n blocks of a region, block by block. */
  ghost function BlockOrder(r: Region, n: nat): seq<nat> {
    if n == 0 then []
    else BlockOrder(r, n - 1) + Run(r.start + Mul(n - 1, r.stride), r.end + Mul(n - 1, r.stride))
  }

  ghost function FirstOf(s: set<Region>): (r: Region)
    requires s != {}
    ensures IsFirst(r, s)
  {
    assert exists r :: IsFirst(r, s) by { var w := FirstExists(s); }
    var r :| IsFirst(r, s);
    r
  }

  /** The order in which packing and unpacking visit the indices of a set of regions. */
  ghost function Order(s: set<Region>): seq<nat>
    decreases |s|
  {
    if s == {} then []
    else var f := FirstOf(s); BlockOrder(f, f.reps + 1) + Order(s - {f})
  }

  lemma DistinctJoin(s: seq<nat>, t: seq<nat>)
    requires Distinct(s) && Distinct(t) && forall x :: x in s ==> x !in t
    ensures Distinct(s + t)
  {
    forall j, k | 0 <= j < k < |s + t| ensures (s + t)[j] != (s + t)[k] {
      if j < |s| <= k {
        assert (s + t)[j] in s && (s + t)[k] == t[k - |s|];
      }
    }
  }

  lemma {:induction false} BlockOrderExact(r: Region, n: nat)
    requires r.Valid() && n <= r.reps + 1
    ensures Distinct(BlockOrder(r, n)) && |BlockOrder(r, n)| == Mul(n, r.end + 1 - r.start)
    ensures forall x: nat :: x in BlockOrder(r, n) <==> InBlocks(r, 0, n - 1, x)
  {
    if n > 0 {
      BlockOrderExact(r, n - 1);
      var lo, hi := r.start + Mul(n - 1, r.stride), r.end + Mul(n - 1, r.stride);
      var run := Run(lo, hi);
      forall x: nat ensures x in run <==> InBlock(r, n - 1, x) {
        if InBlock(r, n - 1, x) { assert run[x - lo] == x; }
      }
      forall x: nat ensures x in BlockOrder(r, n) <==> InBlocks(r, 0, n - 1, x)
        ensures x in BlockOrder(r, n - 1) ==> x !in run
      {
        SplitBlocks(r, 0, n - 2, n - 1, x);
        assert InBlock(r, n - 1, x) <==> InBlocks(r, n - 1, n - 1, x);
      }
      DistinctJoin(BlockOrder(r, n - 1), run);
    }
  }

  lemma SplitFirst(s: set<Region>, f: Region)
    requires AllValid(s) && PairwiseApart(s) && f in s
    ensures forall x: nat :: Covers(s, x) <==> In(f, x) || Covers(s - {f}, x)
    ensures forall x: nat :: In(f, x) ==> !Covers(s - {f}, x)
  {
    assert {f} + (s - {f}) == s;
    forall x: nat ensures Covers(s, x) <==> In(f, x) || Covers(s - {f}, x) {
      CoversUnion({f}, s - {f}, x);
      OnlyMember(f, x);
    }
    forall x: nat | Covers(s - {f}, x) ensures !In(f, x) {
      var r :| r in s - {f} && In(r, x);
      assert Apart(r, f);
    }
  }

  lemma {:induction false} OrderExact(s: set<Region>)
    requires AllValid(s) && PairwiseApart(s)
    ensures Distinct(Order(s)) && forall x: nat :: x in Order(s) <==> Covers(s, x)
    decreases |s|
  {
    if s != {} {
      var f := FirstOf(s);
      OrderExact(s - {f});
      BlocksIn(f);
      SplitFirst(s, f);
      CoverJoin(s, f, BlockOrder(f, f.reps + 1), Order(s - {f}), Order(s));
    }
  }

  lemma BlocksIn(r: Region)
    requires r.Valid()
    ensures Distinct(BlockOrder(r, r.reps + 1)) && forall x: nat :: x in BlockOrder(r, r.reps + 1) <==> In(r, x)
  {
    BlockOrderExact(r, r.reps + 1);
    forall x: nat ensures InBlocks(r, 0, r.reps, x) <==> In(r, x) {}
  }

  ghost predicate Increasing(s: seq<nat>) {
    forall j, k :: 0 <= j < k < |s| ==> s[j] < s[k]
  }

  /** Without strides packing goes through the indices in increasing order. */
  lemma {:induction false} PlainOrder(s: set<Region>)
    requires AllValid(s) && PairwiseApart(s) && forall r :: r in s ==> r.reps == 0
    ensures Increasing(Order(s))
    decreases |s|
  {
    if s != {} {
      var f := FirstOf(s);
      PlainOrder(s - {f});
      PlainMore(s, f, Order(s - {f}));
    }
  }

  lemma PlainMore(s: set<Region>, f: Region, rest: seq<nat>)
    requires AllValid(s) && PairwiseApart(s) && (forall r :: r in s ==> r.reps == 0) && IsFirst(f, s)
    requires rest == Order(s - {f}) && Increasing(rest)
    ensures Increasing(Order(s))
  {
    PlainRest(s, f, rest);
    OneBlock(f);
    OrderStep(s, f);
    RunThenRest(BlockOrder(f, f.reps + 1), rest, f.start, f.end, BlockOrder(f, f.reps + 1) + rest);
  }

  lemma PlainRest(s: set<Region>, f: Region, rest: seq<nat>)
    requires AllValid(s) && PairwiseApart(s) && (forall r :: r in s ==> r.reps == 0) && IsFirst(f, s)
    requires rest == Order(s - {f})
    ensures forall x :: x in rest ==> f.end < x
  {
    OrderExact(s - {f});
    forall x | x in rest ensures f.end < x { PlainLater(s, f, x); }
  }

  lemma OneBlock(f: Region)
    requires f.reps == 0
    ensures BlockOrder(f, f.reps + 1) == Run(f.start, f.end)
  {
    assert BlockOrder(f, 0) == [];
  }

  lemma PlainLater(s: set<Region>, f: Region, x: nat)
    requires AllValid(s) && PairwiseApart(s) && (forall r :: r in s ==> r.reps == 0) && IsFirst(f, s)
    requires Covers(s - {f}, x)
    ensures f.end < x
  {
    var r :| r in s - {f} && In(r, x);
    InPlain(r, x);
    InPlain(f, x);
    InPlain(f, r.start);
    InPlain(r, r.start);
    assert Apart(f, r);
  }

  lemma RunThenRest(run: seq<nat>, rest: seq<nat>, first: nat, last: nat, all: seq<nat>)
    requires run == Run(first, last) && (forall x :: x in rest ==> last < x) && Increasing(rest) && all == run + rest
    ensures Increasing(all)
  {
    forall j, k | 0 <= j < k < |all| ensures all[j] < all[k] {
      if j < |run| <= k { assert all[k] == rest[k - |run|] && rest[k - |run|] in rest; }
    }
  }

  lemma CoverJoin(s: set<Region>, f: Region, first: seq<nat>, rest: seq<nat>, order: seq<nat>)
    requires Distinct(first) && forall x: nat :: x in first <==> In(f, x)
    requires Distinct(rest) && forall x: nat :: x in rest <==> Covers(s - {f}, x)
    requires forall x: nat :: Covers(s, x) <==> In(f, x) || Covers(s - {f}, x)
    requires forall x: nat :: In(f, x) ==> !Covers(s - {f}, x)
    requires order == first + rest
    ensures Distinct(order) && forall x: nat :: x in order <==> Covers(s, x)
  {
    DistinctJoin(first, rest);
  }

  lemma RegionCount(r: Region)
    requires r.Valid()
    ensures |BlockOrder(r, r.reps + 1)| == r.Count()
  {
    BlockOrderExact(r, r.reps + 1);
    UsualProduct(r.reps + 1, r.end + 1 - r.start);
    var width, n := r.end - r.start + 1, r.reps + 1;
    assert n * width == width * n;
  }

  /** The first region of what is left comes next. */
  lemma {:induction false} OrderStep(ahead: set<Region>, r: Region)
    requires IsFirst(r, ahead)
    ensures Order(ahead) == BlockOrder(r, r.reps + 1) + Order(ahead - {r})
  {
    assert FirstOf(ahead) == r;
  }

  lemma NextRegion(done: seq<nat>, ahead: set<Region>, r: Region, order: seq<nat>)
    requires IsFirst(r, ahead) && done + Order(ahead) == order
    ensures done + BlockOrder(r, r.reps + 1) + Order(ahead - {r}) == order
  {
    OrderStep(ahead, r);
    assert done + (BlockOrder(r, r.reps + 1) + Order(ahead - {r}))
        == done + BlockOrder(r, r.reps + 1) + Order(ahead - {r});
  }

  /** A sequence without repetitions has as many entries as distinct values. */
  lemma {:induction false} DistinctCount(s: seq<nat>, t: set<nat>)
    requires Distinct(s) && forall x :: x in s <==> x in t
    ensures |t| == |s|
  {
    if s == [] {
      assert t == {};
    } else {
      var last := s[|s| - 1];
      assert s == s[..|s| - 1] + [last];
      DistinctCount(s[..|s| - 1], t - {last});
    }
  }

  // ----- counting -----

  ghost function IndicesUpTo(s: set<Region>, maxIndex: nat): set<nat> {
    set x: nat | x <= maxIndex && Covers(s, x)
  }

  /** The greatest index stands for "without end", as an end and as a number of indices. */
  predicate Unbounded(r: Region) {
    r.end == MAX || (r.start <= r.end && r.Count() == MAX)
  }

  predicate SomeUnbounded(s: set<Region>) {
    exists r :: r in s && Unbounded(r)
  }

  method CountRegions(regions: set<Region>) returns (n: nat)
    requires AllValid(regions)
    ensures n == if SomeUnbounded(regions) then 0 else |Order(regions)|
  {
    n := 0;
    var ahead := regions;
    while ahead != {}
      invariant ahead <= regions && n + |Order(ahead)| == |Order(regions)|
      invariant forall r :: r in regions - ahead ==> !Unbounded(r)
      decreases |ahead|
    {
      var r := First(ahead);
      if r.end == MAX || r.Count() == MAX { return 0; }
      OrderStep(ahead, r);
      RegionCount(r);
      n := n + r.Count();
      ahead := ahead - {r};
    }
  }

  /** The number of indices from 0 to maxIndex, and 0 if among them some region has no end or as many indices as stand
      for that; which takes a bound of at least the last but one index. */
  method Count(s: DataSubset, maxIndex: nat) returns (n: nat)
    requires s.Valid() && maxIndex <= MAX
    ensures n == if SomeUnbounded(Bound(s.regions, 0, maxIndex)) then 0 else |Order(Bound(s.regions, 0, maxIndex))|
    ensures !SomeUnbounded(Bound(s.regions, 0, maxIndex)) ==> n == |IndicesUpTo(s.regions, maxIndex)|
    ensures maxIndex + 1 < MAX ==> n == |Order(Bound(s.regions, 0, maxIndex))|
    ensures maxIndex == MAX && Endless(s.regions) ==> n == 0
  {
    var regions := s.BoundedRegions(0, maxIndex);
    n := CountRegions(regions);
    if maxIndex + 1 < MAX { NoneUnbounded(s.regions, regions, maxIndex); }
    EndlessBound(s.regions, regions, maxIndex);
    OrderExact(regions);
    forall x: nat ensures x in Order(regions) <==> x in IndicesUpTo(s.regions, maxIndex) {
      assert Covers(regions, x) <==> x in Points(regions);
      assert Covers(s.regions, x) <==> x in s.Indices();
    }
    DistinctCount(Order(regions), IndicesUpTo(s.regions, maxIndex));
  }

  ghost function Below(n: nat): (s: set<nat>)
    ensures |s| == n && forall x: nat :: x in s <==> x < n
  {
    if n == 0 then {} else Below(n - 1) + {n - 1}
  }

  lemma FewBelow(order: seq<nat>, n: nat)
    requires Distinct(order) && forall x :: x in order ==> x < n
    ensures |order| <= n
  {
    var some := set x | x in order;
    DistinctCount(order, some);
    SubsetCount(some, Below(n));
  }

  lemma SubsetCount(some: set<nat>, all: set<nat>)
    requires some <= all
    ensures |some| <= |all|
  {
    assert all == some + (all - some);
  }

  /** What lies below the bound is too little to be taken for without end. */
  lemma NoneUnbounded(s: set<Region>, bounded: set<Region>, maxIndex: nat)
    requires AllValid(bounded) && maxIndex + 1 < MAX && Points(bounded) == Points(s) * Interval(0, maxIndex)
    ensures !SomeUnbounded(bounded)
  {
    forall r | r in bounded ensures !Unbounded(r) {
      var order := BlockOrder(r, r.reps + 1);
      BlockOrderExact(r, r.reps + 1);
      forall x | x in order ensures x < maxIndex + 1 {
        assert In(r, x);
        assert x in Points(bounded);
      }
      FewBelow(order, maxIndex + 1);
      RegionCount(r);
      InBlockZero(r);
      assert r.end in Points(bounded);
    }
  }

  /** Some first block goes up to the greatest index. */
  predicate Endless(s: set<Region>) {
    exists r :: r in s && r.end == MAX
  }

  lemma EndlessBound(s: set<Region>, bounded: set<Region>, maxIndex: nat)
    requires AllValid(s) && AllValid(bounded) && maxIndex <= MAX && bounded == Bound(s, 0, maxIndex)
    requires Points(bounded) == Points(s) * Interval(0, maxIndex)
    ensures Endless(bounded) <==> maxIndex == MAX && Endless(s)
  {
    forall r, x: nat | r in s && In(r, x) ensures x <= MAX { InRange(r, x); }
    if maxIndex == MAX {
      forall x: nat | x in Points(s) ensures x in Interval(0, MAX) {}
      assert bounded == s;
    } else {
      forall r | r in bounded ensures r.end <= maxIndex {
        InBlockZero(r);
        assert r.end in Points(bounded);
      }
    }
  }

  lemma InBlockZero(r: Region)
    requires r.Valid()
    ensures In(r, r.end)
  {
    assert InBlock(r, 0, r.end);
  }

  // ----- packing -----

  /** Copies src[first..last] to dst from position at on. */
  method CopyBlock<T>(src: array<T>, first: nat, last: nat, dst: array<T>, at: nat)
    requires src != dst && first <= last < src.Length && at + (last + 1 - first) <= dst.Length
    modifies dst
    ensures dst[..] == old(dst[..at]) + src[first..last + 1] + old(dst[at + (last + 1 - first)..])
  {
    for n := 0 to last + 1 - first
      invariant dst[..] == old(dst[..at]) + src[first..first + n] + old(dst[at + n..])
    {
      dst[at + n] := src[first + n];
    }
  }

  /** The first n entries of d are the elements of src at the first n indices of the order. */
  ghost predicate Gathered<T>(d: seq<T>, order: seq<nat>, n: nat, src: seq<T>)
    requires n <= |order| && n <= |d|
  {
    forall k :: 0 <= k < n ==> order[k] < |src| && d[k] == src[order[k]]
  }

  lemma GatherBlock<T>(was: seq<T>, now: seq<T>, order: seq<nat>, at: nat, first: nat, last: nat, src: seq<T>)
    requires first <= last < |src| && at + (last + 1 - first) <= |was| == |order|
    requires order[at..at + (last + 1 - first)] == Run(first, last)
    requires now == was[..at] + src[first..last + 1] + was[at + (last + 1 - first)..]
    requires Gathered(was, order, at, src)
    ensures Gathered(now, order, at + (last + 1 - first), src)
  {
    forall k | 0 <= k < at + (last + 1 - first) ensures order[k] < |src| && now[k] == src[order[k]] {
      if k < at {
        assert now[k] == was[k];
      } else {
        assert order[k] == Run(first, last)[k - at];
      }
    }
  }

  /** The indices packing a buffer of the given size visits, in its order. */
  ghost function Layout(s: set<Region>, size: nat): seq<nat>
    requires AllValid(s) && (s != {} ==> 0 < size <= MAX)
  {
    if s == {} then [] else Order(Bound(s, 0, size - 1))
  }

  /** Every index of the subset that the buffer has, once. */
  ghost predicate IsLayout(s: set<Region>, size: nat, order: seq<nat>) {
    Distinct(order) && forall x: nat :: x in order <==> x in Points(s) && x < size
  }

  /** The regions to visit in a buffer of the given size. */
  method Visited(s: DataSubset, size: nat) returns (regions: set<Region>)
    requires s.Valid() && s.regions != {} && 0 < size < MAX
    ensures AllValid(regions) && !SomeUnbounded(regions)
    ensures Order(regions) == Layout(s.regions, size) && IsLayout(s.regions, size, Order(regions))
    ensures forall k :: 0 <= k < |Order(regions)| ==> Order(regions)[k] < size
  {
    regions := s.BoundedRegions(0, size - 1);
    LayoutOf(s.regions, regions, size);
    NoneUnbounded(s.regions, regions, size - 1);
  }

  /** Packs the elements of src on the subset into a new buffer. */
  method Pack<T(0)>(s: DataSubset, src: array<T>) returns (dst: array<T>)
    requires s.Valid() && (s.regions != {} ==> 0 < src.Length < MAX)
    ensures fresh(dst) && dst.Length == |Layout(s.regions, src.Length)|
    ensures Gathered(dst[..], Layout(s.regions, src.Length), dst.Length, src[..])
    ensures IsLayout(s.regions, src.Length, Layout(s.regions, src.Length))
  {
    if s.regions == {} {
      EmptyIffNone(s.regions);
      dst := new T[0];
      return;
    }
    var regions := Visited(s, src.Length);
    var n := CountRegions(regions);
    dst := new T[n];
    PackRegions(regions, src, dst);
  }

  method PackRegions<T>(regions: set<Region>, src: array<T>, dst: array<T>)
    requires AllValid(regions) && src != dst && dst.Length == |Order(regions)|
    requires forall k :: 0 <= k < |Order(regions)| ==> Order(regions)[k] < src.Length
    modifies dst
    ensures Gathered(dst[..], Order(regions), |Order(regions)|, src[..])
  {
    ghost var order := Order(regions);
    var ptr := 0;
    var ahead := regions;
    ghost var done: seq<nat> := [];
    while ahead != {}
      invariant ahead <= regions && done + Order(ahead) == order && ptr == |done|
      invariant Gathered(dst[..], order, ptr, src[..])
      decreases |ahead|
    {
      var r := First(ahead);
      NextRegion(done, ahead, r, order);
      ptr := PackRegion(r, src, dst, ptr, done, Order(ahead - {r}), order);
      done := done + BlockOrder(r, r.reps + 1);
      ahead := ahead - {r};
    }
  }

  method PackRegion<T>(r: Region, src: array<T>, dst: array<T>, at: nat,
      ghost done: seq<nat>, ghost rest: seq<nat>, ghost order: seq<nat>) returns (ptr: nat)
    requires r.Valid() && src != dst && at == |done| && dst.Length == |order|
    requires done + BlockOrder(r, r.reps + 1) + rest == order
    requires forall k :: 0 <= k < |order| ==> order[k] < src.Length
    requires Gathered(dst[..], order, at, src[..])
    modifies dst
    ensures ptr == |done| + |BlockOrder(r, r.reps + 1)| <= |order|
    ensures Gathered(dst[..], order, ptr, src[..])
  {
    ptr := at;
    for rep := 0 to r.reps + 1
      invariant ptr == |done| + |BlockOrder(r, rep)| <= |order|
      invariant Gathered(dst[..], order, ptr, src[..])
    {
      NextBlock(r, rep, done, rest, order);
      ptr := PackRep(r, rep, src, dst, ptr, |done| + |BlockOrder(r, rep + 1)|, order);
    }
  }

  /** One block, which stands in the order from at to next - 1. */
  method PackRep<T>(r: Region, rep: nat, src: array<T>, dst: array<T>, at: nat, ghost next: nat, ghost order: seq<nat>)
    returns (ptr: nat)
    requires r.Valid() && rep <= r.reps && src != dst && dst.Length == |order|
    requires IsBlockAt(r.Rep(rep), at, next, order)
    requires forall k :: 0 <= k < |order| ==> order[k] < src.Length
    requires Gathered(dst[..], order, at, src[..])
    modifies dst
    ensures ptr == next && Gathered(dst[..], order, ptr, src[..])
  {
    var b := r.Rep(rep);
    PackBlock(b.start, b.end, src, dst, at, order);
    ptr := at + (b.end + 1 - b.start);
  }

  ghost predicate IsBlockAt(b: Region, at: nat, next: nat, order: seq<nat>) {
    b.start <= b.end && next == at + (b.end + 1 - b.start) <= |order| && order[at..next] == Run(b.start, b.end)
  }

  method PackBlock<T>(first: nat, last: nat, src: array<T>, dst: array<T>, at: nat, ghost order: seq<nat>)
    requires first <= last && src != dst && at + (last + 1 - first) <= dst.Length == |order|
    requires order[at..at + (last + 1 - first)] == Run(first, last)
    requires forall k :: 0 <= k < |order| ==> order[k] < src.Length
    requires Gathered(dst[..], order, at, src[..])
    modifies dst
    ensures Gathered(dst[..], order, at + (last + 1 - first), src[..])
  {
    assert order[at + (last - first)] == Run(first, last)[last - first];
    ghost var was := dst[..];
    assert was[..at] == dst[..at] && was[at + (last + 1 - first)..] == dst[at + (last + 1 - first)..];
    CopyBlock(src, first, last, dst, at);
    GatherBlock(was, dst[..], order, at, first, last, src[..]);
  }

  lemma OrderBelow(s: set<Region>, bounded: set<Region>, size: nat)
    requires AllValid(bounded) && PairwiseApart(bounded) && size > 0
    requires Points(bounded) == Points(s) * Interval(0, size - 1)
    ensures Distinct(Order(bounded)) && forall k :: 0 <= k < |Order(bounded)| ==> Order(bounded)[k] < size
    ensures forall x: nat :: x in Order(bounded) <==> x in Points(s) && x < size
  {
    OrderExact(bounded);
    forall x: nat ensures x in Order(bounded) <==> x in Points(s) && x < size {
      assert Covers(bounded, x) <==> x in Points(bounded);
      assert Between(0, size - 1, x) <==> x < size;
    }
    forall k | 0 <= k < |Order(bounded)| ensures Order(bounded)[k] < size {
      assert Order(bounded)[k] in Order(bounded);
    }
  }

  /** The bounded regions, in their order, are the layout. */
  lemma LayoutOf(s: set<Region>, bounded: set<Region>, size: nat)
    requires AllValid(s) && s != {} && 0 < size <= MAX && bounded == Bound(s, 0, size - 1)
    requires AllValid(bounded) && PairwiseApart(bounded) && Points(bounded) == Points(s) * Interval(0, size - 1)
    ensures Layout(s, size) == Order(bounded) && IsLayout(s, size, Order(bounded))
    ensures forall k :: 0 <= k < |Order(bounded)| ==> Order(bounded)[k] < size
  {
    OrderBelow(s, bounded, size);
  }

  /** Where the next block stands in the order. */
  lemma NextBlock(r: Region, rep: nat, done: seq<nat>, rest: seq<nat>, order: seq<nat>)
    requires r.Valid() && rep <= r.reps
    requires done + BlockOrder(r, r.reps + 1) + rest == order
    ensures var b, at := r.Rep(rep), |done| + |BlockOrder(r, rep)|;
      && at + (b.end + 1 - b.start) == |done| + |BlockOrder(r, rep + 1)| <= |order|
      && IsBlockAt(b, at, |done| + |BlockOrder(r, rep + 1)|, order)
  {
    BlockOrderPrefix(r, rep + 1, r.reps + 1);
    var upto, run := BlockOrder(r, rep + 1), Run(r.Rep(rep).start, r.Rep(rep).end);
    var tail := BlockOrder(r, r.reps + 1)[|upto|..];
    var before := BlockOrder(r, rep);
    assert BlockOrder(r, r.reps + 1) == upto + tail && upto == before + run;
    Regroup(done, before, run, tail, rest);
    SliceOf(done + before, run, tail + rest, order);
  }

  lemma Regroup(a: seq<nat>, b: seq<nat>, c: seq<nat>, d: seq<nat>, e: seq<nat>)
    ensures a + (b + c + d) + e == (a + b) + c + (d + e)
  {
  }

  lemma SliceOf(pre: seq<nat>, run: seq<nat>, post: seq<nat>, order: seq<nat>)
    requires order == pre + run + post
    ensures |pre| + |run| <= |order| && order[|pre|..|pre| + |run|] == run
  {
  }

  lemma {:induction false} BlockOrderPrefix(r: Region, m: nat, n: nat)
    requires m <= n
    ensures BlockOrder(r, m) <= BlockOrder(r, n)
  {
    if m < n { BlockOrderPrefix(r, m, n - 1); }
  }

  // ----- unpacking -----

  /** The first n indices of the order hold the first n entries of src, all others are as they were. */
  ghost predicate Scattered<T>(d: seq<T>, was: seq<T>, order: seq<nat>, n: nat, src: seq<T>)
    requires n <= |order| && n <= |src| && |d| == |was|
  {
    && (forall k :: 0 <= k < n ==> order[k] < |d| && d[order[k]] == src[k])
    && (forall x :: 0 <= x < |d| && x !in order[..n] ==> d[x] == was[x])
  }

  lemma RunAt(order: seq<nat>, at: nat, first: nat, last: nat, x: nat)
    requires first <= x <= last && at + (last + 1 - first) <= |order|
    requires order[at..at + (last + 1 - first)] == Run(first, last)
    ensures order[at + (x - first)] == x && x in order[..at + (last + 1 - first)]
  {
    var n := at + (last + 1 - first);
    assert order[at..n][x - first] == x;
    assert order[..n][at + (x - first)] == x;
  }

  lemma ScatterBlock<T>(was: seq<T>, before: seq<T>, now: seq<T>, order: seq<nat>, at: nat,
      first: nat, last: nat, src: seq<T>)
    requires Distinct(order) && first <= last < |before| == |was| && at + (last + 1 - first) <= |src| == |order|
    requires order[at..at + (last + 1 - first)] == Run(first, last)
    requires now == before[..first] + src[at..at + (last + 1 - first)] + before[last + 1..]
    requires Scattered(before, was, order, at, src)
    ensures Scattered(now, was, order, at + (last + 1 - first), src)
  {
    var n := at + (last + 1 - first);
    forall k | 0 <= k < n ensures order[k] < |now| && now[order[k]] == src[k] {
      if k >= at {
        assert order[k] == Run(first, last)[k - at];
      } else if first <= order[k] <= last {
        RunAt(order, at, first, last, order[k]);
      }
    }
    forall x | 0 <= x < |now| && x !in order[..n] ensures now[x] == was[x] {
      if first <= x <= last {
        RunAt(order, at, first, last, x);
      } else {
        assert order[..at] <= order[..n];
      }
    }
  }

  /** Unpacks a buffer that Pack made onto the subset of dst, and nothing else. */
  method Unpack<T>(s: DataSubset, src: array<T>, dst: array<T>)
    requires s.Valid() && src != dst && (s.regions != {} ==> 0 < dst.Length < MAX)
    requires src.Length == |Layout(s.regions, dst.Length)|
    modifies dst
    ensures Scattered(dst[..], old(dst[..]), Layout(s.regions, dst.Length), src.Length, src[..])
    ensures IsLayout(s.regions, dst.Length, Layout(s.regions, dst.Length))
  {
    if s.regions == {} {
      EmptyIffNone(s.regions);
      return;
    }
    var regions := Visited(s, dst.Length);
    UnpackRegions(regions, src, dst);
  }

  method UnpackRegions<T>(regions: set<Region>, src: array<T>, dst: array<T>)
    requires AllValid(regions) && src != dst && src.Length == |Order(regions)| && Distinct(Order(regions))
    requires forall k :: 0 <= k < |Order(regions)| ==> Order(regions)[k] < dst.Length
    modifies dst
    ensures Scattered(dst[..], old(dst[..]), Order(regions), src.Length, src[..])
  {
    ghost var order, was := Order(regions), dst[..];
    var ptr := 0;
    var ahead := regions;
    ghost var done: seq<nat> := [];
    while ahead != {}
      invariant ahead <= regions && done + Order(ahead) == order && ptr == |done|
      invariant Scattered(dst[..], was, order, ptr, src[..])
      decreases |ahead|
    {
      var r := First(ahead);
      NextRegion(done, ahead, r, order);
      ptr := UnpackRegion(r, src, dst, ptr, was, done, Order(ahead - {r}), order);
      done := done + BlockOrder(r, r.reps + 1);
      ahead := ahead - {r};
    }
  }

  method UnpackRegion<T>(r: Region, src: array<T>, dst: array<T>, at: nat, ghost was: seq<T>,
      ghost done: seq<nat>, ghost rest: seq<nat>, ghost order: seq<nat>) returns (ptr: nat)
    requires r.Valid() && src != dst && at == |done| && src.Length == |order| && Distinct(order) && |was| == dst.Length
    requires done + BlockOrder(r, r.reps + 1) + rest == order
    requires forall k :: 0 <= k < |order| ==> order[k] < dst.Length
    requires Scattered(dst[..], was, order, at, src[..])
    modifies dst
    ensures ptr == |done| + |BlockOrder(r, r.reps + 1)| <= |order|
    ensures Scattered(dst[..], was, order, ptr, src[..])
  {
    ptr := at;
    for rep := 0 to r.reps + 1
      invariant ptr == |done| + |BlockOrder(r, rep)| <= |order|
      invariant Scattered(dst[..], was, order, ptr, src[..])
    {
      NextBlock(r, rep, done, rest, order);
      ptr := UnpackRep(r, rep, src, dst, ptr, was, |done| + |BlockOrder(r, rep + 1)|, order);
    }
  }

  method UnpackRep<T>(r: Region, rep: nat, src: array<T>, dst: array<T>, at: nat, ghost was: seq<T>,
      ghost next: nat, ghost order: seq<nat>) returns (ptr: nat)
    requires r.Valid() && rep <= r.reps && src != dst && src.Length == |order| && Distinct(order) && |was| == dst.Length
    requires IsBlockAt(r.Rep(rep), at, next, order)
    requires forall k :: 0 <= k < |order| ==> order[k] < dst.Length
    requires Scattered(dst[..], was, order, at, src[..])
    modifies dst
    ensures ptr == next && Scattered(dst[..], was, order, ptr, src[..])
  {
    var b := r.Rep(rep);
    UnpackBlock(b.start, b.end, src, dst, at, was, order);
    ptr := at + (b.end + 1 - b.start);
  }

  method UnpackBlock<T>(first: nat, last: nat, src: array<T>, dst: array<T>, at: nat, ghost was: seq<T>,
      ghost order: seq<nat>)
    requires first <= last && src != dst && at + (last + 1 - first) <= src.Length == |order|
    requires order[at..at + (last + 1 - first)] == Run(first, last)
    requires Distinct(order) && |was| == dst.Length && forall k :: 0 <= k < |order| ==> order[k] < dst.Length
    requires Scattered(dst[..], was, order, at, src[..])
    modifies dst
    ensures Scattered(dst[..], was, order, at + (last + 1 - first), src[..])
  {
    assert order[at + (last - first)] == Run(first, last)[last - first];
    ghost var before := dst[..];
    assert before[..first] == dst[..first] && before[last + 1..] == dst[last + 1..];
    CopyBlock(src, at, at + (last - first), dst, first);
    ScatterBlock(was, before, dst[..], order, at, first, last, src[..]);
  }

  /** Unpacking into a buffer that may still be empty: it is made just long enough for the subset. */
  method UnpackFitting<T(0)>(s: DataSubset, src: array<T>, dst: array<T>) returns (out: array<T>)
    requires s.Valid() && src != dst && dst.Length < MAX
    requires dst.Length == 0 ==> forall x: nat :: x in s.Indices() ==> x + 1 < MAX
    requires s.regions != {} && dst.Length > 0 ==> src.Length == |Layout(s.regions, dst.Length)|
    requires s.regions != {} && dst.Length == 0 ==> src.Length == |Order(s.regions)|
    modifies dst
    ensures s.regions == {} || dst.Length > 0 ==> out == dst
    ensures s.regions == {} ==> dst[..] == old(dst[..])
    ensures s.regions != {} && dst.Length > 0 ==>
              Scattered(dst[..], old(dst[..]), Layout(s.regions, dst.Length), src.Length, src[..])
    ensures s.regions != {} && dst.Length == 0 ==> Holds(out[..], s.regions, src[..])
  {
    out := dst;
    if s.regions == {} { return; }
    if dst.Length > 0 { Unpack(s, src, dst); } else { out := UnpackNew(s, src); }
  }

  /** A buffer up to the last index of the subset, with the elements of src at its indices. */
  ghost predicate Holds<T>(d: seq<T>, s: set<Region>, src: seq<T>) {
    && |d| > 0 && |d| - 1 in Points(s) && |src| == |Order(s)|
    && forall k :: 0 <= k < |src| ==> Order(s)[k] < |d| && d[Order(s)[k]] == src[k]
  }

  method UnpackNew<T(0)>(s: DataSubset, src: array<T>) returns (out: array<T>)
    requires s.Valid() && s.regions != {} && src.Length == |Order(s.regions)|
    requires forall x: nat :: x in s.Indices() ==> x + 1 < MAX
    ensures Holds(out[..], s.regions, src[..])
  {
    var last := s.End();
    out := new T[last + 1];
    WholeLayout(s.regions, last);
    ghost var was := out[..];
    Unpack(s, src, out);
    ScatteredHolds(out[..], was, s.regions, src[..]);
  }

  lemma ScatteredHolds<T>(d: seq<T>, was: seq<T>, s: set<Region>, src: seq<T>)
    requires |d| == |was| > 0 && |d| - 1 in Points(s) && |src| == |Order(s)| && Scattered(d, was, Order(s), |src|, src)
    ensures Holds(d, s, src)
  {
  }

  lemma WholeLayout(s: set<Region>, last: nat)
    requires AllValid(s) && s != {} && last < MAX && forall x: nat :: x in Points(s) ==> x <= last
    ensures Layout(s, last + 1) == Order(s)
  {
    WholeBound(s, last);
  }

  lemma WholeBound(s: set<Region>, last: nat)
    requires AllValid(s) && last <= MAX && forall x: nat :: x in Points(s) ==> x <= last
    ensures Bound(s, 0, last) == s
  {
    forall x: nat | x in Points(s) ensures x in Interval(0, last) {}
  }

  lemma SameLayout(s: set<Region>, m: nat, n: nat)
    requires AllValid(s) && (s != {} ==> 0 < m < MAX && 0 < n < MAX)
    requires IsLayout(s, m, Layout(s, m)) && IsLayout(s, n, Layout(s, n)) && |Layout(s, m)| == |Layout(s, n)|
    ensures Layout(s, m) == Layout(s, n)
  {
    if s != {} {
      if m <= n { LongerLayout(s, m, n); } else { LongerLayout(s, n, m); }
    }
  }

  lemma LongerLayout(s: set<Region>, m: nat, n: nat)
    requires AllValid(s) && s != {} && 0 < m <= n < MAX
    requires IsLayout(s, m, Layout(s, m)) && IsLayout(s, n, Layout(s, n)) && |Layout(s, m)| == |Layout(s, n)|
    ensures Layout(s, m) == Layout(s, n)
  {
    EqualLayouts(s, m, n, Layout(s, m), Layout(s, n));
    NoneBetween(s, m - 1, n - 1);
  }

  lemma EqualLayouts(s: set<Region>, m: nat, n: nat, a: seq<nat>, b: seq<nat>)
    requires m <= n && IsLayout(s, m, a) && IsLayout(s, n, b) && |a| == |b|
    ensures forall x: nat :: m - 1 < x <= n - 1 ==> x !in Points(s)
  {
    SameMembers(a, b);
  }

  lemma SameMembers(a: seq<nat>, b: seq<nat>)
    requires Distinct(a) && Distinct(b) && |a| == |b| && forall x :: x in a ==> x in b
    ensures forall x :: x in b ==> x in a
  {
    var p, q := set x | x in a, set x | x in b;
    DistinctCount(a, p);
    DistinctCount(b, q);
    assert q == p + (q - p) && |q| == |p| + |q - p|;
    assert q - p == {};
    forall x | x in b ensures x in a { assert x in q; }
  }

  /** A bound may be moved as long as it passes no index. */
  lemma NoneBetween(s: set<Region>, m: nat, n: nat)
    requires AllValid(s) && m <= n <= MAX && forall x: nat :: m < x <= n ==> x !in Points(s)
    ensures Bound(s, 0, m) == Bound(s, 0, n)
  {
    forall r, x: nat | r in s && m < x <= n ensures !In(r, x) {
      assert x in Points(s) <==> Covers(s, x);
    }
    forall r | r in s ensures Intersect(r, Plain(0, m)) == Intersect(r, Plain(0, n)) { SameCut(r, m, n); }
    assert CutEach(s, 0, m) == CutEach(s, 0, n);
    if Points(s) <= Interval(0, n) {
      forall x: nat | x in Points(s) ensures x in Interval(0, m) { assert x in Interval(0, n); }
    } else {
      var x: nat :| x in Points(s) && x !in Interval(0, n);
      assert x !in Interval(0, m);
    }
  }

  /** Cutting a region at two places between which it has no index gives the same pieces. */
  lemma SameCut(r: Region, m: nat, n: nat)
    requires r.Valid() && m <= n <= MAX && forall x: nat :: m < x <= n ==> !In(r, x)
    ensures Intersect(r, Plain(0, m)) == Intersect(r, Plain(0, n))
  {
    OuterPoints(r);
    EndIn(r);
    if r.start <= m && r.reps > 0 && m < r.RangeEnd() {
      FirstOverlapInReps(r, m);
      LastBlock(r, m, n);
    } else if r.start <= m && r.reps == 0 {
      if r.end > m { InPlain(r, m + 1); }
    }
  }

  lemma EndIn(r: Region)
    requires r.Valid()
    ensures In(r, r.RangeEnd())
  {
    assert InBlock(r, r.reps, r.RangeEnd());
  }

  /** The last block that begins up to m ends there too. */
  lemma LastBlock(r: Region, m: nat, n: nat)
    requires r.Valid() && r.reps > 0 && r.start <= m <= n < r.RangeEnd()
    requires forall x: nat :: m < x <= n ==> !In(r, x)
    ensures Div(m - r.start, r.stride) == Div(n - r.start, r.stride) <= r.reps
    ensures m < n ==> r.end + Mul(Div(m - r.start, r.stride), r.stride) <= m
  {
    var k := Div(m - r.start, r.stride);
    FirstOverlapInReps(r, m);
    if m < n {
      DivMod(m - r.start, r.stride);
      MulPlus(k, 1, r.stride);
      assert InBlock(r, k, m + 1) ==> In(r, m + 1);
      assert n - r.start < Mul(k, r.stride) + r.stride by {
        if m < r.start + Mul(k + 1, r.stride) <= n { NextBlockIn(r, k, m, n); }
      }
      DivUnique(n - r.start, k, r.stride);
    }
  }

  lemma NextBlockIn(r: Region, k: nat, m: nat, n: nat)
    requires r.Valid() && r.reps > 0 && r.start <= m < n < r.RangeEnd() && k <= r.reps
    requires m < r.start + Mul(k + 1, r.stride) <= n
    ensures In(r, r.start + Mul(k + 1, r.stride))
  {
    assert k < r.reps;
    assert InBlock(r, k + 1, r.start + Mul(k + 1, r.stride));
  }

  /** Packing one buffer and unpacking into another copies exactly the subset. The buffers may differ in size as long
      as they share the same elements of the subset. */
  method Transfer<T(0)>(s: DataSubset, src: array<T>, dst: array<T>)
    requires s.Valid() && src != dst && (s.regions != {} ==> 0 < src.Length < MAX && 0 < dst.Length < MAX)
    requires |Layout(s.regions, src.Length)| == |Layout(s.regions, dst.Length)|
    modifies dst
    ensures forall x: nat :: x < dst.Length && x in s.Indices() ==> x < src.Length && dst[x] == src[x]
    ensures forall x: nat :: x < dst.Length && x !in s.Indices() ==> dst[x] == old(dst[x])
  {
    ghost var was, order := dst[..], Layout(s.regions, src.Length);
    var buf := Pack(s, src);
    Unpack(s, buf, dst);
    SameLayout(s.regions, src.Length, dst.Length);
    forall x: nat | x < dst.Length
      ensures if x in s.Indices() then x < src.Length && dst[x] == src[x] else dst[x] == was[x]
    {
      assert order[..|order|] == order;
      if x in order {
        var k :| 0 <= k < |order| && order[k] == x;
        assert dst[..][order[k]] == buf[..][k] == src[..][order[k]];
      } else {
        assert dst[..][x] == was[x];
      }
    }
  }
}
