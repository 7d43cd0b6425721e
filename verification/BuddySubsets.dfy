/** The library's subsets as a kind of subsets for buddy protection, and what its runs mean for their indices. */
module BuddySubsets {
  import opened Basics
  import opened Regions
  import opened RegionDifference
  import opened RegionSets
  import opened Subsets
  import opened Packing
  import opened Buddy
  import opened BuddyRuns

  /** The regions a subset object may hold: what DataSubset.Valid asks, and one stride. */
  type Parts = s: set<Region> | Separate(s) && OneStride(s) witness {}

  lemma OrdersJoin(a: set<Region>, b: set<Region>, c: set<Region>)
    requires Separate(a) && Separate(b) && Separate(c)
    requires Points(c) == Points(a) + Points(b) && (a == {} ==> c == b)
    ensures Joins(Order(a), Order(b), Order(c))
  {
    OrderExact(a);
    OrderExact(b);
    OrderExact(c);
    forall x: nat ensures x in Order(c) <==> x in Order(a) || x in Order(b) {
      assert x in Points(c) <==> x in Points(a) || x in Points(b);
    }
    if r :| r in a {
      OuterPoints(r);
      assert Covers(a, r.start) && r.start in Order(a);
    }
  }

  /** What the union of two subset objects is known to give. */
  ghost predicate Unites(unite: (Parts, Parts) -> Parts) {
    forall a: Parts, b: Parts :: Points(unite(a, b)) == Points(a) + Points(b) && (a == {} ==> unite(a, b) == b)
  }

  /** What one rank does to the subsets it keeps. */
  method Joined(protected: DataSubset, staged: DataSubset) returns (r: DataSubset)
    requires protected.Valid() && staged.Valid() && OneStride(protected.regions) && OneStride(staged.regions)
    ensures r.Valid() && OneStride(r.regions) && r.Indices() == protected.Indices() + staged.Indices()
    ensures protected.regions == {} ==> r.regions == staged.regions
    ensures Joins(Order(protected.regions), Order(staged.regions), Order(r.regions))
  {
    r := new DataSubset.Union(protected, staged);
    OrdersJoin(protected.regions, staged.regions, r.regions);
  }

  // ----- there is such a union -----

  ghost function Singles(a: set<Region>, b: set<Region>): set<Region> {
    set x: nat | x <= MAX && (Covers(a, x) || Covers(b, x)) :: Plain(x, x)
  }

  lemma SinglesAre(a: Parts, b: Parts)
    ensures Separate(Singles(a, b)) && OneStride(Singles(a, b))
    ensures Points(Singles(a, b)) == Points(a) + Points(b)
  {
    var s := Singles(a, b);
    forall x: nat ensures Covers(s, x) <==> Covers(a, x) || Covers(b, x) {
      if r :| r in s && In(r, x) { InPlain(r, x); }
      if Covers(a, x) || Covers(b, x) {
        var r :| (r in a || r in b) && In(r, x);
        InRange(r, x);
        InPlain(Plain(x, x), x);
        assert Plain(x, x) in s;
      }
    }
    forall p, q | p in s && q in s && p != q ensures Apart(p, q) {
      forall x: nat | In(p, x) ensures !In(q, x) {
        InPlain(p, x);
        InPlain(q, x);
      }
    }
  }

  ghost function Unite(a: Parts, b: Parts): Parts {
    if a == {} then b
    else
      SinglesAre(a, b);
      Singles(a, b)
  }

  lemma UniteUnites()
    ensures Unites((a, b) => Unite(a, b))
  {
    forall a: Parts, b: Parts
      ensures Points(Unite(a, b)) == Points(a) + Points(b) && (a == {} ==> Unite(a, b) == b)
    {
      SinglesAre(a, b);
    }
  }

  // ----- runs -----

  ghost function KindOf(unite: (Parts, Parts) -> Parts): Kind<Parts> {
    Kind((s: Parts) => Order(s), unite)
  }

  lemma KindIsUnion(unite: (Parts, Parts) -> Parts)
    requires Unites(unite)
    ensures IsUnion(KindOf(unite))
  {
    var k := KindOf(unite);
    forall a: Parts, b: Parts ensures Joins(k.order(a), k.order(b), k.order(k.join(a, b))) {
      OrdersJoin(a, b, unite(a, b));
    }
  }

  const NOTHING: Parts := {}

  function Nothing(n: nat): (s: seq<Parts>)
    ensures |s| == n && forall i :: 0 <= i < n ==> s[i] == NOTHING
  {
    seq(n, i => NOTHING)
  }

  function New<T>(n: nat): (s: seq<Snap<T, Parts>>)
    ensures |s| == n && forall r :: 0 <= r < n ==> s[r] == Snap([], [], Nothing(n), NOTHING)
  {
    seq(n, r => Snap([], [], Nothing(n), NOTHING))
  }

  lemma NewGuarded<T>(n: nat, k: Kind<Parts>)
    requires BuddySize(n) && k.order(NOTHING) == []
    ensures Guarded<T, Parts>(k, New(n), Nothing(n))
  {
    forall r: nat | r < n ensures GuardedRank<T, Parts>(k, New(n), Nothing(n), r) {}
  }

  /** All ranks' snapshots after the steps, with the losses among them or without. */
  ghost function Outcome<T>(e: Settings<T, Parts>, n: nat, steps: seq<Step<T, Parts>>, failing: bool)
    : (r: seq<Snap<T, Parts>>)
    requires BuddySize(n) && IsUnion(e.kind) && e.kind.order(NOTHING) == [] && Possible(e, Nothing(n), steps)
    ensures |r| == n
  {
    NewGuarded<T>(n, e.kind);
    BuddyRuns.Run(e, New(n), Nothing(n), steps, failing)
  }

  /** Every rank's snapshots have all the indices of its subset, with the same elements. */
  ghost predicate SameStored<T>(a: seq<Snap<T, Parts>>, b: seq<Snap<T, Parts>>, subsets: seq<Parts>)
    requires |a| == |b| == |subsets|
  {
    forall r: nat, x: nat :: r < |a| && x in Points(subsets[r]) ==> SameAt(a[r].data, b[r].data, x)
  }

  lemma ContentsStored<T>(e: Settings<T, Parts>, a: seq<Snap<T, Parts>>, b: seq<Snap<T, Parts>>, subsets: seq<Parts>)
    requires |a| == |b| == |subsets| && e.kind.order == ((s: Parts) => Order(s)) && SameContents(e.kind, a, b, subsets)
    ensures SameStored(a, b, subsets)
  {
    forall r: nat, x: nat | r < |a| && x in Points(subsets[r]) ensures SameAt(a[r].data, b[r].data, x) {
      PartsCopied(a[r].data, b[r].data, subsets[r], x);
    }
  }

  /** From new snapshots, over any run in which ranks store data on subsets of theirs and single ranks are lost: every
      index that a rank has ever stored is in its snapshot, and reads as if no rank had ever been lost. */
  lemma StoredSurvives<T>(n: nat, count: nat, unite: (Parts, Parts) -> Parts, junk: seq<T>, steps: seq<Step<T, Parts>>)
    requires BuddySize(n) && Unites(unite) && Possible(Settings(count, KindOf(unite), junk), Nothing(n), steps)
    ensures var e := Settings(count, KindOf(unite), junk);
            && IsUnion(e.kind) && e.kind.order(NOTHING) == []
            && SameStored(Outcome(e, n, steps, true), Outcome(e, n, steps, false), Share(e, Nothing(n), steps))
  {
    var e := Settings(count, KindOf(unite), junk);
    KindIsUnion(unite);
    NewGuarded<T>(n, e.kind);
    LossesInvisible(e, New<T>(n), New<T>(n), Nothing(n), steps);
    ContentsStored(e, Outcome(e, n, steps, true), Outcome(e, n, steps, false), Share(e, Nothing(n), steps));
  }

  /** And what reads there is what was last stored. */
  lemma StoredReads<T>(n: nat, count: nat, unite: (Parts, Parts) -> Parts, junk: seq<T>, steps: seq<Step<T, Parts>>,
      r: nat, x: nat)
    requires BuddySize(n) && Unites(unite) && Possible(Settings(count, KindOf(unite), junk), Nothing(n), steps) && r < n
    ensures var e := Settings(count, KindOf(unite), junk);
            && IsUnion(e.kind) && e.kind.order(NOTHING) == []
            && var v := LastValue(e, steps, r, x, None);
               (v.Some? <==> EverStored(steps, r, x))
               && (v.Some? ==> x < |Outcome(e, n, steps, true)[r].data|
                               && Outcome(e, n, steps, true)[r].data[x] == v.value)
  {
    var e := Settings(count, KindOf(unite), junk);
    KindIsUnion(unite);
    NewGuarded<T>(n, e.kind);
    RunValue(e, New<T>(n), Nothing(n), steps, r, x, None);
    ValueStored(e, Nothing(n), steps, r, x, None);
  }

  lemma {:induction false} ValueStored<T>(e: Settings<T, Parts>, before: seq<Parts>, steps: seq<Step<T, Parts>>, r: nat,
      x: nat, was: Option<T>)
    requires Possible(e, before, steps) && r < |before| && e.kind.order == ((s: Parts) => Order(s))
    ensures LastValue(e, steps, r, x, was).Some? <==> was.Some? || EverStored(steps, r, x)
    decreases |steps|
  {
    if steps != [] {
      var s := steps[0];
      if s.Store? { OrderExact(s.staged[r]); }
      ValueStored(e, Protected(e, before, s), steps[1..], r, x, StepValue(e, s, r, x, was));
    }
  }

  /** Some step stores the index on the rank. */
  ghost predicate EverStored<T>(steps: seq<Step<T, Parts>>, r: nat, x: nat)
    decreases |steps|
  {
    steps != [] &&
    ((steps[0].Store? && r < |steps[0].staged| && x in Points(steps[0].staged[r])) || EverStored(steps[1..], r, x))
  }

  /** What a rank has protected in the end is what it had before and what it has stored. */
  lemma {:induction false} ShareExact<T>(e: Settings<T, Parts>, before: seq<Parts>, steps: seq<Step<T, Parts>>,
      r: nat, x: nat)
    requires Unites(e.kind.join) && Possible(e, before, steps) && r < |before|
    ensures x in Points(Share(e, before, steps)[r]) <==> x in Points(before[r]) || EverStored(steps, r, x)
    decreases |steps|
  {
    if steps != [] {
      var next := Protected(e, before, steps[0]);
      ShareExact(e, next, steps[1..], r, x);
      if steps[0].Store? { assert next[r] == e.kind.join(before[r], steps[0].staged[r]); }
    }
  }

  predicate SameAt<T(==)>(a: seq<T>, b: seq<T>, x: nat) {
    x < |a| && x < |b| && a[x] == b[x]
  }

  lemma PartsCopied<T>(a: seq<T>, b: seq<T>, s: Parts, x: nat)
    requires Copies(a, b, Order(s)) && x in Points(s)
    ensures SameAt(a, b, x)
  {
    OrderExact(s);
    InBelow(Order(s), |a|);
    InBelow(Order(s), |b|);
  }
}
