/** Buddy protection over whole runs of stores and losses, and the methods that the ranks run. */
module BuddyRuns {
  import opened Basics
  import opened Buddy

  /** A cohort stores staged values everywhere, or loses one rank and repairs it. */
  datatype Step<T, S> = Store(staged: seq<S>, values: seq<seq<T>>) | Lose(rank: nat, spare: seq<T>)

  /** What all ranks of a run have in common. */
  datatype Settings<T, !S> = Settings(count: nat, kind: Kind<S>, junk: seq<T>)

  ghost function NewData<T, S(!new)>(e: Settings<T, S>, snaps: seq<Snap<T, S>>, protected: seq<S>, s: Step<T, S>,
      r: nat): (data: seq<T>)
    requires IsUnion(e.kind) && s.Store? && r < |snaps| == |protected|
    requires Storable(e.count, e.kind, protected, s.staged, s.values, e.junk)
    ensures Stages(data, snaps[r].data, e.kind.order(s.staged[r]))
    ensures var o := e.kind.order(s.staged[r]); forall k :: 0 <= k < |o| ==> data[o[k]] == s.values[r][k]
  {
    NeedFits(e.count, e.kind, protected[r], s.staged[r], |e.junk|);
    var need := Need(e.count, e.kind.order(e.kind.join(protected[r], s.staged[r])));
    StagedStages(snaps[r].data, e.kind.order(s.staged[r]), s.values[r], need, e.junk);
    Staged(snaps[r].data, e.kind.order(s.staged[r]), s.values[r], need, e.junk)
  }

  ghost function NewSnap<T, S(!new)>(e: Settings<T, S>, snaps: seq<Snap<T, S>>, protected: seq<S>, s: Step<T, S>,
      r: nat): Snap<T, S>
    requires IsUnion(e.kind) && s.Store? && r < |snaps| && Guarded(e.kind, snaps, protected)
    requires Storable(e.count, e.kind, protected, s.staged, s.values, e.junk)
  {
    var left := Left(|snaps|, r);
    RankOf(e.kind, snaps, protected, r);
    NeedFits(e.count, e.kind, protected[left], s.staged[left], |e.junk|);
    ProtectRank(snaps[r].(data := NewData(e, snaps, protected, s, r)), NewData(e, snaps, protected, s, left),
                s.staged, left, e.count, e.kind, e.junk)
  }

  ghost predicate Enabled<T, S(!new)>(e: Settings<T, S>, protected: seq<S>, s: Step<T, S>) {
    match s
    case Store(staged, values) => Storable(e.count, e.kind, protected, staged, values, e.junk)
    case Lose(rank, spare) => rank < |protected| && Room(e.kind, protected, rank, e.count, |e.junk|)
  }

  ghost function Protected<T, S(!new)>(e: Settings<T, S>, protected: seq<S>, s: Step<T, S>): (r: seq<S>)
    requires Enabled(e, protected, s)
    ensures |r| == |protected|
  {
    match s
    case Store(staged, _) => Joined(e.kind, protected, staged)
    case Lose(_, _) => protected
  }

  ghost function Do<T, S(!new)>(e: Settings<T, S>, snaps: seq<Snap<T, S>>, protected: seq<S>,
      s: Step<T, S>): (r: seq<Snap<T, S>>)
    requires IsUnion(e.kind) && Guarded(e.kind, snaps, protected) && Enabled(e, protected, s)
    ensures |r| == |snaps|
  {
    match s
    case Store(_, _) => seq(|snaps|, r requires 0 <= r < |snaps| => NewSnap(e, snaps, protected, s, r))
    case Lose(rank, spare) =>
      GuardedAnswers(e.kind, snaps, protected, rank);
      snaps[rank := Recovered(e.kind, snaps, rank, protected, e.count, spare, e.junk)]
  }

  lemma NewSnapGuarded<T, S(!new)>(e: Settings<T, S>, snaps: seq<Snap<T, S>>, protected: seq<S>, s: Step<T, S>, r: nat)
    requires IsUnion(e.kind) && s.Store? && r < |snaps| && Guarded(e.kind, snaps, protected)
    requires Storable(e.count, e.kind, protected, s.staged, s.values, e.junk)
    ensures var n, now := NewSnap(e, snaps, protected, s, r), Joined(e.kind, protected, s.staged);
            var l := Left(|snaps|, r);
            n.data == NewData(e, snaps, protected, s, r) && n.protected == now && n.held == now[l]
            && Below(e.kind.order(now[r]), |n.data|) && Distinct(e.kind.order(now[r]))
            && Copies(n.partner, NewData(e, snaps, protected, s, l), e.kind.order(now[l]))
  {
    var l := Left(|snaps|, r);
    RankOf(e.kind, snaps, protected, r);
    RankOf(e.kind, snaps, protected, l);
    NeedFits(e.count, e.kind, protected[l], s.staged[l], |e.junk|);
    var own, leftNow := NewData(e, snaps, protected, s, r), NewData(e, snaps, protected, s, l);
    ProtectKeeps(snaps[r], snaps[l].data, own, leftNow, s.staged, l, e.count, e.kind, e.junk);
    var was, o := e.kind.order(protected[r]), e.kind.order(s.staged[r]);
    assert Joins(was, o, e.kind.order(e.kind.join(protected[r], s.staged[r])));
    JoinedBelow(was, o, e.kind.order(e.kind.join(protected[r], s.staged[r])), |own|);
  }

  lemma JoinedBelow(a: Visits, b: Visits, c: Visits, n: nat)
    requires Joins(a, b, c) && Below(a, n) && Below(b, n)
    ensures Below(c, n)
  {
    forall i | 0 <= i < |c| ensures c[i] < n {
      assert c[i] in c;
      InBelow(a, n);
      InBelow(b, n);
    }
  }

  /** Every step keeps every rank's share guarded by its right neighbour. */
  lemma DoKeeps<T, S(!new)>(e: Settings<T, S>, snaps: seq<Snap<T, S>>, protected: seq<S>, s: Step<T, S>)
    requires IsUnion(e.kind) && Guarded(e.kind, snaps, protected) && Enabled(e, protected, s)
    ensures Guarded(e.kind, Do(e, snaps, protected, s), Protected(e, protected, s))
  {
    match s
    case Lose(rank, spare) =>
      RepairRestores(e.kind, snaps, protected, rank, e.count, spare, e.junk);
    case Store(_, _) =>
      var now, share := Do(e, snaps, protected, s), Protected(e, protected, s);
      forall r: nat | r < |snaps| ensures GuardedRank(e.kind, now, share, r) && Distinct(e.kind.order(share[r])) {
        NewSnapGuarded(e, snaps, protected, s, r);
        NewSnapGuarded(e, snaps, protected, s, Left(|snaps|, r));
      }
  }

  /** Two cohorts that agree on everything protected. */
  ghost predicate SameContents<T, S>(k: Kind<S>, a: seq<Snap<T, S>>, b: seq<Snap<T, S>>, protected: seq<S>)
    requires |a| == |b| == |protected|
  {
    forall r :: 0 <= r < |a| ==> Copies(a[r].data, b[r].data, k.order(protected[r]))
  }

  lemma {:induction false} StagedAgree<T>(o: Visits, m: seq<T>, d: seq<T>, d': seq<T>, x: nat)
    requires |m| == |o| && Below(o, |d|) && Below(o, |d'|) && x in o
    ensures x < |d| && x < |d'| && Unpacked(o, m, d)[x] == Unpacked(o, m, d')[x]
  {
    InBelow(o, |d|);
    InBelow(o, |d'|);
    var n := |o| - 1;
    if o[n] != x {
      assert o == o[..n] + [o[n]];
      StagedAgree(o[..n], m[..n], d, d', x);
    }
  }

  /** The same values staged over equal protected contents give equal contents. */
  lemma StoreAgrees<T, S(!new)>(e: Settings<T, S>, a: seq<Snap<T, S>>, b: seq<Snap<T, S>>, protected: seq<S>,
      s: Step<T, S>, r: nat)
    requires IsUnion(e.kind) && s.Store? && r < |a| == |b| == |protected|
    requires Storable(e.count, e.kind, protected, s.staged, s.values, e.junk)
    requires Copies(a[r].data, b[r].data, e.kind.order(protected[r]))
    ensures Copies(NewData(e, a, protected, s, r), NewData(e, b, protected, s, r),
                   e.kind.order(e.kind.join(protected[r], s.staged[r])))
  {
    var was, o := e.kind.order(protected[r]), e.kind.order(s.staged[r]);
    var now := e.kind.order(e.kind.join(protected[r], s.staged[r]));
    var x, y := NewData(e, a, protected, s, r), NewData(e, b, protected, s, r);
    var need := Need(e.count, now);
    NeedFits(e.count, e.kind, protected[r], s.staged[r], |e.junk|);
    assert Joins(was, o, now);
    JoinedBelow(was, o, now, |x|);
    JoinedBelow(was, o, now, |y|);
    forall i | i in now ensures x[i] == y[i] {
      InBelow(now, |x|);
      InBelow(now, |y|);
      if i in o {
        StagedAgree(o, s.values[r], Fitted(a[r].data, need, e.junk), Fitted(b[r].data, need, e.junk), i);
      } else {
        InBelow(was, |a[r].data|);
        InBelow(was, |b[r].data|);
      }
    }
  }

  /** A loss and its repair cannot be told from nothing having happened, and stores stay in step. */
  lemma StepInvisible<T, S(!new)>(e: Settings<T, S>, a: seq<Snap<T, S>>, b: seq<Snap<T, S>>, protected: seq<S>,
      s: Step<T, S>)
    requires IsUnion(e.kind) && Guarded(e.kind, a, protected) && Guarded(e.kind, b, protected) && |a| == |b|
    requires Enabled(e, protected, s) && SameContents(e.kind, a, b, protected)
    ensures var next := if s.Store? then Do(e, b, protected, s) else b;
            SameContents(e.kind, Do(e, a, protected, s), next, Protected(e, protected, s))
  {
    if s.Store? {
      StoreInvisible(e, a, b, protected, s);
    } else {
      LossInvisible(e, a, b, protected, s);
    }
  }

  lemma StoreInvisible<T, S(!new)>(e: Settings<T, S>, a: seq<Snap<T, S>>, b: seq<Snap<T, S>>, protected: seq<S>,
      s: Step<T, S>)
    requires IsUnion(e.kind) && Guarded(e.kind, a, protected) && Guarded(e.kind, b, protected) && |a| == |b|
    requires Enabled(e, protected, s) && SameContents(e.kind, a, b, protected) && s.Store?
    ensures SameContents(e.kind, Do(e, a, protected, s), Do(e, b, protected, s), Protected(e, protected, s))
  {
    var now, now', share := Do(e, a, protected, s), Do(e, b, protected, s), Protected(e, protected, s);
    forall r | 0 <= r < |a| ensures Copies(now[r].data, now'[r].data, e.kind.order(share[r])) {
      NewSnapGuarded(e, a, protected, s, r);
      NewSnapGuarded(e, b, protected, s, r);
      StoreAgrees(e, a, b, protected, s, r);
    }
  }

  lemma LossInvisible<T, S(!new)>(e: Settings<T, S>, a: seq<Snap<T, S>>, b: seq<Snap<T, S>>, protected: seq<S>,
      s: Step<T, S>)
    requires IsUnion(e.kind) && Guarded(e.kind, a, protected) && |a| == |b| == |protected|
    requires Enabled(e, protected, s) && SameContents(e.kind, a, b, protected) && s.Lose?
    ensures SameContents(e.kind, Do(e, a, protected, s), b, protected)
  {
    var r := Back(e, a, protected, s);
    CopiesVia(r.data, a[s.rank].data, b[s.rank].data, e.kind.order(protected[s.rank]));
    ReplaceKeeps(e.kind, a, b, protected, s.rank, r);
  }

  lemma Back<T, S(!new)>(e: Settings<T, S>, a: seq<Snap<T, S>>, protected: seq<S>, s: Step<T, S>)
    returns (r: Snap<T, S>)
    requires IsUnion(e.kind) && Guarded(e.kind, a, protected) && Enabled(e, protected, s) && s.Lose?
    ensures Copies(r.data, a[s.rank].data, e.kind.order(protected[s.rank])) && Do(e, a, protected, s) == a[s.rank := r]
  {
    RepairRestores(e.kind, a, protected, s.rank, e.count, s.spare, e.junk);
    r := Recovered(e.kind, a, s.rank, protected, e.count, s.spare, e.junk);
  }

  lemma ReplaceKeeps<T, S>(k: Kind<S>, a: seq<Snap<T, S>>, b: seq<Snap<T, S>>, protected: seq<S>, lost: nat,
      r: Snap<T, S>)
    requires lost < |a| == |b| == |protected| && SameContents(k, a, b, protected)
    requires Copies(r.data, b[lost].data, k.order(protected[lost]))
    ensures SameContents(k, a[lost := r], b, protected)
  {
  }

  ghost predicate Possible<T, S(!new)>(e: Settings<T, S>, protected: seq<S>, steps: seq<Step<T, S>>)
    decreases |steps|
  {
    steps != [] ==>
      Enabled(e, protected, steps[0]) && Possible(e, Protected(e, protected, steps[0]), steps[1..])
  }

  ghost function Run<T, S(!new)>(e: Settings<T, S>, snaps: seq<Snap<T, S>>, protected: seq<S>, steps: seq<Step<T, S>>,
      failing: bool): (r: seq<Snap<T, S>>)
    requires IsUnion(e.kind) && Guarded(e.kind, snaps, protected) && Possible(e, protected, steps)
    ensures |r| == |snaps|
    decreases |steps|
  {
    if steps == [] then snaps
    else
      DoKeeps(e, snaps, protected, steps[0]);
      var share := Protected(e, protected, steps[0]);
      var next := if failing || steps[0].Store? then Do(e, snaps, protected, steps[0]) else snaps;
      Run(e, next, share, steps[1..], failing)
  }

  ghost function Share<T, S(!new)>(e: Settings<T, S>, protected: seq<S>, steps: seq<Step<T, S>>): (r: seq<S>)
    requires Possible(e, protected, steps)
    ensures |r| == |protected|
    decreases |steps|
  {
    if steps == [] then protected else Share(e, Protected(e, protected, steps[0]), steps[1..])
  }

  /** Over any run of stores and single losses, every protected element reads as if no rank had ever been lost. */
  lemma {:induction false} LossesInvisible<T, S(!new)>(e: Settings<T, S>, a: seq<Snap<T, S>>, b: seq<Snap<T, S>>,
      protected: seq<S>, steps: seq<Step<T, S>>)
    requires IsUnion(e.kind) && Guarded(e.kind, a, protected) && Guarded(e.kind, b, protected) && |a| == |b|
    requires Possible(e, protected, steps) && SameContents(e.kind, a, b, protected)
    ensures var share := Share(e, protected, steps);
            Guarded(e.kind, Run(e, a, protected, steps, true), share)
            && SameContents(e.kind, Run(e, a, protected, steps, true), Run(e, b, protected, steps, false), share)
    decreases |steps|
  {
    if steps != [] {
      var s := steps[0];
      DoKeeps(e, a, protected, s);
      DoKeeps(e, b, protected, s);
      StepInvisible(e, a, b, protected, s);
      var next := if s.Store? then Do(e, b, protected, s) else b;
      LossesInvisible(e, Do(e, a, protected, s), next, Protected(e, protected, s), steps[1..]);
    }
  }

  // ----- what is stored -----

  function PlaceOf(o: Visits, x: nat): (k: nat)
    requires x in o
    ensures k < |o| && o[k] == x
  {
    if o[0] == x then 0 else 1 + PlaceOf(o[1..], x)
  }

  /** What one step leaves at an index of a rank, if anything was there or is stored. */
  function StepValue<T, S>(e: Settings<T, S>, s: Step<T, S>, r: nat, x: nat, was: Option<T>): Option<T> {
    if s.Store? && r < |s.staged| && r < |s.values| && x in e.kind.order(s.staged[r])
       && |s.values[r]| == |e.kind.order(s.staged[r])|
    then Some(s.values[r][PlaceOf(e.kind.order(s.staged[r]), x)])
    else was
  }

  /** The value last stored at an index of a rank. */
  function LastValue<T, S>(e: Settings<T, S>, steps: seq<Step<T, S>>, r: nat, x: nat, was: Option<T>): Option<T>
    decreases |steps|
  {
    if steps == [] then was else LastValue(e, steps[1..], r, x, StepValue(e, steps[0], r, x, was))
  }

  /** A value that is known is protected and in the rank's data. */
  ghost predicate Knows<T, S>(e: Settings<T, S>, snaps: seq<Snap<T, S>>, protected: seq<S>, r: nat, x: nat,
      v: Option<T>)
    requires r < |snaps| == |protected|
  {
    v.Some? ==> x in e.kind.order(protected[r]) && x < |snaps[r].data| && snaps[r].data[x] == v.value
  }

  lemma StoreValue<T, S(!new)>(e: Settings<T, S>, snaps: seq<Snap<T, S>>, protected: seq<S>, s: Step<T, S>, r: nat,
      x: nat, was: Option<T>)
    requires IsUnion(e.kind) && Guarded(e.kind, snaps, protected) && Enabled(e, protected, s) && s.Store?
    requires r < |snaps| && Knows(e, snaps, protected, r, x, was)
    ensures Knows(e, Do(e, snaps, protected, s), Protected(e, protected, s), r, x, StepValue(e, s, r, x, was))
  {
    var a, o := e.kind.order(protected[r]), e.kind.order(s.staged[r]);
    var c, data := e.kind.order(e.kind.join(protected[r], s.staged[r])), NewData(e, snaps, protected, s, r);
    StoredData(e, snaps, protected, s, r, data);
    assert Joins(a, o, c);
    DataValue(a, o, c, snaps[r].data, data, s.values[r], x);
  }

  lemma StoredData<T, S(!new)>(e: Settings<T, S>, snaps: seq<Snap<T, S>>, protected: seq<S>, s: Step<T, S>, r: nat,
      data: seq<T>)
    requires IsUnion(e.kind) && Guarded(e.kind, snaps, protected) && Enabled(e, protected, s) && s.Store?
    requires r < |snaps| && data == NewData(e, snaps, protected, s, r)
    ensures Do(e, snaps, protected, s)[r].data == data
    ensures Below(e.kind.order(protected[r]), |snaps[r].data|)
  {
    NewSnapGuarded(e, snaps, protected, s, r);
    RankOf(e.kind, snaps, protected, r);
  }

  /** A staged index has its new value, another one the old. */
  lemma DataValue<T>(a: Visits, o: Visits, c: Visits, was: seq<T>, data: seq<T>, values: seq<T>, x: nat)
    requires Joins(a, o, c) && Stages(data, was, o) && Below(a, |was|) && |values| == |o|
    requires forall k :: 0 <= k < |o| ==> data[o[k]] == values[k]
    ensures x in o ==> x in c && x < |data| && data[x] == values[PlaceOf(o, x)]
    ensures x !in o && x in a ==> x in c && x < |was| && x < |data| && data[x] == was[x]
  {
    InBelow(o, |data|);
    InBelow(a, |was|);
  }

  lemma LoseValue<T, S(!new)>(e: Settings<T, S>, snaps: seq<Snap<T, S>>, protected: seq<S>, s: Step<T, S>, r: nat,
      x: nat, was: Option<T>)
    requires IsUnion(e.kind) && Guarded(e.kind, snaps, protected) && Enabled(e, protected, s) && s.Lose?
    requires r < |snaps| && Knows(e, snaps, protected, r, x, was)
    ensures Knows(e, Do(e, snaps, protected, s), protected, r, x, was)
  {
    var back := Back(e, snaps, protected, s);
    if was.Some? && r == s.rank { CopiedAt(back.data, snaps[r].data, e.kind.order(protected[r]), x); }
  }

  lemma CopiedAt<T>(a: seq<T>, b: seq<T>, o: Visits, x: nat)
    requires Copies(a, b, o) && x in o
    ensures x < |a| && x < |b| && a[x] == b[x]
  {
    InBelow(o, |a|);
    InBelow(o, |b|);
  }

  /** Over any run of stores and single losses, an index holds what was last stored there. */
  lemma {:induction false} RunValue<T, S(!new)>(e: Settings<T, S>, snaps: seq<Snap<T, S>>, protected: seq<S>,
      steps: seq<Step<T, S>>, r: nat, x: nat, was: Option<T>)
    requires IsUnion(e.kind) && Guarded(e.kind, snaps, protected) && Possible(e, protected, steps)
    requires r < |snaps| && Knows(e, snaps, protected, r, x, was)
    ensures Knows(e, Run(e, snaps, protected, steps, true), Share(e, protected, steps), r, x,
                  LastValue(e, steps, r, x, was))
    decreases |steps|
  {
    if steps != [] {
      var s := steps[0];
      DoKeeps(e, snaps, protected, s);
      if s.Store? {
        StoreValue(e, snaps, protected, s, r, x, was);
      } else {
        LoseValue(e, snaps, protected, s, r, x, was);
      }
      RunValue(e, Do(e, snaps, protected, s), Protected(e, protected, s), steps[1..], r, x, StepValue(e, s, r, x, was));
    }
  }

  /** A cohort of buddies as its ranks run it in lockstep, sending over first-in first-out channels. */
  class BuddyCohort<T, S(==)> {
    var snaps: seq<Snap<T, S>>

    constructor (ranks: nat, k: Kind<S>, none: S)
      requires BuddySize(ranks) && k.order(none) == []
      ensures snaps == seq(ranks, r => Snap([], [], seq(ranks, i => none), none))
      ensures Guarded(k, snaps, seq(ranks, i => none))
    {
      snaps := seq(ranks, r => Snap([], [], seq(ranks, i => none), none));
    }

    /** Every rank copies what its left neighbour has staged into its partner buffer. */
    method Iprotect(staged: seq<S>, count: nat, k: Kind<S>, junk: seq<T>)
      requires BuddySize(|snaps|) && |staged| == |snaps|
      requires forall r :: 0 <= r < |snaps| ==> ProtectReady(snaps, staged, count, k, |junk|, r)
      modifies this
      ensures |snaps| == |old(snaps)|
      ensures forall r :: 0 <= r < |snaps| ==>
                            snaps[r] == NextSnap(old(snaps), staged, count, k, junk, r)
      ensures forall r: nat :: r < |snaps| ==> TakenIn(old(snaps), snaps, staged, k, r)
    {
      var n, was, next := |snaps|, snaps, [];
      for r := 0 to n
        modifies {}
        invariant |next| == r
        invariant forall q :: 0 <= q < r ==> next[q] == NextSnap(was, staged, count, k, junk, q)
      {
        assert ProtectReady(snaps, staged, count, k, |junk|, r);
        var left := Left(n, r);
        var held := k.join(was[r].held, staged[left]);
        var partner := Fitted(was[r].partner, Need(count, k.order(held)), junk);
        var received := Packed(k.order(staged[left]), was[left].data);
        var protected: seq<S> := [];
        for i := 0 to |staged|
          modifies {}
          invariant |protected| == i
          invariant forall j :: 0 <= j < i ==> protected[j] == k.join(was[r].protected[j], staged[j])
        {
          protected := protected + [k.join(was[r].protected[i], staged[i])];
        }
        next := next + [Snap(was[r].data, Unpacked(k.order(staged[left]), received, partner), protected, held)];
      }
      snaps := next;
      forall r: nat | r < n ensures TakenIn(was, next, staged, k, r) { TakesIn(was, next, staged, count, k, junk, r); }
    }

    /** Counts the ranks that miss the snapshot and remembers the last that has it. */
    static method Search(found: seq<bool>) returns (missing: nat, root: int, lost: int)
      ensures missing == |set r | 0 <= r < |found| && !found[r]|
      ensures -1 <= root < |found| && (root >= 0 ==> found[root]) && (missing < |found| ==> root >= 0)
      ensures -1 <= lost < |found|
      ensures missing == 1 ==> lost >= 0 && forall r :: 0 <= r < |found| ==> (found[r] <==> r != lost)
    {
      missing, root, lost := 0, -1, -1;
      for r := 0 to |found|
        invariant missing == |set k | 0 <= k < r && !found[k]|
        invariant -1 <= root < r && (root >= 0 ==> found[root])
        invariant -1 <= lost < r && (missing < r ==> root >= 0)
        invariant missing == 0 ==> forall k :: 0 <= k < r ==> found[k]
        invariant missing == 1 ==> lost >= 0 && forall k :: 0 <= k < r ==> (found[k] <==> k != lost)
      {
        if found[r] {
          root := r;
          assert (set k | 0 <= k < r + 1 && !found[k]) == set k | 0 <= k < r && !found[k];
        } else {
          missing, lost := missing + 1, r;
          assert (set k | 0 <= k < r + 1 && !found[k]) == (set k | 0 <= k < r && !found[k]) + {r};
        }
      }
    }

    /** The repair of one snapshot: when exactly one rank misses it, its neighbours send what it needs; in a
        cohort of two the only neighbour sends both messages over the same channel. */
    method Repair(k: Kind<S>, found: seq<bool>, count: nat, spare: seq<T>, junk: seq<T>)
      requires BuddySize(|snaps|) && |found| == |snaps|
      requires forall lost: nat, root: nat ::
                 lost < |snaps| && root < |snaps| && OnlyMissing(found, lost) && root != lost ==>
                 var shares := snaps[root].protected;
                 |shares| == |snaps| && Answers(k, snaps, shares, lost) && Room(k, shares, lost, count, |junk|)
      modifies this
      ensures (forall lost: nat :: !OnlyMissing(found, lost)) ==> snaps == old(snaps)
      ensures forall lost: nat, root: nat ::
                lost < |snaps| && root < |old(snaps)| && OnlyMissing(found, lost) && root != lost ==>
                var shares := old(snaps)[root].protected;
                snaps == old(snaps)[lost := Recovered(k, old(snaps), lost, shares, count, spare, junk)]
    {
      var missing, root, lost := Search(found);
      if missing != 1 {
        forall l: nat ensures !OnlyMissing(found, l) { MissingOne(found, l); }
        return;
      }
      assert OnlyMissing(found, lost) && found[Left(|snaps|, lost)];
      Rescue(k, root, lost, count, spare, junk);
    }

    method Rescue(k: Kind<S>, root: nat, lost: nat, count: nat, spare: seq<T>, junk: seq<T>)
      requires BuddySize(|snaps|) && root < |snaps| && lost < |snaps| && root != lost
      requires |snaps[root].protected| == |snaps|
      requires Answers(k, snaps, snaps[root].protected, lost) && Room(k, snaps[root].protected, lost, count, |junk|)
      modifies this
      ensures var shares := old(snaps)[root].protected;
              snaps == old(snaps)[lost := Recovered(k, old(snaps), lost, shares, count, spare, junk)]
    {
      var n, shares := |snaps|, snaps[root].protected;
      var left, right := Left(n, lost), Right(n, lost);
      Neighbours(n, lost);
      var channels: seq<seq<seq<T>>> := seq(n, r => []);
      for r := 0 to n
        modifies {}
        invariant |channels| == n
        invariant forall q :: r <= q < n ==> channels[q] == []
        invariant forall q :: 0 <= q < r ==> channels[q] == Sent(k, snaps, shares, lost, q)
      {
        if r != lost {
          var s := snaps[r];
          if Left(n, r) == lost { channels := channels[r := channels[r] + [Packed(k.order(s.held), s.partner)]]; }
          if Right(n, r) == lost { channels := channels[r := channels[r] + [Packed(k.order(s.protected[r]), s.data)]]; }
        }
      }
      var own, theirs := k.order(shares[lost]), k.order(shares[left]);
      var data := Fitted([], Need(count, own), junk);
      data := Unpacked(own, channels[right][0], data);
      channels := channels[right := channels[right][1..]];
      var partner := Fitted(spare, Need(count, theirs), junk);
      partner := Unpacked(theirs, channels[left][0], partner);
      snaps := snaps[lost := Snap(data, partner, shares, shares[left])];
    }
  }

  /** The rank after r, the first one after the last, has taken in what r has staged: its elements are in the copy, the
      copy's subset has grown by it, and the rank's own data are as they were. */
  ghost predicate TakenIn<T, S>(was: seq<Snap<T, S>>, now: seq<Snap<T, S>>, staged: seq<S>, k: Kind<S>, r: nat)
    requires r < |was| == |now| == |staged|
  {
    var next := if r + 1 == |was| then 0 else r + 1;
    && now[next].held == k.join(was[next].held, staged[r]) && now[next].data == was[next].data
    && (Distinct(k.order(staged[r])) ==>
          forall x :: x in k.order(staged[r]) ==>
            x < |was[r].data| && x < |now[next].partner| && now[next].partner[x] == was[r].data[x])
  }

  lemma TakesIn<T, S>(was: seq<Snap<T, S>>, now: seq<Snap<T, S>>, staged: seq<S>, count: nat, k: Kind<S>, junk: seq<T>,
      r: nat)
    requires BuddySize(|was|) && r < |was| == |now| == |staged|
    requires forall q :: 0 <= q < |was| ==> ProtectReady(was, staged, count, k, |junk|, q)
    requires forall q :: 0 <= q < |was| ==> now[q] == NextSnap(was, staged, count, k, junk, q)
    ensures TakenIn(was, now, staged, k, r)
  {
    var next := Right(|was|, r);
    Neighbours(|was|, r);
    assert ProtectReady(was, staged, count, k, |junk|, next);
    var o, held := k.order(staged[r]), k.order(k.join(was[next].held, staged[r]));
    var fitted := Fitted(was[next].partner, Need(count, held), junk);
    if Distinct(o) {
      InBelow(o, |was[r].data|);
      InBelow(o, |fitted|);
      forall x | x in o ensures Unpacked(o, Packed(o, was[r].data), fitted)[x] == was[r].data[x] {
        UnpackPacked(o, was[r].data, fitted, x);
      }
    }
  }

  /** The messages one rank sends to the lost one, in order. */
  function Sent<T, S(==)>(k: Kind<S>, snaps: seq<Snap<T, S>>, shares: seq<S>, lost: nat, r: nat): seq<seq<T>>
    requires r < |snaps| && lost < |snaps| == |shares| && Answers(k, snaps, shares, lost)
  {
    var n := |snaps|;
    if r == lost then []
    else
      (if r == Right(n, lost) then [Packed(k.order(shares[lost]), snaps[r].partner)] else [])
      + (if r == Left(n, lost) then [Packed(k.order(shares[r]), snaps[r].data)] else [])
  }

  predicate OnlyMissing(found: seq<bool>, lost: nat) {
    lost < |found| && forall r :: 0 <= r < |found| ==> (found[r] <==> r != lost)
  }

  lemma MissingOne(found: seq<bool>, lost: nat)
    ensures OnlyMissing(found, lost) ==> |set r | 0 <= r < |found| && !found[r]| == 1
  {
    if OnlyMissing(found, lost) {
      assert (set r | 0 <= r < |found| && !found[r]) == {lost};
    }
  }

  predicate ProtectReady<T, S>(snaps: seq<Snap<T, S>>, staged: seq<S>, count: nat, k: Kind<S>, junk: nat, r: nat)
    requires r < |snaps| == |staged|
  {
    var left := Left(|snaps|, r);
    var need := Need(count, k.order(k.join(snaps[r].held, staged[left])));
    && |snaps[r].protected| == |snaps| && junk >= need
    && Below(k.order(staged[left]), |snaps[left].data|) && Below(k.order(staged[left]), need)
  }

  function NextSnap<T, S>(snaps: seq<Snap<T, S>>, staged: seq<S>, count: nat, k: Kind<S>, junk: seq<T>,
      r: nat): Snap<T, S>
    requires r < |snaps| == |staged| && ProtectReady(snaps, staged, count, k, |junk|, r)
  {
    ProtectRank(snaps[r], snaps[Left(|snaps|, r)].data, staged, Left(|snaps|, r), count, k, junk)
  }
}
