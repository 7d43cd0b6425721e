/** Loading a member's data from its committed snapshots, newest first. */
module SnapshotLoad {
  import opened Regions
  import opened RegionDifference
  import opened RegionSets
  import opened Subsets

  const RESTORE_FULL: nat := 0x7FFF_FFFF
  const LATEST: int := -1
  const ALL: int := -2

  datatype Outcome = Loaded | PartialRestore | NoData | InvalidTimestamp

  /** A committed snapshot: its buffer, element by element, and the subset it protects. */
  datatype Snap<T> = Snap(timestamp: nat, buf: seq<T>, protected: DataSubset)

  /** A snapshot's subset is bounded by its buffer and has one stride; buffer sizes are machine integers. */
  ghost predicate Sound<T>(s: Snap<T>)
    reads s.protected
  {
    && s.protected.Valid() && OneStride(s.protected.regions) && Bounded(s.protected.regions)
    && |s.buf| <= RESTORE_FULL && forall x: nat :: x in s.protected.Indices() ==> x < |s.buf|
  }

  ghost function Views<T>(snaps: seq<Snap<T>>): (v: seq<iset<nat>>)
    reads set s | s in snaps :: s.protected
    ensures |v| == |snaps| && forall i :: 0 <= i < |snaps| ==> v[i] == snaps[i].protected.Indices()
  {
    seq(|snaps|, i requires 0 <= i < |snaps| reads set s | s in snaps :: s.protected => snaps[i].protected.Indices())
  }

  ghost predicate NewestAt(views: seq<iset<nat>>, i: nat, x: nat) {
    i < |views| && x in views[i] && forall k :: i < k < |views| ==> x !in views[k]
  }

  /** Some snapshot from the i-th on protects the index. */
  ghost predicate AnyFrom(views: seq<iset<nat>>, i: nat, x: nat) {
    exists k :: i <= k < |views| && x in views[k]
  }

  /** Some index is protected while one below it is not. */
  ghost predicate Gap(views: seq<iset<nat>>) {
    exists x: nat, y: nat :: x < y && !AnyFrom(views, 0, x) && AnyFrom(views, 0, y)
  }

  ghost predicate Missing(views: seq<iset<nat>>, count: nat) {
    exists x: nat :: x < count && !AnyFrom(views, 0, x)
  }

  /** Where an index is copied, the buffer's element; elsewhere what was there. */
  ghost predicate Copied<T>(now: seq<T>, was: seq<T>, buf: seq<T>, s: iset<nat>) {
    |now| == |was| && forall x: nat :: x < |now| ==> now[x] == if x in s && x < |buf| then buf[x] else was[x]
  }

  lemma CopiedMore<T>(was: seq<T>, mid: seq<T>, now: seq<T>, buf: seq<T>, s: iset<nat>, t: iset<nat>, u: iset<nat>)
    requires Copied(mid, was, buf, s) && Copied(now, mid, buf, t) && u == s + t
    ensures Copied(now, was, buf, u)
  {
  }

  /** Copies the elements of a subset below a size from a snapshot's buffer. */
  method CopyData<T>(subset: DataSubset, buf: seq<T>, target: array<T>, size: nat)
    requires subset.Valid() && size <= |buf| && size <= target.Length && size < MAX
    requires size == 0 ==> subset.regions == {}
    modifies target
    ensures Copied(target[..], old(target[..]), buf, subset.Indices() * Below(size))
  {
    ghost var was := target[..];
    if subset.regions == {} {
      assert subset.Indices() == iset{};
      return;
    }
    var regions := subset.BoundedRegions(0, size - 1);
    assert Interval(0, size - 1) == Below(size);
    var ahead := regions;
    assert Points(regions - ahead) == iset{};
    while ahead != {}
      invariant ahead <= regions && Copied(target[..], was, buf, Points(regions - ahead))
      decreases |ahead|
    {
      var r := First(ahead);
      ghost var mid := target[..];
      VisitNext(regions, ahead, r);
      RegionWithin(regions, r, size);
      CopyRegion(r, buf, target, size);
      CopiedMore(was, mid, target[..], buf, Points(regions - ahead), PointsOf(r), Points(regions - (ahead - {r})));
      ahead := ahead - {r};
    }
    assert regions - ahead == regions;
  }

  ghost predicate IsBelow(n: nat, x: nat) { x < n }

  ghost function Below(n: nat): iset<nat> {
    iset x: nat | IsBelow(n, x)
  }

  lemma RegionWithin(regions: set<Region>, r: Region, size: nat)
    requires r in regions && Points(regions) <= Below(size)
    ensures PointsOf(r) <= Below(size)
  {
    forall x: nat | x in PointsOf(r) ensures x in Below(size) {
      assert x in Points(regions);
    }
  }

  lemma BlockEnds(r: Region, rep: nat)
    requires r.Valid() && rep <= r.reps
    ensures r.Rep(rep).start <= r.Rep(rep).end && r.Rep(rep).end in PointsOf(r)
  {
    assert InBlock(r, rep, r.Rep(rep).end);
  }

  method CopyRegion<T>(r: Region, buf: seq<T>, target: array<T>, size: nat)
    requires r.Valid() && PointsOf(r) <= Below(size) && size <= |buf| && size <= target.Length
    modifies target
    ensures Copied(target[..], old(target[..]), buf, PointsOf(r))
  {
    ghost var was := target[..];
    for rep := 0 to r.reps + 1
      invariant Copied(target[..], was, buf, BlockPoints(r, 0, rep - 1))
    {
      var b := r.Rep(rep);
      BlockEnds(r, rep);
      ghost var mid := target[..];
      SerializeElements(b.start, b.end, buf, target);
      NextBlockPoints(r, rep);
      CopiedMore(was, mid, target[..], buf,
                 BlockPoints(r, 0, rep - 1), Interval(b.start, b.end), BlockPoints(r, 0, rep));
    }
    AllBlockPoints(r);
  }

  lemma NextBlockPoints(r: Region, rep: nat)
    requires r.Valid() && rep <= r.reps
    ensures BlockPoints(r, 0, rep) == BlockPoints(r, 0, rep - 1) + Interval(r.Rep(rep).start, r.Rep(rep).end)
  {
    forall x: nat
      ensures InBlocks(r, 0, rep, x) <==> InBlocks(r, 0, rep - 1, x) || Between(r.Rep(rep).start, r.Rep(rep).end, x)
    {
      if InBlocks(r, 0, rep, x) {
        var k: nat :| 0 <= k <= rep && InBlock(r, k, x);
      }
      if Between(r.Rep(rep).start, r.Rep(rep).end, x) { assert InBlock(r, rep, x); }
    }
  }

  lemma AllBlockPoints(r: Region)
    ensures BlockPoints(r, 0, r.reps) == PointsOf(r)
  {
    forall x: nat ensures InBlocks(r, 0, r.reps, x) <==> In(r, x) {
      if In(r, x) { var k := BlockOf(r, x); }
    }
  }

  method SerializeElements<T>(first: nat, last: nat, buf: seq<T>, target: array<T>)
    requires first <= last < |buf| && last < target.Length
    modifies target
    ensures Copied(target[..], old(target[..]), buf, Interval(first, last))
  {
    assert forall x: nat :: x in Interval(first, last) <==> first <= x <= last;
    for x := first to last + 1
      invariant forall y: nat :: y < target.Length ==>
                  target[y] == if first <= y < x && y < |buf| then buf[y] else old(target[y])
    {
      target[x] := buf[x];
    }
  }

  /** The overlay: below the count every index reads from the newest snapshot, from the given one on, that protects
      it; all others are as they were. */
  ghost predicate Overlaid<T>(views: seq<iset<nat>>, bufs: seq<seq<T>>, from: nat, count: nat, now: seq<T>, was: seq<T>)
    requires |bufs| == |views|
  {
    && |now| == |was|
    && (forall x: nat :: x < |now| && (x >= count || !AnyFrom(views, from, x)) ==> now[x] == was[x])
    && (forall i: nat, x: nat :: from <= i && x < |now| && x < count && NewestAt(views, i, x) ==>
                                   x < |bufs[i]| && now[x] == bufs[i][x])
  }

  lemma AnyMore(views: seq<iset<nat>>, i: nat, x: nat)
    requires i < |views|
    ensures AnyFrom(views, i, x) <==> x in views[i] || AnyFrom(views, i + 1, x)
  {
    if AnyFrom(views, i, x) {
      var k :| i <= k < |views| && x in views[k];
    }
  }

  lemma {:induction false} NewestExists(views: seq<iset<nat>>, from: nat, x: nat) returns (i: nat)
    requires AnyFrom(views, from, x)
    ensures from <= i && NewestAt(views, i, x)
    decreases |views| - from
  {
    if AnyFrom(views, from + 1, x) {
      i := NewestExists(views, from + 1, x);
    } else {
      i := from;
      assert from < |views| && x in views[from] by { AnyMore(views, from, x); }
      forall k | from < k < |views| ensures x !in views[k] { assert from + 1 <= k; }
    }
  }

  /** Adding an older snapshot below those already laid down. */
  lemma LayMore<T>(views: seq<iset<nat>>, bufs: seq<seq<T>>, i: nat, count: nat,
      was: seq<T>, mid: seq<T>, now: seq<T>, part: iset<nat>)
    requires |bufs| == |views| && i < |views| && (forall x :: x in views[i] ==> x < |bufs[i]|)
    requires Overlaid(views, bufs, i + 1, count, mid, was) && Copied(now, mid, bufs[i], part)
    requires forall x: nat :: x in part <==> x in views[i] && x < count && !AnyFrom(views, i + 1, x)
    ensures Overlaid(views, bufs, i, count, now, was)
  {
    forall x: nat | x < |now| && (x >= count || !AnyFrom(views, i, x)) ensures now[x] == was[x] {
      AnyMore(views, i, x);
    }
    forall j: nat, x: nat | i <= j && x < |now| && x < count && NewestAt(views, j, x)
      ensures x < |bufs[j]| && now[x] == bufs[j][x]
    {
      if j > i { assert AnyFrom(views, i + 1, x); }
    }
  }

  /** Once everything below the count is found, older snapshots change nothing. */
  lemma StopEarly<T>(views: seq<iset<nat>>, bufs: seq<seq<T>>, i: nat, count: nat, now: seq<T>, was: seq<T>)
    requires |bufs| == |views| && i <= |views| && Overlaid(views, bufs, i, count, now, was)
    requires forall x: nat :: x < count ==> AnyFrom(views, i, x)
    ensures Overlaid(views, bufs, 0, count, now, was)
  {
    forall x: nat | x < |now| && (x >= count || !AnyFrom(views, 0, x)) ensures now[x] == was[x] {
      if x < count { FoundSooner(views, i, x); }
    }
    forall j: nat, x: nat | x < |now| && x < count && NewestAt(views, j, x)
      ensures x < |bufs[j]| && now[x] == bufs[j][x]
    {
      assert AnyFrom(views, i, x);
      var k :| i <= k < |views| && x in views[k];
      assert j >= i;
    }
  }

  lemma FoundSooner(views: seq<iset<nat>>, i: nat, x: nat)
    ensures AnyFrom(views, i, x) ==> AnyFrom(views, 0, x)
  {
    if AnyFrom(views, i, x) {
      var k :| i <= k < |views| && x in views[k];
      assert 0 <= k;
    }
  }

  /** What the walk has found when it stops, at the oldest snapshot or with everything below the count found. */
  lemma FoundEnough<T>(views: seq<iset<nat>>, bufs: seq<seq<T>>, i: nat, count: nat,
      now: seq<T>, was: seq<T>, found: iset<nat>)
    requires |bufs| == |views| && i <= |views| && Overlaid(views, bufs, i, count, now, was)
    requires forall x: nat :: x in found <==> AnyFrom(views, i, x)
    requires i == 0 || (count > 0 && Interval(0, count - 1) <= found)
    ensures Overlaid(views, bufs, 0, count, now, was)
    ensures forall x: nat :: x < count ==> (x in found <==> AnyFrom(views, 0, x))
  {
    if i > 0 {
      forall x: nat | x < count ensures AnyFrom(views, i, x) {
        assert Between(0, count - 1, x);
        assert x in Interval(0, count - 1);
      }
      StopEarly(views, bufs, i, count, now, was);
      forall x: nat | x < count ensures AnyFrom(views, 0, x) { FoundSooner(views, i, x); }
    }
  }

  ghost function Buffers<T>(snaps: seq<Snap<T>>): (b: seq<seq<T>>)
    ensures |b| == |snaps| && forall i :: 0 <= i < |snaps| ==> b[i] == snaps[i].buf
  {
    seq(|snaps|, i requires 0 <= i < |snaps| => snaps[i].buf)
  }

  predicate Fits<T>(snaps: seq<Snap<T>>, room: nat, count: nat) {
    if count == RESTORE_FULL then forall i :: 0 <= i < |snaps| ==> |snaps[i].buf| <= room else count <= room
  }

  /** One snapshot's turn: what it protects and no newer one has found is copied. */
  method LayDown<T>(snap: Snap<T>, found: DataSubset, target: array<T>, count: nat,
      ghost i: nat, ghost views: seq<iset<nat>>, ghost bufs: seq<seq<T>>, ghost was: seq<T>)
    requires Sound(snap) && found.Valid() && OneStride(found.regions)
    requires |views| == |bufs| && i < |views| && views[i] == snap.protected.Indices() && bufs[i] == snap.buf
    requires if count == RESTORE_FULL then |snap.buf| <= target.Length else count <= target.Length
    requires Overlaid(views, bufs, i + 1, count, target[..], was)
    requires forall x: nat :: x in found.Indices() <==> AnyFrom(views, i + 1, x)
    modifies target
    ensures Overlaid(views, bufs, i, count, target[..], was)
  {
    ghost var mid := target[..];
    if count == 0 {
      assert Copied(mid, mid, snap.buf, iset{});
      LayMore(views, bufs, i, count, was, mid, mid, iset{});
      return;
    }
    var partial := snap.protected.Difference(found);
    var size := if count == RESTORE_FULL || |snap.buf| < count then |snap.buf| else count;
    EmptyIffNone(partial.regions);
    CopyData(partial, snap.buf, target, size);
    LayMore(views, bufs, i, count, was, mid, target[..], partial.Indices() * Below(size));
  }

  /** Loads all committed snapshots, oldest first in the sequence, into the target. */
  method LoadAll<T>(snaps: seq<Snap<T>>, target: array<T>, count: nat) returns (found: DataSubset, outcome: Outcome)
    requires forall i :: 0 <= i < |snaps| ==> Sound(snaps[i])
    requires Fits(snaps, target.Length, count) && count <= RESTORE_FULL
    modifies target
    ensures found.Valid() && OneStride(found.regions)
    ensures Overlaid(Views(snaps), Buffers(snaps), 0, count, target[..], old(target[..]))
    ensures outcome.NoData? <==> snaps == []
    ensures !outcome.InvalidTimestamp?
    ensures forall x: nat :: x < count ==> (x in found.Indices() <==> AnyFrom(Views(snaps), 0, x))
    ensures snaps != [] ==> Meets(snaps, count, target[..], old(target[..]), outcome)
  {
    found := new DataSubset();
    ghost var views, bufs, was := Views(snaps), Buffers(snaps), target[..];
    if snaps == [] { return found, NoData; }
    var i := |snaps|;
    var all := false;
    while i > 0 && !all
      invariant 0 <= i <= |snaps|
      invariant found.Valid() && OneStride(found.regions) && fresh(found)
      invariant forall x: nat :: x in found.Indices() <==> AnyFrom(views, i, x)
      invariant Overlaid(views, bufs, i, count, target[..], was)
      invariant forall k :: 0 <= k < |snaps| ==> Sound(snaps[k]) && views[k] == snaps[k].protected.Indices()
      invariant all ==> count > 0 && Interval(0, count - 1) <= found.Indices()
    {
      i := i - 1;
      LayDown(snaps[i], found, target, count, i, views, bufs, was);
      forall x: nat ensures AnyFrom(views, i, x) <==> x in views[i] || AnyFrom(views, i + 1, x) {
        AnyMore(views, i, x);
      }
      found := new DataSubset.Union(found, snaps[i].protected);
      if count > 0 {
        all := found.IncludesAll(count - 1);
      }
    }
    FoundEnough(views, bufs, i, count, target[..], was, found.Indices());
    outcome := Verdict(found, count, views);
  }

  /** The final check: with a full restore the count is what was found. */
  method Verdict(found: DataSubset, count: nat, ghost views: seq<iset<nat>>) returns (outcome: Outcome)
    requires found.Valid() && OneStride(found.regions) && count <= RESTORE_FULL
    requires forall x: nat :: x < count ==> (x in found.Indices() <==> AnyFrom(views, 0, x))
    requires count == RESTORE_FULL ==> forall x: nat :: x in found.Indices() || AnyFrom(views, 0, x) ==> x < count
    ensures var partial := if count == RESTORE_FULL then Gap(views) else Missing(views, count);
            outcome == if partial then PartialRestore else Loaded
  {
    var n := count;
    if count == RESTORE_FULL {
      n := 0;
      EmptyIffNone(found.regions);
      if found.regions != {} {
        var end := found.End();
        n := end + 1;
      }
    }
    outcome := Loaded;
    if n > 0 {
      var all := found.IncludesAll(n - 1);
      if !all { outcome := PartialRestore; }
    }
  }

  /** The snapshot a timestamp asks for, or that there is none. */
  predicate Chosen<T>(snaps: seq<Snap<T>>, timestamp: int, i: int) {
    0 <= i < |snaps| && (snaps[i].timestamp == timestamp || (timestamp == LATEST && i == |snaps| - 1))
  }

  ghost predicate Absent<T>(snaps: seq<Snap<T>>, timestamp: int) {
    if timestamp == ALL then snaps == [] else timestamp >= LATEST && forall k :: !Chosen(snaps, timestamp, k)
  }

  method FindSnapshot<T>(snaps: seq<Snap<T>>, timestamp: int) returns (i: int)
    ensures i >= 0 ==> Chosen(snaps, timestamp, i)
    ensures i < 0 ==> forall k :: !Chosen(snaps, timestamp, k)
  {
    if timestamp == LATEST { return |snaps| - 1; }
    i := |snaps| - 1;
    while i >= 0
      invariant -1 <= i < |snaps|
      invariant forall k :: i < k < |snaps| ==> snaps[k].timestamp != timestamp
    {
      if snaps[i].timestamp == timestamp { return; }
      i := i - 1;
    }
  }

  /** Loads one snapshot, or all of them overlaid. */
  method Load<T>(snaps: seq<Snap<T>>, target: array<T>, count: nat, timestamp: int)
      returns (found: DataSubset, outcome: Outcome)
    requires forall i :: 0 <= i < |snaps| ==> Sound(snaps[i])
    requires Fits(snaps, target.Length, count) && count <= RESTORE_FULL
    modifies target
    ensures timestamp == ALL && snaps != [] ==> Meets(snaps, count, target[..], old(target[..]), outcome)
    ensures forall i :: Chosen(snaps, timestamp, i) && (forall k :: Chosen(snaps, timestamp, k) ==> k == i) ==>
                          Meets([snaps[i]], count, target[..], old(target[..]), outcome)
    ensures outcome.InvalidTimestamp? <==> timestamp < 0 && timestamp != ALL && timestamp != LATEST
    ensures outcome.NoData? <==> Absent(snaps, timestamp)
    ensures outcome.NoData? || outcome.InvalidTimestamp? ==> target[..] == old(target[..])
    ensures found.Valid() && OneStride(found.regions)
    ensures timestamp == ALL ==>
              forall x: nat :: x < count ==> (x in found.Indices() <==> AnyFrom(Views(snaps), 0, x))
    ensures forall i :: Chosen(snaps, timestamp, i) && (forall k :: Chosen(snaps, timestamp, k) ==> k == i) ==>
                          found.Indices() == snaps[i].protected.Indices()
    ensures timestamp != ALL && (outcome.NoData? || outcome.InvalidTimestamp?) ==> found.Indices() == iset{}
  {
    if timestamp == ALL {
      found, outcome := LoadAll(snaps, target, count);
      assert snaps == [] ==> target[..] == old(target[..]);
      return;
    }
    found := new DataSubset();
    if timestamp < 0 && timestamp != LATEST { return found, InvalidTimestamp; }
    var i := FindSnapshot(snaps, timestamp);
    if i < 0 { return found, NoData; }
    var snap := snaps[i];
    ghost var views, was := Views([snap]), target[..];
    LayDown(snap, found, target, count, 0, views, Buffers([snap]), was);
    forall x: nat ensures AnyFrom(views, 0, x) <==> x in views[0] { AnyMore(views, 0, x); }
    found := snap.protected;
    outcome := Verdict(found, count, views);
    assert Chosen(snaps, timestamp, i);
  }

  /** What a load of these snapshots must do: overlay them, and complain exactly when something below the count
      is protected by none; a full restore complains when there is a gap below something protected. */
  ghost predicate Meets<T>(snaps: seq<Snap<T>>, count: nat, now: seq<T>, was: seq<T>, outcome: Outcome)
    reads set s | s in snaps :: s.protected
  {
    && Overlaid(Views(snaps), Buffers(snaps), 0, count, now, was)
    && outcome == if (if count == RESTORE_FULL then Gap(Views(snaps)) else Missing(Views(snaps), count))
                  then PartialRestore else Loaded
  }
}
