/** The process groups of a job as values: which processes work, which wait as spares, which have died, and the
    two tables between ranks and processes; one rebuild after failures, step by step. */
module ProcessGroups {
  import opened Basics

  const UNDEFINED: int := -32766

  /** Processes are named by their position in the initial communicator. */
  datatype Procs = Procs(user: seq<nat>, spare: seq<nat>, dead: seq<nat>, rankToPid: seq<int>, pidToRank: seq<int>)

  // ----- group operations; the order is that of the first group -----

  function Minus(a: seq<nat>, b: seq<nat>): (r: seq<nat>)
    ensures forall x :: x in r <==> x in a && x !in b
  {
    if a == [] then []
    else (if a[0] in b then [] else [a[0]]) + Minus(a[1..], b)
  }

  /** The positions, in the first group, of the members that are also in the second. */
  function Positions(a: seq<nat>, b: seq<nat>, from: nat): (r: seq<nat>)
    requires from <= |a|
    ensures forall k :: 0 <= k < |r| ==> from <= r[k] < |a| && a[r[k]] in b
    decreases |a| - from
  {
    if from == |a| then []
    else (if a[from] in b then [from] else []) + Positions(a, b, from + 1)
  }

  function Everyone(n: nat): (r: seq<nat>)
    ensures |r| == n && forall x: nat :: x in r <==> x < n
  {
    if n == 0 then [] else Everyone(n - 1) + [n - 1]
  }

  ghost predicate Increasing(s: seq<nat>) {
    forall j, k :: 0 <= j < k < |s| ==> s[j] < s[k]
  }

  lemma {:induction false} MinusExact(a: seq<nat>, b: seq<nat>)
    requires Increasing(a)
    ensures Increasing(Minus(a, b)) && |Minus(a, b)| <= |a|
  {
    if a != [] {
      var rest := Minus(a[1..], b);
      MinusExact(a[1..], b);
      forall k | 0 <= k < |rest| ensures a[0] < rest[k] {
        assert rest[k] in rest;
        FirstLeast(a, rest[k]);
      }
    }
  }

  lemma FirstLeast(a: seq<nat>, x: nat)
    requires Increasing(a) && a != [] && x in a[1..]
    ensures a[0] < x
  {
    var i :| 0 <= i < |a[1..]| && a[1..][i] == x;
    assert a[i + 1] == x;
  }

  lemma {:induction false} PositionsIncrease(a: seq<nat>, b: seq<nat>, from: nat)
    requires from <= |a|
    ensures Increasing(Positions(a, b, from))
    decreases |a| - from
  {
    if from < |a| { PositionsIncrease(a, b, from + 1); }
  }

  lemma {:induction false} PositionIn(a: seq<nat>, b: seq<nat>, from: nat, x: nat)
    requires from <= |a|
    ensures x in Positions(a, b, from) <==> from <= x < |a| && a[x] in b
    decreases |a| - from
  {
    if from < |a| {
      PositionIn(a, b, from + 1, x);
      var head := if a[from] in b then [from] else [];
      assert Positions(a, b, from) == head + Positions(a, b, from + 1);
    }
  }

  // ----- the steps of a rebuild -----

  /** Every working process has a rank, and the tables reach every process and rank in use. */
  ghost predicate Shape(p: Procs) {
    && (forall j :: 0 <= j < |p.user| ==>
                      p.user[j] < |p.pidToRank| && 0 <= p.pidToRank[p.user[j]] < |p.rankToPid|)
    && (forall k :: 0 <= k < |p.spare| ==> p.spare[k] < |p.pidToRank|)
  }

  ghost predicate InUser(p: Procs, ds: seq<nat>) {
    forall k :: 0 <= k < |ds| ==> ds[k] < |p.user|
  }

  /** The first n dead positions are taken over by the first n spares, each inheriting the rank. */
  ghost function Fill(p: Procs, ds: seq<nat>, n: nat): (r: Procs)
    requires Shape(p) && InUser(p, ds) && n <= |ds| && n <= |p.spare|
    ensures |r.user| == |p.user| && r.spare == p.spare && r.dead == p.dead
    ensures |r.rankToPid| == |p.rankToPid| && |r.pidToRank| == |p.pidToRank|
    ensures Shape(r)
  {
    if n == 0 then p
    else
      var q := Fill(p, ds, n - 1);
      var idx, pid := ds[n - 1], p.spare[n - 1];
      var rank := q.pidToRank[q.user[idx]];
      q.(user := q.user[idx := pid], rankToPid := q.rankToPid[rank := pid], pidToRank := q.pidToRank[pid := rank])
  }

  /** The dead positions from n on are given up, last one first. */
  ghost function Shrink(p: Procs, ds: seq<nat>, n: nat): (r: Procs)
    requires Shape(p) && InUser(p, ds) && Increasing(ds) && n <= |ds|
    ensures |r.user| == |p.user| - (|ds| - n) && r.spare == p.spare && r.dead == p.dead && r.pidToRank == p.pidToRank
    ensures |r.rankToPid| == |p.rankToPid|
    ensures n < |ds| ==> ds[n] <= |r.user| && r.user[..ds[n]] == p.user[..ds[n]]
    ensures n == |ds| ==> r == p
    ensures Shape(r)
    decreases |ds| - n
  {
    if n == |ds| then p
    else
      var q := Shrink(p, ds, n + 1);
      var idx := ds[n];
      PrefixKept(p.user, q.user, ds, n);
      var rank := q.pidToRank[q.user[idx]];
      q.(user := q.user[..idx] + q.user[idx + 1..], rankToPid := q.rankToPid[rank := UNDEFINED])
  }

  /** Giving up a later position leaves the earlier ones where they are. */
  lemma PrefixKept(user: seq<nat>, rest: seq<nat>, ds: seq<nat>, n: nat)
    requires n < |ds| && Increasing(ds) && (forall k :: 0 <= k < |ds| ==> ds[k] < |user|)
    requires |rest| == |user| - (|ds| - n - 1)
    requires n + 1 < |ds| ==> ds[n + 1] <= |rest| && rest[..ds[n + 1]] == user[..ds[n + 1]]
    requires n + 1 == |ds| ==> rest == user
    ensures ds[n] < |rest| && rest[..ds[n] + 1] == user[..ds[n] + 1]
  {
    if n + 1 < |ds| {
      RoomBehind(user, ds, n + 1);
      assert rest[..ds[n + 1]][..ds[n] + 1] == user[..ds[n + 1]][..ds[n] + 1];
    }
  }

  lemma {:induction false} RoomBehind(user: seq<nat>, ds: seq<nat>, n: nat)
    requires n < |ds| && Increasing(ds) && (forall k :: 0 <= k < |ds| ==> ds[k] < |user|)
    ensures |user| - ds[n] >= |ds| - n
    decreases |ds| - n
  {
    if n + 1 < |ds| { RoomBehind(user, ds, n + 1); }
  }

  // ----- what every rebuild keeps -----

  /** The tables are inverse on the working processes, who stand in the order of their ranks. */
  ghost predicate Tables(p: Procs) {
    Shape(p) && ByRank(p) && Inverse(p) && AllAssigned(p)
  }

  ghost predicate ByRank(p: Procs)
    requires Shape(p)
  {
    forall j, k :: 0 <= j < k < |p.user| ==> p.pidToRank[p.user[j]] < p.pidToRank[p.user[k]]
  }

  ghost predicate Inverse(p: Procs)
    requires Shape(p)
  {
    forall j :: 0 <= j < |p.user| ==> p.rankToPid[p.pidToRank[p.user[j]]] == p.user[j]
  }

  ghost predicate AllAssigned(p: Procs)
    requires Shape(p)
  {
    forall r {:trigger Assigned(p, r)} :: 0 <= r < |p.rankToPid| ==> p.rankToPid[r] == UNDEFINED || Assigned(p, r)
  }

  ghost predicate Assigned(p: Procs, r: nat)
    requires Shape(p) && r < |p.rankToPid|
  {
    exists j :: 0 <= j < |p.user| && p.user[j] == p.rankToPid[r] && p.pidToRank[p.user[j]] == r
  }

  /** Another process takes over a position and its rank. */
  ghost function TakeOver(p: Procs, idx: nat, pid: nat): Procs
    requires Shape(p) && idx < |p.user| && pid < |p.pidToRank|
  {
    var rank := p.pidToRank[p.user[idx]];
    p.(user := p.user[idx := pid], rankToPid := p.rankToPid[rank := pid], pidToRank := p.pidToRank[pid := rank])
  }

  ghost function GiveUp(p: Procs, idx: nat): Procs
    requires Shape(p) && idx < |p.user|
  {
    p.(user := p.user[..idx] + p.user[idx + 1..], rankToPid := p.rankToPid[p.pidToRank[p.user[idx]] := UNDEFINED])
  }

  lemma TakeOverKeeps(p: Procs, idx: nat, pid: nat)
    requires Tables(p) && idx < |p.user| && pid < |p.pidToRank| && pid !in p.user
    ensures Tables(TakeOver(p, idx, pid))
  {
    var q, rank := TakeOver(p, idx, pid), p.pidToRank[p.user[idx]];
    assert q.user[idx] == pid && q.pidToRank[pid] == rank;
    assert forall j :: 0 <= j < |p.user| ==> q.pidToRank[q.user[j]] == p.pidToRank[p.user[j]];
    forall r | 0 <= r < |q.rankToPid| && q.rankToPid[r] != UNDEFINED ensures Assigned(q, r) {
      if r == rank {
        assert q.user[idx] == q.rankToPid[r] && q.pidToRank[q.user[idx]] == r;
      } else {
        assert Assigned(p, r);
        var j :| 0 <= j < |p.user| && p.user[j] == p.rankToPid[r] && p.pidToRank[p.user[j]] == r;
        assert q.user[j] == q.rankToPid[r] && q.pidToRank[q.user[j]] == r;
      }
    }
  }

  lemma GiveUpAt(p: Procs, idx: nat, j: nat)
    requires Shape(p) && idx < |p.user| && j < |p.user| - 1
    ensures GiveUp(p, idx).user[j] == p.user[if j < idx then j else j + 1]
  {
  }

  lemma GiveUpMembers(p: Procs, idx: nat)
    requires Shape(p) && ByRank(p) && idx < |p.user|
    ensures forall x :: x in GiveUp(p, idx).user <==> x in p.user && x != p.user[idx]
  {
    var q, gone := GiveUp(p, idx), p.user[idx];
    assert p.user == p.user[..idx] + [gone] + p.user[idx + 1..];
    forall j | 0 <= j < |p.user| && j != idx ensures p.user[j] != gone {
      if j < idx { assert p.pidToRank[p.user[j]] < p.pidToRank[gone]; }
    }
  }

  lemma GiveUpOrder(p: Procs, idx: nat)
    requires Tables(p) && idx < |p.user|
    ensures Shape(GiveUp(p, idx)) && ByRank(GiveUp(p, idx)) && Inverse(GiveUp(p, idx))
  {
    var q, rank := GiveUp(p, idx), p.pidToRank[p.user[idx]];
    forall j | 0 <= j < |q.user|
      ensures q.user[j] < |q.pidToRank| && 0 <= q.pidToRank[q.user[j]] < |q.rankToPid|
      ensures q.rankToPid[q.pidToRank[q.user[j]]] == q.user[j]
    {
      GiveUpAt(p, idx, j);
    }
    forall j, k | 0 <= j < k < |q.user| ensures q.pidToRank[q.user[j]] < q.pidToRank[q.user[k]] {
      GiveUpAt(p, idx, j);
      GiveUpAt(p, idx, k);
    }
  }

  lemma GiveUpAssigned(p: Procs, idx: nat, r: nat)
    requires Tables(p) && idx < |p.user| && r < |p.rankToPid| && Shape(GiveUp(p, idx))
    ensures GiveUp(p, idx).rankToPid[r] == UNDEFINED || Assigned(GiveUp(p, idx), r)
  {
    var q := GiveUp(p, idx);
    if q.rankToPid[r] != UNDEFINED {
      assert Assigned(p, r);
      var j :| 0 <= j < |p.user| && p.user[j] == p.rankToPid[r] && p.pidToRank[p.user[j]] == r;
      assert j != idx;
      var i := if j < idx then j else j - 1;
      GiveUpAt(p, idx, i);
      assert q.user[i] == q.rankToPid[r] && q.pidToRank[q.user[i]] == r;
    }
  }

  lemma GiveUpKeeps(p: Procs, idx: nat)
    requires Tables(p) && idx < |p.user|
    ensures Tables(GiveUp(p, idx))
  {
    GiveUpOrder(p, idx);
    forall r | 0 <= r < |p.rankToPid|
      ensures GiveUp(p, idx).rankToPid[r] == UNDEFINED || Assigned(GiveUp(p, idx), r)
    {
      GiveUpAssigned(p, idx, r);
    }
  }

  ghost predicate NoSpareWorks(p: Procs) {
    Increasing(p.spare) && forall x :: x in p.spare ==> x !in p.user
  }

  /** Who holds a position after n replacements. */
  ghost function Holder(p: Procs, ds: seq<nat>, n: nat, j: nat): nat
    requires n <= |ds| && n <= |p.spare| && j < |p.user|
  {
    if n == 0 then p.user[j]
    else if ds[n - 1] == j then p.spare[n - 1]
    else Holder(p, ds, n - 1, j)
  }

  lemma {:induction false} HolderExact(p: Procs, ds: seq<nat>, n: nat, k: nat)
    requires InUser(p, ds) && Increasing(ds) && n <= |ds| && n <= |p.spare| && k < |ds|
    ensures Holder(p, ds, n, ds[k]) == if k < n then p.spare[k] else p.user[ds[k]]
  {
    if n > 0 && k != n - 1 { HolderExact(p, ds, n - 1, k); }
  }

  lemma {:induction false} HolderOther(p: Procs, ds: seq<nat>, n: nat, j: nat)
    requires n <= |ds| && n <= |p.spare| && j < |p.user| && j !in ds
    ensures Holder(p, ds, n, j) == p.user[j]
  {
    if n > 0 { HolderOther(p, ds, n - 1, j); }
  }

  lemma {:induction false} HolderEarlier(p: Procs, ds: seq<nat>, n: nat, j: nat, k: nat)
    requires NoSpareWorks(p) && n <= |ds| && n <= k < |p.spare| && j < |p.user|
    ensures Holder(p, ds, n, j) != p.spare[k]
  {
    if n == 0 {
      assert p.user[j] in p.user && p.spare[k] in p.spare;
    } else {
      HolderEarlier(p, ds, n - 1, j, k);
    }
  }

  /** What n replacements have done: the positions have their new holders, every position keeps its rank, and
      no process but a spare has changed rank. */
  ghost predicate Filled(p: Procs, q: Procs, ds: seq<nat>, n: nat)
    requires Shape(p) && n <= |ds| && n <= |p.spare|
  {
    && Shape(q) && |q.user| == |p.user| && |q.pidToRank| == |p.pidToRank|
    && (forall j :: 0 <= j < |p.user| ==> q.user[j] == Holder(p, ds, n, j))
    && (forall j :: 0 <= j < |p.user| ==> q.pidToRank[q.user[j]] == p.pidToRank[p.user[j]])
    && (forall x :: 0 <= x < |p.pidToRank| && x !in p.spare ==> q.pidToRank[x] == p.pidToRank[x])
  }

  lemma {:induction false} FillExact(p: Procs, ds: seq<nat>, n: nat)
    requires Tables(p) && NoSpareWorks(p) && InUser(p, ds) && n <= |ds| && n <= |p.spare|
    ensures Tables(Fill(p, ds, n)) && Filled(p, Fill(p, ds, n), ds, n)
  {
    if n > 0 {
      FillExact(p, ds, n - 1);
      FillMore(p, Fill(p, ds, n - 1), ds, n);
    }
  }

  lemma FillMore(p: Procs, q: Procs, ds: seq<nat>, n: nat)
    requires Tables(p) && Tables(q) && NoSpareWorks(p) && InUser(p, ds) && 0 < n <= |ds| && n <= |p.spare|
    requires Filled(p, q, ds, n - 1)
    ensures Tables(TakeOver(q, ds[n - 1], p.spare[n - 1]))
    ensures Filled(p, TakeOver(q, ds[n - 1], p.spare[n - 1]), ds, n)
  {
    var pid := p.spare[n - 1];
    forall j | 0 <= j < |q.user| ensures q.user[j] != pid { HolderEarlier(p, ds, n - 1, j, n - 1); }
    TakeOverKeeps(q, ds[n - 1], pid);
    FilledStep(p, q, ds, n);
  }

  lemma FilledStep(p: Procs, q: Procs, ds: seq<nat>, n: nat)
    requires Shape(p) && InUser(p, ds) && 0 < n <= |ds| && n <= |p.spare| && Filled(p, q, ds, n - 1)
    requires p.spare[n - 1] !in q.user
    ensures Filled(p, TakeOver(q, ds[n - 1], p.spare[n - 1]), ds, n)
  {
  }

  ghost predicate HeldFrom(p: Procs, ds: seq<nat>, n: nat, x: nat)
    requires InUser(p, ds)
  {
    exists k :: n <= k < |ds| && p.user[ds[k]] == x
  }

  /** After giving up the dead positions from n on: exactly their holders are gone. */
  lemma {:induction false} ShrinkExact(p: Procs, ds: seq<nat>, n: nat)
    requires Tables(p) && InUser(p, ds) && Increasing(ds) && n <= |ds|
    ensures Tables(Shrink(p, ds, n))
    ensures forall x :: x in Shrink(p, ds, n).user <==> x in p.user && !HeldFrom(p, ds, n, x)
    decreases |ds| - n
  {
    if n < |ds| {
      ShrinkExact(p, ds, n + 1);
      ShrinkStep(p, Shrink(p, ds, n + 1), ds, n);
    }
  }

  lemma ShrinkStep(p: Procs, q: Procs, ds: seq<nat>, n: nat)
    requires Tables(q) && Shape(p) && InUser(p, ds) && Increasing(ds) && n < |ds|
    requires q == Shrink(p, ds, n + 1)
    requires forall x :: x in q.user <==> x in p.user && !HeldFrom(p, ds, n + 1, x)
    ensures Tables(Shrink(p, ds, n))
    ensures forall x :: x in Shrink(p, ds, n).user <==> x in p.user && !HeldFrom(p, ds, n, x)
  {
    PrefixKept(p.user, q.user, ds, n);
    assert q.user[ds[n]] == q.user[..ds[n] + 1][ds[n]] == p.user[ds[n]];
    GiveUpKeeps(q, ds[n]);
    GiveUpMembers(q, ds[n]);
    forall x ensures HeldFrom(p, ds, n, x) <==> x == p.user[ds[n]] || HeldFrom(p, ds, n + 1, x) {
      HeldMore(p, ds, n, x);
    }
  }

  lemma HeldMore(p: Procs, ds: seq<nat>, n: nat, x: nat)
    requires InUser(p, ds) && n < |ds|
    ensures HeldFrom(p, ds, n, x) <==> x == p.user[ds[n]] || HeldFrom(p, ds, n + 1, x)
  {
    if HeldFrom(p, ds, n, x) {
      var k :| n <= k < |ds| && p.user[ds[k]] == x;
    }
  }

  // ----- a whole rebuild -----

  /** What holds between rebuilds: the three groups partition the processes, the tables are inverse, and no spare
      waits while a rank is vacant. */
  ghost predicate Valid(p: Procs, n: nat, active: nat) {
    && Tables(p) && |p.pidToRank| == n && |p.rankToPid| == active
    && NoSpareWorks(p) && Increasing(p.dead) && Partition(p)
    && |p.user| <= active && (p.spare != [] ==> |p.user| == active)
  }

  /** The groups before any failure: the last processes are the spares. */
  function Initial(n: nat, spares: nat): Procs
    requires spares < n
  {
    var active := n - spares;
    var user := Everyone(active);
    Procs(user, Minus(Everyone(n), user), [], seq(active, i => i), seq(n, i => if i < active then i else UNDEFINED))
  }

  function Newly(p: Procs, world: seq<nat>): Procs {
    var dead := Minus(Everyone(|p.pidToRank|), world);
    p.(dead := dead, spare := Minus(p.spare, dead))
  }

  function DeadUser(p: Procs): seq<nat> {
    Positions(p.user, p.dead, 0)
  }

  lemma NewlyShape(p: Procs, world: seq<nat>)
    requires Shape(p)
    ensures Shape(Newly(p, world)) && InUser(Newly(p, world), DeadUser(Newly(p, world)))
    ensures Increasing(DeadUser(Newly(p, world)))
  {
    var q := Newly(p, world);
    PositionsIncrease(q.user, q.dead, 0);
    forall k | 0 <= k < |q.spare| ensures q.spare[k] < |q.pidToRank| { assert q.spare[k] in p.spare; }
  }

  lemma StillSpare(s: Procs)
    requires Shape(s)
    ensures Shape(s.(spare := Minus(s.spare, s.user)))
  {
    var rest := Minus(s.spare, s.user);
    forall k | 0 <= k < |rest| ensures rest[k] < |s.pidToRank| { assert rest[k] in s.spare; }
  }

  /** The groups once only the processes in world are left. */
  ghost function Rebuild(p: Procs, world: seq<nat>): (r: Procs)
    requires Shape(p)
    ensures Shape(r)
  {
    NewlyShape(p, world);
    var q := Newly(p, world);
    var ds := DeadUser(q);
    var k := Min(|ds|, |q.spare|);
    var s := Shrink(Fill(q, ds, k), ds, k);
    StillSpare(s);
    s.(spare := Minus(s.spare, s.user))
  }

  lemma {:induction false} EveryoneIncreases(n: nat)
    ensures Increasing(Everyone(n))
    ensures forall i :: 0 <= i < n ==> Everyone(n)[i] == i
  {
    if n > 0 { EveryoneIncreases(n - 1); }
  }

  lemma InitialTables(n: nat, spares: nat)
    requires spares < n
    ensures Tables(Initial(n, spares))
  {
    var p, active := Initial(n, spares), n - spares;
    EveryoneIncreases(active);
    forall j | 0 <= j < active ensures p.user[j] == j && p.pidToRank[j] == j && p.rankToPid[j] == j {
    }
    forall k | 0 <= k < |p.spare| ensures p.spare[k] < n { assert p.spare[k] in Everyone(n); }
    forall r | 0 <= r < active ensures Assigned(p, r) {
      assert p.user[r] == p.rankToPid[r] && p.pidToRank[p.user[r]] == r;
    }
  }

  lemma InitialValid(n: nat, spares: nat)
    requires spares < n
    ensures Valid(Initial(n, spares), n, n - spares)
  {
    InitialTables(n, spares);
    EveryoneIncreases(n);
    MinusExact(Everyone(n), Everyone(n - spares));
  }

  /** Before any failure the first processes work, each under its own number, and the others wait in order. */
  ghost predicate Begins(p: Procs, n: nat, spares: nat)
    requires spares < n
  {
    var active := n - spares;
    && |p.user| == |p.rankToPid| == active && |p.pidToRank| == n && |p.spare| == spares && p.dead == []
    && (forall i :: 0 <= i < active ==> p.user[i] == i && p.rankToPid[i] == i && p.pidToRank[i] == i)
    && (forall i :: 0 <= i < spares ==> p.spare[i] == active + i && p.pidToRank[active + i] == UNDEFINED)
  }

  lemma InitialExact(n: nat, spares: nat)
    requires spares < n
    ensures Begins(Initial(n, spares), n, spares)
  {
    EveryoneIncreases(n - spares);
    EveryoneIncreases(n);
    MinusExact(Everyone(n), Everyone(n - spares));
    OnlyOrder(Minus(Everyone(n), Everyone(n - spares)), n - spares, n);
  }

  /** n numbers from first on. */
  ghost predicate Numbered(s: seq<nat>, first: nat, n: nat) {
    |s| == n && forall i :: 0 <= i < n ==> s[i] == first + i
  }

  /** The numbers from first to end - 1 have only one increasing order. */
  lemma {:induction false} OnlyOrder(s: seq<nat>, first: nat, end: nat)
    requires first <= end && Increasing(s) && forall x: nat :: x in s <==> first <= x < end
    ensures Numbered(s, first, end - first)
  {
    FirstIn(s);
    if first < end {
      assert end - 1 in s;
      var m := |s| - 1;
      var k :| 0 <= k <= m && s[k] == end - 1;
      assert s[m] in s;
      assert k == m && s == s[..m] + [s[m]];
      forall x: nat ensures x in s[..m] <==> first <= x < end - 1 { assert x in s <==> x in s[..m] || x == s[m]; }
      OnlyOrder(s[..m], first, end - 1);
    }
  }

  lemma FirstIn(s: seq<nat>)
    ensures s != [] ==> s[0] in s
  {
  }

  /** Only the user group and the tables matter for the tables being inverse. */
  lemma SameTables(p: Procs, q: Procs)
    requires Tables(p) && q.user == p.user && q.rankToPid == p.rankToPid && q.pidToRank == p.pidToRank
    requires forall k :: 0 <= k < |q.spare| ==> q.spare[k] in p.spare
    ensures Tables(q)
  {
    forall r | 0 <= r < |q.rankToPid| ensures q.rankToPid[r] == UNDEFINED || Assigned(q, r) {
      assert p.rankToPid[r] == UNDEFINED || Assigned(p, r);
    }
  }

  lemma NewlyKeeps(p: Procs, world: seq<nat>)
    requires Tables(p) && NoSpareWorks(p)
    ensures Tables(Newly(p, world)) && NoSpareWorks(Newly(p, world)) && Increasing(Newly(p, world).dead)
  {
    var q, all := Newly(p, world), Everyone(|p.pidToRank|);
    EveryoneIncreases(|p.pidToRank|);
    MinusExact(all, world);
    MinusExact(p.spare, q.dead);
    forall k | 0 <= k < |q.spare| ensures q.spare[k] in p.spare { assert q.spare[k] in q.spare; }
    SameTables(p, q);
  }

  lemma Apart(p: Procs, i: nat, j: nat)
    requires Tables(p) && i < |p.user| && j < |p.user|
    ensures p.user[i] == p.user[j] ==> i == j
  {
    var a, b := p.pidToRank[p.user[i]], p.pidToRank[p.user[j]];
    assert (i < j ==> a < b) && (j < i ==> b < a);
  }

  /** The stages of a rebuild: the dead known, the replacements made, the rest given up. */
  lemma Stages(p: Procs, world: seq<nat>) returns (q: Procs, ds: seq<nat>, k: nat, f: Procs, s: Procs)
    requires Tables(p) && NoSpareWorks(p)
    ensures q == Newly(p, world) && ds == DeadUser(q) && k == Min(|ds|, |q.spare|)
    ensures Tables(q) && NoSpareWorks(q) && InUser(q, ds) && Increasing(ds)
    ensures Tables(f) && InUser(f, ds) && Filled(q, f, ds, k) && |f.rankToPid| == |p.rankToPid|
    ensures Tables(s) && |s.user| == |q.user| - (|ds| - k) && s.spare == q.spare && s.dead == q.dead
    ensures s.pidToRank == f.pidToRank && |s.rankToPid| == |p.rankToPid|
    ensures forall x :: x in s.user <==> x in f.user && !HeldFrom(f, ds, k, x)
    ensures Rebuild(p, world) == s.(spare := Minus(s.spare, s.user))
  {
    NewlyShape(p, world);
    NewlyKeeps(p, world);
    q := Newly(p, world);
    ds := DeadUser(q);
    k := Min(|ds|, |q.spare|);
    FillExact(q, ds, k);
    f := Fill(q, ds, k);
    ShrinkExact(f, ds, k);
    s := Shrink(f, ds, k);
  }

  /** Who works after a rebuild: the living who worked before, and the first living spares. */
  lemma RebuildMembers(p: Procs, world: seq<nat>, x: nat)
    requires Tables(p) && NoSpareWorks(p)
    ensures var q := Newly(p, world);
            var k := Min(|DeadUser(q)|, |q.spare|);
            x in Rebuild(p, world).user <==> (x in p.user && x !in q.dead) || x in q.spare[..k]
  {
    var q, ds, k, f, s := Stages(p, world);
    MembersOf(q, f, ds, k, x);
  }

  lemma MembersOf(q: Procs, f: Procs, ds: seq<nat>, k: nat, x: nat)
    requires Tables(q) && Tables(f) && NoSpareWorks(q) && ds == DeadUser(q) && InUser(q, ds) && InUser(f, ds)
    requires Increasing(ds) && k <= |ds| && k <= |q.spare| && Filled(q, f, ds, k)
    ensures (x in f.user && !HeldFrom(f, ds, k, x)) <==> (x in q.user && x !in q.dead) || x in q.spare[..k]
  {
    if x in f.user && !HeldFrom(f, ds, k, x) {
      var j :| 0 <= j < |f.user| && f.user[j] == x;
      PositionIn(q.user, q.dead, 0, j);
      StaysBecause(q, f, ds, k, j);
    }
    if x in q.user && x !in q.dead {
      var j :| 0 <= j < |q.user| && q.user[j] == x;
      AliveStays(q, f, ds, k, j);
    }
    if x in q.spare[..k] {
      var i :| 0 <= i < k && q.spare[..k][i] == x;
      SpareComesIn(q, f, ds, k, i);
    }
  }

  lemma StaysBecause(q: Procs, f: Procs, ds: seq<nat>, k: nat, j: nat)
    requires Shape(q) && InUser(q, ds) && InUser(f, ds) && Increasing(ds) && k <= |ds| && k <= |q.spare|
    requires Filled(q, f, ds, k) && j < |f.user| && !HeldFrom(f, ds, k, f.user[j])
    requires j in ds <==> q.user[j] in q.dead
    ensures (f.user[j] in q.user && f.user[j] !in q.dead) || f.user[j] in q.spare[..k]
  {
    if j in ds {
      var i :| 0 <= i < |ds| && ds[i] == j;
      HolderExact(q, ds, k, i);
      assert i < k && q.spare[..k][i] == f.user[j];
    } else {
      HolderOther(q, ds, k, j);
    }
  }

  lemma AliveStays(q: Procs, f: Procs, ds: seq<nat>, k: nat, j: nat)
    requires Tables(q) && Tables(f) && ds == DeadUser(q) && InUser(q, ds) && InUser(f, ds) && k <= |ds|
    requires k <= |q.spare|
    requires Filled(q, f, ds, k) && j < |q.user| && q.user[j] !in q.dead
    ensures q.user[j] in f.user && !HeldFrom(f, ds, k, q.user[j])
  {
    PositionIn(q.user, q.dead, 0, j);
    HolderOther(q, ds, k, j);
    assert f.user[j] == q.user[j];
    forall i | k <= i < |ds| ensures f.user[ds[i]] != q.user[j] { Apart(f, ds[i], j); }
  }

  lemma SpareComesIn(q: Procs, f: Procs, ds: seq<nat>, k: nat, i: nat)
    requires Tables(q) && Tables(f) && ds == DeadUser(q) && InUser(q, ds) && InUser(f, ds) && k <= |ds|
    requires k <= |q.spare|
    requires Filled(q, f, ds, k) && i < k && Increasing(ds)
    ensures f.user[ds[i]] == q.spare[i] && !HeldFrom(f, ds, k, q.spare[i])
  {
    HolderExact(q, ds, k, i);
    forall h | k <= h < |ds| ensures f.user[ds[h]] != q.spare[i] { Apart(f, ds[h], ds[i]); }
  }

  /** What a rebuild leaves: inverse tables, one user position fewer for every dead one without a spare, and
      the ranks of all who were not spares. */
  lemma RebuildTables(p: Procs, world: seq<nat>)
    requires Tables(p) && NoSpareWorks(p)
    ensures var q, r := Newly(p, world), Rebuild(p, world);
            var ds := DeadUser(q);
            && Tables(r) && NoSpareWorks(r) && r.dead == q.dead && r.spare == Minus(q.spare, r.user)
            && |r.pidToRank| == |p.pidToRank| && |r.rankToPid| == |p.rankToPid|
            && |r.user| == |p.user| - (|ds| - Min(|ds|, |q.spare|))
            && (forall x :: 0 <= x < |p.pidToRank| && x !in q.spare ==> r.pidToRank[x] == p.pidToRank[x])
  {
    var q, ds, k, f, s := Stages(p, world);
    MinusExact(q.spare, s.user);
    SameTables(s, Rebuild(p, world));
  }

  /** Nobody who is dead outside a world comes back with it. */
  ghost predicate Follows(p: Procs, world: seq<nat>) {
    forall x :: x in p.dead ==> x !in world
  }

  ghost predicate DeadOutside(p: Procs, n: nat, world: seq<nat>) {
    forall x: nat :: x in p.dead <==> x < n && x !in world
  }

  ghost predicate Partition(p: Procs) {
    && (forall x: nat :: x < |p.pidToRank| <==> x in p.user || x in p.spare || x in p.dead)
    && (forall x :: x in p.dead ==> x !in p.user && x !in p.spare)
  }

  lemma RebuildPartition(p: Procs, world: seq<nat>)
    requires Tables(p) && NoSpareWorks(p) && Partition(p) && Follows(p, world)
    ensures Partition(Rebuild(p, world)) && DeadOutside(Rebuild(p, world), |p.pidToRank|, world)
  {
    RebuildTables(p, world);
    PlacesAfter(p, world, Rebuild(p, world));
  }

  lemma PlacesAfter(p: Procs, world: seq<nat>, r: Procs)
    requires Tables(p) && NoSpareWorks(p) && Partition(p) && Follows(p, world) && r == Rebuild(p, world)
    requires r.dead == Newly(p, world).dead && r.spare == Minus(Newly(p, world).spare, r.user)
    requires |r.pidToRank| == |p.pidToRank|
    ensures Partition(r) && DeadOutside(r, |p.pidToRank|, world)
  {
    forall x: nat
      ensures x < |r.pidToRank| <==> x in r.user || x in r.spare || x in r.dead
      ensures x in r.dead ==> x !in r.user && x !in r.spare
    {
      PlaceAfter(p, world, r, x);
    }
  }

  /** Where each process is after a rebuild. */
  lemma PlaceAfter(p: Procs, world: seq<nat>, r: Procs, x: nat)
    requires Tables(p) && NoSpareWorks(p) && Partition(p) && Follows(p, world) && r == Rebuild(p, world)
    requires r.dead == Newly(p, world).dead && r.spare == Minus(Newly(p, world).spare, r.user)
    ensures x < |p.pidToRank| <==> x in r.user || x in r.spare || x in r.dead
    ensures x in r.dead ==> x !in r.user && x !in r.spare
  {
    var q := Newly(p, world);
    var k := Min(|DeadUser(q)|, |q.spare|);
    RebuildMembers(p, world, x);
    assert x in q.spare[..k] ==> x in q.spare;
  }

  lemma RebuildFills(p: Procs, world: seq<nat>)
    requires Tables(p) && NoSpareWorks(p)
    ensures Rebuild(p, world).spare != [] ==> p.spare != [] && |Rebuild(p, world).user| == |p.user|
  {
    RebuildTables(p, world);
    var q, r := Newly(p, world), Rebuild(p, world);
    var k := Min(|DeadUser(q)|, |q.spare|);
    if r.spare != [] {
      var x := r.spare[0];
      assert x in q.spare && x !in r.user && x in p.spare;
      RebuildMembers(p, world, x);
      assert q.spare[..k] != q.spare;
    }
  }

  /** Every rebuild keeps the invariant. */
  lemma RebuildKeeps(p: Procs, world: seq<nat>, n: nat, active: nat)
    requires Valid(p, n, active) && Follows(p, world)
    ensures Valid(Rebuild(p, world), n, active)
    ensures DeadOutside(Rebuild(p, world), n, world)
  {
    RebuildTables(p, world);
    RebuildPartition(p, world);
    RebuildFills(p, world);
    NewlyKeeps(p, world);
  }

  /** A living process that works goes on working under the same rank, and nobody who works is dead. */
  lemma SurvivorsKeepRanks(p: Procs, world: seq<nat>, n: nat, active: nat, x: nat)
    requires Valid(p, n, active) && Follows(p, world)
    ensures var r := Rebuild(p, world);
            (x in p.user && x in world ==> x in r.user && r.pidToRank[x] == p.pidToRank[x])
            && (x in r.user ==> x in world && (x in p.user || x in p.spare))
  {
    RebuildTables(p, world);
    RebuildMembers(p, world, x);
    var q := Newly(p, world);
    var k := Min(|DeadUser(q)|, |q.spare|);
    assert x in q.spare[..k] ==> x in q.spare;
  }

  /** The i-th dead rank goes to the i-th living spare; when the spares run out it stays vacant. */
  lemma DeadRanksPassOn(p: Procs, world: seq<nat>, i: nat)
    requires Tables(p) && NoSpareWorks(p) && i < |DeadUser(Newly(p, world))|
    ensures var q, r := Newly(p, world), Rebuild(p, world);
            var rank := p.pidToRank[p.user[DeadUser(q)[i]]];
            |r.rankToPid| == |p.rankToPid| && 0 <= rank < |p.rankToPid|
            && r.rankToPid[rank] == if i < |q.spare| then q.spare[i] else UNDEFINED
  {
    var q, ds, k, f, s := Stages(p, world);
    PassedOn(q, f, s, ds, k, i);
    var rank := q.pidToRank[q.user[ds[i]]];
    assert 0 <= rank < |q.rankToPid|;
  }

  lemma PassedOn(q: Procs, f: Procs, s: Procs, ds: seq<nat>, k: nat, i: nat)
    requires Tables(q) && Tables(f) && Tables(s) && ds == DeadUser(q) && InUser(q, ds) && InUser(f, ds)
    requires Increasing(ds) && i < |ds| && k == Min(|ds|, |q.spare|) && Filled(q, f, ds, k)
    requires s.pidToRank == f.pidToRank && |s.rankToPid| == |f.rankToPid| == |q.rankToPid|
    requires forall x :: x in s.user <==> x in f.user && !HeldFrom(f, ds, k, x)
    ensures s.rankToPid[q.pidToRank[q.user[ds[i]]]] == if i < |q.spare| then q.spare[i] else UNDEFINED
  {
    HolderExact(q, ds, k, i);
    if i < k {
      SpareComesIn(q, f, ds, k, i);
      TakenRank(q, f, s, ds, k, i);
    } else {
      VacantRank(q, f, s, ds, k, i);
    }
  }

  lemma TakenRank(q: Procs, f: Procs, s: Procs, ds: seq<nat>, k: nat, i: nat)
    requires Shape(q) && InUser(q, ds) && Tables(s) && i < k <= |ds| && k <= |q.spare| && Filled(q, f, ds, k)
    requires s.pidToRank == f.pidToRank && f.user[ds[i]] == q.spare[i] && q.spare[i] in s.user
    requires |s.rankToPid| == |q.rankToPid|
    ensures s.rankToPid[q.pidToRank[q.user[ds[i]]]] == q.spare[i]
  {
    var j :| 0 <= j < |s.user| && s.user[j] == q.spare[i];
    assert s.pidToRank[s.user[j]] == q.pidToRank[q.user[ds[i]]];
  }

  lemma RankApart(p: Procs, i: nat, j: nat)
    requires Tables(p) && i < |p.user| && j < |p.user|
    ensures p.pidToRank[p.user[i]] == p.pidToRank[p.user[j]] ==> i == j
  {
    var a, b := p.pidToRank[p.user[i]], p.pidToRank[p.user[j]];
    assert (i < j ==> a < b) && (j < i ==> b < a);
  }

  lemma VacantRank(q: Procs, f: Procs, s: Procs, ds: seq<nat>, k: nat, i: nat)
    requires Shape(q) && Tables(f) && Tables(s) && InUser(q, ds) && InUser(f, ds) && k <= i < |ds| && k <= |q.spare|
    requires Filled(q, f, ds, k) && s.pidToRank == f.pidToRank && |s.rankToPid| == |f.rankToPid| == |q.rankToPid|
    requires forall x :: x in s.user <==> x in f.user && !HeldFrom(f, ds, k, x)
    ensures s.rankToPid[q.pidToRank[q.user[ds[i]]]] == UNDEFINED
  {
    var rank := f.pidToRank[f.user[ds[i]]];
    forall j | 0 <= j < |s.user| ensures s.pidToRank[s.user[j]] != rank {
      var x := s.user[j];
      assert x in s.user;
      var h :| 0 <= h < |f.user| && f.user[h] == x;
      RankApart(f, h, ds[i]);
      assert !HeldFrom(f, ds, k, x);
      assert f.user[ds[i]] != x;
    }
    assert !Assigned(s, rank);
  }

  // ----- sizes -----

  ghost function Elements(s: seq<nat>): set<nat> {
    set x | x in s
  }

  lemma {:induction false} SetSize(s: seq<nat>)
    requires Distinct(s)
    ensures |Elements(s)| == |s|
  {
    if s != [] {
      var m := |s| - 1;
      SetSize(s[..m]);
      assert s == s[..m] + [s[m]] && s[m] !in s[..m];
      assert Elements(s) == Elements(s[..m]) + {s[m]};
    }
  }

  lemma JoinDistinct(a: seq<nat>, b: seq<nat>)
    requires Distinct(a) && Distinct(b) && forall x :: x in a ==> x !in b
    ensures Distinct(a + b)
  {
    forall j, k | 0 <= j < k < |a + b| ensures (a + b)[j] != (a + b)[k] {
      if j < |a| <= k { assert (a + b)[j] in a && (a + b)[k] == b[k - |a|]; }
    }
  }

  /** Working, waiting and dead together are all processes. */
  lemma GroupSizes(p: Procs, n: nat, active: nat)
    requires Valid(p, n, active)
    ensures |p.user| + |p.spare| + |p.dead| == n
  {
    var all, joined := Everyone(n), p.user + p.spare + p.dead;
    EveryoneIncreases(n);
    forall j, k | 0 <= j < k < |p.user| ensures p.user[j] != p.user[k] { Apart(p, j, k); }
    JoinDistinct(p.user, p.spare);
    JoinDistinct(p.user + p.spare, p.dead);
    SetSize(joined);
    SetSize(all);
    assert Elements(joined) == Elements(all);
  }

  /** The user group is as large as the living allow, and it is short exactly when more processes have died than
      there were spares. */
  lemma SizeExact(p: Procs, n: nat, active: nat)
    requires Valid(p, n, active)
    ensures |p.dead| <= n && |p.user| == Min(active, n - |p.dead|)
    ensures active <= n ==> (|p.user| < |p.rankToPid| <==> |p.dead| > n - active)
  {
    GroupSizes(p, n, active);
  }

  // ----- runs -----

  /** Worlds only lose members. */
  ghost predicate Shrinking(worlds: seq<seq<nat>>)
    decreases |worlds|
  {
    |worlds| > 1 ==> (forall x :: x in worlds[1] ==> x in worlds[0]) && Shrinking(worlds[1..])
  }

  ghost function RebuildAll(p: Procs, worlds: seq<seq<nat>>): Procs
    requires Shape(p)
    decreases |worlds|
  {
    if worlds == [] then p else RebuildAll(Rebuild(p, worlds[0]), worlds[1..])
  }

  lemma NextFollows(p: Procs, n: nat, before: seq<nat>, world: seq<nat>)
    requires DeadOutside(p, n, before)
    requires forall x :: x in world ==> x in before
    ensures Follows(p, world)
  {
  }

  lemma {:induction false} RunKeeps(p: Procs, worlds: seq<seq<nat>>, last: seq<nat>, n: nat,
      active: nat) returns (r: Procs)
    requires Valid(p, n, active) && Shrinking(worlds)
    requires worlds != [] && Follows(p, worlds[0]) && last == worlds[|worlds| - 1]
    ensures r == RebuildAll(p, worlds)
    ensures Valid(r, n, active) && DeadOutside(r, n, last)
    decreases |worlds|
  {
    r := RunFirst(p, worlds, n, active);
    var rest := worlds[1..];
    if rest != [] {
      assert rest[|rest| - 1] == last;
      r := RunKeeps(r, rest, last, n, active);
    }
  }

  /** The first rebuild of a run, and what the rest of the run starts from. */
  lemma RunFirst(p: Procs, worlds: seq<seq<nat>>, n: nat, active: nat) returns (r: Procs)
    requires Valid(p, n, active) && Shrinking(worlds) && worlds != [] && Follows(p, worlds[0])
    ensures Valid(r, n, active) && DeadOutside(r, n, worlds[0]) && Shrinking(worlds[1..])
    ensures worlds[1..] == [] ==> r == RebuildAll(p, worlds)
    ensures worlds[1..] != [] ==> Follows(r, worlds[1..][0]) && RebuildAll(p, worlds) == RebuildAll(r, worlds[1..])
  {
    RebuildKeeps(p, worlds[0], n, active);
    r := Rebuild(p, worlds[0]);
    RunStep(p, worlds);
    if |worlds| > 1 { NextFollows(r, n, worlds[0], worlds[1]); }
  }

  lemma {:induction false} RunStep(p: Procs, worlds: seq<seq<nat>>)
    requires Shape(p) && worlds != []
    ensures RebuildAll(p, worlds) == RebuildAll(Rebuild(p, worlds[0]), worlds[1..])
    ensures |worlds| == 1 ==> RebuildAll(p, worlds) == Rebuild(p, worlds[0])
  {
  }

  /** Over any run of failures and retries from the start, the dead are those outside the last world, the user
      group has the size the living allow, and it falls short exactly when the deaths exceed the spares. */
  lemma RunExact(n: nat, spares: nat, worlds: seq<seq<nat>>) returns (r: Procs)
    requires spares < n && worlds != [] && Shrinking(worlds)
    ensures Shape(Initial(n, spares)) && r == RebuildAll(Initial(n, spares), worlds)
    ensures Valid(r, n, n - spares) && DeadOutside(r, n, worlds[|worlds| - 1])
    ensures |r.dead| <= n && |r.user| == Min(n - spares, n - |r.dead|)
    ensures |r.user| < |r.rankToPid| <==> |r.dead| > spares
  {
    InitialValid(n, spares);
    assert Initial(n, spares).dead == [];
    r := RunKeeps(Initial(n, spares), worlds, worlds[|worlds| - 1], n, n - spares);
    SizeExact(r, n, n - spares);
  }

  /** The process works under the rank. */
  ghost predicate WorksAs(p: Procs, x: nat, rank: int) {
    x in p.user && x < |p.pidToRank| && p.pidToRank[x] == rank
  }

  lemma KeepsRank(p: Procs, world: seq<nat>, n: nat, active: nat, x: nat, rank: int)
    requires Valid(p, n, active) && Follows(p, world) && WorksAs(p, x, rank) && x in world
    ensures WorksAs(Rebuild(p, world), x, rank)
  {
    SurvivorsKeepRanks(p, world, n, active, x);
    RebuildKeeps(p, world, n, active);
  }

  /** A process that lives through a run keeps its place. */
  lemma {:induction false} RunKeepsRank(p: Procs, worlds: seq<seq<nat>>, n: nat, active: nat, x: nat, rank: int)
    requires Valid(p, n, active) && Shrinking(worlds) && worlds != [] && Follows(p, worlds[0])
    requires WorksAs(p, x, rank) && x in worlds[|worlds| - 1]
    ensures WorksAs(RebuildAll(p, worlds), x, rank)
    decreases |worlds|
  {
    InAllWorlds(worlds, x);
    KeepsRank(p, worlds[0], n, active, x, rank);
    if |worlds| == 1 {
      RunStep(p, worlds);
    } else {
      var r := NextRebuild(p, worlds, n, active);
      RunKeepsRank(r, worlds[1..], n, active, x, rank);
    }
  }

  lemma NextRebuild(p: Procs, worlds: seq<seq<nat>>, n: nat, active: nat) returns (r: Procs)
    requires Valid(p, n, active) && Shrinking(worlds) && |worlds| > 1 && Follows(p, worlds[0])
    ensures r == Rebuild(p, worlds[0]) && Valid(r, n, active) && RebuildAll(p, worlds) == RebuildAll(r, worlds[1..])
    ensures var rest := worlds[1..];
            Follows(r, rest[0]) && Shrinking(rest) && rest[|rest| - 1] == worlds[|worlds| - 1]
  {
    RebuildKeeps(p, worlds[0], n, active);
    r := Rebuild(p, worlds[0]);
    RunStep(p, worlds);
    NextFollows(r, n, worlds[0], worlds[1]);
  }

  lemma {:induction false} InAllWorlds(worlds: seq<seq<nat>>, x: nat)
    requires Shrinking(worlds) && worlds != [] && x in worlds[|worlds| - 1]
    ensures x in worlds[0]
    decreases |worlds|
  {
    if |worlds| > 1 {
      assert worlds[1..][|worlds| - 2] == worlds[|worlds| - 1];
      InAllWorlds(worlds[1..], x);
    }
  }

  /** Over any run from the start, one of the first processes that never dies works, under its own number. */
  lemma RunRanks(n: nat, spares: nat, worlds: seq<seq<nat>>, i: nat)
    requires spares < n && worlds != [] && Shrinking(worlds) && i < n - spares && i in worlds[|worlds| - 1]
    ensures Shape(Initial(n, spares))
    ensures var r := RebuildAll(Initial(n, spares), worlds);
            WorksAs(r, i, i) && |r.rankToPid| == n - spares && r.rankToPid[i] == i
  {
    var p := Initial(n, spares);
    InitialValid(n, spares);
    InitialExact(n, spares);
    assert p.user[i] == i && p.dead == [];
    RunKeepsRank(p, worlds, n, n - spares, i, i);
    var r := RunExact(n, spares, worlds);
    HolderOf(r, i, i);
  }

  lemma HolderOf(p: Procs, x: nat, rank: nat)
    requires Tables(p) && WorksAs(p, x, rank)
    ensures rank < |p.rankToPid| && p.rankToPid[rank] == x
  {
    var j :| 0 <= j < |p.user| && p.user[j] == x;
  }
}
