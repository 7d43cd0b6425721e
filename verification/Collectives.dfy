/** Logging collectives and replaying them after a failure: the log of one rank, and how it is lined up with the
    rank that has got furthest. */
module Collectives {
  import opened Basics
  import opened MessageLog
  import opened Consistency

  /** A rank's collective log. A region has one range of indices, kept here as both ranges of a region of the message
      log; the next index counts the operation in progress, which is not logged yet. */
  datatype Rank<Op> = Rank(log: Log<Op>, active: Option<Op>, inRegion: int) {
    function Next(): int
      requires |log.regions| > 0
    {
      log.NextSend()
    }

    /** One past the last completed operation. */
    function Done(): int
      requires |log.regions| > 0
    {
      if active.Some? then Next() - 1 else Next()
    }
  }

  ghost predicate OneRange(rs: seq<Region>) {
    forall i :: 0 <= i < |rs| ==> rs[i].send == rs[i].recv
  }

  /** What is logged lies in the regions and has no holes up to the last completed operation. */
  ghost predicate Unbroken<Op>(rs: seq<Region>, logged: map<int, Op>, done: int) {
    && (forall k :: k in logged ==> InRegions(rs, k) && k < done)
    && (forall j, k :: j in logged && j <= k < done ==> k in logged)
  }

  ghost predicate Chained(rs: seq<Region>) {
    |rs| > 0 && Chain(rs) && OneRange(rs)
  }

  /** An operation in progress is the newest of the current region. */
  ghost predicate Held<Op>(r: Rank<Op>) {
    && Chained(r.log.regions) && r.inRegion >= 0 && Unbroken(r.log.regions, r.log.sends, r.Done())
    && (r.active.Some? ==> r.log.Cur().Valid() && r.log.Cur().send.first < r.log.Cur().send.next)
  }

  // ----- the steps of one rank -----

  function Up(r: MsgRange): MsgRange { MsgRange(r.first, r.next + 1) }

  /** An operation gets the next index when it begins. */
  function BeginOp<Op>(r: Rank<Op>, op: Op): Outcome<Rank<Op>>
    requires |r.log.regions| > 0
  {
    var e := EnsureRegion(r.log, r.inRegion);
    if r.active.Some? || e.Cur().id != r.inRegion then Fatal
    else Ok(Rank(e.WithCur(Region(e.Cur().id, Up(e.Cur().send), Up(e.Cur().recv))), Some(op), r.inRegion))
  }

  /** It is logged under that index when it is complete; each attempt checks the region first. */
  function EndOp<Op>(r: Rank<Op>): Outcome<Rank<Op>>
    requires |r.log.regions| > 0
  {
    if r.active.None? || !r.log.Cur().Valid() || r.log.Cur().id != r.inRegion then Fatal
    else Ok(Rank(r.log.(sends := r.log.sends[r.Next() - 1 := r.active.value]), None, r.inRegion))
  }

  function NewRegion<Op>(r: Rank<Op>, id: int): Outcome<Rank<Op>>
    requires |r.log.regions| > 0
  {
    if r.active.Some? then Fatal
    else match BeginRegion(r.log, id) case Fatal => Fatal case Ok(l) => Ok(Rank(l, None, id))
  }

  /** Going back to a region. Only the current region is emptied: an older one is left as it was when it ended. */
  function ResetOps<Op>(l: Log<Op>, target: int): Outcome<Log<Op>>
    requires |l.regions| > 0
  {
    if !l.Cur().Valid() then Ok(l)
    else if 0 <= target < l.Cur().id then
      var e := EraseFrom(l, LowerBound(l.regions, target + 1));
      if !e.Cur().Valid() || e.Cur().id == target then Ok(e) else Fatal
    else if target > l.Cur().id then Ok(MessageLog.AppendRegion(l, After(target, l.Cur())))
    else if target == l.Cur().id then Ok(Rewind(l))
    else Ok(l)
  }

  // ----- alignment -----

  /** Lines a rank up with the regions of the rank that has got furthest, and the index that one has reached. A rank
      that is put into a later region must not be in an operation, whose next attempt would stop it. */
  function Align<Op>(r: Rank<Op>, latest: seq<Region>, reached: int): Outcome<Rank<Op>>
    requires |r.log.regions| > 0
  {
    var cur := r.log.Cur();
    var id := if cur.Valid() then cur.id else r.inRegion;
    var i := LowerBound(latest, id);
    if i == |latest| then StartAt(r, id, reached)
    else if latest[i].id == id then StartAt(r, id, latest[i].send.first)
    else if (i > 0 && latest[i - 1].Valid()) || !cur.Valid() || cur.send.next != latest[i].send.first then Fatal
    else if r.active.Some? then Fatal
    else Ok(r.(log := MessageLog.AppendRegion(r.log, After(latest[i].id, cur))))
  }

  /** The current region starts at first: it is moved there if nothing ever happened in it, or else must do so. */
  function StartAt<Op>(r: Rank<Op>, id: int, first: int): Outcome<Rank<Op>>
    requires |r.log.regions| > 0
  {
    var cur := r.log.Cur();
    if !cur.Valid() || cur.Fresh() then Ok(r.(log := r.log.WithCur(Region(id, At(first), At(first)))))
    else if cur.send.first != first then Fatal
    else Ok(r)
  }

  // ----- each keeps the log -----

  lemma BlankTable(rs: seq<Region>)
    requires Chain(rs) && |rs| > 0 && !Last(rs).Valid()
    ensures forall i :: 0 <= i < |rs| ==> rs[i] == NONE
  {
    forall i | 0 <= i < |rs| ensures rs[i] == NONE {
      if rs[i].Valid() && i < |rs| - 1 { ChainOrder(rs, i, |rs| - 1); }
    }
  }

  lemma TableAppend(rs: seq<Region>, r: Region)
    requires Chained(rs) && r.Valid() && r.send == r.recv && (Last(rs).Valid() ==> Follows(Last(rs), r))
    ensures Chained(rs[1..] + [r])
  {
    var t := rs[1..] + [r];
    forall i | 0 <= i < |rs| - 1 ensures t[i] == rs[i + 1] {}
    forall i | 0 <= i < |t| - 1 && t[i].Valid() ensures t[i + 1].Valid() && Follows(t[i], t[i + 1]) {
      assert t[i] == rs[i + 1];
      if i + 2 < |rs| { assert t[i + 1] == rs[i + 2]; }
    }
  }

  lemma TableErase(rs: seq<Region>, begin: nat)
    requires begin <= |rs| && Chained(rs)
    ensures Chained(Nones(|rs| - begin) + rs[..begin])
  {
    var t, gap := Nones(|rs| - begin) + rs[..begin], |rs| - begin;
    forall i | gap <= i < |rs| ensures t[i] == rs[i - gap] {}
    forall i | 0 <= i < |t| - 1 && t[i].Valid() ensures t[i + 1].Valid() && Follows(t[i], t[i + 1]) {
      assert i >= gap && Follows(rs[i - gap], rs[i + 1 - gap]);
    }
  }

  lemma TableCur(rs: seq<Region>, r: Region)
    requires Chained(rs) && Last(rs).Valid() && r.Valid() && r.send == r.recv && r.id == Last(rs).id
    requires r.send.first == Last(rs).send.first
    ensures Chained(WithLast(rs, r))
  {
    var t := WithLast(rs, r);
    assert Last(rs).send == Last(rs).recv;
    forall i | 0 <= i < |rs| - 1 ensures t[i] == rs[i] {}
    forall i | 0 <= i < |t| - 1 && t[i].Valid() ensures t[i + 1].Valid() && Follows(t[i], t[i + 1]) {
      assert Follows(rs[i], rs[i + 1]);
    }
  }

  lemma InTail(rs: seq<Region>, r: Region, k: int)
    requires |rs| > 0 && InRegions(rs, k) && !(rs[0].Valid() && rs[0].send.first <= k < rs[0].send.next)
    ensures InRegions(rs[1..] + [r], k)
  {
    var i :| 0 <= i < |rs| && rs[i].Valid() && rs[i].send.first <= k < rs[i].send.next;
    assert (rs[1..] + [r])[i - 1] == rs[i];
  }

  lemma AppendUnbroken<Op>(rs: seq<Region>, r: Region, logged: map<int, Op>, done: int)
    requires Chained(rs) && Unbroken(rs, logged, done)
    ensures Unbroken(rs[1..] + [r], Without(logged, rs[0]), done)
  {
    var left := Without(logged, rs[0]);
    forall k | k in left ensures InRegions(rs[1..] + [r], k) && k < done { InTail(rs, r, k); }
    forall j, k | j in left && j <= k < done ensures k in left {
      var i :| 0 <= i < |rs| && rs[i].Valid() && rs[i].send.first <= j < rs[i].send.next;
      if rs[0].Valid() && i > 0 { ChainOrder(rs, 0, i); }
      assert k in logged;
    }
  }

  lemma EraseUnbroken<Op>(rs: seq<Region>, begin: nat, logged: map<int, Op>, done: int)
    requires Chained(rs) && begin <= |rs| && Unbroken(rs, logged, done)
    requires begin > 0 && rs[begin - 1].Valid() ==> rs[begin - 1].send.next <= done
    ensures Unbroken(Nones(|rs| - begin) + rs[..begin], WithoutAll(logged, rs[begin..]),
                     if begin > 0 && rs[begin - 1].Valid() then rs[begin - 1].send.next else 0)
  {
    var left, t := WithoutAll(logged, rs[begin..]), Nones(|rs| - begin) + rs[..begin];
    var now := if begin > 0 && rs[begin - 1].Valid() then rs[begin - 1].send.next else 0;
    forall k ensures k in left <==> k in logged && InRegions(rs[..begin], k) { LeftExact(rs, begin, logged, k); }
    forall k | k in left ensures InRegions(t, k) && k < now {
      InJoined(Nones(|rs| - begin), rs[..begin], k);
      BeforeEnd(rs, begin, k);
    }
    forall j, k | j in left && j <= k < now ensures k in left {
      assert k in logged;
      NotLater(rs, begin, k);
    }
  }

  lemma LeftExact<Op>(rs: seq<Region>, begin: nat, logged: map<int, Op>, k: int)
    requires Chained(rs) && begin <= |rs| && (k in logged ==> InRegions(rs, k))
    ensures k in WithoutAll(logged, rs[begin..]) <==> k in logged && InRegions(rs[..begin], k)
  {
    WithoutAllExact(logged, rs[begin..], k);
    assert rs == rs[..begin] + rs[begin..];
    InJoined(rs[..begin], rs[begin..], k);
    PartsDisjoint(rs, begin, k);
  }

  lemma BeforeEnd(rs: seq<Region>, begin: nat, k: int)
    requires Chained(rs) && begin <= |rs| && InRegions(rs[..begin], k)
    ensures begin > 0 && rs[begin - 1].Valid() && k < rs[begin - 1].send.next
  {
    var i :| 0 <= i < begin && rs[..begin][i].Valid() && rs[..begin][i].send.first <= k < rs[..begin][i].send.next;
    if i < begin - 1 { ChainOrder(rs, i, begin - 1); }
  }

  lemma NotLater(rs: seq<Region>, begin: nat, k: int)
    requires Chained(rs) && 0 < begin <= |rs| && rs[begin - 1].Valid() && k < rs[begin - 1].send.next
    requires InRegions(rs, k)
    ensures InRegions(rs[..begin], k)
  {
    var i :| 0 <= i < |rs| && rs[i].Valid() && rs[i].send.first <= k < rs[i].send.next;
    if i >= begin { ChainOrder(rs, begin - 1, i); } else { assert rs[..begin][i] == rs[i]; }
  }

  lemma SameInside<Op>(rs: seq<Region>, t: seq<Region>, logged: map<int, Op>, done: int)
    requires Unbroken(rs, logged, done) && forall k :: InRegions(rs, k) ==> InRegions(t, k)
    ensures Unbroken(t, logged, done)
  {
  }

  lemma WiderCur(rs: seq<Region>, r: Region, k: int)
    requires |rs| > 0 && Last(rs).Valid() && r.Valid() && r.send.first <= Last(rs).send.first
    requires Last(rs).send.next <= r.send.next
    requires InRegions(rs, k)
    ensures InRegions(WithLast(rs, r), k)
  {
    var i :| 0 <= i < |rs| && rs[i].Valid() && rs[i].send.first <= k < rs[i].send.next;
    var t := WithLast(rs, r);
    assert t[i].Valid() && t[i].send.first <= k < t[i].send.next;
  }

  /** A rank without regions gets its first one; otherwise nothing changes. */
  lemma EnsureHeld<Op>(r: Rank<Op>)
    requires Held(r) && r.active.None?
    ensures var e := EnsureRegion(r.log, r.inRegion);
            && Chained(e.regions) && e.Cur().Valid()
            && Unbroken(e.regions, e.sends, r.Done()) && e.NextSend() == r.Next()
  {
    if !r.log.Cur().Valid() {
      BlankTable(r.log.regions);
      AppendUnbroken(r.log.regions, Region(r.inRegion, At(0), At(0)), r.log.sends, 0);
      TableAppend(r.log.regions, Region(r.inRegion, At(0), At(0)));
    }
  }

  lemma BeginHeld<Op>(r: Rank<Op>, op: Op)
    requires Held(r) && BeginOp(r, op).Ok?
    ensures var t := BeginOp(r, op).value; Held(t) && t.Next() == r.Next() + 1 && t.Done() == r.Done()
  {
    EnsureHeld(r);
    var e, t := EnsureRegion(r.log, r.inRegion), BeginOp(r, op).value.log;
    var c := Region(e.Cur().id, Up(e.Cur().send), Up(e.Cur().recv));
    assert e.Cur().send == e.Cur().recv && t.regions == WithLast(e.regions, c);
    TableCur(e.regions, c);
    forall k | InRegions(e.regions, k) ensures InRegions(t.regions, k) { WiderCur(e.regions, c, k); }
    SameInside(e.regions, t.regions, e.sends, r.Done());
  }

  lemma EndHeld<Op>(r: Rank<Op>)
    requires Held(r) && EndOp(r).Ok?
    ensures var t := EndOp(r).value; Held(t) && t.Next() == r.Next()
  {
    var n := |r.log.regions| - 1;
    assert r.log.regions[n].send.first <= r.Next() - 1 < r.log.regions[n].send.next;
    assert InRegions(r.log.regions, r.Next() - 1);
  }

  lemma AppendHeld<Op>(r: Rank<Op>, c: Region, inRegion: int)
    requires Held(r) && r.active.None? && c.Valid() && c.Empty() && c.send == c.recv && inRegion >= 0
    requires if r.log.Cur().Valid() then Follows(r.log.Cur(), c) && c.send.first == r.Next() else c.send.first == 0
    ensures Held(Rank(MessageLog.AppendRegion(r.log, c), None, inRegion))
  {
    TableAppend(r.log.regions, c);
    AppendUnbroken(r.log.regions, c, r.log.sends, r.Done());
  }

  lemma NewRegionHeld<Op>(r: Rank<Op>, id: int)
    requires Held(r) && id >= 0 && NewRegion(r, id).Ok?
    ensures var t := NewRegion(r, id).value; Held(t) && t.Next() == r.Next()
  {
    var cur := r.log.Cur();
    assert cur.send == cur.recv;
    if cur.id < id { AppendHeld(r, if cur.Valid() then After(id, cur) else Region(id, At(0), At(0)), id); }
  }

  /** A region can be begun exactly when it is a later one or nothing has happened in the current one. */
  lemma NewRegionExact<Op>(r: Rank<Op>, id: int)
    requires Held(r) && id >= 0 && r.active.None?
    ensures NewRegion(r, id).Ok? <==> r.log.Cur().id < id || r.log.Cur().send.Empty()
    ensures NewRegion(r, id).Ok? ==>
              var t := NewRegion(r, id).value;
              && t.active.None? && t.inRegion == id && t.Next() == r.Next()
              && if r.log.Cur().id >= id then t.log == r.log
                 else t.log.regions == r.log.regions[1..] + [Region(id, At(r.Next()), At(r.Next()))]
  {
    assert r.log.Cur().send == r.log.Cur().recv;
  }

  /** A program that has gone back to a region can begin it again exactly unless it is an older one that was not empty,
      which is left as it was. */
  lemma BeginAgain<Op>(r: Rank<Op>, target: int)
    requires Held(r) && target >= 0 && ResetOps(r.log, target).Ok? && ResetOps(r.log, target).value.Cur().Valid()
    requires r.log.Cur().Valid() && target > r.log.Cur().id ==> r.active.None?
    ensures var t := Rank(ResetOps(r.log, target).value, None, target);
            var c := t.log.Cur();
            if target < r.log.Cur().id && c.send.first < c.send.next then NewRegion(t, target).Fatal?
            else NewRegion(t, target) == Ok(t)
  {
    ResetHeld(r, target);
    var t := Rank(ResetOps(r.log, target).value, None, target);
    NewRegionExact(t, target);
    assert t.log.Cur().send == t.log.Cur().recv && r.log.Cur().send == r.log.Cur().recv;
  }

  lemma RewindHeld<Op>(r: Rank<Op>, inRegion: int)
    requires Held(r) && r.log.Cur().Valid() && inRegion >= 0
    ensures Held(Rank(Rewind(r.log), None, inRegion))
  {
    var cur, t := r.log.Cur(), Rewind(r.log);
    var c := Region(cur.id, At(cur.send.first), At(cur.recv.first));
    assert cur.send == cur.recv && t.regions == WithLast(r.log.regions, c);
    TableCur(r.log.regions, c);
    forall k | k in t.sends ensures InRegions(t.regions, k) && k < cur.send.first { OlderStays(r.log.regions, c, k); }
  }

  lemma OlderStays(rs: seq<Region>, c: Region, k: int)
    requires Chained(rs) && Last(rs).Valid() && InRegions(rs, k) && !(Last(rs).send.first <= k < Last(rs).send.next)
    ensures InRegions(WithLast(rs, c), k) && k < Last(rs).send.first
  {
    var i :| 0 <= i < |rs| && rs[i].Valid() && rs[i].send.first <= k < rs[i].send.next;
    assert WithLast(rs, c)[i] == rs[i];
    ChainOrder(rs, i, |rs| - 1);
  }

  lemma EraseHeld<Op>(r: Rank<Op>, begin: nat, inRegion: int)
    requires Held(r) && begin < |r.log.regions| && r.log.Cur().Valid() && inRegion >= 0
    ensures Held(Rank(EraseFrom(r.log, begin), None, inRegion))
  {
    var rs := r.log.regions;
    if begin > 0 && rs[begin - 1].Valid() { ChainOrder(rs, begin - 1, |rs| - 1); }
    TableErase(rs, begin);
    EraseUnbroken(rs, begin, r.log.sends, r.Done());
    var t := EraseFrom(r.log, begin);
    assert begin > 0 ==> t.Cur() == rs[begin - 1];
    assert begin == 0 ==> t.Cur() == NONE;
  }

  /** Going back drops the operation in progress; only a rank that has none goes forward. */
  lemma ResetHeld<Op>(r: Rank<Op>, target: int)
    requires Held(r) && target >= 0 && ResetOps(r.log, target).Ok?
    requires r.log.Cur().Valid() && target > r.log.Cur().id ==> r.active.None?
    ensures Held(Rank(ResetOps(r.log, target).value, None, target))
  {
    var cur := r.log.Cur();
    assert cur.send == cur.recv;
    if !cur.Valid() {
    } else if target < cur.id {
      EraseHeld(r, LowerBound(r.log.regions, target + 1), target);
    } else if target > cur.id {
      AppendHeld(r, After(target, cur), target);
    } else {
      RewindHeld(r, target);
    }
  }

  /** Going back is an error only to a region that is not in the log between two that are. */
  lemma ResetExact<Op>(r: Rank<Op>, target: int)
    requires Held(r) && target >= 0
    ensures ResetOps(r.log, target).Ok? <==>
            (target < r.log.Cur().id && HasOlder(r.log.regions, target) ==> HasRegion(r.log.regions, target))
    ensures ResetOps(r.log, target).Ok? && r.log.Cur().Valid() && target < r.log.Cur().id ==>
              Left(r.log, target, ResetOps(r.log, target).value)
    ensures r.log.Cur().Valid() && target == r.log.Cur().id ==> Emptied(r.log, ResetOps(r.log, target).value)
    ensures !r.log.Cur().Valid() ==> ResetOps(r.log, target) == Ok(r.log)
    ensures r.log.Cur().Valid() && target > r.log.Cur().id ==>
              var c := Region(target, At(r.Next()), At(r.Next()));
              ResetOps(r.log, target).value.regions == r.log.regions[1..] + [c]
  {
    if r.log.Cur().Valid() && target < r.log.Cur().id {
      OlderReset(r, target);
    } else if r.log.Cur().Valid() {
      NewerReset(r, target);
    }
  }

  lemma OlderReset<Op>(r: Rank<Op>, target: int)
    requires Held(r) && r.log.Cur().Valid() && 0 <= target < r.log.Cur().id
    ensures ResetOps(r.log, target).Ok? <==> (HasOlder(r.log.regions, target) ==> HasRegion(r.log.regions, target))
    ensures ResetOps(r.log, target).Ok? ==> Left(r.log, target, ResetOps(r.log, target).value)
  {
    var k := LowerBound(r.log.regions, target + 1);
    CutLast(r.log, target, k);
    if ResetOps(r.log, target).Ok? {
      LeftAfter(r, target, k);
    }
  }

  lemma NewerReset<Op>(r: Rank<Op>, target: int)
    requires Held(r) && r.log.Cur().Valid() && target >= r.log.Cur().id
    ensures ResetOps(r.log, target).Ok?
    ensures target == r.log.Cur().id ==> Emptied(r.log, ResetOps(r.log, target).value)
    ensures target > r.log.Cur().id ==>
              var c := Region(target, At(r.Next()), At(r.Next()));
              ResetOps(r.log, target).value.regions == r.log.regions[1..] + [c]
  {
    assert r.log.Cur().send == r.log.Cur().recv;
  }

  /** t is l without the later regions and their operations; older ones are as they were when they ended. */
  ghost predicate Left<Op>(l: Log<Op>, target: int, t: Log<Op>) {
    && |t.regions| == |l.regions|
    && (forall r: Region :: r.Valid() ==> (r in t.regions <==> r in l.regions && r.id <= target))
    && (forall k :: k in t.sends <==> k in l.sends && InUpTo(l.regions, target, k))
    && (forall k :: k in t.sends ==> t.sends[k] == l.sends[k])
  }

  ghost predicate InUpTo(rs: seq<Region>, target: int, k: int) {
    exists i :: 0 <= i < |rs| && rs[i].Valid() && rs[i].id <= target && rs[i].send.first <= k < rs[i].send.next
  }

  /** t is l with nothing done in its current region. */
  ghost predicate Emptied<Op>(l: Log<Op>, t: Log<Op>)
    requires |l.regions| > 0
  {
    var c := l.Cur();
    && t.regions == l.regions[|l.regions| - 1 := Region(c.id, At(c.send.first), At(c.send.first))]
    && (forall k :: k in t.sends <==> k in l.sends && !(c.send.first <= k < c.send.next))
    && (forall k :: k in t.sends ==> t.sends[k] == l.sends[k])
  }

  lemma LeftAfter<Op>(r: Rank<Op>, target: int, k: nat)
    requires Held(r) && r.log.Cur().Valid() && 0 <= target < r.log.Cur().id
    requires k == LowerBound(r.log.regions, target + 1) && ResetOps(r.log, target).Ok?
    requires k < |r.log.regions|
    requires forall i :: 0 <= i < |r.log.regions| && r.log.regions[i].Valid() ==> BeforeCut(r.log.regions, target, k, i)
    ensures Left(r.log, target, ResetOps(r.log, target).value)
  {
    var rs, t := r.log.regions, ResetOps(r.log, target).value;
    assert forall i :: 0 <= i < |rs| && rs[i].Valid() ==> (rs[i].id <= target <==> i < k) by {
      forall i | 0 <= i < |rs| && rs[i].Valid() ensures rs[i].id <= target <==> i < k {
        assert BeforeCut(rs, target, k, i);
      }
    }
    forall q: Region | q.Valid() ensures q in t.regions <==> q in rs && q.id <= target { LeftRegion(rs, target, k, q); }
    forall j ensures j in t.sends <==> j in r.log.sends && InUpTo(rs, target, j)
      ensures j in t.sends ==> t.sends[j] == r.log.sends[j]
    {
      LeftExact(rs, k, r.log.sends, j);
      WithoutAllExact(r.log.sends, rs[k..], j);
      UpToCut(rs, target, k, j);
    }
  }

  lemma LeftRegion(rs: seq<Region>, target: int, k: nat, q: Region)
    requires k <= |rs| && forall i :: 0 <= i < |rs| && rs[i].Valid() ==> (rs[i].id <= target <==> i < k)
    requires q.Valid()
    ensures q in Nones(|rs| - k) + rs[..k] <==> q in rs && q.id <= target
  {
    if q in rs && q.id <= target {
      var i :| 0 <= i < |rs| && rs[i] == q;
      assert rs[..k][i] == q;
    }
    if q in rs[..k] {
      var i :| 0 <= i < k && rs[..k][i] == q;
      assert rs[i] == q;
    }
    assert NONE != q;
  }

  lemma UpToCut(rs: seq<Region>, target: int, k: nat, j: int)
    requires k <= |rs| && forall i :: 0 <= i < |rs| && rs[i].Valid() ==> (rs[i].id <= target <==> i < k)
    ensures InUpTo(rs, target, j) <==> InRegions(rs[..k], j)
  {
    if i :| 0 <= i < |rs| && rs[i].Valid() && rs[i].id <= target && rs[i].send.first <= j < rs[i].send.next {
      assert rs[..k][i] == rs[i];
    }
    if i :| 0 <= i < k && rs[..k][i].Valid() && rs[..k][i].send.first <= j < rs[..k][i].send.next {
      assert rs[i] == rs[..k][i];
    }
  }

  ghost predicate HasLater(rs: seq<Region>, id: int) {
    exists i :: 0 <= i < |rs| && rs[i].id > id
  }

  /** The oldest region from id on. */
  ghost predicate IsNext(rs: seq<Region>, id: int, i: nat)
    requires i < |rs|
  {
    rs[i].id >= id && forall k :: 0 <= k < i ==> rs[k].id < id
  }

  /** When a rank can be lined up with the table of the furthest one. If nothing was done in its region yet it can be
      put anywhere; else its region must start where the table has it, or, past that table, where the furthest rank has
      got to. A rank before the whole table must stand where that begins, and be in no operation. */
  ghost predicate CanAlign<Op>(r: Rank<Op>, latest: seq<Region>, reached: int)
    requires |r.log.regions| > 0
  {
    var cur := r.log.Cur();
    var id := if cur.Valid() then cur.id else r.inRegion;
    if HasRegion(latest, id) then
      !cur.Valid() || cur.Fresh()
      || exists i :: 0 <= i < |latest| && IsNext(latest, id, i) && latest[i].send.first == cur.send.first
    else if HasLater(latest, id) then
      && cur.Valid() && r.active.None? && !HasOlder(latest, id)
      && exists i :: 0 <= i < |latest| && IsNext(latest, id, i) && latest[i].send.first == cur.send.next
    else !cur.Valid() || cur.Fresh() || cur.send.first == reached
  }

  lemma AlignExact<Op>(r: Rank<Op>, latest: seq<Region>, reached: int)
    requires Held(r) && Chained(latest)
    ensures Align(r, latest, reached).Ok? <==> CanAlign(r, latest, reached)
  {
    var id := if r.log.Cur().Valid() then r.log.Cur().id else r.inRegion;
    NextExact(latest, id, LowerBound(latest, id));
    OlderBefore(latest, id, LowerBound(latest, id));
  }

  lemma NextExact(rs: seq<Region>, id: int, k: nat)
    requires Chain(rs) && id >= 0 && k == LowerBound(rs, id)
    ensures k < |rs| ==> IsNext(rs, id, k)
    ensures forall i: nat :: i < |rs| && IsNext(rs, id, i) ==> i == k
    ensures HasRegion(rs, id) <==> k < |rs| && rs[k].id == id
    ensures HasRegion(rs, id) || HasLater(rs, id) <==> k < |rs|
  {
    forall i | 0 <= i < |rs| && rs[i].id == id ensures i == k { OnlyOne(rs, i, id); }
    if k < |rs| { assert rs[k].id >= id; }
  }

  lemma OlderBefore(rs: seq<Region>, id: int, k: nat)
    requires Chain(rs) && k == LowerBound(rs, id)
    ensures HasOlder(rs, id) <==> k > 0 && rs[k - 1].Valid()
  {
    if i :| 0 <= i < |rs| && rs[i].Valid() && rs[i].id < id {
      if k < i { ChainOrder(rs, k, i); }
      if i < k - 1 { ChainOrder(rs, i, k - 1); }
    }
  }

  lemma AlignHeld<Op>(r: Rank<Op>, latest: seq<Region>, reached: int)
    requires Held(r) && reached >= 0 && Align(r, latest, reached).Ok?
    requires forall i :: 0 <= i < |latest| ==> latest[i].Valid() || latest[i] == NONE
    ensures var t := Align(r, latest, reached).value;
            Held(t) && t.log.Cur().Valid() && t.active == r.active && t.inRegion == r.inRegion
  {
    var cur := r.log.Cur();
    assert cur.send == cur.recv;
    var id := if cur.Valid() then cur.id else r.inRegion;
    var i := LowerBound(latest, id);
    if i == |latest| {
      StartHeld(r, id, reached);
    } else if latest[i].id == id {
      StartHeld(r, id, latest[i].send.first);
    } else {
      AppendHeld(r, After(latest[i].id, cur), r.inRegion);
    }
  }

  lemma StartHeld<Op>(r: Rank<Op>, id: int, first: int)
    requires Held(r) && first >= 0 && id == (if r.log.Cur().Valid() then r.log.Cur().id else r.inRegion)
    requires StartAt(r, id, first).Ok?
    ensures var t := StartAt(r, id, first).value; Held(t) && t.log.Cur().Valid()
  {
    var cur, rs, c := r.log.Cur(), r.log.regions, Region(id, At(first), At(first));
    if !cur.Valid() || cur.Fresh() {
      if !cur.Valid() { BlankTable(rs); }
      MoveFresh(rs, c);
      SameInside(rs, WithLast(rs, c), r.log.sends, r.Done());
      NothingLogged(rs, r.log.sends, r.Done());
    }
  }

  lemma NothingLogged<Op>(rs: seq<Region>, logged: map<int, Op>, done: int)
    requires Chained(rs) && Unbroken(rs, logged, done) && (!Last(rs).Valid() || Last(rs).Fresh())
    ensures logged == map[]
  {
    if k :| k in logged {
      var i :| 0 <= i < |rs| && rs[i].Valid() && rs[i].send.first <= k < rs[i].send.next;
      if i < |rs| - 1 { ChainOrder(rs, i, |rs| - 1); }
    }
    assert forall k :: k !in logged;
  }

  // ----- what a rank issues after the step -----

  /** The first index a rank issues when replay starts at m: the logged one, or else the one in progress or new. */
  function FirstIssued<Op>(r: Rank<Op>, m: int): int
    requires |r.log.regions| > 0
  {
    if m < r.Next() && m in r.log.sends then m else r.Done()
  }

  /** The p-th index a rank issues: what is replayed, then what is retried, then new ones. */
  function Issued<Op>(r: Rank<Op>, m: int, p: nat): int
    requires |r.log.regions| > 0
  {
    var replayed := r.Done() - FirstIssued(r, m);
    if p < replayed then m + p
    else if r.active.Some? && p == replayed then r.Next() - 1
    else r.Next() + (p - replayed - (if r.active.Some? then 1 else 0))
  }

  lemma IssuesConsecutive<Op>(r: Rank<Op>, m: int, p: nat)
    requires Held(r)
    ensures FirstIssued(r, m) <= r.Done() && Issued(r, m, p) == FirstIssued(r, m) + p
  {
  }

  ghost predicate AllHeld<Op>(ranks: seq<Rank<Op>>) {
    ranks != [] && forall i :: 0 <= i < |ranks| ==> Held(ranks[i])
  }

  function MinNext<Op>(ranks: seq<Rank<Op>>): (m: int)
    requires ranks != [] && forall i :: 0 <= i < |ranks| ==> |ranks[i].log.regions| > 0
    ensures forall i :: 0 <= i < |ranks| ==> m <= ranks[i].Next()
  {
    var n := |ranks| - 1;
    if n == 0 then ranks[0].Next()
    else
      var m := MinNext(ranks[..n]);
      assert forall i :: 0 <= i < n ==> ranks[..n][i] == ranks[i];
      if ranks[n].Next() < m then ranks[n].Next() else m
  }

  lemma {:induction false} MinReached<Op>(ranks: seq<Rank<Op>>) returns (i: nat)
    requires ranks != [] && forall i :: 0 <= i < |ranks| ==> |ranks[i].log.regions| > 0
    ensures i < |ranks| && ranks[i].Next() == MinNext(ranks)
  {
    var n := |ranks| - 1;
    if n == 0 || ranks[n].Next() < MinNext(ranks[..n]) {
      i := n;
    } else {
      i := MinReached(ranks[..n]);
    }
  }

  ghost predicate LinesUp<Op>(ranks: seq<Rank<Op>>)
    requires AllHeld(ranks)
  {
    forall i, j, p: nat :: 0 <= i < |ranks| && 0 <= j < |ranks| ==>
                             Issued(ranks[i], MinNext(ranks), p) == Issued(ranks[j], MinNext(ranks), p)
  }

  /** The rank's log reaches back to m, and m is not past what it has completed. */
  predicate ReachesBack<Op>(r: Rank<Op>, m: int)
    requires |r.log.regions| > 0
  {
    m == r.Done() || (m < r.Next() && m in r.log.sends)
  }

  /** All ranks issue the same index at every position exactly when every log reaches the agreed minimum and no
      operation in progress is before it, or all ranks are still in the one before it. */
  lemma LinesUpExact<Op>(ranks: seq<Rank<Op>>)
    requires AllHeld(ranks)
    ensures LinesUp(ranks) <==>
            (forall i :: 0 <= i < |ranks| ==> ReachesBack(ranks[i], MinNext(ranks)))
            || (forall i :: 0 <= i < |ranks| ==> ranks[i].Done() == MinNext(ranks) - 1)
  {
    var m := MinNext(ranks);
    var least := MinReached(ranks);
    forall i: nat, p: nat | i < |ranks| ensures Issued(ranks[i], m, p) == FirstIssued(ranks[i], m) + p {
      IssuesConsecutive(ranks[i], m, p);
    }
    if LinesUp(ranks) {
      forall i | 0 <= i < |ranks| ensures FirstIssued(ranks[i], m) == FirstIssued(ranks[least], m) {
        assert Issued(ranks[i], m, 0) == Issued(ranks[least], m, 0);
      }
    }
  }

  /** After the step a rank's current region starts where the furthest rank's starts, or where that rank has got to. */
  lemma AlignAgrees<Op>(r: Rank<Op>, latest: seq<Region>, reached: int)
    requires Held(r) && Align(r, latest, reached).Ok?
    ensures var cur := Align(r, latest, reached).value.log.Cur();
            if exists i :: 0 <= i < |latest| && latest[i].id >= cur.id
            then exists i :: 0 <= i < |latest| && latest[i].id == cur.id && latest[i].send.first == cur.send.first
            else cur.send.first == reached
  {
    var cur := r.log.Cur();
    var i := LowerBound(latest, if cur.Valid() then cur.id else r.inRegion);
    assert i < |latest| ==> latest[i].id >= (if cur.Valid() then cur.id else r.inRegion);
  }
}
