/** The collective log as the program keeps it: regions, completed operations and the one in progress, changed in place
    by the steps of Collectives. */
module CollectiveLogs {
  import opened Basics
  import opened MessageLog
  import opened Consistency
  import opened Collectives

  class CollectiveLog<Op> {
    var regions: seq<Region>
    var collectives: map<int, Op>
    var active: Option<Op>
    var inRegion: int

    function State(): Rank<Op>
      reads this
    {
      Rank(Log(regions, collectives, -1), active, inRegion)
    }

    constructor (maxRegions: nat)
      requires maxRegions > 0
      ensures State() == Rank(Log(Nones(maxRegions), map[], -1), None, 0) && Held(State())
    {
      regions, collectives, active, inRegion := Nones(maxRegions), map[], None, 0;
    }

    /** An operation gets the next index; nothing that is logged changes, unless the log's first region takes the place
        of an empty one. */
    method Start(op: Op) returns (ok: bool, idx: int)
      requires Held(State())
      modifies this
      ensures ok <==> old(active).None? && (Last(old(regions)).Valid() ==> Last(old(regions)).id == inRegion)
      ensures ok ==> Held(State()) && active == Some(op) && idx == old(State()).Next()
      ensures ok ==> State().Next() == idx + 1 && State().Done() == idx && collectives == old(collectives)
    {
      idx := State().Next();
      if active.Some? { return false, idx; }
      ghost var was := State();
      if !regions[|regions| - 1].Valid() {
        NothingLogged(regions, collectives, State().Done());
        Append(Region(inRegion, At(0), At(0)));
      }
      var cur := regions[|regions| - 1];
      if cur.id != inRegion { return false, idx; }
      regions, active := regions[|regions| - 1 := Region(cur.id, Up(cur.send), Up(cur.recv))], Some(op);
      BeginHeld(was, op);
      ok := true;
    }

    /** Drops the oldest region with its operations to make room for a new one. */
    method Append(r: Region)
      requires |regions| > 0
      modifies this`regions, this`collectives
      ensures State().log == MessageLog.AppendRegion(old(State().log), r)
    {
      collectives := Without(collectives, regions[0]);
      regions := regions[1..] + [r];
    }

    /** The operation in progress is complete and logged under its index. */
    method Finish() returns (ok: bool)
      requires Held(State())
      modifies this`collectives, this`active
      ensures ok <==> old(active).Some? && Last(regions).id == inRegion
      ensures ok ==> Held(State()) && active.None? && State().Next() == old(State()).Next()
      ensures ok ==> collectives.Keys == old(collectives.Keys) + {State().Next() - 1}
      ensures ok ==> collectives[State().Next() - 1] == old(active).value
      ensures ok ==> forall k :: k in old(collectives) ==> collectives[k] == old(collectives)[k]
    {
      if active.None? || regions[|regions| - 1].id != inRegion { return false; }
      EndHeld(State());
      collectives, active := collectives[State().Next() - 1 := active.value], None;
      ok := true;
    }

    method BeginRegion(id: int) returns (ok: bool)
      requires Held(State()) && id >= 0 && active.None?
      modifies this
      ensures match NewRegion(old(State()), id) case Ok(r) => ok && State() == r && Held(r) case Fatal => !ok
      ensures ok <==> Last(old(regions)).id < id || Last(old(regions)).send.Empty()
      ensures ok && Last(old(regions)).id >= id ==> regions == old(regions) && collectives == old(collectives)
      ensures ok && Last(old(regions)).id < id ==>
                regions == old(regions)[1..] + [Region(id, At(old(State()).Next()), At(old(State()).Next()))]
    {
      NewRegionExact(State(), id);
      var cur := regions[|regions| - 1];
      NewRegionIfOk(State(), id);
      inRegion := id;
      if cur.id > id { return cur.Empty(); }
      if cur.id == id { return cur.Valid() && cur.Empty(); }
      Append(if cur.Valid() then After(id, cur) else Region(id, At(0), At(0)));
      ok := true;
    }

    /** Goes back to a region and drops the operation in progress. */
    method GoBack(target: int) returns (ok: bool)
      requires Held(State()) && target >= 0
      requires Last(regions).Valid() && target > Last(regions).id ==> active.None?
      modifies this
      ensures ok <==> ResetOps(old(State()).log, target).Ok?
      ensures ok ==> State() == Rank(ResetOps(old(State()).log, target).value, None, target) && Held(State())
      ensures ok <==> (target < Last(old(regions)).id && HasOlder(old(regions), target) ==>
                         HasRegion(old(regions), target))
      ensures ok && Last(old(regions)).Valid() && target < Last(old(regions)).id ==>
                Left(old(State()).log, target, State().log)
      ensures Last(old(regions)).Valid() && target == Last(old(regions)).id ==>
                Emptied(old(State()).log, State().log)
    {
      Collectives.ResetExact(State(), target);
      ResetIfOk(State(), target);
      active, inRegion := None, target;
      ok := ResetRegions(target);
    }

    /** Later regions are dropped, the current one is emptied, an older one is left as it is. */
    method ResetRegions(target: int) returns (ok: bool)
      requires |regions| > 0 && target >= 0
      modifies this`regions, this`collectives
      ensures ok <==> ResetOps(old(State()).log, target).Ok?
      ensures ok ==> State().log == ResetOps(old(State()).log, target).value
    {
      var last := |regions| - 1;
      if !regions[last].Valid() { return true; }
      if target < regions[last].id {
        ghost var l := State().log;
        EraseFrom(LowerBound(regions, target + 1));
        ResetOlder(l, target, State().log);
        return !regions[last].Valid() || regions[last].id == target;
      }
      if target > regions[last].id { Append(After(target, regions[last])); } else { Empty(); }
      ok := true;
    }

    method EraseFrom(begin: nat)
      requires begin <= |regions|
      modifies this`regions, this`collectives
      ensures State().log == MessageLog.EraseFrom(old(State().log), begin)
    {
      collectives := WithoutAll(collectives, regions[begin..]);
      regions := Nones(|regions| - begin) + regions[..begin];
    }

    method Empty()
      requires |regions| > 0
      modifies this`regions, this`collectives
      ensures State().log == Rewind(old(State().log))
    {
      var cur := regions[|regions| - 1];
      collectives := Without(collectives, cur);
      regions := regions[|regions| - 1 := Region(cur.id, At(cur.send.first), At(cur.recv.first))];
    }

    /** Lines the log up with the regions of the rank that has got furthest. */
    method FormConsistency(latest: seq<Region>, reached: nat) returns (ok: bool)
      requires Held(State()) && forall i :: 0 <= i < |latest| ==> latest[i].Valid() || latest[i] == NONE
      modifies this`regions, this`collectives
      ensures match Align(old(State()), latest, reached) case Ok(r) => ok && State() == r && Held(r) case Fatal => !ok
      ensures Chained(latest) ==> (ok <==> CanAlign(old(State()), latest, reached))
    {
      if Chained(latest) { AlignExact(State(), latest, reached); }
      AlignIfOk(State(), latest, reached);
      var last := |regions| - 1;
      var cur := regions[last];
      var id := if cur.Valid() then cur.id else inRegion;
      var i := LowerBound(latest, id);
      if i < |latest| && latest[i].id != id {
        if (i > 0 && latest[i - 1].Valid()) || !cur.Valid() || cur.send.next != latest[i].send.first { return false; }
        if active.Some? { return false; }
        Append(After(latest[i].id, cur));
        return true;
      }
      var first := if i == |latest| then reached else latest[i].send.first;
      if !cur.Valid() || cur.Fresh() {
        regions := regions[last := Region(id, At(first), At(first))];
        return true;
      }
      ok := cur.send.first == first;
    }

    /** Issues the logged operations from an index on, in order; a gap would stop the program. */
    method Replay(start: int) returns (ops: seq<Op>)
      requires Held(State())
      ensures |ops| == State().Done() - FirstIssued(State(), start)
      ensures forall p: nat :: p < |ops| ==>
                Issued(State(), start, p) in collectives && ops[p] == collectives[Issued(State(), start, p)]
    {
      ops := [];
      if start >= State().Next() || start !in collectives { return; }
      var idx := start;
      while idx in collectives
        invariant start <= idx <= State().Done() && |ops| == idx - start
        invariant forall p :: 0 <= p < |ops| ==> ops[p] == collectives[start + p]
        decreases State().Done() - idx
      {
        ops := ops + [collectives[idx]];
        idx := idx + 1;
      }
    }
  }

  lemma NewRegionIfOk<Op>(r: Rank<Op>, id: int)
    requires Held(r) && id >= 0
    ensures NewRegion(r, id).Ok? ==> Held(NewRegion(r, id).value)
  {
    if NewRegion(r, id).Ok? { NewRegionHeld(r, id); }
  }

  lemma AlignIfOk<Op>(r: Rank<Op>, latest: seq<Region>, reached: nat)
    requires Held(r) && forall i :: 0 <= i < |latest| ==> latest[i].Valid() || latest[i] == NONE
    ensures Align(r, latest, reached).Ok? ==> Held(Align(r, latest, reached).value)
  {
    if Align(r, latest, reached).Ok? { AlignHeld(r, latest, reached); }
  }

  lemma ResetIfOk<Op>(r: Rank<Op>, target: int)
    requires Held(r) && target >= 0
    requires r.log.Cur().Valid() && target > r.log.Cur().id ==> r.active.None?
    ensures ResetOps(r.log, target).Ok? ==> Held(Rank(ResetOps(r.log, target).value, None, target))
  {
    if ResetOps(r.log, target).Ok? { ResetHeld(r, target); }
  }

  lemma ResetOlder<Op>(l: Log<Op>, target: int, e: Log<Op>)
    requires |l.regions| > 0 && l.Cur().Valid() && 0 <= target < l.Cur().id
    requires e == MessageLog.EraseFrom(l, LowerBound(l.regions, target + 1))
    ensures |e.regions| == |l.regions|
    ensures ResetOps(l, target) == if !e.Cur().Valid() || e.Cur().id == target then Ok(e) else Fatal
  {
  }
}
