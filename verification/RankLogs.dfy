/** The log as the program keeps it: a fixed array of regions shifted in place, an ordered set of sends,
    and two counters inside the last region. Each method is its step in MessageLog and Consistency. */
module RankLogs {
  import opened MessageLog
  import opened Consistency
  import opened MessageReplay

  class RankLog<M> {
    const regions: array<Region>
    var sends: map<int, M>
    var alreadySent: int

    ghost function State(): Log<M>
      reads this, regions
    {
      Log(regions[..], sends, alreadySent)
    }

    constructor (maxRegions: nat)
      requires maxRegions > 0
      ensures fresh(regions) && regions.Length == maxRegions
      ensures State() == Log(Nones(maxRegions), map[], -1)
    {
      regions := new Region[maxRegions](i => NONE);
      sends := map[];
      alreadySent := -1;
    }

    /** Erasing a region of the table leaves exactly the sends of the other regions; in any case nothing changes
        outside the range, and a region that is not valid has none. */
    method EraseSends(r: Region)
      modifies this`sends
      ensures forall k :: k in sends <==> k in old(sends) && !(r.Valid() && r.send.first <= k < r.send.next)
      ensures forall k :: k in sends ==> sends[k] == old(sends)[k]
      ensures forall i, k :: old(WellFormed(State())) && 0 <= i < regions.Length && regions[i] == r ==>
                               (k in sends <==> InRegions(regions[..][i := NONE], k))
    {
      forall i, k | WellFormed(State()) && 0 <= i < regions.Length && regions[i] == r
        ensures k in Without(sends, r) <==> InRegions(regions[..][i := NONE], k)
      {
        OthersKept(State(), i, k);
      }
      if r.Valid() {
        sends := map k | k in sends && !(r.send.first <= k < r.send.next) :: sends[k];
      }
      assert sends == Without(old(sends), r);
    }

    method AppendRegion(r: Region)
      requires regions.Length > 0
      modifies this`sends, regions
      ensures State() == MessageLog.AppendRegion(old(State()), r)
    {
      EraseSends(regions[0]);
      ErasedSends(old(sends), regions[0], sends);
      ghost var was := regions[..];
      for i := 0 to regions.Length - 1
        modifies regions
        invariant forall k :: 0 <= k < i ==> regions[k] == was[k + 1]
        invariant forall k :: i <= k < regions.Length ==> regions[k] == was[k]
      {
        regions[i] := regions[i + 1];
      }
      regions[regions.Length - 1] := r;
      assert regions[..] == was[1..] + [r];
    }

    /** Erases the regions from position begin on, then moves the others back and blanks the front. */
    method EraseRegions(begin: nat)
      requires begin <= regions.Length
      modifies this`sends, regions
      ensures State() == EraseFrom(old(State()), begin)
    {
      EraseAll(begin);
      assert old(State()).regions[..begin] == old(regions[..begin]);
      ShiftBack(begin);
    }

    method EraseAll(begin: nat)
      requires begin <= regions.Length
      modifies this`sends
      ensures sends == WithoutAll(old(sends), regions[..][begin..])
    {
      ghost var was := regions[..];
      for i := begin to regions.Length
        modifies this`sends
        invariant WithoutAll(sends, was[i..]) == WithoutAll(old(sends), was[begin..])
      {
        assert was[i..][0] == regions[i] && was[i..][1..] == was[i + 1..];
        ghost var before := sends;
        EraseSends(regions[i]);
        ErasedSends(before, was[i], sends);
      }
      assert was[regions.Length..] == [];
    }

    method ShiftBack(begin: nat)
      requires begin <= regions.Length
      modifies regions
      ensures regions[..] == Nones(regions.Length - begin) + old(regions[..begin])
    {
      ghost var was, gap := regions[..], regions.Length - begin;
      var from, to := begin, regions.Length;
      while from != 0
        invariant 0 <= from <= to <= regions.Length && to - from == gap
        invariant forall k :: 0 <= k < to ==> regions[k] == was[k]
        invariant forall k :: to <= k < regions.Length ==> regions[k] == was[k - gap]
      {
        from, to := from - 1, to - 1;
        regions[to] := regions[from];
      }
      while to != 0
        invariant 0 <= to <= gap
        invariant forall k :: to <= k < gap ==> regions[k] == NONE
        invariant forall k :: gap <= k < regions.Length ==> regions[k] == was[k - gap]
      {
        to := to - 1;
        regions[to] := NONE;
      }
    }

    method BeginRegion(id: int) returns (ok: bool)
      requires regions.Length > 0 && id >= 0
      modifies this`sends, regions
      ensures match MessageLog.BeginRegion(old(State()), id)
        case Ok(s) => ok && State() == s
        case Fatal => !ok
      ensures old(WellFormed(State())) ==>
                && (ok <==> old(State()).Cur().id < id || old(State()).Cur().Empty())
                && (ok ==> Begun(old(State()), id, State()))
    {
      if WellFormed(State()) { BeginExact(State(), id); }
      var cur := regions[regions.Length - 1];
      if cur.id > id {
        return cur.Empty();
      } else if cur.id == id {
        return cur.Valid() && cur.Empty();
      }
      if cur.Valid() {
        AppendRegion(After(id, cur));
      } else {
        AppendRegion(MessageLog.Region(id, At(0), At(0)));
      }
      ok := true;
    }

    method EnsureConsistency(active: int)
      requires regions.Length > 0
      modifies this`sends, regions
      ensures State() == EnsureRegion(old(State()), active)
    {
      if !regions[regions.Length - 1].Valid() {
        AppendRegion(MessageLog.Region(active, At(0), At(0)));
      }
    }

    /** Logs a message and tells whether it still has to be put on the wire. */
    method Send(active: int, m: M) returns (ok: bool, wire: bool)
      requires regions.Length > 0
      modifies this`sends, regions
      ensures match LogSend(old(State()), active, m)
        case Ok(s) => ok && State() == s && (wire <==> old(State()).NextSend() > alreadySent)
        case Fatal => !ok
      ensures old(WellFormed(State())) && active >= 0 ==>
                && (ok <==> (old(State()).Cur().Valid() ==> old(State()).Cur().id == active))
                && (ok ==> sends == old(sends)[old(State()).NextSend() := m])
    {
      if WellFormed(State()) && active >= 0 { SendExact(State(), active, m); }
      EnsureConsistency(active);
      var cur := regions[regions.Length - 1];
      if cur.id != active { return false, false; }
      ghost var was := regions[..];
      var idx := cur.send.next;
      sends := sends[idx := m];
      regions[regions.Length - 1] := cur.(send := cur.send.(next := idx + 1));
      assert regions[..] == was[|was| - 1 := cur.(send := cur.send.(next := idx + 1))];
      return true, idx > alreadySent;
    }

    /** A receive has completed. */
    method Wait(active: int) returns (ok: bool)
      requires regions.Length > 0
      modifies this`sends, regions
      ensures match LogRecv(old(State()), active)
        case Ok(s) => ok && State() == s
        case Fatal => !ok
    {
      EnsureConsistency(active);
      var cur := regions[regions.Length - 1];
      if cur.id != active { return false; }
      ghost var was := regions[..];
      regions[regions.Length - 1] := cur.(recv := cur.recv.(next := cur.recv.next + 1));
      assert regions[..] == was[|was| - 1 := cur.(recv := cur.recv.(next := cur.recv.next + 1))];
      ok := true;
    }

    method ResetConsistency(target: int) returns (ok: bool)
      requires regions.Length > 0 && target >= -1
      modifies this`sends, regions
      ensures match Reset(old(State()), target)
        case Ok(s) => ok && State() == s
        case Fatal => !ok
      ensures old(WellFormed(State())) ==>
                (ok <==> (0 <= target < old(State()).Cur().id && HasOlder(old(regions[..]), target) ==>
                            HasRegion(old(regions[..]), target)))
      ensures old(WellFormed(State())) && ok && old(State()).Cur().Valid() && 0 <= target <= old(State()).Cur().id ==>
                Back(old(State()), target, State())
    {
      if WellFormed(State()) { ResetExact(State(), target); }
      var last := regions.Length - 1;
      if !regions[last].Valid() { return true; }
      if 0 <= target < regions[last].id {
        EraseRegions(LowerBound(regions[..], target + 1));
        assert State().Cur() == regions[last];
        if !regions[last].Valid() { return true; }
        if regions[last].id != target { return false; }
      } else if target > regions[last].id {
        AppendRegion(After(target, regions[last]));
      }
      if regions[last].id == target {
        RewindCurrent();
      }
      ok := true;
    }

    /** Empties the current region. */
    method RewindCurrent()
      requires regions.Length > 0
      modifies this`sends, regions
      ensures State() == Rewind(old(State()))
    {
      var last := regions.Length - 1;
      var cur := regions[last];
      EraseSends(cur);
      ErasedSends(old(sends), cur, sends);
      ghost var was := regions[..];
      regions[last] := cur.(send := At(cur.send.first), recv := At(cur.recv.first));
      assert regions[..] == was[last := MessageLog.Region(cur.id, At(cur.send.first), At(cur.recv.first))];
    }

    /** The consistency step once the partner's table has arrived: align both tables in place,
        learn what the partner has, and list what has to be sent again. */
    method FormConsistency(active: int, remote: array<Region>) returns (ok: bool, resend: seq<M>)
      requires regions.Length > 0 && remote.Length > 0 && remote != regions
      modifies this`alreadySent, regions, remote
      ensures match Synchronise(old(State()), active, old(remote[..]))
        case Ok(s) => ok && State() == s && |s.regions| > 0 && CanReplay(s) && resend == Replayed(s)
        case Fatal => !ok
    {
      var last := regions.Length - 1;
      if !regions[last].Valid() {
        ghost var was := regions[..];
        regions[last] := MessageLog.Region(active, NONE.send, NONE.recv);
        assert regions[..] == was[last := regions[last]];
      }
      assert regions[..] == Table(old(State()), active);
      resend := [];
      if regions[last].Valid() && remote[remote.Length - 1].Valid() {
        ok := CheckConsistent(regions, remote);
      } else if regions[last].Valid() {
        ok := RecoverInvalid(regions, remote);
      } else if remote[remote.Length - 1].Valid() {
        ok := RecoverInvalid(remote, regions);
      } else {
        ok := false;
      }
      if !ok { return; }
      alreadySent := remote[remote.Length - 1].recv.next - 1;
      ok, resend := ReplayMessages();
    }

    /** Collects the sends past alreadySent; fails when one is missing. */
    method ReplayMessages() returns (ok: bool, resend: seq<M>)
      requires regions.Length > 0
      ensures ok <==> CanReplay(State())
      ensures ok ==> resend == Replayed(State())
    {
      resend := [];
      var next := if regions[regions.Length - 1].Valid() then regions[regions.Length - 1].send.next else 0;
      var k := alreadySent + 1;
      while k < next
        invariant alreadySent + 1 <= k && (k <= next || k == alreadySent + 1)
        invariant forall i :: alreadySent + 1 <= i < k ==> i in sends
        invariant |resend| == k - (alreadySent + 1)
        invariant forall i :: 0 <= i < |resend| ==> resend[i] == sends[alreadySent + 1 + i]
        decreases next - k
      {
        if k !in sends { return false, []; }
        resend := resend + [sends[k]];
        k := k + 1;
      }
      ok := true;
    }

    static method CheckConsistent(a: array<Region>, b: array<Region>) returns (ok: bool)
      requires a.Length > 0 && b.Length > 0 && a != b
      modifies a, b
      ensures match Consistency.CheckConsistent(old(a[..]), old(b[..]))
        case Ok(t) => ok && a[..] == t.0 && b[..] == t.1
        case Fatal => !ok
      decreases a[a.Length - 1].id < b[b.Length - 1].id
    {
      if a[a.Length - 1].id < b[b.Length - 1].id {
        ok := CheckConsistent(b, a);
        return;
      }
      ghost var ta, tb := a[..], b[..];
      var rb := b[b.Length - 1];
      var i := LowerBound(a[..], rb.id);
      var ra := a[i];
      if ra.id != rb.id { return false; }
      if ra.send.first == rb.recv.first && ra.recv.first == rb.send.first { return true; }
      if rb.Fresh() {
        b[b.Length - 1] := Mirror(ra);
        assert b[..] == WithLast(tb, Mirror(ra));
      } else if ra.Fresh() && ra.id == a[a.Length - 1].id {
        a[a.Length - 1] := Mirror(rb);
        assert a[..] == WithLast(ta, Mirror(rb));
      } else {
        return false;
      }
      ok := true;
    }

    static method RecoverInvalid(a: array<Region>, b: array<Region>) returns (ok: bool)
      requires a.Length > 0 && b.Length > 0 && a != b
      modifies b
      ensures match Consistency.RecoverInvalid(old(a[..]), old(b[..]))
        case Ok(t) => ok && a[..] == t.0 && b[..] == t.1
        case Fatal => !ok
    {
      ghost var tb := b[..];
      var rb := b[b.Length - 1];
      var i := LowerBound(a[..], rb.id);
      if i == a.Length || (a[i].id != rb.id && !a[i].Fresh()) { return false; }
      var r := if a[i].id != rb.id then MessageLog.Region(a[i].id, At(0), At(0)) else Mirror(a[i]);
      b[b.Length - 1] := r;
      assert b[..] == WithLast(tb, r);
      ok := true;
    }
  }
}
