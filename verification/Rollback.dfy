/** Rolling a log back to a region undoes everything logged since that region began. */
module Rollback {
  import opened MessageLog

  datatype Op<M> = Send(m: M) | Recv | Begin(id: int)

  /** Runs operations on a log, counting the regions appended; the active region follows Begin. */
  function Run<M>(l: Log<M>, active: int, ops: seq<Op<M>>): Outcome<(Log<M>, int)>
    requires |l.regions| > 0
    decreases |ops|
  {
    if ops == [] then Ok((l, 0))
    else
      match One(l, active, ops[0])
      case Fatal => Fatal
      case Ok(t) =>
        if |t.regions| == 0 then Fatal
        else
          var added := if t.Cur().id != l.Cur().id then 1 else 0;
          match Run(t, if ops[0].Begin? then ops[0].id else active, ops[1..])
          case Fatal => Fatal
          case Ok(r) => Ok((r.0, added + r.1))
  }

  function One<M>(l: Log<M>, active: int, op: Op<M>): Outcome<Log<M>>
    requires |l.regions| > 0
  {
    match op
    case Send(m) => LogSend(l, active, m)
    case Recv => LogRecv(l, active)
    case Begin(id) => BeginRegion(l, id)
  }

  /** l without its n oldest regions and their sends. */
  function Evict<M>(l: Log<M>, n: nat): Log<M>
    requires n <= |l.regions|
  {
    Log(Nones(n) + l.regions[n..], WithoutAll(l.sends, l.regions[..n]), l.alreadySent)
  }

  /** l has grown out of l0 by appending n regions. */
  ghost predicate Grown<M>(l0: Log<M>, l: Log<M>, n: nat) {
    && |l.regions| == |l0.regions| > 0 && WellFormed(l0) && WellFormed(l)
    && l0.Cur().Valid() && l0.Cur().Empty() && l.Cur().Valid() && l.alreadySent == l0.alreadySent
    && (n == 0 ==> l.Cur().id == l0.Cur().id)
    && (n < |l.regions| ==> RegionsGrown(l0, l, n) && forall k :: k < l0.Cur().send.first ==> SendKept(l0, l, n, k))
  }

  /** l0's current region sits n places before the end, started as it did in l0, and everything older is unchanged. */
  ghost predicate RegionsGrown<M>(l0: Log<M>, l: Log<M>, n: nat)
    requires n < |l.regions| == |l0.regions|
  {
    var at := |l.regions| - 1 - n;
    && (forall i :: 0 <= i < at ==> l.regions[i] == l0.regions[i + n])
    && l.regions[at].id == l0.Cur().id
    && l.regions[at].send.first == l0.Cur().send.first && l.regions[at].recv.first == l0.Cur().recv.first
  }

  /** An older message is still there unless its region has been evicted. */
  ghost predicate SendKept<M>(l0: Log<M>, l: Log<M>, n: nat, k: int)
    requires n <= |l0.regions|
  {
    && (k in l.sends <==> k in l0.sends && !InRegions(l0.regions[..n], k))
    && (k in l.sends ==> l.sends[k] == l0.sends[k])
  }

  lemma GrowsByTraffic<M>(l0: Log<M>, l: Log<M>, n: nat, active: int, op: Op<M>)
    requires Grown(l0, l, n) && active >= 0 && !op.Begin? && One(l, active, op).Ok?
    ensures Grown(l0, One(l, active, op).value, n)
  {
    var t := One(l, active, op).value;
    match op {
      case Send(m) => SendKeeps(l, active, m);
      case Recv => RecvKeeps(l, active);
    }
    assert forall i :: 0 <= i < |l.regions| - 1 ==> t.regions[i] == l.regions[i];
    if n < |l.regions| {
      var at := |l.regions| - 1 - n;
      if n > 0 { ChainOrder(l.regions, at, |l.regions| - 1); }
      forall k | k < l0.Cur().send.first ensures SendKept(l0, t, n, k) { assert SendKept(l0, l, n, k); }
    }
  }

  lemma GrowsByRegion<M>(l0: Log<M>, l: Log<M>, n: nat, id: int)
    requires Grown(l0, l, n) && id > l.Cur().id
    ensures Grown(l0, AppendRegion(l, After(id, l.Cur())), n + 1)
  {
    var t, m := AppendRegion(l, After(id, l.Cur())), n + 1;
    AppendKeeps(l, After(id, l.Cur()));
    if m < |l.regions| {
      assert forall i :: 0 <= i < |l.regions| - 1 ==> t.regions[i] == l.regions[i + 1];
      forall k | k < l0.Cur().send.first ensures SendKept(l0, t, m, k) {
        assert l.regions[0] == l0.regions[n];
        StaysKept(l0, l, n, t, k);
      }
    }
  }

  /** Appending a region evicts the oldest one with its sends. */
  lemma StaysKept<M>(l0: Log<M>, l: Log<M>, n: nat, t: Log<M>, k: int)
    requires n < |l0.regions| && |l.regions| > 0 && l.regions[0] == l0.regions[n] && SendKept(l0, l, n, k)
    requires t.sends == Without(l.sends, l.regions[0])
    ensures SendKept(l0, t, n + 1, k)
  {
    var r := l0.regions[n];
    assert l0.regions[..n + 1] == l0.regions[..n] + [r];
    InJoined(l0.regions[..n], [r], k);
    if r.Valid() && r.send.first <= k < r.send.next { assert [r][0].send.first <= k; }
  }

  lemma {:induction false} RunGrows<M>(l0: Log<M>, l: Log<M>, n: nat, active: int, ops: seq<Op<M>>)
    requires Grown(l0, l, n) && active >= 0 && (forall i :: 0 <= i < |ops| && ops[i].Begin? ==> ops[i].id >= 0)
    requires Run(l, active, ops).Ok?
    ensures Run(l, active, ops).value.1 >= 0
    ensures Grown(l0, Run(l, active, ops).value.0, n + Run(l, active, ops).value.1)
    decreases |ops|
  {
    if ops != [] {
      var t := One(l, active, ops[0]).value;
      var n' := OneGrows(l0, l, n, active, ops[0]);
      RunGrows(l0, t, n', if ops[0].Begin? then ops[0].id else active, ops[1..]);
    }
  }

  lemma OneGrows<M>(l0: Log<M>, l: Log<M>, n: nat, active: int, op: Op<M>) returns (n': nat)
    requires Grown(l0, l, n) && active >= 0 && One(l, active, op).Ok?
    ensures Grown(l0, One(l, active, op).value, n')
    ensures n' == n + if One(l, active, op).value.Cur().id != l.Cur().id then 1 else 0
  {
    n' := n;
    if !op.Begin? {
      GrowsByTraffic(l0, l, n, active, op);
    } else if op.id > l.Cur().id {
      GrowsByRegion(l0, l, n, op.id);
      n' := n + 1;
    }
  }

  /** Where the rollback cuts: right after the region it goes back to. */
  lemma CutPosition<M>(l0: Log<M>, l: Log<M>, n: nat)
    requires Grown(l0, l, n) && n < |l.regions|
    ensures LowerBound(l.regions, l0.Cur().id + 1) == |l.regions| - n
    ensures l.regions[|l.regions| - 1 - n].Valid() && (n > 0 ==> l0.Cur().id < l.Cur().id)
  {
    var at, i := |l.regions| - 1 - n, LowerBound(l.regions, l0.Cur().id + 1);
    if n > 0 { ChainOrder(l.regions, at, |l.regions| - 1); }
    if i < at { ChainOrder'(l.regions, i, at); }
    if at + 1 < |l.regions| { ChainOrder(l.regions, at, at + 1); }
  }

  lemma {:induction false} ChainOrder'(rs: seq<Region>, i: nat, j: nat)
    requires Chain(rs) && i < j < |rs| && rs[j].Valid()
    ensures rs[i].id < rs[j].id
  {
    if rs[i].Valid() { ChainOrder(rs, i, j); }
  }

  lemma ResetCuts<M>(l0: Log<M>, l: Log<M>, n: nat)
    requires Grown(l0, l, n) && n < |l.regions|
    ensures Reset(l, l0.Cur().id) == Ok(Rewind(EraseFrom(l, |l.regions| - n)))
  {
    var at, size := |l.regions| - 1 - n, |l.regions|;
    CutPosition(l0, l, n);
    if n > 0 {
      var e := EraseFrom(l, size - n);
      assert e.Cur() == l.regions[at];
    } else {
      assert Nones(0) + l.regions[..size] == l.regions && l.regions[size..] == [];
      assert EraseFrom(l, size) == l;
    }
  }

  lemma GrownUndone<M>(l0: Log<M>, l: Log<M>, n: nat)
    requires Grown(l0, l, n) && n < |l.regions|
    ensures Reset(l, l0.Cur().id) == Ok(Evict(l0, n))
  {
    ResetCuts(l0, l, n);
    ResetKeeps(l, l0.Cur().id);
    var t := Rewind(EraseFrom(l, |l.regions| - n));
    RegionsUndone(l0, l, n, t);
    SendsUndone(l0, l, n, t);
  }

  lemma RegionsUndone<M>(l0: Log<M>, l: Log<M>, n: nat, t: Log<M>)
    requires Grown(l0, l, n) && n < |l.regions|
    requires t == Rewind(EraseFrom(l, |l.regions| - n))
    ensures t.regions == Evict(l0, n).regions
  {
    var size := |l.regions|;
    var e, v := EraseFrom(l, size - n), Evict(l0, n);
    forall i | 0 <= i < size ensures t.regions[i] == v.regions[i] {
      if i < n {
        assert e.regions[i] == NONE;
      } else {
        assert e.regions[i] == l.regions[i - n] && v.regions[i] == l0.regions[i];
      }
    }
  }

  /** Which sends Evict keeps: those of the regions it keeps. */
  lemma EvictKeeps<M>(l0: Log<M>, n: nat, k: int)
    requires WellFormed(l0) && n <= |l0.regions|
    ensures k in Evict(l0, n).sends <==> InRegions(Evict(l0, n).regions, k)
    ensures k in Evict(l0, n).sends ==> k in l0.sends && Evict(l0, n).sends[k] == l0.sends[k]
  {
    WithoutAllExact(l0.sends, l0.regions[..n], k);
    InJoined(Nones(n), l0.regions[n..], k);
    InJoined(l0.regions[..n], l0.regions[n..], k);
    assert l0.regions == l0.regions[..n] + l0.regions[n..];
    PartsDisjoint(l0.regions, n, k);
  }

  lemma CutSends<M>(l: Log<M>, n: nat, k: int)
    requires n < |l.regions| && WellFormed(l)
    requires EraseFrom(l, |l.regions| - n).Cur().Valid()
    requires k in Rewind(EraseFrom(l, |l.regions| - n)).sends
    ensures k in l.sends && Rewind(EraseFrom(l, |l.regions| - n)).sends[k] == l.sends[k]
  {
    WithoutAllExact(l.sends, l.regions[|l.regions| - n..], k);
  }

  lemma SendsUndone<M>(l0: Log<M>, l: Log<M>, n: nat, t: Log<M>)
    requires Grown(l0, l, n) && n < |l.regions| && WellFormed(t)
    requires t == Rewind(EraseFrom(l, |l.regions| - n)) && t.regions == Evict(l0, n).regions
    ensures t.sends == Evict(l0, n).sends
  {
    forall k ensures k in t.sends <==> k in Evict(l0, n).sends
      ensures k in t.sends ==> t.sends[k] == Evict(l0, n).sends[k]
    {
      EvictKeeps(l0, n, k);
      if k in t.sends { SendUndone(l0, l, n, t, k); }
    }
  }

  lemma SendUndone<M>(l0: Log<M>, l: Log<M>, n: nat, t: Log<M>, k: int)
    requires Grown(l0, l, n) && n < |l.regions| && WellFormed(t)
    requires t == Rewind(EraseFrom(l, |l.regions| - n)) && t.regions == Evict(l0, n).regions && k in t.sends
    ensures k in l0.sends && t.sends[k] == l0.sends[k]
  {
    EvictKeeps(l0, n, k);
    SendsBelowNext(t, k);
    CutAt(l0, l, n);
    CutSends(l, n, k);
    assert SendKept(l0, l, n, k);
  }

  /** After the cut the current region is the one that was current before, and starts where it did. */
  lemma CutAt<M>(l0: Log<M>, l: Log<M>, n: nat)
    requires Grown(l0, l, n) && n < |l.regions|
    ensures EraseFrom(l, |l.regions| - n).Cur().Valid()
    ensures Rewind(EraseFrom(l, |l.regions| - n)).NextSend() == l0.Cur().send.first
  {
    var at, e := |l.regions| - 1 - n, EraseFrom(l, |l.regions| - n);
    CutPosition(l0, l, n);
    assert e.Cur() == l.regions[at];
  }

  /** After any sends, receives and later regions, rolling back to a region still kept restores the log
      as it was when that region began, less the regions evicted since. */
  lemma RollbackUndoes<M>(l0: Log<M>, ops: seq<Op<M>>)
    requires WellFormed(l0) && l0.Cur().Valid() && l0.Cur().Empty()
    requires forall i :: 0 <= i < |ops| && ops[i].Begin? ==> ops[i].id >= 0
    requires Run(l0, l0.Cur().id, ops).Ok?
    ensures var (l, appended) := Run(l0, l0.Cur().id, ops).value;
      0 <= appended && (appended < |l0.regions| ==> |l.regions| > 0 && Reset(l, l0.Cur().id) == Ok(Evict(l0, appended)))
  {
    forall k ensures SendKept(l0, l0, 0, k) { assert !InRegions(l0.regions[..0], k); }
    RunGrows(l0, l0, 0, l0.Cur().id, ops);
    var r := Run(l0, l0.Cur().id, ops).value;
    if r.1 < |l0.regions| { GrownUndone(l0, r.0, r.1); }
  }
}
