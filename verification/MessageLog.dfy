/** The log one endpoint keeps of its traffic with one partner, after RankLog: sends are kept
    by index inside regions, and only the newest regions are kept. */
module MessageLog {

  /** Half-open range of message indices; default ranges are negative. */
  datatype MsgRange = MsgRange(first: int, next: int) {
    predicate Valid() { 0 <= first <= next }
    predicate Empty() { 0 <= first == next }
    predicate Fresh() { 0 == first == next }
  }

  function At(first: int): MsgRange { MsgRange(first, first) }

  datatype Region = Region(id: int, send: MsgRange, recv: MsgRange) {
    predicate Valid() { id >= 0 && send.Valid() && recv.Valid() }
    predicate Empty() { id >= 0 && send.Empty() && recv.Empty() }
    predicate Fresh() { id >= 0 && send.Fresh() && recv.Fresh() }
  }

  const NONE: Region := Region(-1, MsgRange(-1, -1), MsgRange(-1, -1))

  /** A region that carries on where another one stands. */
  function After(id: int, o: Region): Region {
    Region(id, At(o.send.next), At(o.recv.next))
  }

  /** The last region is the current one; the number of regions never changes. */
  datatype Log<M> = Log(regions: seq<Region>, sends: map<int, M>, alreadySent: int) {
    function Cur(): Region
      requires |regions| > 0
    {
      regions[|regions| - 1]
    }

    function WithCur(r: Region): Log<M>
      requires |regions| > 0
    {
      this.(regions := regions[|regions| - 1 := r])
    }

    /** The index of the next message out; a log without regions will start at 0. */
    function NextSend(): int
      requires |regions| > 0
    {
      if Cur().Valid() then Cur().send.next else 0
    }

    function NextRecv(): int
      requires |regions| > 0
    {
      if Cur().Valid() then Cur().recv.next else 0
    }
  }

  datatype Outcome<T> = Ok(value: T) | Fatal

  // ----- the steps of one endpoint -----

  function Without<M>(sends: map<int, M>, r: Region): map<int, M> {
    if !r.Valid() then sends
    else map k | k in sends && !(r.send.first <= k < r.send.next) :: sends[k]
  }

  function EraseSends<M>(l: Log<M>, r: Region): Log<M> {
    l.(sends := Without(l.sends, r))
  }

  function AppendRegion<M>(l: Log<M>, r: Region): Log<M>
    requires |l.regions| > 0
  {
    Log(l.regions[1..] + [r], Without(l.sends, l.regions[0]), l.alreadySent)
  }

  function WithoutAll<M>(sends: map<int, M>, rs: seq<Region>): map<int, M> {
    if rs == [] then sends else WithoutAll(Without(sends, rs[0]), rs[1..])
  }

  function Nones(n: nat): seq<Region> {
    seq(n, i => NONE)
  }

  /** Drops the regions from position begin on and moves the others to the end. */
  function EraseFrom<M>(l: Log<M>, begin: nat): Log<M>
    requires begin <= |l.regions|
  {
    Log(Nones(|l.regions| - begin) + l.regions[..begin], WithoutAll(l.sends, l.regions[begin..]), l.alreadySent)
  }

  function BeginRegion<M>(l: Log<M>, id: int): Outcome<Log<M>>
    requires |l.regions| > 0
  {
    if l.Cur().id > id then
      if l.Cur().Empty() then Ok(l) else Fatal
    else if l.Cur().id == id then
      if l.Cur().Valid() && l.Cur().Empty() then Ok(l) else Fatal
    else if l.Cur().Valid() then Ok(AppendRegion(l, After(id, l.Cur())))
    else Ok(AppendRegion(l, Region(id, At(0), At(0))))
  }

  /** A log without a valid region starts one for the active region. */
  function EnsureRegion<M>(l: Log<M>, active: int): Log<M>
    requires |l.regions| > 0
  {
    if l.Cur().Valid() then l else AppendRegion(l, Region(active, At(0), At(0)))
  }

  /** Logs a message under the next index. */
  function LogSend<M>(l: Log<M>, active: int, m: M): Outcome<Log<M>>
    requires |l.regions| > 0
  {
    var e := EnsureRegion(l, active);
    if e.Cur().id != active then Fatal
    else
      var c := e.Cur();
      Ok(Log(e.regions[|e.regions| - 1 := c.(send := c.send.(next := c.send.next + 1))],
             e.sends[c.send.next := m], e.alreadySent))
  }

  function LogRecv<M>(l: Log<M>, active: int): Outcome<Log<M>>
    requires |l.regions| > 0
  {
    var e := EnsureRegion(l, active);
    if e.Cur().id != active then Fatal
    else
      var c := e.Cur();
      Ok(e.WithCur(c.(recv := c.recv.(next := c.recv.next + 1))))
  }

  /** Position of the first region whose id is at least id. */
  function LowerBound(rs: seq<Region>, id: int): (i: nat)
    ensures i <= |rs| && (forall k :: 0 <= k < i ==> rs[k].id < id) && (i < |rs| ==> rs[i].id >= id)
  {
    if rs == [] || rs[0].id >= id then 0 else 1 + LowerBound(rs[1..], id)
  }

  /** Rolls back to the start of region target, or to nothing when that is older than the log. */
  function Reset<M>(l: Log<M>, target: int): Outcome<Log<M>>
    requires |l.regions| > 0
  {
    if !l.Cur().Valid() then Ok(l)
    else if 0 <= target < l.Cur().id then
      var e := EraseFrom(l, LowerBound(l.regions, target + 1));
      if !e.Cur().Valid() then Ok(e)
      else if e.Cur().id != target then Fatal
      else Ok(Rewind(e))
    else if target > l.Cur().id then Ok(Rewind(AppendRegion(l, After(target, l.Cur()))))
    else if target == l.Cur().id then Ok(Rewind(l))
    else Ok(l)
  }

  /** Forgets what happened in the current region. */
  function Rewind<M>(l: Log<M>): Log<M>
    requires |l.regions| > 0
  {
    var c := l.Cur();
    EraseSends(l, c).WithCur(Region(c.id, At(c.send.first), At(c.recv.first)))
  }

  // ----- the invariant -----

  /** Each region carries on where the one before stopped; only after regions that never
      saw a message may the indices have been moved by an agreement with the partner. */
  ghost predicate Follows(a: Region, b: Region) {
    a.id < b.id && ((a.send.next == b.send.first && a.recv.next == b.recv.first) || a.Fresh())
  }

  ghost predicate Chain(rs: seq<Region>) {
    && (forall i :: 0 <= i < |rs| ==> rs[i].Valid() || rs[i] == NONE)
    && (forall i :: 0 <= i < |rs| - 1 && rs[i].Valid() ==> rs[i + 1].Valid() && Follows(rs[i], rs[i + 1]))
  }

  ghost predicate InRegions(rs: seq<Region>, k: int) {
    exists i :: 0 <= i < |rs| && rs[i].Valid() && rs[i].send.first <= k < rs[i].send.next
  }

  /** The sends kept are exactly those of the regions kept. */
  ghost predicate WellFormed<M>(l: Log<M>) {
    && |l.regions| > 0 && Chain(l.regions) && l.alreadySent >= -1
    && (forall k :: k in l.sends <==> InRegions(l.regions, k))
  }

  lemma {:induction false} ChainOrder(rs: seq<Region>, i: nat, j: nat)
    requires Chain(rs) && i < j < |rs| && rs[i].Valid()
    ensures rs[j].Valid() && rs[i].id < rs[j].id
    ensures rs[i].send.next <= rs[j].send.first && rs[i].recv.next <= rs[j].recv.first
  {
    if i + 1 < j { ChainOrder(rs, i, j - 1); }
  }

  lemma OneHome(rs: seq<Region>, i: nat, j: nat, k: int)
    requires Chain(rs) && i < |rs| && j < |rs| && rs[i].Valid() && rs[j].Valid()
    requires rs[i].send.first <= k < rs[i].send.next && rs[j].send.first <= k < rs[j].send.next
    ensures i == j
  {
    if i < j { ChainOrder(rs, i, j); } else if j < i { ChainOrder(rs, j, i); }
  }

  lemma {:induction false} IndexInChain(rs: seq<Region>, i: nat, k: int)
    requires Chain(rs) && i < |rs| && rs[i].Valid() && 0 < rs[i].send.next
    requires rs[i].send.first <= k < rs[|rs| - 1].send.next
    ensures InRegions(rs, k)
    decreases |rs| - i
  {
    if k >= rs[i].send.next {
      IndexInChain(rs, i + 1, k);
    }
  }

  /** The kept indices have no holes. */
  lemma SendsConsecutive<M>(l: Log<M>, j: int, k: int)
    requires WellFormed(l) && j in l.sends && j <= k < l.NextSend()
    ensures k in l.sends
  {
    var i :| 0 <= i < |l.regions| && l.regions[i].Valid() && l.regions[i].send.first <= j < l.regions[i].send.next;
    IndexInChain(l.regions, i, k);
  }

  lemma SendsBelowNext<M>(l: Log<M>, k: int)
    requires WellFormed(l) && k in l.sends
    ensures 0 <= k < l.NextSend()
  {
    var i :| 0 <= i < |l.regions| && l.regions[i].Valid() && l.regions[i].send.first <= k < l.regions[i].send.next;
    if i < |l.regions| - 1 { ChainOrder(l.regions, i, |l.regions| - 1); }
  }

  // ----- every step keeps the invariant -----

  lemma AppendKeeps<M>(l: Log<M>, r: Region)
    requires WellFormed(l) && r.Valid() && r.Empty()
    requires l.Cur().Valid() ==> Follows(l.Cur(), r)
    ensures WellFormed(AppendRegion(l, r))
  {
    var rs, t := l.regions, AppendRegion(l, r);
    assert forall i :: 0 <= i < |rs| - 1 ==> t.regions[i] == rs[i + 1];
    forall k ensures k in t.sends <==> InRegions(t.regions, k) {
      if k in t.sends {
        var i :| 0 <= i < |rs| && rs[i].Valid() && rs[i].send.first <= k < rs[i].send.next;
        assert t.regions[i - 1] == rs[i];
      }
      if InRegions(t.regions, k) {
        var i :| 0 <= i < |rs| && t.regions[i].Valid() && t.regions[i].send.first <= k < t.regions[i].send.next;
        assert t.regions[i] == rs[i + 1];
        if rs[0].Valid() { ChainOrder(rs, 0, i + 1); }
      }
    }
  }

  lemma BeginKeeps<M>(l: Log<M>, id: int)
    requires WellFormed(l) && id >= 0 && BeginRegion(l, id).Ok?
    ensures WellFormed(BeginRegion(l, id).value)
  {
    if l.Cur().id < id {
      AppendKeeps(l, if l.Cur().Valid() then After(id, l.Cur()) else Region(id, At(0), At(0)));
    }
  }

  /** A region can be begun exactly when it is a later one or nothing has happened in the current one, which then stays
      as it is: it may have been begun before a failure, or by the partner. A later one starts where the log stands. */
  lemma BeginExact<M>(l: Log<M>, id: int)
    requires WellFormed(l) && id >= 0
    ensures BeginRegion(l, id).Ok? <==> l.Cur().id < id || l.Cur().Empty()
    ensures BeginRegion(l, id).Ok? ==> Begun(l, id, BeginRegion(l, id).value)
  {
    var r := l.regions[0];
    forall k ensures InRegions([r], k) <==> r.Valid() && r.send.first <= k < r.send.next {
      if r.Valid() && r.send.first <= k < r.send.next { assert [r][0].send.first <= k; }
    }
  }

  /** t is l once region id has been begun. */
  ghost predicate Begun<M>(l: Log<M>, id: int, t: Log<M>)
    requires |l.regions| > 0
  {
    if l.Cur().id >= id then t == l
    else
      && t.regions == l.regions[1..] + [Region(id, At(l.NextSend()), At(l.NextRecv()))]
      && t.alreadySent == l.alreadySent
      && forall k :: k in t.sends <==> k in l.sends && !InRegions([l.regions[0]], k)
  }

  /** A program that has gone back to a region can begin it again, and nothing changes. */
  lemma BeginAgain<M>(l: Log<M>, target: int)
    requires WellFormed(l) && target >= 0 && Reset(l, target).Ok? && Reset(l, target).value.Cur().Valid()
    ensures BeginRegion(Reset(l, target).value, target) == Ok(Reset(l, target).value)
  {
    ResetKeeps(l, target);
  }

  lemma EnsureKeeps<M>(l: Log<M>, active: int)
    requires WellFormed(l) && active >= 0
    ensures WellFormed(EnsureRegion(l, active)) && EnsureRegion(l, active).Cur().Valid()
    ensures EnsureRegion(l, active).NextSend() == l.NextSend() && EnsureRegion(l, active).NextRecv() == l.NextRecv()
  {
    if !l.Cur().Valid() { AppendKeeps(l, Region(active, At(0), At(0))); }
  }

  lemma SendKeeps<M>(l: Log<M>, active: int, m: M)
    requires WellFormed(l) && active >= 0 && LogSend(l, active, m).Ok?
    ensures var t := LogSend(l, active, m).value;
      WellFormed(t) && t.NextSend() == l.NextSend() + 1 && t.NextRecv() == l.NextRecv()
  {
    var e, t := EnsureRegion(l, active), LogSend(l, active, m).value;
    EnsureKeeps(l, active);
    var n, c := |e.regions| - 1, e.Cur();
    assert forall i :: 0 <= i < n ==> t.regions[i] == e.regions[i];
    forall k ensures k in t.sends <==> InRegions(t.regions, k) {
      if k in t.sends {
        if k == c.send.next { assert t.regions[n].send.first <= k < t.regions[n].send.next; }
        else {
          var i :| 0 <= i <= n && e.regions[i].Valid() && e.regions[i].send.first <= k < e.regions[i].send.next;
          assert t.regions[i].send.first <= k < t.regions[i].send.next;
        }
      }
      if InRegions(t.regions, k) {
        var i :| 0 <= i <= n && t.regions[i].Valid() && t.regions[i].send.first <= k < t.regions[i].send.next;
        assert k == c.send.next || InRegions(e.regions, k);
      }
    }
  }

  lemma RecvKeeps<M>(l: Log<M>, active: int)
    requires WellFormed(l) && active >= 0 && LogRecv(l, active).Ok?
    ensures var t := LogRecv(l, active).value;
      WellFormed(t) && t.NextRecv() == l.NextRecv() + 1 && t.NextSend() == l.NextSend() && t.sends == l.sends
  {
    var e, t := EnsureRegion(l, active), LogRecv(l, active).value;
    EnsureKeeps(l, active);
    SameSendRanges(e, t);
    var n := |e.regions| - 1;
    if !l.Cur().Valid() { NoSends(l); }
  }

  lemma NoSends<M>(l: Log<M>)
    requires WellFormed(l) && !l.Cur().Valid()
    ensures l.sends == map[] && forall i :: 0 <= i < |l.regions| ==> l.regions[i] == NONE
  {
    forall i | 0 <= i < |l.regions| ensures l.regions[i] == NONE {
      if l.regions[i].Valid() && i < |l.regions| - 1 { ChainOrder(l.regions, i, |l.regions| - 1); }
    }
    assert forall k :: k !in l.sends;
  }

  lemma ErasedSends<M>(was: map<int, M>, r: Region, now: map<int, M>)
    requires forall k :: k in now <==> k in was && !(r.Valid() && r.send.first <= k < r.send.next)
    requires forall k :: k in now ==> now[k] == was[k]
    ensures now == Without(was, r)
  {
    var t := Without(was, r);
    forall k ensures k in now <==> k in t {
      if k in now { assert k in was; }
      if k in t { assert k in was; }
    }
    forall k | k in now ensures now[k] == t[k] { assert k in was; }
    assert now.Keys == t.Keys;
  }

  /** Erasing the sends of one region leaves exactly those of the others. */
  lemma OthersKept<M>(l: Log<M>, i: nat, k: int)
    requires WellFormed(l) && i < |l.regions|
    ensures k in Without(l.sends, l.regions[i]) <==> InRegions(l.regions[i := NONE], k)
  {
    var rs, t := l.regions, l.regions[i := NONE];
    if k in Without(l.sends, rs[i]) {
      var j :| 0 <= j < |rs| && rs[j].Valid() && rs[j].send.first <= k < rs[j].send.next;
      assert t[j] == rs[j];
    }
    if InRegions(t, k) {
      var j :| 0 <= j < |t| && t[j].Valid() && t[j].send.first <= k < t[j].send.next;
      assert t[j] == rs[j];
      if rs[i].Valid() && rs[i].send.first <= k < rs[i].send.next { OneHome(rs, i, j, k); }
    }
  }

  /** Changing only receive indices of the current region, within the invariant. */
  lemma SameSendRanges<M>(e: Log<M>, t: Log<M>)
    requires WellFormed(e) && e.Cur().Valid() && |t.regions| == |e.regions|
    requires t.sends == e.sends && t.alreadySent == e.alreadySent
    requires forall i :: 0 <= i < |e.regions| - 1 ==> t.regions[i] == e.regions[i]
    requires t.Cur().Valid() && t.Cur().send == e.Cur().send && t.Cur().id == e.Cur().id
    requires t.Cur().recv.first == e.Cur().recv.first
    ensures WellFormed(t)
  {
    var n := |e.regions| - 1;
    forall k ensures InRegions(e.regions, k) <==> InRegions(t.regions, k) {
      if i :| 0 <= i <= n && e.regions[i].Valid() && e.regions[i].send.first <= k < e.regions[i].send.next {
        assert t.regions[i].send == e.regions[i].send && t.regions[i].Valid();
      }
      if i :| 0 <= i <= n && t.regions[i].Valid() && t.regions[i].send.first <= k < t.regions[i].send.next {
        assert t.regions[i].send == e.regions[i].send && e.regions[i].Valid();
      }
    }
    forall i | 0 <= i < n && t.regions[i].Valid()
      ensures t.regions[i + 1].Valid() && Follows(t.regions[i], t.regions[i + 1])
    {
      assert Follows(e.regions[i], e.regions[i + 1]);
    }
  }

  lemma {:induction false} WithoutAllExact<M>(sends: map<int, M>, rs: seq<Region>, k: int)
    ensures k in WithoutAll(sends, rs) <==> k in sends && !InRegions(rs, k)
    ensures k in WithoutAll(sends, rs) ==> WithoutAll(sends, rs)[k] == sends[k]
  {
    if rs != [] {
      WithoutAllExact(Without(sends, rs[0]), rs[1..], k);
      if InRegions(rs, k) {
        var i :| 0 <= i < |rs| && rs[i].Valid() && rs[i].send.first <= k < rs[i].send.next;
        if i > 0 { assert rs[1..][i - 1] == rs[i]; }
      }
      if InRegions(rs[1..], k) {
        var i :| 0 <= i < |rs[1..]| && rs[1..][i].Valid() && rs[1..][i].send.first <= k < rs[1..][i].send.next;
        assert rs[i + 1] == rs[1..][i];
      }
    }
  }

  lemma InJoined(p: seq<Region>, q: seq<Region>, k: int)
    ensures InRegions(p + q, k) <==> InRegions(p, k) || InRegions(q, k)
  {
    if i :| 0 <= i < |p| && p[i].Valid() && p[i].send.first <= k < p[i].send.next {
      assert (p + q)[i] == p[i];
    }
    if i :| 0 <= i < |q| && q[i].Valid() && q[i].send.first <= k < q[i].send.next {
      assert (p + q)[|p| + i] == q[i];
    }
  }

  lemma PartsDisjoint(rs: seq<Region>, begin: nat, k: int)
    requires Chain(rs) && begin <= |rs|
    ensures !(InRegions(rs[..begin], k) && InRegions(rs[begin..], k))
  {
    if InRegions(rs[..begin], k) && InRegions(rs[begin..], k) {
      var i :| 0 <= i < begin && rs[..begin][i].Valid() && rs[..begin][i].send.first <= k < rs[..begin][i].send.next;
      var t := rs[begin..];
      var j :| 0 <= j < |t| && t[j].Valid() && t[j].send.first <= k < t[j].send.next;
      OneHome(rs, i, begin + j, k);
    }
  }

  lemma EraseKeeps<M>(l: Log<M>, begin: nat)
    requires WellFormed(l) && begin <= |l.regions|
    ensures WellFormed(EraseFrom(l, begin))
  {
    var rs, t, gap := l.regions, EraseFrom(l, begin), |l.regions| - begin;
    assert rs == rs[..begin] + rs[begin..];
    assert forall i :: gap <= i < |rs| ==> t.regions[i] == rs[i - gap];
    forall k ensures k in t.sends <==> InRegions(t.regions, k) {
      WithoutAllExact(l.sends, rs[begin..], k);
      InJoined(rs[..begin], rs[begin..], k);
      InJoined(Nones(gap), rs[..begin], k);
      PartsDisjoint(rs, begin, k);
    }
  }

  lemma RewindKeeps<M>(l: Log<M>)
    requires WellFormed(l) && l.Cur().Valid()
    ensures WellFormed(Rewind(l))
  {
    var rs, t, n := l.regions, Rewind(l), |l.regions| - 1;
    forall i | 0 <= i < n ensures t.regions[i] == rs[i] {}
    forall i | 0 <= i < n && t.regions[i].Valid()
      ensures t.regions[i + 1].Valid() && Follows(t.regions[i], t.regions[i + 1])
    {
      assert Follows(rs[i], rs[i + 1]);
    }
    forall k ensures k in t.sends <==> InRegions(t.regions, k) {
      if k in t.sends {
        var i :| 0 <= i < |rs| && rs[i].Valid() && rs[i].send.first <= k < rs[i].send.next;
        assert t.regions[i] == rs[i];
      }
      if InRegions(t.regions, k) {
        var i :| 0 <= i < |rs| && t.regions[i].Valid() && t.regions[i].send.first <= k < t.regions[i].send.next;
        assert rs[i] == t.regions[i];
        ChainOrder(rs, i, n);
      }
    }
  }

  /** Rolling back to any region keeps the invariant. */
  lemma ResetKeeps<M>(l: Log<M>, target: int)
    requires WellFormed(l) && target >= -1 && Reset(l, target).Ok?
    ensures WellFormed(Reset(l, target).value)
  {
    if !l.Cur().Valid() {
    } else if 0 <= target < l.Cur().id {
      var e := EraseFrom(l, LowerBound(l.regions, target + 1));
      EraseKeeps(l, LowerBound(l.regions, target + 1));
      if e.Cur().Valid() { RewindKeeps(e); }
    } else if target > l.Cur().id {
      AppendKeeps(l, After(target, l.Cur()));
      RewindKeeps(AppendRegion(l, After(target, l.Cur())));
    } else if target == l.Cur().id {
      RewindKeeps(l);
    }
  }

  // ----- when the steps succeed, and what they change -----

  /** A message can be logged exactly when the log stands in the active region, or in none yet. */
  lemma SendExact<M>(l: Log<M>, active: int, m: M)
    requires WellFormed(l) && active >= 0
    ensures LogSend(l, active, m).Ok? <==> (l.Cur().Valid() ==> l.Cur().id == active)
    ensures LogSend(l, active, m).Ok? ==>
              var t := LogSend(l, active, m).value;
              && t.sends == l.sends[l.NextSend() := m] && t.alreadySent == l.alreadySent
              && OneMore(l, active, t) && t.NextSend() == l.NextSend() + 1 && t.NextRecv() == l.NextRecv()
  {
    if !l.Cur().Valid() { NoSends(l); }
  }

  /** So can a receive. */
  lemma RecvExact<M>(l: Log<M>, active: int)
    requires WellFormed(l) && active >= 0
    ensures LogRecv(l, active).Ok? <==> (l.Cur().Valid() ==> l.Cur().id == active)
    ensures LogRecv(l, active).Ok? ==>
              var t := LogRecv(l, active).value;
              && t.sends == l.sends && t.alreadySent == l.alreadySent
              && OneMore(l, active, t) && t.NextSend() == l.NextSend() && t.NextRecv() == l.NextRecv() + 1
  {
    if !l.Cur().Valid() { NoSends(l); }
  }

  /** Only the current region has moved on, or is the first one. */
  ghost predicate OneMore<M>(l: Log<M>, active: int, t: Log<M>)
    requires |l.regions| > 0
  {
    && |t.regions| == |l.regions| && t.Cur().id == active
    && if l.Cur().Valid()
       then t.regions == l.regions[|l.regions| - 1 := t.Cur()] && t.Cur().send.first == l.Cur().send.first
            && t.Cur().recv.first == l.Cur().recv.first
       else t.regions == Nones(|l.regions| - 1) + [t.Cur()] && t.Cur().send.first == 0 && t.Cur().recv.first == 0
  }

  ghost predicate HasRegion(rs: seq<Region>, id: int) {
    exists i :: 0 <= i < |rs| && rs[i].Valid() && rs[i].id == id
  }

  /** Some region from before is still there. */
  ghost predicate HasOlder(rs: seq<Region>, id: int) {
    exists i :: 0 <= i < |rs| && rs[i].Valid() && rs[i].id < id
  }

  /** Going back to a region that is not in the log is an error only between two that are. */
  lemma ResetExact<M>(l: Log<M>, target: int)
    requires WellFormed(l) && target >= -1
    ensures Reset(l, target).Ok? <==>
            (0 <= target < l.Cur().id && HasOlder(l.regions, target) ==> HasRegion(l.regions, target))
    ensures Reset(l, target).Ok? && (target == -1 || !l.Cur().Valid()) ==> Reset(l, target).value == l
    ensures Reset(l, target).Ok? && l.Cur().Valid() && 0 <= target <= l.Cur().id ==>
              Back(l, target, Reset(l, target).value)
    ensures l.Cur().Valid() && target > l.Cur().id ==> Begun(l, target, Reset(l, target).value)
    ensures Reset(l, target).Ok? ==> Fewer(l.sends, Reset(l, target).value.sends)
  {
    ResetFewer(l, target);
    if l.Cur().Valid() && target > l.Cur().id {
      BeginExact(l, target);
      assert BeginRegion(l, target) == Reset(l, target) by { NothingToRewind(l, target); }
    } else if l.Cur().Valid() && 0 <= target < l.Cur().id {
      CanErase(l, target);
      if Reset(l, target).Ok? { BackErased(l, target, LowerBound(l.regions, target + 1)); }
    } else if l.Cur().Valid() && target == l.Cur().id {
      BackRewound(l, target);
    }
  }

  /** Nothing is logged that was not, and nothing under another index. */
  ghost predicate Fewer<M>(was: map<int, M>, now: map<int, M>) {
    forall k :: k in now ==> k in was && now[k] == was[k]
  }

  lemma {:induction false} WithoutAllFewer<M>(sends: map<int, M>, rs: seq<Region>)
    ensures Fewer(sends, WithoutAll(sends, rs))
  {
    if rs != [] { WithoutAllFewer(Without(sends, rs[0]), rs[1..]); }
  }

  lemma ResetFewer<M>(l: Log<M>, target: int)
    requires |l.regions| > 0 && target >= -1
    ensures Reset(l, target).Ok? ==> Fewer(l.sends, Reset(l, target).value.sends)
  {
    var k := LowerBound(l.regions, target + 1);
    WithoutAllFewer(l.sends, l.regions[k..]);
  }

  lemma NothingToRewind<M>(l: Log<M>, target: int)
    requires WellFormed(l) && l.Cur().Valid() && target > l.Cur().id
    ensures var t := AppendRegion(l, After(target, l.Cur())); Rewind(t) == t
  {
    var t := AppendRegion(l, After(target, l.Cur()));
    assert t.sends == Without(t.sends, t.Cur());
    assert t.regions[|t.regions| - 1 := t.Cur()] == t.regions;
  }

  /** t is l without what is later than the start of region target: the older regions are all there, and the region
      itself is empty again if the log has it. */
  ghost predicate Back<M>(l: Log<M>, target: int, t: Log<M>)
    requires |l.regions| > 0
  {
    && |t.regions| == |l.regions| && t.alreadySent == l.alreadySent
    && (forall r: Region :: r.Valid() && r.id < target ==> (r in t.regions <==> r in l.regions))
    && (forall r :: r in t.regions && r.Valid() ==> r.id <= target)
    && (forall r :: r in l.regions && r.Valid() && r.id == target ==>
          t.Cur() == Region(target, At(r.send.first), At(r.recv.first)))
    && (t.Cur().Valid() <==> HasRegion(l.regions, target))
  }

  /** The region before the cut is the newest one that is not later than the target. */
  lemma CutLast<M>(l: Log<M>, target: int, k: nat)
    requires Chain(l.regions) && |l.regions| > 0 && l.Cur().Valid() && 0 <= target < l.Cur().id
    requires k == LowerBound(l.regions, target + 1)
    ensures k < |l.regions|
    ensures forall i :: 0 <= i < |l.regions| && l.regions[i].Valid() ==> BeforeCut(l.regions, target, k, i)
    ensures k > 0 && l.regions[k - 1].Valid() <==> HasOlder(l.regions, target) || HasRegion(l.regions, target)
    ensures k > 0 && l.regions[k - 1].Valid() && l.regions[k - 1].id == target <==> HasRegion(l.regions, target)
    ensures k > 0 ==> EraseFrom(l, k).Cur() == l.regions[k - 1]
    ensures k == 0 ==> EraseFrom(l, k).Cur() == NONE
  {
    var rs := l.regions;
    forall i | 0 <= i < |rs| && rs[i].Valid() ensures BeforeCut(rs, target, k, i) {
      if i > k && rs[k].Valid() { ChainOrder(rs, k, i); }
      if i < k - 1 { ChainOrder(rs, i, k - 1); }
    }
  }

  ghost predicate BeforeCut(rs: seq<Region>, target: int, k: nat, i: nat)
    requires i < |rs| && k < |rs|
  {
    && (rs[i].id <= target <==> i < k)
    && (i < k ==> rs[k - 1].Valid() && (rs[i].id == target ==> i == k - 1))
  }

  /** All but the last of the regions kept, moved to the end. */
  ghost predicate Shifted(rs: seq<Region>, ts: seq<Region>, k: nat) {
    && |ts| == |rs| && k < |rs|
    && forall i :: 0 <= i < |ts| - 1 ==> ts[i] == if i < |rs| - k then NONE else rs[i - (|rs| - k)]
  }

  lemma CanErase<M>(l: Log<M>, target: int)
    requires WellFormed(l) && l.Cur().Valid() && 0 <= target < l.Cur().id
    ensures Reset(l, target).Ok? <==> (HasOlder(l.regions, target) ==> HasRegion(l.regions, target))
  {
    CutLast(l, target, LowerBound(l.regions, target + 1));
  }

  lemma BackErased<M>(l: Log<M>, target: int, k: nat)
    requires WellFormed(l) && l.Cur().Valid() && 0 <= target < l.Cur().id && k == LowerBound(l.regions, target + 1)
    requires Reset(l, target).Ok?
    ensures Back(l, target, Reset(l, target).value)
  {
    CutLast(l, target, k);
    ResetShifts(l, target, k);
    BackShifted(l, target, k, Reset(l, target).value);
  }

  lemma BackShifted<M>(l: Log<M>, target: int, k: nat, t: Log<M>)
    requires Shifted(l.regions, t.regions, k) && t.alreadySent == l.alreadySent && |t.regions| > 0 && target >= 0
    requires forall i :: 0 <= i < |l.regions| && l.regions[i].Valid() ==> BeforeCut(l.regions, target, k, i)
    requires t.Cur() == LastBack(l.regions, k) && (k > 0 && l.regions[k - 1].Valid() ==> l.regions[k - 1].id == target)
    requires k > 0 && l.regions[k - 1].Valid() && l.regions[k - 1].id == target <==> HasRegion(l.regions, target)
    ensures Back(l, target, t)
  {
    BackTable(l.regions, t.regions, target, k);
  }

  lemma ResetShifts<M>(l: Log<M>, target: int, k: nat)
    requires WellFormed(l) && l.Cur().Valid() && 0 <= target < l.Cur().id && k == LowerBound(l.regions, target + 1)
    requires k < |l.regions| && Reset(l, target).Ok?
    requires EraseFrom(l, k).Cur() == if k > 0 then l.regions[k - 1] else NONE
    ensures var t := Reset(l, target).value;
            && Shifted(l.regions, t.regions, k) && t.alreadySent == l.alreadySent && |t.regions| > 0
            && t.Cur() == LastBack(l.regions, k)
            && (k > 0 && l.regions[k - 1].Valid() ==> l.regions[k - 1].id == target)
  {
    var rs, e, t := l.regions, EraseFrom(l, k), Reset(l, target).value;
    assert forall i :: 0 <= i < |rs| - 1 ==> t.regions[i] == e.regions[i];
  }

  /** The region before the cut, emptied. */
  function LastBack(rs: seq<Region>, k: nat): Region
    requires k < |rs|
  {
    if k == 0 || !rs[k - 1].Valid() then NONE
    else Region(rs[k - 1].id, At(rs[k - 1].send.first), At(rs[k - 1].recv.first))
  }

  lemma BackTable(rs: seq<Region>, ts: seq<Region>, target: int, k: nat)
    requires Shifted(rs, ts, k) && forall i :: 0 <= i < |rs| && rs[i].Valid() ==> BeforeCut(rs, target, k, i)
    requires ts[|ts| - 1] == LastBack(rs, k) && target >= 0 && (k > 0 && rs[k - 1].Valid() ==> rs[k - 1].id == target)
    ensures forall r: Region :: r.Valid() && r.id < target ==> (r in ts <==> r in rs)
    ensures forall r :: r in rs && r.Valid() && r.id == target ==> k > 0 && r == rs[k - 1]
    ensures forall r :: r in ts && r.Valid() ==> r.id <= target
  {
    forall r: Region | r.Valid() && r.id < target ensures r in ts <==> r in rs { OlderThere(rs, ts, target, k, r); }
    forall r | r in rs && r.Valid() && r.id == target ensures k > 0 && r == rs[k - 1] {
      var i :| 0 <= i < |rs| && rs[i] == r;
      assert BeforeCut(rs, target, k, i);
    }
    forall r | r in ts && r.Valid() ensures r.id <= target { NotLater(rs, ts, target, k, r); }
  }

  lemma NotLater(rs: seq<Region>, ts: seq<Region>, target: int, k: nat, r: Region)
    requires Shifted(rs, ts, k) && forall i :: 0 <= i < |rs| && rs[i].Valid() ==> BeforeCut(rs, target, k, i)
    requires ts[|ts| - 1] == LastBack(rs, k) && (k > 0 && rs[k - 1].Valid() ==> rs[k - 1].id == target)
    requires r in ts && r.Valid()
    ensures r.id <= target
  {
    var i :| 0 <= i < |ts| && ts[i] == r;
    if i < |ts| - 1 { assert BeforeCut(rs, target, k, i - (|rs| - k)); }
  }

  lemma OlderThere(rs: seq<Region>, ts: seq<Region>, target: int, k: nat, r: Region)
    requires Shifted(rs, ts, k) && forall i :: 0 <= i < |rs| && rs[i].Valid() ==> BeforeCut(rs, target, k, i)
    requires k > 0 && rs[k - 1].Valid() ==> rs[k - 1].id == target
    requires ts[|ts| - 1] == LastBack(rs, k) && r.Valid() && r.id < target
    ensures r in ts <==> r in rs
  {
    if r in rs {
      var i :| 0 <= i < |rs| && rs[i] == r;
      assert BeforeCut(rs, target, k, i);
      assert ts[i + (|rs| - k)] == r;
    }
  }

  lemma BackRewound<M>(l: Log<M>, target: int)
    requires WellFormed(l) && l.Cur().Valid() && target == l.Cur().id
    ensures Back(l, target, Rewind(l))
  {
    var rs, t, n := l.regions, Rewind(l), |l.regions| - 1;
    forall i | 0 <= i < n ensures t.regions[i] == rs[i] && (rs[i].Valid() ==> rs[i].id < target) {
      if rs[i].Valid() { ChainOrder(rs, i, n); }
    }
  }
}
