/** How two endpoints line up their region tables after a failure, each computing alone
    on the same two exchanged tables. */
module Consistency {
  import opened MessageLog

  type Tables = (seq<Region>, seq<Region>)

  function Last(rs: seq<Region>): Region
    requires |rs| > 0
  {
    rs[|rs| - 1]
  }

  function WithLast(rs: seq<Region>, r: Region): seq<Region>
    requires |rs| > 0
  {
    rs[|rs| - 1 := r]
  }

  /** The region that starts where the partner's region r starts. */
  function Mirror(r: Region): Region {
    Region(r.id, At(r.recv.first), At(r.send.first))
  }

  function Swap(t: Outcome<Tables>): Outcome<Tables> {
    match t
    case Fatal => Fatal
    case Ok(p) => Ok((p.1, p.0))
  }

  /** Both current regions are valid and a's is not older: b's current region must be known to a. */
  function CheckOrdered(a: seq<Region>, b: seq<Region>): Outcome<Tables>
    requires |a| > 0 && |b| > 0 && Last(a).id >= Last(b).id
  {
    var rb := Last(b);
    var i := LowerBound(a, rb.id);
    var ra := a[i];
    if ra.id != rb.id then Fatal
    else if ra.send.first == rb.recv.first && ra.recv.first == rb.send.first then Ok((a, b))
    else if rb.Fresh() then Ok((a, WithLast(b, Mirror(ra))))
    else if ra.Fresh() && ra.id == Last(a).id then Ok((WithLast(a, Mirror(rb)), b))
    else Fatal
  }

  function CheckConsistent(a: seq<Region>, b: seq<Region>): Outcome<Tables>
    requires |a| > 0 && |b| > 0
  {
    if Last(a).id < Last(b).id then Swap(CheckOrdered(b, a)) else CheckOrdered(a, b)
  }

  /** b lost its regions and only knows which region it is in; a tells it the indices. */
  function RecoverInvalid(a: seq<Region>, b: seq<Region>): Outcome<Tables>
    requires |a| > 0 && |b| > 0
  {
    var rb := Last(b);
    var i := LowerBound(a, rb.id);
    if i == |a| || (a[i].id != rb.id && !a[i].Fresh()) then Fatal
    else if a[i].id != rb.id then Ok((a, WithLast(b, Region(a[i].id, At(0), At(0)))))
    else Ok((a, WithLast(b, Mirror(a[i]))))
  }

  /** The consistency step of the endpoint that owns table a, given its partner's table b. */
  function Agree(a: seq<Region>, b: seq<Region>): Outcome<Tables>
    requires |a| > 0 && |b| > 0
  {
    if Last(a).Valid() && Last(b).Valid() then CheckConsistent(a, b)
    else if Last(a).Valid() then RecoverInvalid(a, b)
    else if Last(b).Valid() then Swap(RecoverInvalid(b, a))
    else Fatal
  }

  /** The table an endpoint sends: without a valid region it only names its active region. */
  function Table<M>(l: Log<M>, active: int): seq<Region>
    requires |l.regions| > 0
  {
    if l.Cur().Valid() then l.regions else WithLast(l.regions, Region(active, NONE.send, NONE.recv))
  }

  // ----- agreement -----

  lemma BoundOfLast(rs: seq<Region>)
    requires |rs| > 0 && Chain(rs) && Last(rs).Valid()
    ensures LowerBound(rs, Last(rs).id) == |rs| - 1
  {
    var i := LowerBound(rs, Last(rs).id);
    if i < |rs| - 1 { ChainOrder(rs, i, |rs| - 1); }
  }

  /** Two endpoints that swap local and remote compute the same pair of tables. */
  lemma EndpointsAgree(a: seq<Region>, b: seq<Region>)
    requires |a| > 0 && |b| > 0
    requires Last(a).Valid() && Last(b).Valid() ==> Chain(a) && Chain(b)
    ensures Agree(b, a) == Swap(Agree(a, b))
  {
    if Last(a).Valid() && Last(b).Valid() && Last(a).id == Last(b).id {
      BoundOfLast(a);
      BoundOfLast(b);
    }
  }

  /** a's region i and b's region j are the same region, and each starts sending where the other starts receiving. */
  ghost predicate Matched(a: seq<Region>, b: seq<Region>, i: nat, j: nat) {
    && i < |a| && j < |b| && a[i].Valid() && b[j].Valid() && a[i].id == b[j].id
    && a[i].send.first == b[j].recv.first && a[i].recv.first == b[j].send.first
  }

  /** Tables as endpoints exchange them. */
  ghost predicate Exchanged(rs: seq<Region>) {
    && |rs| > 0
    && (Last(rs).Valid() ==> Chain(rs))
    && (!Last(rs).Valid() ==> Last(rs).id >= 0 && forall i :: 0 <= i < |rs| - 1 ==> rs[i] == NONE)
  }

  lemma TableExchanged<M>(l: Log<M>, active: int)
    requires WellFormed(l) && active >= 0
    ensures Exchanged(Table(l, active)) && |Table(l, active)| == |l.regions|
    ensures Last(Table(l, active)).Valid() <==> l.Cur().Valid()
  {
    if !l.Cur().Valid() { NoSends(l); }
  }

  /** A successful agreement matches the current region of one side with a region of the other. */
  lemma AgreementAligns(a: seq<Region>, b: seq<Region>) returns (i: nat, j: nat)
    requires Exchanged(a) && Exchanged(b) && Agree(a, b).Ok?
    ensures var t := Agree(a, b).value;
      && Matched(t.0, t.1, i, j) && (i == |t.0| - 1 || j == |t.1| - 1)
      && (t.0 != a ==> i == |t.0| - 1) && (t.1 != b ==> j == |t.1| - 1)
  {
    var t := Agree(a, b).value;
    if Last(a).Valid() && (!Last(b).Valid() || Last(a).id >= Last(b).id) {
      i, j := FirstAligns(a, b);
    } else {
      j, i := FirstAligns(b, a);
    }
  }

  lemma FirstAligns(a: seq<Region>, b: seq<Region>) returns (i: nat, j: nat)
    requires Exchanged(a) && Exchanged(b) && Last(a).Valid()
    requires if Last(b).Valid() then Last(a).id >= Last(b).id && CheckOrdered(a, b).Ok? else RecoverInvalid(a, b).Ok?
    ensures var t := (if Last(b).Valid() then CheckOrdered(a, b) else RecoverInvalid(a, b)).value;
      && Matched(t.0, t.1, i, j) && j == |t.1| - 1 && |t.1| == |b| && |t.0| == |a|
      && (t.0 != a ==> i == |t.0| - 1)
  {
    i, j := LowerBound(a, Last(b).id), |b| - 1;
    BoundOfLast(a);
  }

  // ----- when tables agree -----

  /** Each side starts sending where the other starts receiving. */
  predicate Opposite(r: Region, q: Region) {
    r.send.first == q.recv.first && r.recv.first == q.send.first
  }

  /** b's current region is known to a, and starts at the same indices, or else has no messages yet on one side; on a's
      side only as its current region. */
  ghost predicate KnownTo(a: seq<Region>, b: seq<Region>)
    requires |a| > 0 && |b| > 0
  {
    exists i :: 0 <= i < |a| && Meets(a, Last(b), i)
  }

  predicate Meets(a: seq<Region>, r: Region, i: nat)
    requires i < |a|
  {
    a[i].id == r.id && (Opposite(a[i], r) || r.Fresh() || (a[i].Fresh() && i == |a| - 1))
  }

  /** The region that b asks for is known to a, or a's oldest later one has no messages yet. */
  ghost predicate CanTell(a: seq<Region>, b: seq<Region>)
    requires |a| > 0 && |b| > 0
  {
    exists i :: 0 <= i < |a| && Tells(a, Last(b).id, i)
  }

  ghost predicate Tells(a: seq<Region>, id: int, i: nat)
    requires i < |a|
  {
    a[i].id == id || (a[i].id > id && a[i].Fresh() && forall k :: 0 <= k < i ==> a[k].id < id)
  }

  /** Exactly when two exchanged tables agree: the region of the side that is behind is known to the other one and does
      not contradict it, or a side without regions can be told. */
  lemma AgreeExact(a: seq<Region>, b: seq<Region>)
    requires Exchanged(a) && Exchanged(b)
    ensures Agree(a, b).Ok? <==>
            if Last(a).Valid() && Last(b).Valid() then
              if Last(a).id >= Last(b).id then KnownTo(a, b) else KnownTo(b, a)
            else if Last(a).Valid() then CanTell(a, b)
            else Last(b).Valid() && CanTell(b, a)
  {
    if Last(a).Valid() && Last(b).Valid() {
      if Last(a).id >= Last(b).id { OrderedExact(a, b); } else { OrderedExact(b, a); }
    } else if Last(a).Valid() {
      InvalidExact(a, b);
    } else if Last(b).Valid() {
      InvalidExact(b, a);
    }
  }

  lemma OnlyOne(a: seq<Region>, i: nat, id: int)
    requires Chain(a) && i < |a| && a[i].id == id && id >= 0
    ensures LowerBound(a, id) == i
  {
    var k := LowerBound(a, id);
    if k < i && a[k].Valid() { ChainOrder(a, k, i); }
  }

  lemma OrderedExact(a: seq<Region>, b: seq<Region>)
    requires Exchanged(a) && Exchanged(b) && Last(a).Valid() && Last(b).Valid() && Last(a).id >= Last(b).id
    ensures CheckOrdered(a, b).Ok? <==> KnownTo(a, b)
  {
    var k := LowerBound(a, Last(b).id);
    assert k < |a| && a[k].id > 0 ==> a[k].Valid();
    BoundOfLast(a);
    if i :| 0 <= i < |a| && Meets(a, Last(b), i) { OnlyOne(a, i, Last(b).id); }
    if CheckOrdered(a, b).Ok? { assert Meets(a, Last(b), k); }
  }

  lemma InvalidExact(a: seq<Region>, b: seq<Region>)
    requires Exchanged(a) && Exchanged(b) && Last(a).Valid() && !Last(b).Valid()
    ensures RecoverInvalid(a, b).Ok? <==> CanTell(a, b)
  {
    var id := Last(b).id;
    var k := LowerBound(a, id);
    if i :| 0 <= i < |a| && Tells(a, id, i) {
      if a[i].id == id { OnlyOne(a, i, id); } else { assert k == i; }
    }
    if RecoverInvalid(a, b).Ok? { assert Tells(a, id, k); }
  }

  // ----- the tables stay chains -----

  lemma FreshBefore(rs: seq<Region>, i: nat)
    requires Chain(rs) && |rs| > 0 && Last(rs).Fresh() && i < |rs| - 1 && rs[i].Valid()
    ensures rs[i].Fresh()
  {
    ChainOrder(rs, i, |rs| - 1);
  }

  /** Only a current region without messages is ever moved. */
  lemma MoveFresh(rs: seq<Region>, r: Region)
    requires |rs| > 0 && (if Last(rs).Valid() then Chain(rs) && Last(rs).Fresh() && r.id == Last(rs).id
      else forall i :: 0 <= i < |rs| - 1 ==> rs[i] == NONE)
    requires r.Valid() && r.Empty()
    ensures Chain(WithLast(rs, r)) && forall k :: InRegions(WithLast(rs, r), k) ==> InRegions(rs, k)
    ensures Last(rs).Valid() ==> forall k :: InRegions(rs, k) ==> InRegions(WithLast(rs, r), k)
  {
    var t, n := WithLast(rs, r), |rs| - 1;
    forall i | 0 <= i < n ensures t[i] == rs[i] && (rs[i].Valid() ==> rs[i].Fresh()) {
      if rs[i].Valid() { FreshBefore(rs, i); }
    }
    forall i | 0 <= i < n && t[i].Valid() ensures t[i + 1].Valid() && Follows(t[i], t[i + 1]) {
      assert i + 1 < n ==> t[i + 1] == rs[i + 1];
      assert Follows(rs[i], rs[i + 1]);
    }
  }

  /** A table after the step: as it was, or with its current region moved before it had any message. */
  ghost predicate Moved(rs: seq<Region>, t: seq<Region>) {
    && |t| == |rs| > 0 && Last(t).Valid()
    && (t == rs || (t == WithLast(rs, Last(t)) && Last(t).Empty()
      && (Last(rs).Valid() ==> Last(rs).Fresh() && Last(rs).id == Last(t).id)))
  }

  lemma OrderedMoves(a: seq<Region>, b: seq<Region>)
    requires Exchanged(a) && Exchanged(b) && Last(a).Valid()
    requires if Last(b).Valid() then Last(a).id >= Last(b).id && CheckOrdered(a, b).Ok? else RecoverInvalid(a, b).Ok?
    ensures var t := (if Last(b).Valid() then CheckOrdered(a, b) else RecoverInvalid(a, b)).value;
      Moved(a, t.0) && Moved(b, t.1)
  {
    BoundOfLast(a);
  }

  lemma MovedKeeps(rs: seq<Region>, t: seq<Region>)
    requires Exchanged(rs) && Moved(rs, t)
    ensures Chain(t) && forall k :: InRegions(t, k) <==> InRegions(rs, k)
  {
    if t != rs {
      MoveFresh(rs, Last(t));
      if !Last(rs).Valid() { assert forall k :: !InRegions(rs, k); }
    }
  }

  lemma AgreeMoves(a: seq<Region>, b: seq<Region>)
    requires Exchanged(a) && Exchanged(b) && Agree(a, b).Ok?
    ensures var t := Agree(a, b).value; Moved(a, t.0) && Moved(b, t.1)
  {
    if Last(a).Valid() && (!Last(b).Valid() || Last(a).id >= Last(b).id) {
      OrderedMoves(a, b);
    } else {
      OrderedMoves(b, a);
    }
  }

  // ----- the whole step of one endpoint -----

  /** The assertions of the replay: every message the partner still lacks is in the log. */
  predicate CanReplay<M>(l: Log<M>)
    requires |l.regions| > 0
  {
    forall k | l.alreadySent + 1 <= k < l.NextSend() :: k in l.sends
  }

  /** Agree on the tables, learn what the partner already has, and be able to replay the rest. */
  function Synchronise<M>(l: Log<M>, active: int, remote: seq<Region>): Outcome<Log<M>>
    requires |l.regions| > 0 && |remote| > 0
  {
    match Agree(Table(l, active), remote)
    case Fatal => Fatal
    case Ok(t) =>
      if |t.0| == 0 || |t.1| == 0 then Fatal
      else
        var s := Log(t.0, l.sends, Last(t.1).recv.next - 1);
        if CanReplay(s) then Ok(s) else Fatal
  }

  lemma SynchroniseKeeps<M>(l: Log<M>, active: int, remote: seq<Region>)
    requires WellFormed(l) && active >= 0 && Exchanged(remote) && Synchronise(l, active, remote).Ok?
    ensures var s := Synchronise(l, active, remote).value;
      WellFormed(s) && s.Cur().Valid() && s.sends == l.sends
  {
    var a := Table(l, active);
    TableExchanged(l, active);
    AgreeMoves(a, remote);
    var t := Agree(a, remote).value;
    MovedKeeps(a, t.0);
    MovedKeeps(remote, t.1);
    TableRanges(l, active);
  }

  lemma TableRanges<M>(l: Log<M>, active: int)
    requires WellFormed(l)
    ensures forall k :: InRegions(Table(l, active), k) <==> InRegions(l.regions, k)
  {
    if !l.Cur().Valid() { NoSends(l); }
  }

  /** After both endpoints have run the step, each knows exactly where the other goes on receiving. */
  lemma PairSynchronised<M>(la: Log<M>, lb: Log<M>, activeA: int, activeB: int)
    requires WellFormed(la) && WellFormed(lb) && activeA >= 0 && activeB >= 0
    requires Synchronise(la, activeA, Table(lb, activeB)).Ok? && Synchronise(lb, activeB, Table(la, activeA)).Ok?
    ensures var sa := Synchronise(la, activeA, Table(lb, activeB)).value;
      var sb := Synchronise(lb, activeB, Table(la, activeA)).value;
      && WellFormed(sa) && WellFormed(sb) && sa.sends == la.sends && sb.sends == lb.sends
      && sa.alreadySent + 1 == sb.NextRecv() && sb.alreadySent + 1 == sa.NextRecv()
      && CanReplay(sa) && CanReplay(sb)
  {
    var a, b := Table(la, activeA), Table(lb, activeB);
    TableExchanged(la, activeA);
    TableExchanged(lb, activeB);
    SynchroniseKeeps(la, activeA, b);
    SynchroniseKeeps(lb, activeB, a);
    EndpointsAgree(a, b);
  }

  // ----- when replay is possible -----

  /** From position i on, every region goes on sending exactly where the one before stopped. */
  ghost predicate ExactFrom(rs: seq<Region>, i: nat) {
    forall k :: i <= k < |rs| - 1 && rs[k].Valid() ==> rs[k].send.next == rs[k + 1].send.first
  }

  lemma {:induction false} IndexInExact(rs: seq<Region>, i: nat, k: int)
    requires Chain(rs) && i < |rs| && rs[i].Valid() && ExactFrom(rs, i)
    requires rs[i].send.first <= k < Last(rs).send.next
    ensures InRegions(rs, k)
    decreases |rs| - i
  {
    if k >= rs[i].send.next { IndexInExact(rs, i + 1, k); }
  }

  /** With an exact log, agreeing on the tables is enough: nothing to replay is missing. */
  lemma NothingMissing<M>(l: Log<M>, active: int, remote: seq<Region>)
    requires WellFormed(l) && active >= 0 && Exchanged(remote) && ExactFrom(l.regions, 0)
    ensures Synchronise(l, active, remote).Ok? <==> Agree(Table(l, active), remote).Ok?
  {
    if Agree(Table(l, active), remote).Ok? {
      TableExchanged(l, active);
      TableRanges(l, active);
      TableExact(l, active);
      NothingMissingIn(l, Table(l, active), remote);
    }
  }

  lemma TableExact<M>(l: Log<M>, active: int)
    requires WellFormed(l) && ExactFrom(l.regions, 0)
    ensures ExactFrom(Table(l, active), 0)
  {
    if !l.Cur().Valid() { NoSends(l); }
  }

  lemma NothingMissingIn<M>(l: Log<M>, a: seq<Region>, remote: seq<Region>)
    requires WellFormed(l) && Exchanged(a) && Exchanged(remote) && Agree(a, remote).Ok?
    requires ExactFrom(a, 0) && forall k :: InRegions(a, k) <==> InRegions(l.regions, k)
    ensures var t := Agree(a, remote).value;
            |t.0| > 0 && |t.1| > 0 && CanReplay(Log(t.0, l.sends, Last(t.1).recv.next - 1))
  {
    AgreeMoves(a, remote);
    var i, j := AgreementAligns(a, remote);
    var t := Agree(a, remote).value;
    MovedKeeps(a, t.0);
    MovedKeeps(remote, t.1);
    EnoughKept(l, t.0, t.1, i, j);
  }

  lemma EnoughKept<M>(l: Log<M>, mine: seq<Region>, theirs: seq<Region>, i: nat, j: nat)
    requires WellFormed(l) && Chain(mine) && Chain(theirs) && Matched(mine, theirs, i, j) && ExactFrom(mine, i)
    requires forall k :: InRegions(mine, k) <==> InRegions(l.regions, k)
    ensures forall k :: Last(theirs).recv.next <= k < Last(mine).send.next ==> k in l.sends
  {
    if j < |theirs| - 1 { ChainOrder(theirs, j, |theirs| - 1); }
    forall k | Last(theirs).recv.next <= k < Last(mine).send.next ensures k in l.sends {
      IndexInExact(mine, i, k);
    }
  }

  /** Traffic keeps the regions exact. */
  lemma TrafficKeepsExact<M>(l: Log<M>, active: int, m: M)
    requires WellFormed(l) && active >= 0 && ExactFrom(l.regions, 0)
    ensures LogSend(l, active, m).Ok? ==> ExactFrom(LogSend(l, active, m).value.regions, 0)
    ensures LogRecv(l, active).Ok? ==> ExactFrom(LogRecv(l, active).value.regions, 0)
  {
    EnsureExact(l, active);
    var e := EnsureRegion(l, active).regions;
    if LogSend(l, active, m).Ok? { CurrentExact(e, LogSend(l, active, m).value.regions); }
    if LogRecv(l, active).Ok? { CurrentExact(e, LogRecv(l, active).value.regions); }
  }

  lemma EnsureExact<M>(l: Log<M>, active: int)
    requires WellFormed(l) && ExactFrom(l.regions, 0)
    ensures ExactFrom(EnsureRegion(l, active).regions, 0)
  {
    if !l.Cur().Valid() { NoSends(l); }
  }

  lemma CurrentExact(e: seq<Region>, t: seq<Region>)
    requires |t| == |e| > 0 && ExactFrom(e, 0) && t == WithLast(e, Last(t)) && Last(t).send.first == Last(e).send.first
    ensures ExactFrom(t, 0)
  {
    forall k | 0 <= k < |t| - 1 && t[k].Valid() ensures t[k].send.next == t[k + 1].send.first {
      assert t[k] == e[k];
      if k + 1 < |t| - 1 { assert t[k + 1] == e[k + 1]; }
    }
  }

  /** So does beginning a region. */
  lemma BeginKeepsExact<M>(l: Log<M>, id: int)
    requires WellFormed(l) && id >= 0 && ExactFrom(l.regions, 0)
    ensures BeginRegion(l, id).Ok? ==> ExactFrom(BeginRegion(l, id).value.regions, 0)
  {
    if l.Cur().Valid() { AppendExact(l.regions, After(id, l.Cur())); } else { NoSends(l); }
  }

  /** So does rolling back. */
  lemma ResetKeepsExact<M>(l: Log<M>, target: int)
    requires WellFormed(l) && target >= -1 && ExactFrom(l.regions, 0) && Reset(l, target).Ok?
    ensures ExactFrom(Reset(l, target).value.regions, 0)
  {
    if !l.Cur().Valid() {
    } else if 0 <= target < l.Cur().id {
      var e := EraseFrom(l, LowerBound(l.regions, target + 1));
      EraseExact(l.regions, LowerBound(l.regions, target + 1));
      if e.Cur().Valid() { RewindExact(e); }
    } else if target > l.Cur().id {
      AppendExact(l.regions, After(target, l.Cur()));
      RewindExact(AppendRegion(l, After(target, l.Cur())));
    } else if target == l.Cur().id {
      RewindExact(l);
    }
  }

  lemma RewindExact<M>(l: Log<M>)
    requires |l.regions| > 0 && l.Cur().Valid() && ExactFrom(l.regions, 0)
    ensures ExactFrom(Rewind(l).regions, 0)
  {
    CurrentExact(l.regions, Rewind(l).regions);
  }

  lemma AppendExact(rs: seq<Region>, r: Region)
    requires |rs| > 0 && ExactFrom(rs, 0) && Last(rs).send.next == r.send.first
    ensures ExactFrom(rs[1..] + [r], 0)
  {
    var t := rs[1..] + [r];
    forall k | 0 <= k < |t| - 1 && t[k].Valid() ensures t[k].send.next == t[k + 1].send.first {
      assert t[k] == rs[k + 1];
      if k + 2 < |rs| { assert t[k + 1] == rs[k + 2]; }
    }
  }

  lemma EraseExact(rs: seq<Region>, begin: nat)
    requires begin <= |rs| && ExactFrom(rs, 0)
    ensures ExactFrom(Nones(|rs| - begin) + rs[..begin], 0)
  {
    var t, gap := Nones(|rs| - begin) + rs[..begin], |rs| - begin;
    forall k | 0 <= k < |t| - 1 && t[k].Valid() ensures t[k].send.next == t[k + 1].send.first {
      assert k >= gap && t[k] == rs[k - gap] && t[k + 1] == rs[k + 1 - gap];
    }
  }

  /** The step moves own's current region, in which nothing was ever sent or received, away from an older one:
      the partner knows the region and has received messages before it. */
  predicate Displaces(own: seq<Region>, from: seq<Region>)
    requires |own| > 0 && |from| > 0
  {
    && Last(own).Valid() && Last(from).Valid() && Last(own).Fresh() && Last(from).id >= Last(own).id
    && |own| >= 2 && own[|own| - 2].Valid()
    && var i := LowerBound(from, Last(own).id);
       i < |from| && from[i].id == Last(own).id && from[i].recv.first != 0
  }

  /** What the step does to the start of the first table's current region. */
  lemma {:induction false} FirstMoves(a: seq<Region>, b: seq<Region>)
    requires Exchanged(a) && Exchanged(b) && Agree(a, b).Ok? && Last(a).Valid()
    ensures var t, i := Agree(a, b).value.0, LowerBound(b, Last(a).id);
            var known := i < |b| && b[i].id == Last(a).id;
            var moves := Last(b).Valid() && Last(a).Fresh() && Last(b).id >= Last(a).id && known;
            && |t| == |a| && t == WithLast(a, Last(t))
            && Last(t).send.first == if moves then b[i].recv.first else Last(a).send.first
  {
    EndpointsAgree(a, b);
    AgreeMoves(a, b);
    if Last(b).Valid() && Last(b).id <= Last(a).id { BoundOfLast(a); }
  }

  /** Agreement keeps the regions exact, exactly unless it moves a region away from an older one. */
  lemma AgreeKeepsExact(a: seq<Region>, b: seq<Region>)
    requires Exchanged(a) && Exchanged(b) && Agree(a, b).Ok? && ExactFrom(a, 0)
    ensures ExactFrom(Agree(a, b).value.0, 0) <==> !Displaces(a, b)
  {
    var t := Agree(a, b).value.0;
    AgreeMoves(a, b);
    if Last(a).Valid() {
      FirstMoves(a, b);
      MovesExactly(a, t);
      if |a| >= 2 && a[|a| - 2].Valid() && Last(a).Fresh() { FreshBefore(a, |a| - 2); }
    }
  }

  lemma MovesExactly(a: seq<Region>, t: seq<Region>)
    requires |a| == |t| > 0 && t == WithLast(a, Last(t)) && ExactFrom(a, 0)
    ensures ExactFrom(t, 0) <==> |a| < 2 || !a[|a| - 2].Valid() || Last(t).send.first == Last(a).send.first
  {
    var n := |a| - 1;
    forall k | 0 <= k < n ensures t[k] == a[k] {}
    if |a| >= 2 && ExactFrom(t, 0) {
      assert t[n - 1] == a[n - 1] && t[n - 1 + 1] == Last(t) && a[n - 1 + 1] == Last(a);
    }
    if |a| < 2 || !a[|a| - 2].Valid() || Last(t).send.first == Last(a).send.first {
      forall k | 0 <= k < |t| - 1 && t[k].Valid() ensures t[k].send.next == t[k + 1].send.first {
        assert t[k] == a[k] && a[k].send.next == a[k + 1].send.first;
        if k + 1 < n { assert t[k + 1] == a[k + 1]; }
      }
    }
  }
}
