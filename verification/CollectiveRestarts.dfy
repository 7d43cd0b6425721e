/** Which recoveries bring a rank back, or put it, where its program is not: told from where the program began each
    region and from the table of the rank that has got furthest. */
module CollectiveRestarts {
  import opened MessageLog
  import opened Consistency
  import opened Collectives
  import opened CollectiveRuns

  /** Marks grow with their regions, up to the region the rank is in, which always has one. */
  ghost predicate Ordered<Op>(p: Proc<Op>) {
    && p.rank.inRegion in p.marks
    && (forall k :: k in p.marks ==> k <= p.rank.inRegion && 0 <= p.marks[k] <= p.at)
    && (forall j, k :: j in p.marks && k in p.marks && j <= k ==> p.marks[j] <= p.marks[k])
  }

  /** A region starts where the program began it; one it has not begun has no operations. */
  predicate MarkedAt<Op>(p: Proc<Op>, r: Region) {
    if r.id in p.marks then p.marks[r.id] == r.send.first else r.send.Empty()
  }

  /** A region the program has still to begin starts where the program is. */
  predicate AheadAt<Op>(p: Proc<Op>, r: Region) {
    r.id > p.rank.inRegion ==> r.send.first == p.at
  }

  ghost predicate OldMarked<Op>(p: Proc<Op>) {
    var rs := p.rank.log.regions;
    forall i :: 0 <= i < |rs| - 1 && rs[i].Valid() ==> MarkedAt(p, rs[i]) && AheadAt(p, rs[i])
  }

  ghost predicate Marked<Op>(p: Proc<Op>) {
    && |p.rank.log.regions| > 0 && Ordered(p) && OldMarked(p)
    && var c := p.rank.log.Cur();
       c.Valid() ==> MarkedAt(p, c) && AheadAt(p, c) && c.id >= p.rank.inRegion
  }

  /** Back, but not lined up yet: if nothing has happened in its region, the program stands where it began it. */
  ghost predicate Halfway<Op>(p: Proc<Op>) {
    && |p.rank.log.regions| > 0 && Ordered(p) && OldMarked(p)
    && var c := p.rank.log.Cur();
       if c.Valid() then
         c.id >= p.rank.inRegion
         && (if c.send.Empty() then c.id in p.marks ==> p.marks[c.id] == p.at else MarkedAt(p, c))
       else p.marks[p.rank.inRegion] == p.at
  }

  // ----- operations and regions -----

  lemma BeginMarked<Op>(p: Proc<Op>, f: int -> Op)
    requires Marked(p) && InStep(p, f) && BeginOp(p.rank, f(p.at)).Ok?
    ensures Marked(Proc(BeginOp(p.rank, f(p.at)).value, p.at + 1, p.marks))
  {
    var rs, e := p.rank.log.regions, EnsureRegion(p.rank.log, p.rank.inRegion);
    EnsureHeld(p.rank);
    var t := BeginOp(p.rank, f(p.at)).value.log.regions;
    if !p.rank.log.Cur().Valid() { BlankTable(rs); }
    forall i | 0 <= i < |t| - 1 && t[i].Valid() ensures t[i] == rs[i] && t[i].id < p.rank.inRegion {
      ChainOrder(e.regions, i, |t| - 1);
    }
  }

  lemma EndMarked<Op>(p: Proc<Op>)
    requires Marked(p) && EndOp(p.rank).Ok?
    ensures Marked(p.(rank := EndOp(p.rank).value))
  {
  }

  lemma MarkingOrdered<Op>(p: Proc<Op>, region: int, at: int, r: Rank<Op>)
    requires Ordered(p) && r.inRegion == region && p.MarkOf(region) <= at
    ensures Ordered(Proc(r, at, p.Marking(region)))
  {
  }

  /** A program begins its regions in order. */
  lemma NewRegionMarked<Op>(p: Proc<Op>, id: int, f: int -> Op)
    requires Marked(p) && InStep(p, f) && id >= p.rank.inRegion && NewRegion(p.rank, id).Ok?
    ensures Marked(Proc(NewRegion(p.rank, id).value, p.at, p.Marking(id)))
  {
    var t := NewRegion(p.rank, id).value;
    MarkingOrdered(p, id, p.at, t);
    if t.log != p.rank.log { AppendedMarked(p, id, t, f); }
  }

  lemma AppendedMarked<Op>(p: Proc<Op>, id: int, r: Rank<Op>, f: int -> Op)
    requires Marked(p) && InStep(p, f) && id >= p.rank.inRegion && NewRegion(p.rank, id) == Ok(r)
    requires p.rank.log.Cur().id < id && Ordered(Proc(r, p.at, p.Marking(id)))
    ensures Marked(Proc(r, p.at, p.Marking(id)))
  {
    var t, rs := Proc(r, p.at, p.Marking(id)), p.rank.log.regions;
    forall i | 0 <= i < |rs| - 1 && rs[i + 1].Valid()
      ensures MarkedAt(t, rs[i + 1]) && rs[i + 1].id < id && r.log.regions[i] == rs[i + 1]
    {
      assert MarkedAt(p, rs[i + 1]);
      if i + 1 < |rs| - 1 { ChainOrder(rs, i + 1, |rs| - 1); }
    }
  }

  // ----- going back -----

  /** l goes back to region target as t: the older regions are still those of l, and the current one is an older region
      of l, left as it was, or the current one of l, emptied, or else the very next one. */
  ghost predicate GoneBack<Op>(l: Log<Op>, target: int, t: Log<Op>) {
    && |t.regions| == |l.regions| > 0
    && (forall i :: 0 <= i < |t.regions| - 1 && t.regions[i].Valid() ==> t.regions[i] in l.regions)
    && var c := t.Cur();
       c.Valid() ==>
       && l.Cur().Valid() && c.id == target && c.send == c.recv
       && if target < l.Cur().id then c in l.regions
          else c.send == At(if target == l.Cur().id then l.Cur().send.first else l.Cur().send.next)
  }

  lemma ResetBack<Op>(l: Log<Op>, target: int)
    requires Chained(l.regions) && target >= 0 && ResetOps(l, target).Ok?
    ensures GoneBack(l, target, ResetOps(l, target).value)
  {
    var t, rs, n := ResetOps(l, target).value, l.regions, |l.regions|;
    assert l.Cur().send == l.Cur().recv;
    if !l.Cur().Valid() {
      BlankTable(rs);
    } else if target < l.Cur().id {
      var k := LowerBound(rs, target + 1);
      assert forall i :: 0 <= i < n - k ==> t.regions[i] == NONE;
      assert forall i :: n - k <= i < n ==> t.regions[i] == rs[i - (n - k)];
    } else if target > l.Cur().id {
      assert forall i :: 0 <= i < n - 1 ==> t.regions[i] == rs[i + 1];
    } else {
      assert forall i :: 0 <= i < n - 1 ==> t.regions[i] == rs[i];
    }
  }

  lemma WasMarked<Op>(p: Proc<Op>, r: Region)
    requires Marked(p) && r.Valid() && r in p.rank.log.regions
    ensures MarkedAt(p, r) && AheadAt(p, r)
  {
    var rs := p.rank.log.regions;
    var i :| 0 <= i < |rs| && rs[i] == r;
  }

  lemma GoneBackMarked<Op>(p: Proc<Op>, target: int, r: Rank<Op>, f: int -> Op)
    requires Marked(p) && InStep(p, f) && r.inRegion == target && Held(r) && GoneBack(p.rank.log, target, r.log)
    requires target > p.rank.log.Cur().id ==> p.rank.active.None?
    ensures Halfway(p.Restart(r, target))
  {
    var rs, t := r.log.regions, p.Restart(r, target);
    MarkingOrdered(p, target, t.at, r);
    if !r.log.Cur().Valid() { BlankTable(rs); }
    forall i | 0 <= i < |rs| - 1 && rs[i].Valid() ensures MarkedAt(t, rs[i]) && rs[i].id < target {
      ChainOrder(rs, i, |rs| - 1);
      WasMarked(p, rs[i]);
    }
    var c := r.log.Cur();
    if c.Valid() && target < p.rank.log.Cur().id { WasMarked(p, c); }
  }

  /** The state a rank comes back from. */
  function Source<Op>(p: Proc<Op>, back: Back): Proc<Op>
    requires back.Load? ==> |back.regions| > 0
  {
    if back.Load? then FromTable(back.regions, back.inRegion, back.marks) else p
  }

  ghost predicate MarkedSaved<Op>(back: Back) {
    back.Load? && |back.regions| > 0 ==> Marked<Op>(FromTable(back.regions, back.inRegion, back.marks))
  }

  lemma FromTableInStep<Op>(rs: seq<Region>, inRegion: int, marks: map<int, int>, f: int -> Op)
    requires Chained(rs) && Last(rs).Valid() && inRegion >= 0
    ensures InStep(FromTable(rs, inRegion, marks), f)
  {
  }

  lemma GoBackHalfway<Op>(p: Proc<Op>, target: int, f: int -> Op)
    requires Marked(p) && InStep(p, f) && target >= -1 && GoBack(p, target).Ok?
    ensures Halfway(GoBack(p, target).value)
  {
    GoBackHeld(p, target);
    if target >= 0 {
      ResetBack(p.rank.log, target);
      GoneBackMarked(p, target, GoBack(p, target).value.rank, f);
    }
  }

  lemma LostHalfway<Op>(p: Proc<Op>, region: int)
    requires Marked(p)
    ensures Halfway(Return(p, Lose(region)).value)
  {
    MarkingOrdered(p, region, p.MarkOf(region), Return(p, Lose(region)).value.rank);
  }

  lemma ReturnHalfway<Op>(p: Proc<Op>, back: Back, f: int -> Op)
    requires Marked(p) && InStep(p, f) && Returns(p, back) && MarkedSaved<Op>(back)
    ensures Halfway(Return(p, back).value)
  {
    match back
    case Stay => GoBackHalfway(p, -1, f);
    case GoTo(target) => GoBackHalfway(p, target, f);
    case Load(rs, inRegion, marks, target) =>
      FromTableInStep(rs, inRegion, marks, f);
      GoBackHalfway(FromTable<Op>(rs, inRegion, marks), target, f);
    case Lose(inRegion) => LostHalfway(p, inRegion);
  }

  // ----- lining up -----

  lemma SameMarked<Op>(p: Proc<Op>)
    requires Halfway(p) && Held(p.rank) && p.rank.log.Cur().Valid() && p.at == p.rank.Next()
    ensures Marked(p)
  {
    assert p.rank.log.Cur().send == p.rank.log.Cur().recv;
  }

  lemma StartMarked<Op>(p: Proc<Op>, id: int, first: int)
    requires Halfway(p) && Held(p.rank)
    requires id == if p.rank.log.Cur().Valid() then p.rank.log.Cur().id else p.rank.inRegion
    requires StartAt(p.rank, id, first).Ok?
    requires first >= 0 && |StartAt(p.rank, id, first).value.log.regions| > 0
    requires p.at == StartAt(p.rank, id, first).value.Next()
    ensures Marked(p.(rank := StartAt(p.rank, id, first).value))
  {
    var r, rs := StartAt(p.rank, id, first).value, p.rank.log.regions;
    if r == p.rank {
      SameMarked(p);
    } else {
      if !p.rank.log.Cur().Valid() { BlankTable(rs); }
      assert forall i :: 0 <= i < |rs| - 1 ==> r.log.regions[i] == rs[i];
    }
  }

  lemma AppendMarked<Op>(p: Proc<Op>, id: int)
    requires Halfway(p) && Held(p.rank) && p.rank.log.Cur().Valid() && id > p.rank.log.Cur().id
    requires p.at == p.rank.Next()
    ensures Marked(p.(rank := p.rank.(log := MessageLog.AppendRegion(p.rank.log, After(id, p.rank.log.Cur())))))
  {
    var rs, t := p.rank.log.regions, MessageLog.AppendRegion(p.rank.log, After(id, p.rank.log.Cur())).regions;
    SameMarked(p);
    assert forall i :: 0 <= i < |rs| - 1 ==> t[i] == rs[i + 1];
  }

  lemma AlignMarked<Op>(p: Proc<Op>, t: Proc<Op>, latest: Rank<Op>, f: int -> Op)
    requires Halfway(p) && Held(p.rank) && Held(latest) && LinedUpWith(p, t, latest) && InStep(t, f)
    ensures Marked(t)
  {
    LatestIsTable(latest);
    var cur, rs := p.rank.log.Cur(), latest.log.regions;
    var id := if cur.Valid() then cur.id else p.rank.inRegion;
    var i := LowerBound(rs, id);
    if i == |rs| {
      StartMarked(p, id, latest.Next());
    } else if rs[i].id == id {
      StartMarked(p, id, rs[i].send.first);
    } else {
      AppendMarked(p, rs[i].id);
    }
  }

  lemma OneMarked<Op>(ps: seq<Proc<Op>>, t: seq<Proc<Op>>, i: nat, f: int -> Op)
    requires |t| == |ps| && HaveTables(ps) && i < |ps| && LinedUpAt(ps, t, i)
    requires Halfway(ps[i]) && Held(ps[i].rank) && Held(ps[Furthest(ps)].rank) && InStep(t[i], f)
    ensures Marked(t[i])
  {
    if AnyStarted(ps) { AlignMarked(ps[i], t[i], ps[Furthest(ps)].rank, f); } else { SameMarked(ps[i]); }
  }

  // ----- which recoveries stray -----

  /** It stays, or goes back to a region its program has begun, or goes on to a later one. */
  predicate Reachable<Op>(p: Proc<Op>, target: int) {
    target < 0 || target in p.marks || target > p.rank.inRegion
  }

  /** A rank comes back as r. If something was done up to its region, it has been sent back to an older region that is
      not empty, whose index stays at the end. If nothing was, or its log is gone, the furthest rank's table has its
      region start elsewhere than its program began it; for a region past that table, that rank has got elsewhere. */
  ghost predicate Misplaced<Op>(p: Proc<Op>, r: Rank<Op>, ps: seq<Proc<Op>>)
    requires HaveTables(ps) && |r.log.regions| > 0 && |p.rank.log.regions| > 0
  {
    var c, latest := r.log.Cur(), ps[Furthest(ps)].rank;
    if c.Valid() && !c.Fresh() then c.id < p.rank.log.Cur().id && c.send.first < c.send.next
    else if AnyStarted(ps) then
      PutAt(r, latest.log.regions, latest.Next()) != if c.Valid() then 0 else p.MarkOf(r.inRegion)
    else !c.Valid() && p.MarkOf(r.inRegion) != 0
  }

  /** A rank in step that stays, goes back, or goes on, against the three ways to be misplaced. */
  lemma GoingBackExact<Op>(p: Proc<Op>, target: int, ps: seq<Proc<Op>>, f: int -> Op)
    requires Marked(p) && InStep(p, f) && target >= -1 && Reachable(p, target) && GoBack(p, target).Ok?
    requires HaveTables(ps)
    ensures var q := GoBack(p, target).value;
            |q.rank.log.regions| > 0 && (Off(q, ps) <==> Misplaced(p, q.rank, ps))
  {
    var q, l := GoBack(p, target).value, p.rank.log;
    GoBackHeld(p, target);
    assert l.Cur().send == l.Cur().recv;
    if target >= 0 {
      ResetBack(l, target);
      var c := q.rank.log.Cur();
      if c.Valid() && target < l.Cur().id { WasMarked(p, c); }
    }
  }

  /** A lost rank is off exactly when it is not put where its program had begun its region. */
  lemma LostExact<Op>(p: Proc<Op>, region: int, ps: seq<Proc<Op>>)
    requires Marked(p) && HaveTables(ps)
    ensures var q := Return(p, Lose(region)).value;
            |q.rank.log.regions| > 0 && (Off(q, ps) <==> Misplaced(p, q.rank, ps))
  {
  }

  predicate Goable<Op>(p: Proc<Op>, back: Back)
    requires back.Load? ==> |back.regions| > 0
  {
    match back
    case GoTo(target) => Reachable(p, target)
    case Load(rs, inRegion, marks, target) => Reachable(FromTable<Op>(rs, inRegion, marks), target)
    case _ => true
  }

  lemma ReturnOff<Op>(p: Proc<Op>, back: Back, ps: seq<Proc<Op>>, f: int -> Op)
    requires Marked(p) && InStep(p, f) && Returns(p, back) && MarkedSaved<Op>(back) && Goable(p, back) && HaveTables(ps)
    ensures var q := Return(p, back).value;
            && |q.rank.log.regions| > 0 && |Source(p, back).rank.log.regions| > 0
            && (Off(q, ps) <==> Misplaced(Source(p, back), q.rank, ps))
  {
    match back
    case Stay => GoingBackExact(p, -1, ps, f);
    case GoTo(target) => GoingBackExact(p, target, ps, f);
    case Load(rs, inRegion, marks, target) =>
      FromTableInStep(rs, inRegion, marks, f);
      GoingBackExact(FromTable<Op>(rs, inRegion, marks), target, ps, f);
    case Lose(inRegion) => LostExact(p, inRegion, ps);
  }

  // ----- runs -----

  ghost predicate AllMarked<Op>(s: seq<Proc<Op>>) {
    forall i :: 0 <= i < |s| ==> Marked(s[i])
  }

  /** Programs begin their regions in order, and saved states kept their marks. */
  ghost predicate Orderly<Op>(s: seq<Proc<Op>>, step: Step) {
    match step
    case NewRegionOf(i, id) => i < |s| && id >= s[i].rank.inRegion
    case Recover(backs) => forall i :: 0 <= i < |backs| ==> MarkedSaved<Op>(backs[i])
    case _ => true
  }

  lemma RecoverMarked<Op>(s: seq<Proc<Op>>, backs: seq<Back>, t: seq<Proc<Op>>, f: int -> Op)
    requires AllInStep(s, f) && AllMarked(s) && CanReturn(s, backs) && LinedUp(Returned(s, backs), t)
    requires AllInStep(t, f) && Orderly(s, Recover(backs))
    ensures AllMarked(t)
  {
    var ps := Returned(s, backs);
    RecoverExact(s, backs, t, f);
    forall i | 0 <= i < |s| ensures Marked(t[i]) {
      assert Returns(s[i], backs[i]) && LinedUpAt(ps, t, i) && MarkedSaved<Op>(backs[i]);
      ReturnHalfway(s[i], backs[i], f);
      OneMarked(ps, t, i, f);
    }
  }

  lemma StepMarked<Op>(s: seq<Proc<Op>>, step: Step, t: seq<Proc<Op>>, f: int -> Op)
    requires AllInStep(s, f) && AllMarked(s) && AllInStep(t, f) && Orderly(s, step) && Goes(s, step, t, f)
    ensures AllMarked(t)
  {
    match step
    case Begin(i) => BeginMarked(s[i], f);
    case End(i) => EndMarked(s[i]);
    case NewRegionOf(i, id) => NewRegionMarked(s[i], id, f);
    case Recover(backs) => RecoverMarked(s, backs, t, f);
  }

  lemma {:induction false} MarkedRun<Op>(states: seq<seq<Proc<Op>>>, steps: seq<Step>, f: int -> Op, n: nat)
    requires Runs(states, steps, f) && Begins(states[0]) && n <= |steps|
    requires forall i :: 0 <= i < n ==> !Strays(states[i], steps[i]) && Orderly(states[i], steps[i])
    ensures AllInStep(states[n], f) && AllMarked(states[n])
  {
    InStepAt(states, steps, f, n);
    if n == 0 {
      forall i | 0 <= i < |states[0]| ensures Marked(states[0][i]) { assert IsNew(states[0][i]); }
    } else {
      MarkedRun(states, steps, f, n - 1);
      assert Goes(states[n - 1], steps[n - 1], states[n], f);
      StepMarked(states[n - 1], steps[n - 1], states[n], f);
    }
  }

  lemma ReturnedTables<Op>(s: seq<Proc<Op>>, backs: seq<Back>)
    requires EachHeld(s) && CanReturn(s, backs)
    ensures HaveTables(Returned(s, backs))
  {
    forall i | 0 <= i < |s| ensures |Returned(s, backs)[i].rank.log.regions| > 0 {
      assert Returns(s[i], backs[i]);
      ReturnHeld(s[i], backs[i]);
    }
  }

  ghost predicate MisplacedAt<Op>(s: seq<Proc<Op>>, backs: seq<Back>, i: nat)
    requires CanReturn(s, backs) && HaveTables(Returned(s, backs)) && i < |s|
  {
    var ps := Returned(s, backs);
    && (backs[i].Load? ==> |backs[i].regions| > 0) && |Source(s[i], backs[i]).rank.log.regions| > 0
    && Misplaced(Source(s[i], backs[i]), ps[i].rank, ps)
  }

  ghost predicate AllGoable<Op>(s: seq<Proc<Op>>, backs: seq<Back>)
    requires CanReturn(s, backs)
  {
    forall i :: 0 <= i < |s| ==> Returns(s[i], backs[i]) && Goable(s[i], backs[i])
  }

  lemma RecoveryStrays<Op>(s: seq<Proc<Op>>, backs: seq<Back>, f: int -> Op)
    requires AllInStep(s, f) && AllMarked(s) && CanReturn(s, backs) && Orderly(s, Recover(backs)) && AllGoable(s, backs)
    ensures HaveTables(Returned(s, backs))
    ensures forall i :: 0 <= i < |s| ==> (StraysAt(s, backs, i) <==> MisplacedAt(s, backs, i))
  {
    ReturnedTables(s, backs);
    forall i | 0 <= i < |s| ensures StraysAt(s, backs, i) <==> MisplacedAt(s, backs, i) {
      assert Returns(s[i], backs[i]) && MarkedSaved<Op>(backs[i]);
      ReturnOff(s[i], backs[i], Returned(s, backs), f);
    }
  }

  /** Which recovery brings a rank back, or puts it, where its program is not, after any run in which none has and
      regions were begun in order: one that sends a rank back to an older region that is not empty, or one in which
      the furthest rank has a region start elsewhere than the program had recorded. */
  lemma StraysExact<Op>(states: seq<seq<Proc<Op>>>, steps: seq<Step>, backs: seq<Back>, f: int -> Op)
    requires Runs(states, steps, f) && Begins(states[0])
    requires forall i :: 0 <= i < |steps| ==> !Strays(states[i], steps[i]) && Orderly(states[i], steps[i])
    requires var s := states[|steps|];
      Orderly(s, Recover(backs)) && CanReturn(s, backs) && AllGoable(s, backs)
    ensures var s := states[|steps|];
            && HaveTables(Returned(s, backs))
            && (Strays(s, Recover(backs)) <==> exists i :: 0 <= i < |s| && MisplacedAt(s, backs, i))
  {
    MarkedRun(states, steps, f, |steps|);
    var s := states[|steps|];
    RecoveryStrays(s, backs, f);
  }
}
