/** Where a program that comes back stands against its log: which failures break delivery, told from the counts
    recorded when each region began and from what the partner's table says of that region. */
module MessageRestarts {
  import opened MessageLog
  import opened Consistency
  import opened MessageReplay
  import opened MessageDelivery

  predicate Within(a: Mark, b: Mark) {
    a.sent <= b.sent && a.got <= b.got
  }

  function StartOf(r: Region): Mark { Mark(r.send.first, r.recv.first) }

  const ZERO: Mark := Mark(0, 0)

  /** Marks grow with their regions, up to the active region, whose mark there always is. */
  ghost predicate Ordered<M>(p: Program<M>) {
    && p.end.active in p.marks
    && (forall k :: k in p.marks ==> k <= p.end.active && Within(ZERO, p.marks[k]) && Within(p.marks[k], p.Now()))
    && (forall j, k :: j in p.marks && k in p.marks && j <= k ==> Within(p.marks[j], p.marks[k]))
  }

  /** Every region before the current one, if the program began it, starts in the log where the program began it. */
  ghost predicate OldMarked<M>(p: Program<M>) {
    var rs := p.end.log.regions;
    forall i :: 0 <= i < |rs| - 1 && rs[i].Valid() ==> MarkedAt(p, rs[i]) && rs[i].id <= p.end.active
  }

  predicate MarkedAt<M>(p: Program<M>, r: Region) {
    r.id in p.marks ==> p.marks[r.id] == StartOf(r)
  }

  /** So does every region of the log, the current one included. */
  ghost predicate Marked<M>(p: Program<M>) {
    && |p.end.log.regions| > 0 && Ordered(p) && OldMarked(p)
    && (p.end.log.Cur().Valid() ==> MarkedAt(p, p.end.log.Cur()) && p.end.log.Cur().id >= p.end.active)
  }

  /** Back, but before the step: if nothing has happened in its region yet, it stands where it began it. */
  ghost predicate Halfway<M>(p: Program<M>) {
    && |p.end.log.regions| > 0 && Ordered(p) && OldMarked(p)
    && var c := p.end.log.Cur();
       if c.Valid() then
         c.id >= p.end.active && (if c.Empty() then c.id in p.marks ==> p.marks[c.id] == p.Now() else MarkedAt(p, c))
       else p.marks[p.end.active] == p.Now()
  }

  // ----- traffic -----

  lemma GiveMarked<M>(p: Program<M>, chan: seq<M>, f: int -> M, g: int -> M)
    requires Marked(p) && InStep(p, g) && Give(p, chan, f).Ok?
    ensures Marked(Give(p, chan, f).value.0)
  {
    var t, e := Give(p, chan, f).value.0, EnsureRegion(p.end.log, p.end.active);
    OldOnes(p, e);
    assert forall i :: 0 <= i < |e.regions| - 1 ==> t.end.log.regions[i] == e.regions[i];
  }

  lemma TakeMarked<M>(p: Program<M>, chan: seq<M>, g: int -> M)
    requires Marked(p) && InStep(p, g) && Take(p, chan).Ok?
    ensures Marked(Take(p, chan).value.0)
  {
    var t, e := Take(p, chan).value.0, EnsureRegion(p.end.log, p.end.active);
    OldOnes(p, e);
    assert forall i :: 0 <= i < |e.regions| - 1 ==> t.end.log.regions[i] == e.regions[i];
  }

  lemma OldOnes<M>(p: Program<M>, e: Log<M>)
    requires Marked(p) && e == EnsureRegion(p.end.log, p.end.active)
    ensures forall i :: 0 <= i < |e.regions| - 1 && e.regions[i].Valid() ==>
      MarkedAt(p, e.regions[i]) && e.regions[i].id <= p.end.active
  {
    var rs := p.end.log.regions;
    if !p.end.log.Cur().Valid() { assert forall i :: 0 <= i < |rs| - 1 ==> e.regions[i] == rs[i + 1]; }
  }

  /** A program begins its regions in order. */
  lemma EnterMarked<M>(p: Program<M>, id: int, g: int -> M)
    requires Marked(p) && InStep(p, g) && WellFormed(p.end.log) && id >= p.end.active && Enter(p, id).Ok?
    ensures Marked(Enter(p, id).value)
  {
    var t, rs := Enter(p, id).value, p.end.log.regions;
    MarkingOrdered(p, id, t.end);
    if t.end.log != p.end.log { assert forall i :: 0 <= i < |rs| - 1 ==> t.end.log.regions[i] == rs[i + 1]; }
  }

  lemma MarkingOrdered<M>(p: Program<M>, id: int, e: Endpoint<M>)
    requires Ordered(p) && e.active == id
    ensures Ordered(p.(end := e, marks := p.Marking(id)))
  {
  }

  // ----- rolling back -----

  /** l goes back to region target as t: the older regions are still those of l, and the current one is the region l
      had under that id, emptied, or else the very next one. */
  ghost predicate GoneBack<M>(l: Log<M>, target: int, t: Log<M>) {
    && |t.regions| == |l.regions| > 0
    && (forall i :: 0 <= i < |t.regions| - 1 && t.regions[i].Valid() ==> t.regions[i] in l.regions)
    && (t.Cur().Valid() ==> l.Cur().Valid() && t.Cur().id == target && t.Cur().Empty() && Home(l, target, t.Cur()))
  }

  ghost predicate Home<M>(l: Log<M>, target: int, r: Region)
    requires |l.regions| > 0
  {
    if target > l.Cur().id then StartOf(r) == StandsAt(l.Cur())
    else exists i :: 0 <= i < |l.regions| && l.regions[i].id == target && StartOf(l.regions[i]) == StartOf(r)
  }

  lemma RewindBack<M>(l: Log<M>, e: Log<M>, target: int)
    requires |e.regions| == |l.regions| > 0 && l.Cur().Valid() && e.Cur().Valid() && e.Cur().id == target
    requires Chain(e.regions)
    requires forall i :: 0 <= i < |e.regions| - 1 && e.regions[i].Valid() ==> e.regions[i] in l.regions
    requires Home(l, target, e.Cur())
    ensures GoneBack(l, target, Rewind(e))
  {
    var t := Rewind(e);
    forall i | 0 <= i < |t.regions| - 1 && t.regions[i].Valid() ensures t.regions[i] in l.regions {
      assert t.regions[i] == e.regions[i];
    }
    assert StartOf(t.Cur()) == StartOf(e.Cur());
  }

  lemma EraseBack<M>(l: Log<M>, target: int, e: Log<M>)
    requires WellFormed(l) && l.Cur().Valid() && 0 <= target < l.Cur().id && Reset(l, target).Ok?
    requires e == EraseFrom(l, LowerBound(l.regions, target + 1))
    ensures GoneBack(l, target, Reset(l, target).value)
  {
    var n, k := |l.regions|, LowerBound(l.regions, target + 1);
    assert forall i :: 0 <= i < n - k ==> e.regions[i] == NONE;
    assert forall i :: n - k <= i < n ==> e.regions[i] == l.regions[i - (n - k)];
    EraseKeeps(l, k);
    if e.Cur().Valid() { RewindBack(l, e, target); }
  }

  lemma NextBack<M>(l: Log<M>, target: int)
    requires WellFormed(l) && l.Cur().Valid() && target > l.Cur().id
    ensures GoneBack(l, target, Reset(l, target).value)
  {
    var e := AppendRegion(l, After(target, l.Cur()));
    AppendKeeps(l, After(target, l.Cur()));
    assert forall i :: 0 <= i < |e.regions| - 1 ==> e.regions[i] == l.regions[i + 1];
    RewindBack(l, e, target);
  }

  lemma ResetBack<M>(l: Log<M>, target: int)
    requires WellFormed(l) && target >= 0 && Reset(l, target).Ok?
    ensures GoneBack(l, target, Reset(l, target).value)
  {
    if !l.Cur().Valid() {
      NoSends(l);
    } else if target < l.Cur().id {
      EraseBack(l, target, EraseFrom(l, LowerBound(l.regions, target + 1)));
    } else if target > l.Cur().id {
      NextBack(l, target);
    } else {
      assert l.regions[|l.regions| - 1].id == target;
      RewindBack(l, l, target);
    }
  }

  /** The program restarts where it began the region, and then has sent and got what it had by then. */
  lemma RestartStands<M>(p: Program<M>, region: int)
    requires Ordered(p)
    ensures Restart(p, region).Now() == p.MarkOf(region)
    ensures forall e: Endpoint<M> :: e.active == region ==> Ordered(Restart(p, region).(end := e))
  {
  }

  lemma GoneBackMarked<M>(p: Program<M>, target: int, e: Endpoint<M>)
    requires Marked(p) && e.active == target && WellFormed(e.log) && GoneBack(p.end.log, target, e.log)
    ensures Halfway(Restart(p, target).(end := e))
  {
    var rs, t := e.log.regions, Restart(p, target).(end := e);
    RestartStands(p, target);
    if !e.log.Cur().Valid() { NoSends(e.log); }
    forall i | 0 <= i < |rs| - 1 && rs[i].Valid() ensures MarkedAt(t, rs[i]) && rs[i].id <= target {
      ChainOrder(rs, i, |rs| - 1);
      assert MarkedAt(p, rs[i]) by { WasMarked(p, rs[i]); }
    }
  }

  lemma WasMarked<M>(p: Program<M>, r: Region)
    requires Marked(p) && r.Valid() && r in p.end.log.regions
    ensures MarkedAt(p, r)
  {
    var rs := p.end.log.regions;
    var i :| 0 <= i < |rs| && rs[i] == r;
  }

  lemma ReviveHalfway<M>(p: Program<M>, target: int, g: int -> M)
    requires Marked(p) && InStep(p, g) && WellFormed(p.end.log) && target >= -1 && Revive(p, target).Ok?
    ensures Halfway(Revive(p, target).value)
  {
    if target >= 0 {
      ResetKeeps(p.end.log, target);
      ResetBack(p.end.log, target);
      GoneBackMarked(p, target, Return(p.end, Keep(target)).value);
    }
  }

  lemma DeadHalfway<M>(p: Program<M>, region: int)
    requires Marked(p) && HasTable(p, Dead(region))
    ensures Halfway(ComeBack(p, Dead(region)).value)
  {
    RestartStands(p, region);
  }

  ghost predicate MarkedSaved<M>(c: Back<M>) {
    c.Saved? ==> Marked(c.saved)
  }

  lemma ComeBackHalfway<M>(p: Program<M>, c: Back<M>, f: int -> M, g: int -> M)
    requires Marked(p) && InStep(p, g) && WellFormed(p.end.log) && HasTable(p, c) && SaneBack(c, f, g) && MarkedSaved(c)
    requires ComeBack(p, c).Ok?
    ensures Halfway(ComeBack(p, c).value)
  {
    match c
    case Alive(target) => ReviveHalfway(p, target, g);
    case Saved(saved, target) => ReviveHalfway(saved, target, g);
    case Dead(region) => DeadHalfway(p, region);
  }

  // ----- the step -----

  /** A table that only names the active region is told that region, or a later one. */
  lemma ToldLater(a: seq<Region>, b: seq<Region>)
    requires Exchanged(a) && Exchanged(b) && Agree(a, b).Ok?
    ensures |Agree(a, b).value.0| > 0 && Last(Agree(a, b).value.0).id >= Last(a).id
  {
    EndpointsAgree(a, b);
    AgreeMoves(a, b);
  }

  lemma MetMarked<M>(p: Program<M>, l: Log<M>)
    requires Halfway(p) && WellFormed(p.end.log) && Moved(Table(p.end.log, p.end.active), l.regions)
    requires l.Cur().id >= p.end.active && p.Now() == Mark(l.NextSend(), l.NextRecv())
    ensures Marked(p.(end := p.end.(log := l)))
  {
    var rs, t := Table(p.end.log, p.end.active), p.(end := p.end.(log := l));
    assert forall i :: 0 <= i < |rs| - 1 ==> l.regions[i] == p.end.log.regions[i];
  }

  lemma SynchroniseMarked<M>(p: Program<M>, from: Endpoint<M>, l: Log<M>)
    requires Halfway(p) && WellFormed(p.end.log) && WellFormed(from.log) && p.end.active >= 0 && from.active >= 0
    requires Synchronise(p.end.log, p.end.active, Table(from.log, from.active)) == Ok(l) && !Off(p, from.log)
    ensures Marked(p.(end := p.end.(log := l)))
  {
    var a, b := Table(p.end.log, p.end.active), Table(from.log, from.active);
    TableExchanged(p.end.log, p.end.active);
    TableExchanged(from.log, from.active);
    ResumesThere(p.end.log, p.end.active, from.log, from.active);
    AgreeMoves(a, b);
    ToldLater(a, b);
    MetMarked(p, l);
  }

  lemma MeetMarked<M>(a: Program<M>, b: Program<M>)
    requires Halfway(a) && Halfway(b) && WellFormed(a.end.log) && WellFormed(b.end.log)
    requires a.end.active >= 0 && b.end.active >= 0 && Meet(a, b).Ok? && !Off(a, b.end.log) && !Off(b, a.end.log)
    ensures Marked(Meet(a, b).value.a) && Marked(Meet(a, b).value.b)
  {
    if a.end.log.Cur().Valid() || b.end.log.Cur().Valid() {
      var t := Meet(a, b).value;
      SynchroniseMarked(a, b.end, t.a.end.log);
      SynchroniseMarked(b, a.end, t.b.end.log);
    }
  }

  // ----- which failures break delivery -----

  /** The state a side comes back from. */
  function Source<M>(p: Program<M>, c: Back<M>): Program<M> {
    if c.Saved? then c.saved else p
  }

  /** It stays where it is, or goes back to a region its program has begun, or goes on to one after all it has. */
  predicate Reachable<M>(p: Program<M>, target: int)
    requires |p.end.log.regions| > 0
  {
    target < 0 || target in p.marks || target > p.end.log.Cur().id
  }

  /** Side p comes back with log and active region e. A log that still has the region is moved only if nothing was ever
      sent or received in it and the partner knows it to start elsewhere; without one, the partner's table must have
      the region start where the program had recorded it, or not know it and the program had done nothing by then. */
  predicate Misplaced<M>(p: Program<M>, e: Endpoint<M>, from: Log<M>)
    requires |e.log.regions| > 0 && |from.regions| > 0
  {
    var c := e.log.Cur();
    if c.Valid() then from.Cur().Valid() && c.Fresh() && from.Cur().id >= c.id && KnownStart(from.regions, c.id) != ZERO
    else (if from.Cur().Valid() then KnownStart(from.regions, e.active) else ZERO) != p.MarkOf(e.active)
  }

  /** Going back keeps a program with its log, as long as the log goes back that far. */
  lemma BackInStep<M>(p: Program<M>, target: int, g: int -> M)
    requires Marked(p) && InStep(p, g) && WellFormed(p.end.log) && target >= 0 && Reachable(p, target)
    requires Revive(p, target).Ok? && Revive(p, target).value.end.log.Cur().Valid()
    ensures var r := Revive(p, target).value; r.Now() == Mark(r.end.log.NextSend(), r.end.log.NextRecv())
  {
    var l, t := p.end.log, Reset(p.end.log, target).value;
    ResetBack(l, target);
    RestartStands(p, target);
    if target <= l.Cur().id {
      var i :| 0 <= i < |l.regions| && l.regions[i].id == target && StartOf(l.regions[i]) == StartOf(t.Cur());
      WasMarked(p, l.regions[i]);
    }
  }

  lemma ReviveOff<M>(p: Program<M>, target: int, from: Log<M>, g: int -> M)
    requires Marked(p) && InStep(p, g) && WellFormed(p.end.log) && target >= -1 && Reachable(p, target)
    requires Revive(p, target).Ok? && |from.regions| > 0
    ensures var r := Revive(p, target).value; |r.end.log.regions| > 0 && (Off(r, from) <==> Misplaced(p, r.end, from))
  {
    var r := Revive(p, target).value;
    if target >= 0 {
      ResetBack(p.end.log, target);
      RestartStands(p, target);
      if r.end.log.Cur().Valid() { BackInStep(p, target, g); }
    }
  }

  lemma DeadOff<M>(p: Program<M>, region: int, from: Log<M>)
    requires Marked(p) && |from.regions| > 0
    ensures var r := ComeBack(p, Dead(region)).value;
            |r.end.log.regions| > 0 && (Off(r, from) <==> Misplaced(p, r.end, from))
  {
    RestartStands(p, region);
  }

  predicate Goable<M>(p: Program<M>, c: Back<M>)
    requires HasTable(p, c)
  {
    match c
    case Alive(target) => Reachable(p, target)
    case Saved(saved, target) => Reachable(saved, target)
    case Dead(region) => true
  }

  lemma ComeBackOff<M>(p: Program<M>, c: Back<M>, from: Log<M>, f: int -> M, g: int -> M)
    requires Marked(p) && InStep(p, g) && WellFormed(p.end.log) && HasTable(p, c) && SaneBack(c, f, g) && MarkedSaved(c)
    requires Goable(p, c) && ComeBack(p, c).Ok? && |from.regions| > 0
    ensures var r := ComeBack(p, c).value;
            |r.end.log.regions| > 0 && (Off(r, from) <==> Misplaced(Source(p, c), r.end, from))
  {
    match c
    case Alive(target) => ReviveOff(p, target, from, g);
    case Saved(saved, target) => ReviveOff(saved, target, from, g);
    case Dead(region) => DeadOff(p, region, from);
  }

  // ----- runs -----

  ghost predicate Settled<M>(w: Pair<M>, f: int -> M, g: int -> M) {
    Sound(w, f, g) && Marked(w.a) && Marked(w.b)
  }

  /** Programs begin their regions in order, and saved states kept their marks. */
  ghost predicate Orderly<M>(w: Pair<M>, act: Act<M>) {
    match act
    case EnterA(id) => id >= w.a.end.active
    case EnterB(id) => id >= w.b.end.active
    case Crash(ca, cb) => MarkedSaved(ca) && MarkedSaved(cb)
    case _ => true
  }

  lemma OpensSettled<M>(w: Pair<M>, f: int -> M, g: int -> M)
    requires Opens(w)
    ensures Settled(w, f, g)
  {
    OpensSound(w, f, g);
  }

  lemma CrashMarked<M>(w: Pair<M>, act: Act<M>, t: Pair<M>, f: int -> M, g: int -> M)
    requires Settled(w, f, g) && act.Crash? && Acts(w, act, t, f, g) && Orderly(w, act) && !Breaks(w, act)
    ensures Marked(t.a) && Marked(t.b)
  {
    ComeBackPrefix(w.a, act.ca, f, g);
    ComeBackPrefix(w.b, act.cb, g, f);
    ComeBackHalfway(w.a, act.ca, f, g);
    ComeBackHalfway(w.b, act.cb, g, f);
    MeetMarked(ComeBack(w.a, act.ca).value, ComeBack(w.b, act.cb).value);
  }

  lemma TrafficMarked<M>(w: Pair<M>, act: Act<M>, t: Pair<M>, f: int -> M, g: int -> M)
    requires Settled(w, f, g) && !act.Crash? && Acts(w, act, t, f, g) && Orderly(w, act)
    ensures Marked(t.a) && Marked(t.b)
  {
    match act
    case GiveA => GiveMarked(w.a, w.toB, f, g);
    case GiveB => GiveMarked(w.b, w.toA, g, f);
    case TakeA => TakeMarked(w.a, w.toA, g);
    case TakeB => TakeMarked(w.b, w.toB, f);
    case EnterA(id) => EnterMarked(w.a, id, g);
    case EnterB(id) => EnterMarked(w.b, id, f);
  }

  lemma {:induction false} SettledAt<M>(states: seq<Pair<M>>, acts: seq<Act<M>>, f: int -> M, g: int -> M, n: nat)
    requires History(states, acts, f, g) && Opens(states[0]) && n <= |acts|
    requires forall i :: 0 <= i < n ==>
      Ready(states[i], acts[i]) && !Breaks(states[i], acts[i]) && Orderly(states[i], acts[i])
    ensures Settled(states[n], f, g)
  {
    if n == 0 {
      OpensSettled(states[0], f, g);
    } else {
      SettledAt(states, acts, f, g, n - 1);
      var w, act, t := states[n - 1], acts[n - 1], states[n];
      ActSound(w, act, t, f, g);
      if act.Crash? { CrashMarked(w, act, t, f, g); } else { TrafficMarked(w, act, t, f, g); }
    }
  }

  /** Which failure breaks delivery, after any run in which none has and regions were begun in order: one that leaves
      neither side a valid region while one remembers its partner, or one that misplaces a side. For a side whose log
      is gone that says that its partner's table has its region start elsewhere than its program had recorded. */
  lemma BreaksExact<M>(states: seq<Pair<M>>, acts: seq<Act<M>>, act: Act<M>, f: int -> M, g: int -> M)
    requires History(states, acts, f, g) && Opens(states[0])
    requires forall i :: 0 <= i < |acts| ==>
      Ready(states[i], acts[i]) && !Breaks(states[i], acts[i]) && Orderly(states[i], acts[i])
    requires var w := states[|acts|];
      Ready(w, act) && Sane(act, f, g) && act.Crash? && Orderly(w, act) && Goable(w.a, act.ca) && Goable(w.b, act.cb)
      && ComeBack(w.a, act.ca).Ok? && ComeBack(w.b, act.cb).Ok?
    ensures var w := states[|acts|];
            var a, b := ComeBack(w.a, act.ca).value, ComeBack(w.b, act.cb).value;
            && |a.end.log.regions| > 0 && |b.end.log.regions| > 0
            && (Breaks(w, act) <==>
                || Strand(a, b)
                || Misplaced(Source(w.a, act.ca), a.end, b.end.log) || Misplaced(Source(w.b, act.cb), b.end, a.end.log))
  {
    SettledAt(states, acts, f, g, |acts|);
    var w := states[|acts|];
    HasRegions(w.a, act.ca, f, g);
    HasRegions(w.b, act.cb, g, f);
    ComeBackOff(w.a, act.ca, ComeBack(w.b, act.cb).value.end.log, f, g);
    ComeBackOff(w.b, act.cb, ComeBack(w.a, act.ca).value.end.log, g, f);
  }

  lemma HasRegions<M>(p: Program<M>, c: Back<M>, f: int -> M, g: int -> M)
    requires Faithful(p.end.log, f) && p.end.active >= 0 && InStep(p, g) && HasTable(p, c) && SaneBack(c, f, g)
    requires ComeBack(p, c).Ok?
    ensures |ComeBack(p, c).value.end.log.regions| > 0
  {
    ComeBackPrefix(p, c, f, g);
  }
}
