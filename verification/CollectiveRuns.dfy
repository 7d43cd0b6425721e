/** Runs of all ranks of one communicator: a program whose k-th collective is f(k) on every rank, regions, failures,
    and what is issued again afterwards. */
module CollectiveRuns {
  import opened Basics
  import opened MessageLog
  import opened Consistency
  import opened Collectives

  /** A rank, how many collectives its program has begun, and how many it had begun when it began each region. */
  datatype Proc<Op> = Proc(rank: Rank<Op>, at: int, marks: map<int, int>) {
    function MarkOf(region: int): int {
      if region in marks then marks[region] else at
    }

    /** The marks once a region begins: a region begun again, before anything happened in it, keeps its mark. */
    function Marking(region: int): map<int, int> {
      (map k | k in marks && k < region :: marks[k])[region := MarkOf(region)]
    }

    /** The program is at the start of a region; one it has not begun yet is the very next one. */
    function Restart(r: Rank<Op>, region: int): Proc<Op> {
      Proc(r, MarkOf(region), Marking(region))
    }
  }

  /** How a rank comes back: as it is, rolled back, from a saved log, which holds regions but no operations, with the
      program where it was then, or with nothing but its data as they were at the start of a region. */
  datatype Back =
    | Stay
    | GoTo(target: int)
    | Load(regions: seq<Region>, inRegion: int, marks: map<int, int>, target: int)
    | Lose(inRegion: int)

  datatype Step = Begin(i: nat) | End(i: nat) | NewRegionOf(i: nat, id: int) | Recover(backs: seq<Back>)

  /** The log goes back, and the program to the start of the region. */
  function GoBack<Op>(p: Proc<Op>, target: int): Outcome<Proc<Op>>
    requires |p.rank.log.regions| > 0
  {
    if target < 0 then Ok(p)
    else if p.rank.active.Some? && target > p.rank.log.Cur().id then Fatal
    else
      match ResetOps(p.rank.log, target)
      case Fatal => Fatal
      case Ok(l) =>
        if |l.regions| == 0 then Fatal
        else Ok(p.Restart(Rank(l, None, target), target))
  }

  function Return<Op>(p: Proc<Op>, back: Back): Outcome<Proc<Op>>
    requires |p.rank.log.regions| > 0 && (back.Load? ==> |back.regions| > 0)
  {
    match back
    case Stay => Ok(p)
    case GoTo(target) => GoBack(p, target)
    case Load(rs, inRegion, marks, target) => GoBack(FromTable(rs, inRegion, marks), target)
    case Lose(inRegion) =>
      Ok(p.Restart(Rank(Log(Nones(|p.rank.log.regions|), map[], -1), None, inRegion), inRegion))
  }

  function FromTable<Op>(rs: seq<Region>, inRegion: int, marks: map<int, int>): Proc<Op>
    requires |rs| > 0
  {
    var r := Rank(Log(rs, map[], -1), None, inRegion);
    Proc(r, r.Next(), marks)
  }

  predicate Started<Op>(p: Proc<Op>) {
    |p.rank.log.regions| > 0 && p.rank.log.Cur().Valid() && !p.rank.log.Cur().Fresh()
  }

  predicate AnyStarted<Op>(ps: seq<Proc<Op>>) {
    exists i :: 0 <= i < |ps| && Started(ps[i])
  }

  predicate HaveTables<Op>(ps: seq<Proc<Op>>) {
    ps != [] && forall i :: 0 <= i < |ps| ==> |ps[i].rank.log.regions| > 0
  }

  /** The rank that has got furthest, the first one of several. */
  function Furthest<Op>(ps: seq<Proc<Op>>): (k: nat)
    requires HaveTables(ps)
    ensures k < |ps| && forall i :: 0 <= i < |ps| ==> ps[i].rank.Next() <= ps[k].rank.Next()
    ensures forall i :: 0 <= i < k ==> ps[i].rank.Next() < ps[k].rank.Next()
  {
    var n := |ps| - 1;
    if n == 0 then 0
    else
      var k := Furthest(ps[..n]);
      assert forall i :: 0 <= i < n ==> ps[..n][i] == ps[i];
      if ps[n].rank.Next() > ps[k].rank.Next() then n else k
  }

  /** All are back. Without a rank that has begun an operation nothing is lined up, and each must be in a region. */
  ghost predicate LinedUp<Op>(ps: seq<Proc<Op>>, t: seq<Proc<Op>>) {
    && |t| == |ps| && HaveTables(ps)
    && forall i :: 0 <= i < |ps| ==> LinedUpAt(ps, t, i)
  }

  ghost predicate LinedUpAt<Op>(ps: seq<Proc<Op>>, t: seq<Proc<Op>>, i: nat)
    requires |t| == |ps| && HaveTables(ps) && i < |ps|
  {
    if AnyStarted(ps) then LinedUpWith(ps[i], t[i], ps[Furthest(ps)].rank)
    else ps[i].rank.log.Cur().Valid() && t[i] == ps[i]
  }

  ghost predicate LinedUpWith<Op>(p: Proc<Op>, t: Proc<Op>, latest: Rank<Op>)
    requires |p.rank.log.regions| > 0 && |latest.log.regions| > 0
  {
    match Align(p.rank, latest.log.regions, latest.Next())
    case Fatal => false
    case Ok(r) => |r.log.regions| > 0 && t == p.(rank := r)
  }

  ghost predicate CanReturn<Op>(s: seq<Proc<Op>>, backs: seq<Back>) {
    |backs| == |s| && forall i :: 0 <= i < |s| ==> Returns(s[i], backs[i])
  }

  ghost predicate Returns<Op>(p: Proc<Op>, back: Back) {
    |p.rank.log.regions| > 0 && Possible(back) && Return(p, back).Ok?
  }

  /** What each rank comes back with. */
  ghost function Returned<Op>(s: seq<Proc<Op>>, backs: seq<Back>): (ps: seq<Proc<Op>>)
    requires CanReturn(s, backs)
    ensures |ps| == |s| && forall i :: 0 <= i < |s| ==> Ok(ps[i]) == Return(s[i], backs[i])
  {
    assert forall i :: 0 <= i < |s| ==> Returns(s[i], backs[i]);
    seq(|s|, i requires 0 <= i < |s| => Return(s[i], backs[i]).value)
  }

  /** Saved tables are tables of the same program, saved in a region. */
  ghost predicate Possible(back: Back) {
    match back
    case Stay => true
    case GoTo(target) => target >= -1
    case Load(rs, inRegion, _, target) => Chained(rs) && Last(rs).Valid() && inRegion >= 0 && target >= -1
    case Lose(inRegion) => inRegion >= 0
  }

  ghost predicate Moves<Op>(s: seq<Proc<Op>>, i: nat, r: Outcome<Rank<Op>>, at: int, marks: map<int, int>,
                            t: seq<Proc<Op>>) {
    i < |s| && r.Ok? && t == s[i := Proc(r.value, at, marks)]
  }

  /** One step of the whole program f. */
  ghost predicate Goes<Op>(s: seq<Proc<Op>>, step: Step, t: seq<Proc<Op>>, f: int -> Op) {
    && (step.Recover? || (step.i < |s| && |s[step.i].rank.log.regions| > 0))
    && match step
       case Begin(i) => Moves(s, i, BeginOp(s[i].rank, f(s[i].at)), s[i].at + 1, s[i].marks, t)
       case End(i) => Moves(s, i, EndOp(s[i].rank), s[i].at, s[i].marks, t)
       case NewRegionOf(i, id) => id >= 0 && Moves(s, i, NewRegion(s[i].rank, id), s[i].at, s[i].Marking(id), t)
       case Recover(backs) => CanReturn(s, backs) && LinedUp(Returned(s, backs), t)
  }

  // ----- log and program in step -----

  /** The log holds the program's collectives under their own indices, and the next index is the program's next one. */
  ghost predicate InStep<Op>(p: Proc<Op>, f: int -> Op) {
    Held(p.rank) && p.at == p.rank.Next() && Follows(p.rank, f)
  }

  ghost predicate Follows<Op>(r: Rank<Op>, f: int -> Op)
    requires |r.log.regions| > 0
  {
    && (forall k :: k in r.log.sends ==> r.log.sends[k] == f(k))
    && (r.active.Some? ==> r.active.value == f(r.Next() - 1))
  }

  /** Where the step puts a rank: one that never did anything goes to its region's start. */
  function PutAt<Op>(r: Rank<Op>, latest: seq<Region>, reached: int): int
    requires |r.log.regions| > 0
  {
    var cur := r.log.Cur();
    var i := LowerBound(latest, if cur.Valid() then cur.id else r.inRegion);
    if cur.Valid() && !cur.Fresh() then r.Next()
    else if i == |latest| then reached
    else latest[i].send.first
  }

  /** A rank comes back, or is put, where its program is not. */
  ghost predicate Off<Op>(p: Proc<Op>, ps: seq<Proc<Op>>)
    requires HaveTables(ps) && |p.rank.log.regions| > 0
  {
    p.at !=
      if AnyStarted(ps) then PutAt(p.rank, ps[Furthest(ps)].rank.log.regions, ps[Furthest(ps)].rank.Next())
      else p.rank.Next()
  }

  // ----- one step -----

  lemma GoBackHeld<Op>(p: Proc<Op>, target: int)
    requires Held(p.rank) && target >= -1 && GoBack(p, target).Ok?
    ensures Held(GoBack(p, target).value.rank)
  {
    if target >= 0 { ResetHeld(p.rank, target); }
  }

  lemma ReturnHeld<Op>(p: Proc<Op>, back: Back)
    requires Held(p.rank) && Returns(p, back)
    ensures Held(Return(p, back).value.rank)
  {
    match back
    case Stay =>
    case GoTo(target) => GoBackHeld(p, target);
    case Load(rs, inRegion, marks, target) => GoBackHeld<Op>(FromTable(rs, inRegion, marks), target);
    case Lose(inRegion) =>
  }

  lemma ResetFollows<Op>(l: Log<Op>, target: int, f: int -> Op)
    requires |l.regions| > 0 && (forall k :: k in l.sends ==> l.sends[k] == f(k)) && ResetOps(l, target).Ok?
    ensures var t := ResetOps(l, target).value; forall k :: k in t.sends ==> t.sends[k] == f(k)
  {
    var t := ResetOps(l, target).value;
    var rs := l.regions[LowerBound(l.regions, target + 1)..];
    forall k | k in t.sends ensures t.sends[k] == f(k) { WithoutAllExact(l.sends, rs, k); }
  }

  lemma ReturnFollows<Op>(p: Proc<Op>, back: Back, f: int -> Op)
    requires |p.rank.log.regions| > 0 && Follows(p.rank, f) && Returns(p, back)
    requires |Return(p, back).value.rank.log.regions| > 0
    ensures Follows(Return(p, back).value.rank, f)
  {
    match back
    case Stay =>
    case GoTo(target) => ResetFollows(p.rank.log, target, f);
    case Load(rs, inRegion, marks, target) => ResetFollows(Log(rs, map[], -1), target, f);
    case Lose(inRegion) =>
  }

  lemma BeginFollows<Op>(r: Rank<Op>, f: int -> Op)
    requires Held(r) && Follows(r, f) && BeginOp(r, f(r.Next())).Ok?
    ensures Follows(BeginOp(r, f(r.Next())).value, f)
  {
    EnsureHeld(r);
  }

  lemma AlignFollows<Op>(r: Rank<Op>, latest: seq<Region>, reached: int, f: int -> Op)
    requires Held(r) && Follows(r, f) && Align(r, latest, reached).Ok?
    requires |Align(r, latest, reached).value.log.regions| > 0
    requires forall i :: 0 <= i < |latest| ==> latest[i].Valid() || latest[i] == NONE
    requires reached >= 0
    ensures var t := Align(r, latest, reached).value; Follows(t, f) && t.Next() == PutAt(r, latest, reached)
  {
    AlignHeld(r, latest, reached);
    var cur := r.log.Cur();
    assert cur.send == cur.recv;
  }

  ghost predicate AllHold<Op>(s: seq<Proc<Op>>, f: int -> Op) {
    s != [] && forall i :: 0 <= i < |s| ==> Held(s[i].rank) && Follows(s[i].rank, f)
  }

  ghost predicate AllInStep<Op>(s: seq<Proc<Op>>, f: int -> Op) {
    s != [] && forall i :: 0 <= i < |s| ==> InStep(s[i], f)
  }

  lemma PutThere<Op>(p: Proc<Op>, t: Proc<Op>, latest: Rank<Op>, f: int -> Op)
    requires Held(p.rank) && Follows(p.rank, f) && Held(latest) && LinedUpWith(p, t, latest)
    ensures Held(t.rank) && Follows(t.rank, f) && t.rank.Next() == PutAt(p.rank, latest.log.regions, latest.Next())
    ensures t.at == p.at
  {
    LatestIsTable(latest);
    AlignHeld(p.rank, latest.log.regions, latest.Next());
    AlignFollows(p.rank, latest.log.regions, latest.Next(), f);
  }

  lemma SettledThere<Op>(p: Proc<Op>, t: Proc<Op>, latest: Rank<Op>, f: int -> Op)
    requires Held(p.rank) && Follows(p.rank, f) && Held(latest) && LinedUpWith(p, t, latest)
    ensures Held(t.rank) && Follows(t.rank, f)
    ensures InStep(t, f) <==> p.at == PutAt(p.rank, latest.log.regions, latest.Next())
  {
    PutThere(p, t, latest, f);
  }

  /** Lining up one rank: its log stays what it is, and it is in step exactly if it was put where its program is. */
  lemma OneLinedUp<Op>(ps: seq<Proc<Op>>, t: seq<Proc<Op>>, i: nat, f: int -> Op)
    requires |t| == |ps| && HaveTables(ps) && i < |ps| && LinedUpAt(ps, t, i)
    requires Held(ps[i].rank) && Follows(ps[i].rank, f) && Held(ps[Furthest(ps)].rank)
    ensures Held(t[i].rank) && Follows(t[i].rank, f)
    ensures InStep(t[i], f) <==> !Off(ps[i], ps)
  {
    if AnyStarted(ps) { SettledThere(ps[i], t[i], ps[Furthest(ps)].rank, f); }
  }

  lemma LatestIsTable<Op>(r: Rank<Op>)
    requires Held(r)
    ensures r.Next() >= 0
    ensures forall i :: 0 <= i < |r.log.regions| ==> r.log.regions[i].Valid() || r.log.regions[i] == NONE
  {
  }

  lemma RecoverExact<Op>(s: seq<Proc<Op>>, backs: seq<Back>, t: seq<Proc<Op>>, f: int -> Op)
    requires AllHold(s, f) && CanReturn(s, backs) && LinedUp(Returned(s, backs), t)
    ensures AllHold(Returned(s, backs), f) && AllHold(t, f)
    ensures AllInStep(t, f) <==> forall i :: 0 <= i < |s| ==> !Off(Returned(s, backs)[i], Returned(s, backs))
  {
    var ps := Returned(s, backs);
    forall i | 0 <= i < |s| ensures Held(ps[i].rank) && Follows(ps[i].rank, f) {
      assert Returns(s[i], backs[i]);
      ReturnHeld(s[i], backs[i]);
      ReturnFollows(s[i], backs[i], f);
    }
    forall i | 0 <= i < |s|
      ensures Held(t[i].rank) && Follows(t[i].rank, f) && (InStep(t[i], f) <==> !Off(ps[i], ps))
    {
      assert LinedUpAt(ps, t, i);
      OneLinedUp(ps, t, i, f);
    }
  }

  /** Some rank comes back, or is put, where its program is not. */
  ghost predicate Strays<Op>(s: seq<Proc<Op>>, step: Step) {
    step.Recover? && CanReturn(s, step.backs) && exists i :: 0 <= i < |s| && StraysAt(s, step.backs, i)
  }

  ghost predicate StraysAt<Op>(s: seq<Proc<Op>>, backs: seq<Back>, i: nat)
    requires CanReturn(s, backs) && i < |s|
  {
    var ps := Returned(s, backs);
    HaveTables(ps) && Off(ps[i], ps)
  }

  lemma StepExact<Op>(s: seq<Proc<Op>>, step: Step, t: seq<Proc<Op>>, f: int -> Op)
    requires AllInStep(s, f) && Goes(s, step, t, f)
    ensures AllInStep(t, f) <==> !Strays(s, step)
  {
    match step
    case Begin(i) =>
      BeginHeld(s[i].rank, f(s[i].at));
      BeginFollows(s[i].rank, f);
    case End(i) => EndHeld(s[i].rank);
    case NewRegionOf(i, id) => NewRegionHeld(s[i].rank, id);
    case Recover(backs) =>
      RecoverExact(s, backs, t, f);
      var ps := Returned(s, backs);
      assert forall k :: 0 <= k < |ps| ==> Held(ps[k].rank);
      if AllInStep(t, f) {
        forall i | 0 <= i < |s| ensures !StraysAt(s, backs, i) {}
      } else {
        var i :| 0 <= i < |s| && Off(ps[i], ps);
        assert StraysAt(s, backs, i);
      }
  }

  // ----- runs -----

  ghost predicate Runs<Op>(states: seq<seq<Proc<Op>>>, steps: seq<Step>, f: int -> Op) {
    |states| == |steps| + 1 && forall i :: 0 <= i < |steps| ==> Goes(states[i], steps[i], states[i + 1], f)
  }

  function Start<Op>(size: nat, inRegion: int): Proc<Op> {
    Proc(Rank(Log(Nones(size), map[], -1), None, inRegion), 0, map[inRegion := 0])
  }

  ghost predicate Begins<Op>(s: seq<Proc<Op>>) {
    s != [] && forall i :: 0 <= i < |s| ==> IsNew(s[i])
  }

  ghost predicate IsNew<Op>(p: Proc<Op>) {
    |p.rank.log.regions| > 0 && p.rank.inRegion >= 0 && p == Start(|p.rank.log.regions|, p.rank.inRegion)
  }

  lemma StartInStep<Op>(s: seq<Proc<Op>>, f: int -> Op)
    requires Begins(s)
    ensures AllInStep(s, f)
  {
    forall i | 0 <= i < |s| ensures InStep(s[i], f) { assert IsNew(s[i]); }
  }

  lemma {:induction false} InStepAt<Op>(states: seq<seq<Proc<Op>>>, steps: seq<Step>, f: int -> Op, n: nat)
    requires Runs(states, steps, f) && Begins(states[0]) && n <= |steps|
    requires forall i :: 0 <= i < n ==> !Strays(states[i], steps[i])
    ensures AllInStep(states[n], f)
  {
    if n == 0 {
      StartInStep(states[0], f);
    } else {
      InStepAt(states, steps, f, n - 1);
      assert Goes(states[n - 1], steps[n - 1], states[n], f);
      StepExact(states[n - 1], steps[n - 1], states[n], f);
    }
  }

  /** Over every run from the start, logs and programs stay in step on all ranks exactly as long as no recovery
      brings a rank back, or puts it, where its program is not. */
  lemma StaysInStep<Op>(states: seq<seq<Proc<Op>>>, steps: seq<Step>, f: int -> Op)
    requires Runs(states, steps, f) && Begins(states[0])
    ensures (forall i :: 0 <= i < |states| ==> AllInStep(states[i], f)) <==>
            (forall i :: 0 <= i < |steps| ==> !Strays(states[i], steps[i]))
  {
    if forall i :: 0 <= i < |states| ==> AllInStep(states[i], f) {
      forall i | 0 <= i < |steps| ensures !Strays(states[i], steps[i]) {
        assert Goes(states[i], steps[i], states[i + 1], f) && AllInStep(states[i], f) && AllInStep(states[i + 1], f);
        StepExact(states[i], steps[i], states[i + 1], f);
      }
    }
    if forall i :: 0 <= i < |steps| ==> !Strays(states[i], steps[i]) {
      forall i | 0 <= i < |states| ensures AllInStep(states[i], f) { InStepAt(states, steps, f, i); }
    }
  }

  ghost predicate EachHeld<Op>(s: seq<Proc<Op>>) {
    s != [] && forall i :: 0 <= i < |s| ==> Held(s[i].rank)
  }

  lemma OneHeld<Op>(ps: seq<Proc<Op>>, t: seq<Proc<Op>>, i: nat)
    requires |t| == |ps| && HaveTables(ps) && i < |ps| && LinedUpAt(ps, t, i)
    requires Held(ps[i].rank) && Held(ps[Furthest(ps)].rank)
    ensures Held(t[i].rank)
  {
    if AnyStarted(ps) {
      var latest := ps[Furthest(ps)].rank;
      LatestIsTable(latest);
      AlignHeld(ps[i].rank, latest.log.regions, latest.Next());
    }
  }

  lemma StepHeld<Op>(s: seq<Proc<Op>>, step: Step, t: seq<Proc<Op>>, f: int -> Op)
    requires EachHeld(s) && Goes(s, step, t, f)
    ensures EachHeld(t)
  {
    match step
    case Begin(i) => BeginHeld(s[i].rank, f(s[i].at));
    case End(i) => EndHeld(s[i].rank);
    case NewRegionOf(i, id) => NewRegionHeld(s[i].rank, id);
    case Recover(backs) =>
      var ps := Returned(s, backs);
      forall i | 0 <= i < |s| ensures Held(ps[i].rank) {
        assert Returns(s[i], backs[i]);
        ReturnHeld(s[i], backs[i]);
      }
      forall i | 0 <= i < |s| ensures Held(t[i].rank) {
        assert LinedUpAt(ps, t, i);
        OneHeld(ps, t, i);
      }
  }

  lemma {:induction false} HeldAt<Op>(states: seq<seq<Proc<Op>>>, steps: seq<Step>, f: int -> Op, n: nat)
    requires Runs(states, steps, f) && Begins(states[0]) && n <= |steps|
    ensures EachHeld(states[n])
  {
    if n == 0 {
      StartInStep(states[0], f);
    } else {
      HeldAt(states, steps, f, n - 1);
      StepHeld(states[n - 1], steps[n - 1], states[n], f);
    }
  }

  // ----- what is issued after a recovery -----

  function Ranks<Op>(s: seq<Proc<Op>>): (r: seq<Rank<Op>>)
    ensures |r| == |s| && forall i :: 0 <= i < |s| ==> r[i] == s[i].rank
  {
    seq(|s|, i requires 0 <= i < |s| => s[i].rank)
  }

  lemma RanksHeld<Op>(s: seq<Proc<Op>>)
    requires EachHeld(s)
    ensures AllHeld(Ranks(s))
  {
    forall i | 0 <= i < |s| ensures Held(Ranks(s)[i]) { assert Held(s[i].rank); }
  }

  /** After any recovery of any run, all ranks issue the same indices exactly when every log reaches the agreed minimum
      and no operation in progress is before it, or all are in the one before it. */
  lemma RecoveryLinesUp<Op>(states: seq<seq<Proc<Op>>>, steps: seq<Step>, f: int -> Op, n: nat)
    requires Runs(states, steps, f) && Begins(states[0]) && n < |steps| && steps[n].Recover?
    ensures AllHeld(Ranks(states[n + 1]))
    ensures var ranks := Ranks(states[n + 1]);
            LinesUp(ranks) <==>
            (forall i :: 0 <= i < |ranks| ==> ReachesBack(ranks[i], MinNext(ranks)))
            || (forall i :: 0 <= i < |ranks| ==> ranks[i].Done() == MinNext(ranks) - 1)
  {
    HeldAt(states, steps, f, n + 1);
    RanksHeld(states[n + 1]);
    LinesUpExact(Ranks(states[n + 1]));
  }

  /** The k-th operation a rank issues when replay starts at m: logged ones, then the one in progress, then whatever
      its program comes to next. */
  ghost function IssuedOp<Op>(p: Proc<Op>, m: int, k: nat, f: int -> Op): Op
    requires Held(p.rank)
  {
    var r := p.rank;
    var replayed := r.Done() - FirstIssued(r, m);
    if k < replayed then r.log.sends[m + k]
    else if r.active.Some? && k == replayed then r.active.value
    else f(p.at + (k - replayed - (if r.active.Some? then 1 else 0)))
  }

  lemma IssuesItsOwn<Op>(p: Proc<Op>, m: int, k: nat, f: int -> Op)
    requires InStep(p, f)
    ensures IssuedOp(p, m, k, f) == f(Issued(p.rank, m, k))
  {
  }

  /** As long as nothing has strayed, ranks that line up by index issue the same collectives, position by position. */
  lemma SameCollectives<Op>(states: seq<seq<Proc<Op>>>, steps: seq<Step>, f: int -> Op, n: nat, i: nat, j: nat, k: nat)
    requires Runs(states, steps, f) && Begins(states[0]) && n < |steps| && steps[n].Recover?
    requires forall q :: 0 <= q <= n ==> !Strays(states[q], steps[q])
    requires i < |states[n + 1]| && j < |states[n + 1]|
    ensures AllHeld(Ranks(states[n + 1]))
    ensures var ranks, m := Ranks(states[n + 1]), MinNext(Ranks(states[n + 1]));
            && Held(states[n + 1][i].rank) && Held(states[n + 1][j].rank)
            && (LinesUp(ranks) ==> IssuedOp(states[n + 1][i], m, k, f) == IssuedOp(states[n + 1][j], m, k, f))
  {
    InStepAt(states, steps, f, n + 1);
    var t := states[n + 1];
    assert EachHeld(t);
    RanksHeld(t);
    var ranks, m := Ranks(t), MinNext(Ranks(t));
    IssuesItsOwn(t[i], m, k, f);
    IssuesItsOwn(t[j], m, k, f);
    if LinesUp(ranks) { assert Issued(ranks[i], m, k) == Issued(ranks[j], m, k); }
  }
}
