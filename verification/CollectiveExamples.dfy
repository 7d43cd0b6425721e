/** Three runs of two ranks after which the collectives do not match. */
module CollectiveExamples {
  import opened Basics
  import opened MessageLog
  import opened Collectives
  import opened CollectiveRuns

  lemma Grow<Op>(states: seq<seq<Proc<Op>>>, steps: seq<Step>, step: Step, t: seq<Proc<Op>>, f: int -> Op)
    returns (longer: seq<seq<Proc<Op>>>, more: seq<Step>)
    requires Runs(states, steps, f) && Goes(states[|steps|], step, t, f)
    ensures longer == states + [t] && more == steps + [step] && Runs(longer, more, f)
    ensures longer[0] == states[0] && longer[|more|] == t
  {
    longer, more := states + [t], steps + [step];
    forall i | 0 <= i < |more| ensures Goes(longer[i], more[i], longer[i + 1], f) {
      if i < |steps| { assert Goes(states[i], steps[i], states[i + 1], f); }
    }
  }

  /** A table of two regions: region 0 after n operations. */
  function Zero(n: nat): Region { Region(0, MsgRange(0, n), MsgRange(0, n)) }

  /** Where a program began region 0, and region 1. */
  function Marks(at: int): map<int, int> { map[0 := 0, 1 := at] }

  lemma MarksGrow<Op>(p: Proc<Op>)
    requires p.marks == map[0 := 0]
    ensures p.Marking(1) == Marks(p.at)
  {
    assert (map k | k in p.marks && k < 1 :: p.marks[k]) == p.marks;
  }

  lemma MarksBack<Op>(p: Proc<Op>, at: int)
    requires p.marks == Marks(at)
    ensures p.Marking(0) == map[0 := 0] && p.Marking(1) == Marks(at)
  {
    assert (map k | k in p.marks && k < 0 :: p.marks[k]) == map[];
    assert (map k | k in p.marks && k < 1 :: p.marks[k]) == map[0 := 0];
  }

  function New<Op>(): Proc<Op> { Proc(Rank(Log([NONE, NONE], map[], -1), None, 0), 0, map[0 := 0]) }

  /** In its first collective. */
  function Inside<Op>(f: int -> Op): Proc<Op> {
    Proc(Rank(Log([NONE, Zero(1)], map[], -1), Some(f(0)), 0), 1, map[0 := 0])
  }

  /** Done with it. */
  function Through<Op>(f: int -> Op): Proc<Op> {
    Proc(Rank(Log([NONE, Zero(1)], map[0 := f(0)], -1), None, 0), 1, map[0 := 0])
  }

  lemma FirstOp<Op>(f: int -> Op)
    ensures BeginOp(New<Op>().rank, f(0)) == Ok(Inside(f).rank) && EndOp(Inside(f).rank) == Ok(Through(f).rank)
  {
    var e := EnsureRegion(New<Op>().rank.log, 0);
    assert e == Log([NONE, Zero(0)], map[], -1);
    assert e.regions[1 := Zero(1)] == [NONE, Zero(1)];
  }

  /** Both ranks begin the first collective; rank 0 completes it. */
  lemma OneThrough<Op>(f: int -> Op) returns (states: seq<seq<Proc<Op>>>, steps: seq<Step>)
    ensures Runs(states, steps, f) && Begins(states[0]) && steps == [Begin(0), Begin(1), End(0)]
    ensures states[3] == [Through(f), Inside(f)]
  {
    FirstOp(f);
    var s0 := [New<Op>(), New()];
    assert IsNew(New<Op>()) by { assert Nones(2) == [NONE, NONE]; }
    states, steps := [s0], [];
    assert s0[0 := Inside(f)] == [Inside(f), New()] && [Inside(f), New()][1 := Inside(f)] == [Inside(f), Inside(f)];
    states, steps := Grow(states, steps, Begin(0), [Inside(f), New()], f);
    states, steps := Grow(states, steps, Begin(1), [Inside(f), Inside(f)], f);
    assert [Inside(f), Inside(f)][0 := Through(f)] == [Through(f), Inside(f)];
    states, steps := Grow(states, steps, End(0), [Through(f), Inside(f)], f);
  }

  lemma BothStay<Op>(f: int -> Op)
    ensures var s := [Through(f), Inside(f)]; Goes(s, Recover([Stay, Stay]), s, f)
  {
    var s := [Through(f), Inside(f)];
    assert CanReturn(s, [Stay, Stay]) && Returned(s, [Stay, Stay]) == s;
    assert Started(s[0]) && Furthest(s) == 0;
    assert LowerBound([NONE, Zero(1)], 0) == 1;
    assert LinedUpAt(s, s, 0) && LinedUpAt(s, s, 1);
  }

  /** Nobody goes back, and nothing strays; but rank 0 has finished the collective that rank 1 is still in. The agreed
      minimum counts it as done for both, so rank 1 begins it again alone. */
  lemma FinishedEarly<Op>(f: int -> Op) returns (states: seq<seq<Proc<Op>>>, steps: seq<Step>)
    ensures Runs(states, steps, f) && Begins(states[0])
    ensures steps == [Begin(0), Begin(1), End(0), Recover([Stay, Stay])] && !Strays(states[3], steps[3])
    ensures AllHeld(Ranks(states[4])) && !LinesUp(Ranks(states[4]))
    ensures |states[4]| == 2
    ensures var m := MinNext(Ranks(states[4]));
            Issued(states[4][0].rank, m, 0) == 1 && Issued(states[4][1].rank, m, 0) == 0
  {
    states, steps := OneThrough(f);
    BothStay(f);
    states, steps := Grow(states, steps, Recover([Stay, Stay]), [Through(f), Inside(f)], f);
    HeldAt(states, steps, f, 4);
    InStepBoth(f);
    assert Goes(states[3], steps[3], states[4], f);
    StepExact(states[3], steps[3], states[4], f);
    RanksHeld(states[4]);
    var ranks := Ranks(states[4]);
    var least := MinReached(ranks);
    assert MinNext(ranks) == 1;
    assert Issued(ranks[0], 1, 0) == 1 && Issued(ranks[1], 1, 0) == 0;
  }

  lemma InStepBoth<Op>(f: int -> Op)
    ensures AllInStep([Through(f), Inside(f)], f)
  {
    assert Zero(1).send.first <= 0 < Zero(1).send.next;
    assert InRegions([NONE, Zero(1)], 0) by { assert [NONE, Zero(1)][1] == Zero(1); }
    assert InStep(Through(f), f) && InStep(Inside(f), f);
  }

  /** Through with the first collective, and in region 1, which starts behind it. */
  function Next<Op>(f: int -> Op): Proc<Op> {
    Proc(Rank(Log([Zero(1), Region(1, At(1), At(1))], map[0 := f(0)], -1), None, 1), 1, Marks(1))
  }

  /** Sent back to region 0: the log stands at its end, the program at its start. */
  function SentBack<Op>(f: int -> Op): Proc<Op> {
    Proc(Rank(Log([NONE, Zero(1)], map[0 := f(0)], -1), None, 0), 0, map[0 := 0])
  }

  lemma NextRegion<Op>(f: int -> Op)
    ensures NewRegion(Through(f).rank, 1) == Ok(Next(f).rank) && Through(f).Marking(1) == Next(f).marks
  {
    MarksGrow(Through(f));
    assert Through(f).rank.log.regions[1..] + [Region(1, At(1), At(1))] == Next(f).rank.log.regions;
  }

  lemma BackToZero<Op>(f: int -> Op)
    ensures GoBack(Next(f), 0) == Ok(SentBack(f))
  {
    var n := Next(f).rank.log;
    MarksBack(Next(f), 1);
    assert LowerBound(n.regions, 1) == 1;
    assert n.regions[1..] == [n.regions[1]] && Nones(1) + n.regions[..1] == [NONE, Zero(1)];
    assert Without(n.sends, n.regions[1]) == n.sends;
    assert WithoutAll(n.sends, [n.regions[1]]) == n.sends by { assert [n.regions[1]][1..] == []; }
    assert EraseFrom(n, 1) == SentBack(f).rank.log;
  }

  /** Both ranks complete the first collective and begin region 1. */
  lemma BothNext<Op>(f: int -> Op) returns (states: seq<seq<Proc<Op>>>, steps: seq<Step>)
    ensures Runs(states, steps, f) && Begins(states[0])
    ensures steps == [Begin(0), Begin(1), End(0)] + [End(1), NewRegionOf(0, 1), NewRegionOf(1, 1)]
    ensures states[6] == [Next(f), Next(f)]
  {
    states, steps := OneThrough(f);
    FirstOp(f);
    NextRegion(f);
    assert [Through(f), Inside(f)][1 := Through(f)] == [Through(f), Through(f)];
    states, steps := Grow(states, steps, End(1), [Through(f), Through(f)], f);
    assert [Through(f), Through(f)][0 := Next(f)] == [Next(f), Through(f)];
    states, steps := Grow(states, steps, NewRegionOf(0, 1), [Next(f), Through(f)], f);
    assert [Next(f), Through(f)][1 := Next(f)] == [Next(f), Next(f)];
    states, steps := Grow(states, steps, NewRegionOf(1, 1), [Next(f), Next(f)], f);
  }

  lemma BackTogether<Op>(f: int -> Op)
    ensures CanReturn([Next(f), Next(f)], [GoTo(0), Stay])
    ensures Returned([Next(f), Next(f)], [GoTo(0), Stay]) == [SentBack(f), Next(f)]
  {
    var s, backs := [Next(f), Next(f)], [GoTo(0), Stay];
    BackToZero(f);
    assert Returns(s[0], backs[0]) && Returns(s[1], backs[1]);
  }

  lemma AlreadyLinedUp<Op>(f: int -> Op)
    ensures HaveTables([SentBack(f), Next(f)]) && AnyStarted([SentBack(f), Next(f)])
    ensures Furthest([SentBack(f), Next(f)]) == 0
    ensures LinedUp([SentBack(f), Next(f)], [SentBack(f), Next(f)])
  {
    var t := [SentBack(f), Next(f)];
    assert Started(t[0]) && Furthest(t) == 0;
    assert LowerBound([NONE, Zero(1)], 0) == 1 && LowerBound([NONE, Zero(1)], 1) == 2;
    assert LinedUpWith(t[0], t[0], t[0].rank) && LinedUpWith(t[1], t[1], t[0].rank);
    assert LinedUpAt(t, t, 0) && LinedUpAt(t, t, 1);
  }

  /** Rank 0 goes back to region 0, and its indices do not: both ranks go on with index 1, rank 0 with the program's
      collective 0 and rank 1 with collective 1. */
  lemma OlderRegionMismatches<Op>(f: int -> Op) returns (states: seq<seq<Proc<Op>>>, steps: seq<Step>)
    ensures Runs(states, steps, f) && Begins(states[0])
    ensures steps == [Begin(0), Begin(1), End(0)] + [End(1), NewRegionOf(0, 1), NewRegionOf(1, 1)]
                     + [Recover([GoTo(0), Stay])]
    ensures states[7] == [SentBack(f), Next(f)] && Strays(states[6], steps[6])
    ensures AllHeld(Ranks(states[7])) && MinNext(Ranks(states[7])) == 1
    ensures Held(SentBack(f).rank) && Held(Next(f).rank)
    ensures Issued(SentBack(f).rank, 1, 0) == Issued(Next(f).rank, 1, 0) == 1
    ensures IssuedOp(SentBack(f), 1, 0, f) == f(0) && IssuedOp(Next(f), 1, 0, f) == f(1)
  {
    states, steps := BothNext(f);
    BackTogether(f);
    AlreadyLinedUp(f);
    SentBackStrays(f);
    states, steps := Grow(states, steps, Recover([GoTo(0), Stay]), [SentBack(f), Next(f)], f);
    HeldAt(states, steps, f, 7);
    SentBackIssues(f, states[7]);
  }

  lemma SentBackIssues<Op>(f: int -> Op, s: seq<Proc<Op>>)
    requires s == [SentBack(f), Next(f)] && EachHeld(s)
    ensures AllHeld(Ranks(s)) && MinNext(Ranks(s)) == 1 && Held(SentBack(f).rank) && Held(Next(f).rank)
    ensures Issued(SentBack(f).rank, 1, 0) == Issued(Next(f).rank, 1, 0) == 1
    ensures IssuedOp(SentBack(f), 1, 0, f) == f(0) && IssuedOp(Next(f), 1, 0, f) == f(1)
  {
    RanksHeld(s);
    assert Held(s[0].rank) && Held(s[1].rank);
    var least := MinReached(Ranks(s));
    assert Ranks(s)[0].Next() == 1 && Ranks(s)[1].Next() == 1;
  }

  lemma SentBackStrays<Op>(f: int -> Op)
    ensures Strays([Next(f), Next(f)], Recover([GoTo(0), Stay]))
  {
    BackTogether(f);
    AlreadyLinedUp(f);
    var s, backs, t := [Next(f), Next(f)], [GoTo(0), Stay], [SentBack(f), Next(f)];
    assert PutAt(t[0].rank, t[0].rank.log.regions, 1) == 1;
    assert Off(t[0], t);
    assert StraysAt(s, backs, 0);
  }

  // ----- a lost rank -----

  /** In its second collective, and through with it. */
  function InsideTwo<Op>(f: int -> Op): Proc<Op> {
    Proc(Rank(Log([NONE, Zero(2)], map[0 := f(0)], -1), Some(f(1)), 0), 2, map[0 := 0])
  }

  function ThroughTwo<Op>(f: int -> Op): Proc<Op> {
    Proc(Rank(Log([NONE, Zero(2)], map[0 := f(0), 1 := f(1)], -1), None, 0), 2, map[0 := 0])
  }

  /** And in region 1, which it begins at 2. */
  function NextTwo<Op>(f: int -> Op): Proc<Op> {
    Proc(Rank(Log([Zero(2), Region(1, At(2), At(2))], map[0 := f(0), 1 := f(1)], -1), None, 1), 2, Marks(2))
  }

  /** Lost, and back with the data of region 1: the program is at its collective 2. */
  function Blank<Op>(): Proc<Op> {
    Proc(Rank(Log([NONE, NONE], map[], -1), None, 1), 2, Marks(2))
  }

  /** The same once its region is put at an index. */
  function PutBack<Op>(first: nat): Proc<Op> {
    Proc(Rank(Log([NONE, Region(1, At(first), At(first))], map[], -1), None, 1), 2, Marks(2))
  }

  lemma SecondOp<Op>(f: int -> Op)
    ensures BeginOp(Through(f).rank, f(1)) == Ok(InsideTwo(f).rank)
    ensures EndOp(InsideTwo(f).rank) == Ok(ThroughTwo(f).rank)
    ensures NewRegion(ThroughTwo(f).rank, 1) == Ok(NextTwo(f).rank) && ThroughTwo(f).Marking(1) == Marks(2)
  {
    assert Through(f).rank.log.regions[1 := Zero(2)] == [NONE, Zero(2)];
    var t := ThroughTwo(f).rank.log;
    assert t.regions[1..] + [Region(1, At(2), At(2))] == NextTwo(f).rank.log.regions;
    MarksGrow(ThroughTwo(f));
  }

  lemma BothThrough<Op>(f: int -> Op) returns (states: seq<seq<Proc<Op>>>, steps: seq<Step>)
    ensures Runs(states, steps, f) && Begins(states[0]) && steps == [Begin(0), Begin(1), End(0)] + [End(1)]
    ensures states[4] == [Through(f), Through(f)]
  {
    states, steps := OneThrough(f);
    FirstOp(f);
    assert [Through(f), Inside(f)][1 := Through(f)] == [Through(f), Through(f)];
    states, steps := Grow(states, steps, End(1), [Through(f), Through(f)], f);
  }

  /** Rank 1 does one collective more than rank 0, and begins region 1 behind it. */
  lemma OneAhead<Op>(f: int -> Op) returns (states: seq<seq<Proc<Op>>>, steps: seq<Step>)
    ensures Runs(states, steps, f) && Begins(states[0])
    ensures steps == [Begin(0), Begin(1), End(0)] + [End(1)] + [Begin(1), End(1), NewRegionOf(1, 1)]
    ensures states[7] == [Through(f), NextTwo(f)]
  {
    states, steps := BothThrough(f);
    SecondOp(f);
    assert [Through(f), Through(f)][1 := InsideTwo(f)] == [Through(f), InsideTwo(f)];
    states, steps := Grow(states, steps, Begin(1), [Through(f), InsideTwo(f)], f);
    assert [Through(f), InsideTwo(f)][1 := ThroughTwo(f)] == [Through(f), ThroughTwo(f)];
    states, steps := Grow(states, steps, End(1), [Through(f), ThroughTwo(f)], f);
    assert [Through(f), ThroughTwo(f)][1 := NextTwo(f)] == [Through(f), NextTwo(f)];
    states, steps := Grow(states, steps, NewRegionOf(1, 1), [Through(f), NextTwo(f)], f);
  }

  lemma LosesOne<Op>(f: int -> Op)
    ensures CanReturn([Through(f), NextTwo(f)], [Stay, Lose(1)])
    ensures Returned([Through(f), NextTwo(f)], [Stay, Lose(1)]) == [Through(f), Blank()]
  {
    var s, backs := [Through(f), NextTwo(f)], [Stay, Lose(1)];
    MarksBack(NextTwo(f), 2);
    assert Nones(2) == [NONE, NONE];
    assert Returns(s[0], backs[0]) && Returns(s[1], backs[1]);
  }

  /** Rank 0 has never been in region 1, so rank 1 is put where rank 0 has got to. */
  lemma PutAtOne<Op>(f: int -> Op)
    ensures var ps := [Through(f), Blank()];
            && HaveTables(ps) && AnyStarted(ps) && Furthest(ps) == 0
            && LinedUp(ps, [Through(f), PutBack(1)]) && Off(ps[1], ps)
  {
    var ps, t := [Through(f), Blank()], [Through(f), PutBack(1)];
    assert Started(ps[0]) && Furthest(ps) == 0;
    assert LowerBound([NONE, Zero(1)], 0) == 1 && LowerBound([NONE, Zero(1)], 1) == 2;
    assert [NONE, NONE][1 := Region(1, At(1), At(1))] == [NONE, Region(1, At(1), At(1))];
    assert LinedUpWith(ps[0], t[0], ps[0].rank) && LinedUpWith(ps[1], t[1], ps[0].rank);
    assert LinedUpAt(ps, t, 0) && LinedUpAt(ps, t, 1);
  }

  lemma LostStep<Op>(f: int -> Op)
    ensures var s, step := [Through(f), NextTwo(f)], Recover([Stay, Lose(1)]);
            Goes(s, step, [Through(f), PutBack(1)], f) && Strays(s, step)
  {
    LosesOne(f);
    PutAtOne(f);
    assert StraysAt([Through(f), NextTwo(f)], [Stay, Lose(1)], 1);
  }

  lemma PutBackIssues<Op>(f: int -> Op, s: seq<Proc<Op>>)
    requires s == [Through(f), PutBack(1)] && EachHeld(s)
    ensures AllHeld(Ranks(s)) && LinesUp(Ranks(s)) && MinNext(Ranks(s)) == 1
    ensures Held(s[0].rank) && Held(s[1].rank)
    ensures IssuedOp(s[0], 1, 0, f) == f(1) && IssuedOp(s[1], 1, 0, f) == f(2)
  {
    RanksHeld(s);
    var least := MinReached(Ranks(s));
    LinesUpExact(Ranks(s));
  }

  /** Rank 1 is lost in its region 1, which its program began at collective 2; it is put where rank 0 has got to, at
      index 1. Both go on with index 1, so the indices line up, but rank 0 issues collective 1, rank 1 collective 2. */
  lemma LostRankMismatches<Op>(f: int -> Op) returns (states: seq<seq<Proc<Op>>>, steps: seq<Step>)
    ensures Runs(states, steps, f) && Begins(states[0])
    ensures steps == [Begin(0), Begin(1), End(0)] + [End(1)] + [Begin(1), End(1), NewRegionOf(1, 1)]
                     + [Recover([Stay, Lose(1)])]
    ensures Strays(states[7], steps[7])
    ensures |states[8]| == 2 && Held(states[8][0].rank) && Held(states[8][1].rank)
    ensures AllHeld(Ranks(states[8])) && LinesUp(Ranks(states[8])) && MinNext(Ranks(states[8])) == 1
    ensures IssuedOp(states[8][0], 1, 0, f) == f(1) && IssuedOp(states[8][1], 1, 0, f) == f(2)
  {
    states, steps := OneAhead(f);
    LostStep(f);
    states, steps := Grow(states, steps, Recover([Stay, Lose(1)]), [Through(f), PutBack(1)], f);
    HeldAt(states, steps, f, 8);
    PutBackIssues(f, states[8]);
  }
}
