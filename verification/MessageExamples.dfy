/** Runs from the start in which every step succeeds and messages are lost all the same: a living receiver that is
    moved, a lost receiver, a lost sender, and a side that remembers its partner when no step takes place. */
module MessageExamples {
  import opened MessageLog
  import opened Consistency
  import opened MessageReplay
  import opened MessageDelivery

  // ----- steps of small systems -----

  /** One more step of a run. */
  lemma Grow<M>(states: seq<Pair<M>>, acts: seq<Act<M>>, act: Act<M>, t: Pair<M>, f: int -> M, g: int -> M)
    returns (longer: seq<Pair<M>>, more: seq<Act<M>>)
    requires History(states, acts, f, g) && Acts(states[|acts|], act, t, f, g)
    ensures longer == states + [t] && more == acts + [act] && History(longer, more, f, g)
    ensures longer[0] == states[0] && longer[|more|] == t && longer[|acts|] == states[|acts|]
  {
    longer, more := states + [t], acts + [act];
    forall i | 0 <= i < |more| ensures Acts(longer[i], more[i], longer[i + 1], f, g) {
      if i < |acts| { assert Acts(states[i], acts[i], states[i + 1], f, g); }
    }
  }

  lemma AGives<M>(w: Pair<M>, e: Endpoint<M>, chan: seq<M>, f: int -> M, g: int -> M)
    requires |w.a.end.log.regions| > 0 && |w.b.end.log.regions| > 0
    requires Send(w.a.end, w.toB, f(w.a.sent)) == Ok((e, chan))
    ensures Acts(w, GiveA, w.(a := w.a.(end := e, sent := w.a.sent + 1), toB := chan), f, g)
  {
  }

  lemma BTakes<M>(w: Pair<M>, e: Endpoint<M>, m: M, chan: seq<M>, f: int -> M, g: int -> M)
    requires |w.a.end.log.regions| > 0 && |w.b.end.log.regions| > 0
    requires w.toB == [m] + chan && Receive(w.b.end, w.toB) == Ok((e, chan))
    ensures Acts(w, TakeB, w.(b := w.b.(end := e, got := w.b.got + [m]), toB := chan), f, g)
  {
  }

  lemma AEnters<M>(w: Pair<M>, id: nat, e: Endpoint<M>, marks: map<int, Mark>, f: int -> M, g: int -> M)
    requires |w.a.end.log.regions| > 0 && |w.b.end.log.regions| > 0
    requires Begin(w.a.end, id) == Ok(e) && w.a.Marking(id) == marks
    ensures Acts(w, EnterA(id), w.(a := w.a.(end := e, marks := marks)), f, g)
  {
  }

  lemma BEnters<M>(w: Pair<M>, id: nat, e: Endpoint<M>, marks: map<int, Mark>, f: int -> M, g: int -> M)
    requires |w.a.end.log.regions| > 0 && |w.b.end.log.regions| > 0
    requires Begin(w.b.end, id) == Ok(e) && w.b.Marking(id) == marks
    ensures Acts(w, EnterB(id), w.(b := w.b.(end := e, marks := marks)), f, g)
  {
  }

  /** A failure after which both sides synchronise. */
  lemma BothCrash<M>(w: Pair<M>, act: Act<M>, a: Program<M>, b: Program<M>, la: Log<M>, lb: Log<M>,
                     f: int -> M, g: int -> M)
    requires act.Crash? && Ready(w, act) && Sane(act, f, g)
    requires ComeBack(w.a, act.ca) == Ok(a) && ComeBack(w.b, act.cb) == Ok(b)
    requires |a.end.log.regions| > 0 && |b.end.log.regions| > 0
    requires a.end.log.Cur().Valid() || b.end.log.Cur().Valid()
    requires Synchronise(a.end.log, a.end.active, Table(b.end.log, b.end.active)) == Ok(la) && |la.regions| > 0
    requires Synchronise(b.end.log, b.end.active, Table(a.end.log, a.end.active)) == Ok(lb) && |lb.regions| > 0
    ensures CanReplay(la) && CanReplay(lb)
    ensures Acts(w, act, Pair(a.(end := a.end.(log := la)), b.(end := b.end.(log := lb)), Replayed(lb), Replayed(la)),
                 f, g)
  {
  }

  /** The marks of a program that has begun region 0 with nothing done, and region 1 at m. */
  function Marks(m: Mark): map<int, Mark> { map[0 := Mark(0, 0), 1 := m] }

  lemma FirstMarks<M>(p: Program<M>)
    requires p.marks == map[0 := Mark(0, 0)]
    ensures p.Marking(0) == p.marks && p.Marking(1) == Marks(p.Now())
  {
    assert (map k | k in p.marks && k < 0 :: p.marks[k]) == map[];
    assert (map k | k in p.marks && k < 1 :: p.marks[k]) == p.marks;
  }

  lemma SecondMarks<M>(p: Program<M>, m: Mark)
    requires p.marks == Marks(m)
    ensures p.Marking(1) == Marks(m) && p.Marking(0) == map[0 := Mark(0, 0)]
  {
    assert (map k | k in p.marks && k < 1 :: p.marks[k]) == map[0 := Mark(0, 0)];
    assert (map k | k in p.marks && k < 0 :: p.marks[k]) == map[];
  }

  // ----- tables of two regions -----

  /** In region 0 after n sends. */
  function InFirst<M>(sends: map<int, M>, n: nat): Endpoint<M> {
    Endpoint(Log([NONE, Region(0, MsgRange(0, n), At(0))], sends, -1), 0)
  }

  const IDLE: Region := Region(0, At(0), At(0))

  /** In region 1, after n sends in region 0 and m more. */
  function InSecond<M>(sends: map<int, M>, n: nat, m: nat, alreadySent: int): Endpoint<M> {
    Endpoint(Log([Region(0, MsgRange(0, n), At(0)), Region(1, MsgRange(n, n + m), At(0))], sends, alreadySent), 1)
  }

  /** In region 1, which starts at n on the receiving side, after m receives in it. */
  function Receiver<M>(older: Region, n: nat, m: nat): Endpoint<M> {
    Endpoint(Log([older, Region(1, At(0), MsgRange(n, n + m))], map[], -1), 1)
  }

  /** In region 1 without an older one, after n sends in it, knowing that the partner has messages 0 and 1. */
  function Sender<M>(sends: map<int, M>, n: nat): Endpoint<M> {
    Endpoint(Log([NONE, Region(1, MsgRange(0, n), At(0))], sends, 1), 1)
  }

  lemma BeginsFirst<M>()
    ensures Begin(Start<M>(2, 0), 0) == Ok(InFirst(map[], 0))
  {
    assert Start<M>(2, 0).log.regions == [NONE, NONE];
    assert Start<M>(2, 0).log.regions[1..] + [IDLE] == InFirst<M>(map[], 0).log.regions;
  }

  lemma SendsFirst<M>(sends: map<int, M>, n: nat, chan: seq<M>, m: M)
    ensures Send(InFirst(sends, n), chan, m) == Ok((InFirst(sends[n := m], n + 1), chan + [m]))
  {
    var r := Region(0, MsgRange(0, n + 1), At(0));
    assert InFirst(sends, n).log.regions[1 := r] == [NONE, r];
  }

  lemma BeginsSecond<M>(sends: map<int, M>, n: nat)
    ensures Begin(InFirst(sends, n), 1) == Ok(InSecond(sends, n, 0, -1))
  {
    assert InFirst(sends, n).log.regions[1..] + [Region(1, At(n), At(0))] == InSecond(sends, n, 0, -1).log.regions;
  }

  lemma SendsSecond<M>(sends: map<int, M>, n: nat, m: M)
    ensures Send(InSecond(sends, n, 0, n - 1), [], m) == Ok((InSecond(sends[n := m], n, 1, n - 1), [m]))
  {
    var a, r := InSecond(sends, n, 0, n - 1), Region(1, MsgRange(n, n + 1), At(0));
    assert a.log.regions[1 := r] == [a.log.regions[0], r];
    assert [] + [m] == [m];
  }

  lemma ReceivesSecond<M>(older: Region, n: nat, k: nat, m: M, chan: seq<M>)
    ensures Receive(Receiver(older, n, k), [m] + chan) == Ok((Receiver(older, n, k + 1), chan))
  {
    var b, q := Receiver<M>(older, n, k), Region(1, At(0), MsgRange(n, n + k + 1));
    assert b.log.regions[1 := q] == [older, q];
    assert ([m] + chan)[1..] == chan;
  }

  lemma SenderSkips<M>(sends: map<int, M>, n: nat, m: M)
    requires n <= 1
    ensures Send(Sender(sends, n), [], m) == Ok((Sender(sends[n := m], n + 1), []))
  {
    var r := Region(1, MsgRange(0, n + 1), At(0));
    assert Sender(sends, n).log.regions[1 := r] == [NONE, r];
  }

  // ----- a receiver that is moved -----

  /** The system once a has sent two messages in region 0, and both sides have begun region 1. */
  function Crossed<M>(sends: map<int, M>, chan: seq<M>): Pair<M> {
    Pair(Program(InSecond(sends, 2, 0, -1), 2, [], Marks(Mark(2, 0))),
         Program(Receiver(IDLE, 0, 0), 0, [], Marks(Mark(0, 0))), [], chan)
  }

  /** a sends two messages in region 0, then both sides begin region 1, and b has received nothing. */
  lemma Crossing<M>(f: int -> M, g: int -> M)
    returns (states: seq<Pair<M>>, acts: seq<Act<M>>, sends: map<int, M>)
    ensures History(states, acts, f, g) && Opens(states[0])
    ensures acts == [EnterA(0), GiveA, GiveA] + [EnterA(1), EnterB(0), EnterB(1)]
    ensures states[6] == Crossed(sends, [f(0), f(1)])
  {
    states, acts, sends := TwoGiven(f, g);
    var w := states[3];
    FirstMarks(w.a);
    FirstMarks(w.b);
    BeginsFirst<M>();
    BeginsSecond(sends, 2);
    BeginsSecond<M>(map[], 0);
    assert InSecond<M>(map[], 0, 0, -1) == Receiver(IDLE, 0, 0);
    AEnters(w, 1, InSecond(sends, 2, 0, -1), Marks(Mark(2, 0)), f, g);
    w := w.(a := w.a.(end := InSecond(sends, 2, 0, -1), marks := Marks(Mark(2, 0))));
    states, acts := Grow(states, acts, EnterA(1), w, f, g);
    BEnters(w, 0, InFirst(map[], 0), w.b.marks, f, g);
    w := w.(b := w.b.(end := InFirst(map[], 0)));
    states, acts := Grow(states, acts, EnterB(0), w, f, g);
    BEnters(w, 1, Receiver(IDLE, 0, 0), Marks(Mark(0, 0)), f, g);
    w := w.(b := w.b.(end := Receiver(IDLE, 0, 0), marks := Marks(Mark(0, 0))));
    states, acts := Grow(states, acts, EnterB(1), w, f, g);
  }

  lemma TwoGiven<M>(f: int -> M, g: int -> M)
    returns (states: seq<Pair<M>>, acts: seq<Act<M>>, sends: map<int, M>)
    ensures History(states, acts, f, g) && Opens(states[0]) && acts == [EnterA(0), GiveA, GiveA]
    ensures states[3] == Pair(Program(InFirst(sends, 2), 2, [], map[0 := Mark(0, 0)]), Newcomer(2, 0), [], [f(0), f(1)])
  {
    var none: map<int, M> := map[];
    var w := Pair(Newcomer(2, 0), Newcomer(2, 0), [], []);
    states, acts, sends := [w], [], none[0 := f(0)][1 := f(1)];
    assert Begins(w.Plain());
    FirstMarks(w.a);
    BeginsFirst<M>();
    AEnters(w, 0, InFirst(none, 0), w.a.marks, f, g);
    w := w.(a := w.a.(end := InFirst(none, 0)));
    states, acts := Grow(states, acts, EnterA(0), w, f, g);
    SendsFirst(none, 0, [], f(0));
    assert [] + [f(0)] == [f(0)] && [f(0)] + [f(1)] == [f(0), f(1)];
    AGives(w, InFirst(none[0 := f(0)], 1), [f(0)], f, g);
    w := w.(a := w.a.(end := InFirst(none[0 := f(0)], 1), sent := 1), toB := [f(0)]);
    states, acts := Grow(states, acts, GiveA, w, f, g);
    SendsFirst(none[0 := f(0)], 1, [f(0)], f(1));
    AGives(w, InFirst(sends, 2), [f(0), f(1)], f, g);
    w := w.(a := w.a.(end := InFirst(sends, 2), sent := 2), toB := [f(0), f(1)]);
    states, acts := Grow(states, acts, GiveA, w, f, g);
  }

  /** The agreement moves b's region 1 to where a's starts. */
  lemma MovesTable<M>(sends: map<int, M>)
    ensures var a, b := InSecond(sends, 2, 0, -1).log.regions, Receiver<M>(IDLE, 0, 0).log.regions;
            var moved := Receiver<M>(IDLE, 2, 0).log.regions;
            && Agree(a, b) == Ok((a, moved)) && Agree(b, a) == Ok((moved, a)) && KnownStart(a, 1) == Mark(0, 2)
  {
    var a, b := InSecond(sends, 2, 0, -1).log.regions, Receiver<M>(IDLE, 0, 0).log.regions;
    assert LowerBound(a, 1) == 1 && LowerBound(b, 1) == 1;
    assert WithLast(b, Mirror(a[1])) == Receiver<M>(IDLE, 2, 0).log.regions;
  }

  lemma Moves<M>(sends: map<int, M>)
    ensures var a, b := InSecond(sends, 2, 0, -1).log, Receiver<M>(IDLE, 0, 0).log;
            && Synchronise(a, 1, b.regions) == Ok(InSecond(sends, 2, 0, 1).log)
            && Synchronise(b, 1, a.regions) == Ok(Receiver<M>(IDLE, 2, 0).log)
  {
    MovesTable(sends);
  }

  /** b's log counts messages 0 and 1 as received, and b's program has got none. */
  function Skipped<M>(sends: map<int, M>, older: Region): Pair<M> {
    Pair(Program(InSecond(sends, 2, 0, 1), 2, [], Marks(Mark(2, 0))),
         Program(Receiver(older, 2, 0), 0, [], Marks(Mark(0, 0))), [], [])
  }

  lemma MovedCrash<M>(sends: map<int, M>, chan: seq<M>, f: int -> M, g: int -> M)
    ensures var w, act := Crossed(sends, chan), Crash(Alive(-1), Alive(-1));
            Acts(w, act, Skipped(sends, IDLE), f, g) && Ready(w, act) && Breaks(w, act)
  {
    var w, act := Crossed(sends, chan), Crash(Alive(-1), Alive(-1));
    Moves(sends);
    MovesTable(sends);
    BothCrash(w, act, w.a, w.b, InSecond(sends, 2, 0, 1).log, Receiver<M>(IDLE, 2, 0).log, f, g);
    assert Off(w.b, w.a.end.log);
  }

  /** From then on the first message b gets is message 2. */
  lemma OneMore<M>(states: seq<Pair<M>>, acts: seq<Act<M>>, sends: map<int, M>, older: Region, f: int -> M, g: int -> M)
    returns (longer: seq<Pair<M>>, more: seq<Act<M>>)
    requires History(states, acts, f, g) && states[|acts|] == Skipped(sends, older)
    ensures more == acts + [GiveA, TakeB] && History(longer, more, f, g)
    ensures |longer| == |states| + 2 && longer[..|states|] == states
    ensures longer[|more|].b.got == [f(2)] && longer[|more|].toB == []
  {
    var w, a := Skipped(sends, older), InSecond(sends[2 := f(2)], 2, 1, 1);
    SendsSecond(sends, 2, f(2));
    AGives(w, a, [f(2)], f, g);
    w := w.(a := w.a.(end := a, sent := 3), toB := [f(2)]);
    longer, more := Grow(states, acts, GiveA, w, f, g);
    ReceivesSecond(older, 2, 0, f(2), []);
    assert [f(2)] + [] == [f(2)];
    BTakes(w, Receiver(older, 2, 1), f(2), [], f, g);
    w := w.(b := w.b.(end := Receiver(older, 2, 1), got := [f(2)]), toB := []);
    longer, more := Grow(longer, more, TakeB, w, f, g);
  }

  lemma ReceiverMoved<M>(f: int -> M, g: int -> M)
    returns (states: seq<Pair<M>>, acts: seq<Act<M>>, sends: map<int, M>)
    ensures History(states, acts, f, g) && Opens(states[0])
    ensures acts == [EnterA(0), GiveA, GiveA] + [EnterA(1), EnterB(0), EnterB(1)] + [Crash(Alive(-1), Alive(-1))]
    ensures states[7] == Skipped(sends, IDLE) && Ready(states[6], acts[6]) && Breaks(states[6], acts[6])
  {
    states, acts, sends := Crossing(f, g);
    MovedCrash(sends, [f(0), f(1)], f, g);
    states, acts := Grow(states, acts, Crash(Alive(-1), Alive(-1)), Skipped(sends, IDLE), f, g);
  }

  /** Nobody rolls back and nothing is stale; but b has begun region 1 without receiving what a sent in region 0, so
      the step moves the living b to index 2, and messages 0 and 1 are never delivered. */
  lemma MovedReceiverMissesMessages<M>(f: int -> M, g: int -> M)
    returns (states: seq<Pair<M>>, acts: seq<Act<M>>)
    ensures History(states, acts, f, g) && Opens(states[0])
    ensures acts == [EnterA(0), GiveA, GiveA] + [EnterA(1), EnterB(0), EnterB(1)]
                    + [Crash(Alive(-1), Alive(-1))] + [GiveA, TakeB]
    ensures Ready(states[6], acts[6]) && Breaks(states[6], acts[6])
    ensures states[9].b.got == [f(2)] && states[9].toB == []
  {
    var sends: map<int, M>;
    states, acts, sends := ReceiverMoved(f, g);
    states, acts := OneMore(states, acts, sends, IDLE, f, g);
  }

  // ----- a receiver that is lost -----

  /** The same system once b has got both messages in its region 1. */
  function Taken<M>(sends: map<int, M>, got: seq<M>): Pair<M> {
    Pair(Program(InSecond(sends, 2, 0, -1), 2, [], Marks(Mark(2, 0))),
         Program(Receiver(IDLE, 0, 2), 0, got, Marks(Mark(0, 0))), [], [])
  }

  lemma BothTaken<M>(f: int -> M, g: int -> M)
    returns (states: seq<Pair<M>>, acts: seq<Act<M>>, sends: map<int, M>)
    ensures History(states, acts, f, g) && Opens(states[0])
    ensures acts == [EnterA(0), GiveA, GiveA] + [EnterA(1), EnterB(0), EnterB(1)] + [TakeB, TakeB]
    ensures states[8] == Taken(sends, [f(0), f(1)])
  {
    states, acts, sends := Crossing(f, g);
    var w := states[6];
    ReceivesSecond(IDLE, 0, 0, f(0), [f(1)]);
    assert [f(0)] + [f(1)] == [f(0), f(1)] && [f(1)] + [] == [f(1)] && [] + [f(0)] == [f(0)];
    BTakes(w, Receiver(IDLE, 0, 1), f(0), [f(1)], f, g);
    w := w.(b := w.b.(end := Receiver(IDLE, 0, 1), got := [f(0)]), toB := [f(1)]);
    states, acts := Grow(states, acts, TakeB, w, f, g);
    ReceivesSecond(IDLE, 0, 1, f(1), []);
    BTakes(w, Receiver(IDLE, 0, 2), f(1), [], f, g);
    w := w.(b := w.b.(end := Receiver(IDLE, 0, 2), got := [f(0), f(1)]), toB := []);
    states, acts := Grow(states, acts, TakeB, w, f, g);
  }

  /** A lost side is back at the start of region 1, with an empty log that names only that region. */
  lemma DeadBack<M>(p: Program<M>, m: Mark)
    requires |p.end.log.regions| == 2 && p.marks == Marks(m)
    ensures ComeBack(p, Dead(1)) ==
            Ok(Program(Endpoint(Blank(), 1), m.sent, Cut(p.got, m.got), Marks(m)))
  {
    SecondMarks(p, m);
    assert Nones(2) == [NONE, NONE];
  }

  function Blank<M>(): Log<M> { Log([NONE, NONE], map[], -1) }

  function Asking(): seq<Region> { [NONE, Region(1, NONE.send, NONE.recv)] }

  /** The lost b takes the start of region 1 from a, which counts two messages before it. */
  lemma ReceiverTold<M>(sends: map<int, M>)
    ensures var a, b := InSecond(sends, 2, 0, -1).log, Blank<M>();
            && Table(b, 1) == Asking()
            && Synchronise(a, 1, Asking()) == Ok(InSecond(sends, 2, 0, 1).log)
            && Synchronise(b, 1, a.regions) == Ok(Receiver<M>(NONE, 2, 0).log)
            && KnownStart(a.regions, 1) == Mark(0, 2)
  {
    var a, b := InSecond(sends, 2, 0, -1).log, Blank<M>();
    assert Table(b, 1) == Asking() && LowerBound(a.regions, 1) == 1;
    assert WithLast(Asking(), Mirror(a.regions[1])) == Receiver<M>(NONE, 2, 0).log.regions;
    assert Agree(a.regions, Asking()) == Ok((a.regions, Receiver<M>(NONE, 2, 0).log.regions));
    assert Agree(Asking(), a.regions) == Ok((Receiver<M>(NONE, 2, 0).log.regions, a.regions));
  }

  lemma LostReceiverCrash<M>(sends: map<int, M>, got: seq<M>, f: int -> M, g: int -> M)
    ensures var w, act := Taken(sends, got), Crash(Alive(-1), Dead(1));
            Acts(w, act, Skipped(sends, NONE), f, g) && Ready(w, act) && Breaks(w, act)
  {
    var w, act := Taken(sends, got), Crash(Alive(-1), Dead(1));
    DeadBack(w.b, Mark(0, 0));
    assert Cut(got, 0) == [];
    var b := Program(Endpoint(Blank(), 1), 0, [], Marks(Mark(0, 0)));
    ReceiverTold(sends);
    BothCrash(w, act, w.a, b, InSecond(sends, 2, 0, 1).log, Receiver<M>(NONE, 2, 0).log, f, g);
    assert Off(b, w.a.end.log);
  }

  lemma ReceiverLost<M>(f: int -> M, g: int -> M)
    returns (states: seq<Pair<M>>, acts: seq<Act<M>>, sends: map<int, M>)
    ensures History(states, acts, f, g) && Opens(states[0])
    ensures acts == [EnterA(0), GiveA, GiveA] + [EnterA(1), EnterB(0), EnterB(1)] + [TakeB, TakeB]
                    + [Crash(Alive(-1), Dead(1))]
    ensures states[9] == Skipped(sends, NONE) && Ready(states[8], acts[8]) && Breaks(states[8], acts[8])
  {
    states, acts, sends := BothTaken(f, g);
    LostReceiverCrash(sends, [f(0), f(1)], f, g);
    states, acts := Grow(states, acts, Crash(Alive(-1), Dead(1)), Skipped(sends, NONE), f, g);
  }

  /** b began region 1 before it received messages 0 and 1, then received them, and is lost. Its partner has region 1
      start behind them, so b is told that it has them, nothing is replayed, and its program never gets them again. */
  lemma LostReceiverMissesMessages<M>(f: int -> M, g: int -> M)
    returns (states: seq<Pair<M>>, acts: seq<Act<M>>)
    ensures History(states, acts, f, g) && Opens(states[0])
    ensures acts == [EnterA(0), GiveA, GiveA] + [EnterA(1), EnterB(0), EnterB(1)] + [TakeB, TakeB]
                    + [Crash(Alive(-1), Dead(1))] + [GiveA, TakeB]
    ensures Ready(states[8], acts[8]) && Breaks(states[8], acts[8])
    ensures states[9].b.got == [] && states[9].b.end.log.NextRecv() == 2 && states[9].toB == []
    ensures states[11].b.got == [f(2)] && states[11].toB == []
  {
    var sends: map<int, M>;
    states, acts, sends := ReceiverLost(f, g);
    states, acts := OneMore(states, acts, sends, NONE, f, g);
  }

  // ----- a sender that is lost -----

  /** The lost a takes the start of region 1 from b, for which nothing had been received before it. */
  lemma SenderTold<M>()
    ensures var a, b := Blank<M>(), Receiver<M>(IDLE, 0, 2).log;
            && Table(a, 1) == Asking()
            && Synchronise(a, 1, b.regions) == Ok(Sender<M>(map[], 0).log)
            && Synchronise(b, 1, Asking()) == Ok(b)
            && KnownStart(b.regions, 1) == Mark(0, 0)
  {
    var a, b := Blank<M>(), Receiver<M>(IDLE, 0, 2).log;
    assert Table(a, 1) == Asking() && LowerBound(b.regions, 1) == 1;
    assert WithLast(Asking(), Mirror(b.regions[1])) == Sender<M>(map[], 0).log.regions;
    assert Agree(b.regions, Asking()) == Ok((b.regions, Sender<M>(map[], 0).log.regions));
    assert Agree(Asking(), b.regions) == Ok((Sender<M>(map[], 0).log.regions, b.regions));
  }

  /** a's log counts from 0, its program from 2, and b is thought to have messages 0 and 1 already. */
  function Behind<M>(sends: map<int, M>, n: nat, got: seq<M>): Pair<M> {
    Pair(Program(Sender(sends, n), 2 + n, [], Marks(Mark(2, 0))),
         Program(Receiver(IDLE, 0, 2), 0, got, Marks(Mark(0, 0))), [], [])
  }

  lemma LostSenderCrash<M>(sends: map<int, M>, got: seq<M>, f: int -> M, g: int -> M)
    ensures var w, act := Taken(sends, got), Crash(Dead(1), Alive(-1));
            Acts(w, act, Behind(map[], 0, got), f, g) && Ready(w, act) && Breaks(w, act)
  {
    var w, act := Taken(sends, got), Crash(Dead(1), Alive(-1));
    DeadBack(w.a, Mark(2, 0));
    var a := Program(Endpoint(Blank(), 1), 2, [], Marks(Mark(2, 0)));
    SenderTold<M>();
    BothCrash(w, act, a, w.b, Sender<M>(map[], 0).log, w.b.end.log, f, g);
    assert Off(a, w.b.end.log);
  }

  lemma Skips<M>(sends: map<int, M>, n: nat, got: seq<M>, f: int -> M, g: int -> M)
    requires n <= 1
    ensures Acts(Behind(sends, n, got), GiveA, Behind(sends[n := f(n + 2)], n + 1, got), f, g)
  {
    SenderSkips(sends, n, f(n + 2));
    AGives(Behind(sends, n, got), Sender(sends[n := f(n + 2)], n + 1), [], f, g);
  }

  lemma TwoSkipped<M>(states: seq<Pair<M>>, acts: seq<Act<M>>, got: seq<M>, f: int -> M, g: int -> M)
    returns (longer: seq<Pair<M>>, more: seq<Act<M>>)
    requires History(states, acts, f, g) && states[|acts|] == Behind(map[], 0, got)
    ensures more == acts + [GiveA, GiveA] && History(longer, more, f, g)
    ensures |longer| == |states| + 2 && longer[..|states|] == states
    ensures longer[|more|].a.sent == 4 && longer[|more|].b.got == got && longer[|more|].toB == []
  {
    var none: map<int, M> := map[];
    Skips(none, 0, got, f, g);
    longer, more := Grow(states, acts, GiveA, Behind(none[0 := f(2)], 1, got), f, g);
    Skips(none[0 := f(2)], 1, got, f, g);
    longer, more := Grow(longer, more, GiveA, Behind(none[0 := f(2)][1 := f(3)], 2, got), f, g);
  }

  lemma SenderLost<M>(f: int -> M, g: int -> M) returns (states: seq<Pair<M>>, acts: seq<Act<M>>)
    ensures History(states, acts, f, g) && Opens(states[0])
    ensures acts == [EnterA(0), GiveA, GiveA] + [EnterA(1), EnterB(0), EnterB(1)] + [TakeB, TakeB]
                    + [Crash(Dead(1), Alive(-1))]
    ensures states[9] == Behind(map[], 0, [f(0), f(1)]) && Ready(states[8], acts[8]) && Breaks(states[8], acts[8])
  {
    var sends: map<int, M>;
    states, acts, sends := BothTaken(f, g);
    LostSenderCrash(sends, [f(0), f(1)], f, g);
    states, acts := Grow(states, acts, Crash(Dead(1), Alive(-1)), Behind(map[], 0, [f(0), f(1)]), f, g);
  }

  /** The same run, and it is a that is lost. Its program goes on with messages 2 and 3, but its log counts them as 0
      and 1, which b has, so neither is sent. */
  lemma LostSenderSkipsMessages<M>(f: int -> M, g: int -> M)
    returns (states: seq<Pair<M>>, acts: seq<Act<M>>)
    ensures History(states, acts, f, g) && Opens(states[0])
    ensures acts == [EnterA(0), GiveA, GiveA] + [EnterA(1), EnterB(0), EnterB(1)] + [TakeB, TakeB]
                    + [Crash(Dead(1), Alive(-1))] + [GiveA, GiveA]
    ensures Ready(states[8], acts[8]) && Breaks(states[8], acts[8])
    ensures states[11].a.sent == 4 && states[11].b.got == [f(0), f(1)] && states[11].toB == []
  {
    states, acts := SenderLost(f, g);
    states, acts := TwoSkipped(states, acts, [f(0), f(1)], f, g);
  }

  // ----- a stale side -----

  /** A table of one region. */
  function Single<M>(r: Region, sends: map<int, M>, alreadySent: int, active: int): Endpoint<M> {
    Endpoint(Log([r], sends, alreadySent), active)
  }

  lemma SingleBegins<M>(e: Endpoint<M>, r: Region, id: nat)
    requires |e.log.regions| == 1 && e.log.Cur().id < id
    requires r == if e.log.Cur().Valid() then After(id, e.log.Cur()) else Region(id, At(0), At(0))
    ensures Begin(e, id) == Ok(Single(r, Without(e.log.sends, e.log.regions[0]), e.log.alreadySent, id))
  {
    assert e.log.regions[1..] + [r] == [r];
  }

  /** A send and a receive in a table of one region. */
  lemma SingleSteps<M>(m: M)
    ensures var e: Endpoint<M> := Single(IDLE, map[], -1, 0);
            && Send(e, [], m) == Ok((Single(Region(0, MsgRange(0, 1), At(0)), map[0 := m], -1, 0), [m]))
            && Receive(e, [m]) == Ok((Single(Region(0, At(0), MsgRange(0, 1)), map[], -1, 0), []))
  {
    var e: Endpoint<M> := Single(IDLE, map[], -1, 0);
    var r, q := Region(0, MsgRange(0, 1), At(0)), Region(0, At(0), MsgRange(0, 1));
    assert e.log.regions[0 := r] == [r] && e.log.regions[0 := q] == [q];
    assert [] + [m] == [m] && [m][1..] == [];
  }

  /** Both have got all there is; a learns that b has message 0. */
  lemma SinglesAgree<M>(m: M)
    ensures var a := Single(Region(0, MsgRange(0, 1), At(0)), map[0 := m], -1, 0).log;
            var b := Single<M>(Region(0, At(0), MsgRange(0, 1)), map[], -1, 0).log;
            Synchronise(a, 0, b.regions) == Ok(a.(alreadySent := 0)) && Synchronise(b, 0, a.regions) == Ok(b)
  {
    var a := Single(Region(0, MsgRange(0, 1), At(0)), map[0 := m], -1, 0).log;
    var b := Single<M>(Region(0, At(0), MsgRange(0, 1)), map[], -1, 0).log;
    assert LowerBound(a.regions, 0) == 0 && LowerBound(b.regions, 0) == 0;
    assert Agree(a.regions, b.regions) == Ok((a.regions, b.regions));
    assert Agree(b.regions, a.regions) == Ok((b.regions, a.regions));
  }

  /** Rolling a one-region table back to an older region leaves it empty, and the program where it began that region. */
  lemma SingleForgets<M>(p: Program<M>, r: Region, alreadySent: int)
    requires r.Valid() && r.id == 1 && p.end == Single(r, map[], alreadySent, 1) && p.marks.Keys == {0, 1}
    requires p.marks[0] == Mark(0, 0)
    ensures ComeBack(p, Alive(0)) == Ok(Program(Single(NONE, map[], alreadySent, 0), 0, [], map[0 := Mark(0, 0)]))
  {
    var none: map<int, M> := map[];
    assert LowerBound(p.end.log.regions, 1) == 0;
    assert p.end.log.regions[0..] == [r] && Nones(1) + p.end.log.regions[..0] == [NONE];
    assert WithoutAll(none, [r]) == none by {
      assert [r][1..] == [];
      assert Without(none, r) == none;
    }
    SecondMarks(p, p.marks[1]);
    assert Cut(p.got, 0) == [];
  }

  function Alone<M>(e: Endpoint<M>, sent: int, got: seq<M>): Program<M> {
    Program(e, sent, got, map[0 := Mark(0, 0)])
  }

  lemma SingleMarks<M>(e: Endpoint<M>, sent: int, got: seq<M>)
    ensures var p := Alone(e, sent, got); p.Marking(0) == p.marks && p.Marking(1) == Marks(Mark(sent, |got|))
  {
    FirstMarks(Alone(e, sent, got));
  }

  /** a has sent one message and b has it. */
  lemma OneTaken<M>(f: int -> M, g: int -> M) returns (states: seq<Pair<M>>, acts: seq<Act<M>>)
    ensures History(states, acts, f, g) && Opens(states[0]) && acts == [EnterA(0), EnterB(0), GiveA, TakeB]
    ensures states[4] == Pair(Alone(Single(Region(0, MsgRange(0, 1), At(0)), map[0 := f(0)], -1, 0), 1, []),
                              Alone(Single(Region(0, At(0), MsgRange(0, 1)), map[], -1, 0), 0, [f(0)]), [], [])
  {
    var start: Endpoint<M> := Start(1, 0);
    var e: Endpoint<M> := Single(IDLE, map[], -1, 0);
    var a := Single(Region(0, MsgRange(0, 1), At(0)), map[0 := f(0)], -1, 0);
    var b := Single<M>(Region(0, At(0), MsgRange(0, 1)), map[], -1, 0);
    SingleBegins(start, IDLE, 0);
    SingleSteps(f(0));
    SingleMarks(start, 0, []);
    var w := Pair(Newcomer(1, 0), Newcomer(1, 0), [], []);
    states, acts := [w], [];
    assert Begins(w.Plain());
    AEnters(w, 0, e, w.a.marks, f, g);
    w := w.(a := Alone(e, 0, []));
    states, acts := Grow(states, acts, EnterA(0), w, f, g);
    BEnters(w, 0, e, w.b.marks, f, g);
    w := w.(b := Alone(e, 0, []));
    states, acts := Grow(states, acts, EnterB(0), w, f, g);
    AGives(w, a, [f(0)], f, g);
    w := w.(a := Alone(a, 1, []), toB := [f(0)]);
    states, acts := Grow(states, acts, GiveA, w, f, g);
    assert [f(0)] + [] == [f(0)] && [] + [f(0)] == [f(0)];
    BTakes(w, b, f(0), [], f, g);
    w := w.(b := Alone(b, 0, [f(0)]), toB := []);
    states, acts := Grow(states, acts, TakeB, w, f, g);
  }

  /** Both sides in region 1, which leaves no room for region 0. */
  function Moved1<M>(m: M): Pair<M> {
    Pair(Program(Single(Region(1, At(1), At(0)), map[], 0, 1), 1, [], Marks(Mark(1, 0))),
         Program(Single(Region(1, At(0), At(1)), map[], -1, 1), 0, [m], Marks(Mark(0, 1))), [], [])
  }

  /** Both survive a failure, and a learns that b has its message. */
  lemma OneAgreed<M>(f: int -> M, g: int -> M) returns (states: seq<Pair<M>>, acts: seq<Act<M>>)
    ensures History(states, acts, f, g) && Opens(states[0])
    ensures acts == [EnterA(0), EnterB(0), GiveA, TakeB] + [Crash(Alive(-1), Alive(-1))]
    ensures states[5] == Pair(Alone(Single(Region(0, MsgRange(0, 1), At(0)), map[0 := f(0)], 0, 0), 1, []),
                              Alone(Single(Region(0, At(0), MsgRange(0, 1)), map[], -1, 0), 0, [f(0)]), [], [])
  {
    states, acts := OneTaken(f, g);
    var w: Pair<M>, act: Act<M> := states[4], Crash(Alive(-1), Alive(-1));
    var a := Single(Region(0, MsgRange(0, 1), At(0)), map[0 := f(0)], 0, 0);
    SinglesAgree(f(0));
    BothCrash(w, act, w.a, w.b, a.log, w.b.end.log, f, g);
    states, acts := Grow(states, acts, act, w.(a := Alone(a, 1, [])), f, g);
  }

  lemma SecondBegins<M>(m: M)
    ensures Begin(Single(Region(0, MsgRange(0, 1), At(0)), map[0 := m], 0, 0), 1) == Ok(Moved1(m).a.end)
    ensures Begin(Single(Region(0, At(0), MsgRange(0, 1)), map[], -1, 0), 1) == Ok(Moved1(m).b.end)
  {
    var a := Single(Region(0, MsgRange(0, 1), At(0)), map[0 := m], 0, 0);
    var b := Single<M>(Region(0, At(0), MsgRange(0, 1)), map[], -1, 0);
    SingleBegins(a, Region(1, At(1), At(0)), 1);
    SingleBegins(b, Region(1, At(0), At(1)), 1);
    assert Without(a.log.sends, a.log.regions[0]) == map[] && Without(b.log.sends, b.log.regions[0]) == map[];
  }

  /** And both begin region 1. */
  lemma BothBegin<M>(f: int -> M, g: int -> M) returns (states: seq<Pair<M>>, acts: seq<Act<M>>)
    ensures History(states, acts, f, g) && Opens(states[0])
    ensures acts == [EnterA(0), EnterB(0), GiveA, TakeB] + [Crash(Alive(-1), Alive(-1))] + [EnterA(1), EnterB(1)]
    ensures states[7] == Moved1(f(0))
  {
    states, acts := OneAgreed(f, g);
    var w, t := states[5], Moved1(f(0));
    SecondBegins(f(0));
    SingleMarks(w.a.end, 1, []);
    SingleMarks(w.b.end, 0, [f(0)]);
    AEnters(w, 1, t.a.end, Marks(Mark(1, 0)), f, g);
    w := w.(a := t.a);
    states, acts := Grow(states, acts, EnterA(1), w, f, g);
    BEnters(w, 1, t.b.end, Marks(Mark(0, 1)), f, g);
    states, acts := Grow(states, acts, EnterB(1), t, f, g);
  }

  /** Neither log is valid, so nothing is agreed, and a remembers that b has had message 0. */
  function Forgotten<M>(): Pair<M> {
    Pair(Alone(Single(NONE, map[], 0, 0), 0, []), Alone(Single(NONE, map[], -1, 0), 0, []), [], [])
  }

  lemma BothForget<M>(m: M, f: int -> M, g: int -> M)
    ensures var w, act := Moved1(m), Crash(Alive(0), Alive(0));
            Acts(w, act, Forgotten(), f, g) && Ready(w, act) && Breaks(w, act)
  {
    var w, act: Act<M> := Moved1(m), Crash(Alive(0), Alive(0));
    SingleForgets(w.a, Region(1, At(1), At(0)), 0);
    SingleForgets(w.b, Region(1, At(0), At(1)), -1);
    assert Strand(Forgotten<M>().a, Forgotten<M>().b);
  }

  /** A side that remembers an older partner skips its next message 0 and keeps it only in its log. */
  lemma StaleSends<M>(m: M)
    ensures Send(Single(NONE, map[], 0, 0), [], m) ==
            Ok((Single(Region(0, MsgRange(0, 1), At(0)), map[0 := m], 0, 0), []))
  {
    var l := Single<M>(NONE, map[], 0, 0).log;
    assert EnsureRegion(l, 0) == Single(IDLE, map[], 0, 0).log;
    assert EnsureRegion(l, 0).regions[0 := Region(0, MsgRange(0, 1), At(0))] == [Region(0, MsgRange(0, 1), At(0))];
  }

  lemma BothForgotten<M>(f: int -> M, g: int -> M) returns (states: seq<Pair<M>>, acts: seq<Act<M>>)
    ensures History(states, acts, f, g) && Opens(states[0])
    ensures acts == [EnterA(0), EnterB(0), GiveA, TakeB] + [Crash(Alive(-1), Alive(-1))] + [EnterA(1), EnterB(1)]
                    + [Crash(Alive(0), Alive(0))]
    ensures states[8] == Forgotten() && Ready(states[7], acts[7]) && Breaks(states[7], acts[7])
  {
    states, acts := BothBegin(f, g);
    BothForget(f(0), f, g);
    states, acts := Grow(states, acts, Crash(Alive(0), Alive(0)), Forgotten(), f, g);
  }

  /** After both roll back beyond what their tables hold nobody starts a consistency step. a still remembers that b
      had message 0, so it does not send its new message 0, and b waits for it for ever. */
  lemma StaleSideDropsMessages<M>(f: int -> M, g: int -> M)
    returns (states: seq<Pair<M>>, acts: seq<Act<M>>)
    ensures History(states, acts, f, g) && Opens(states[0])
    ensures acts == [EnterA(0), EnterB(0), GiveA, TakeB] + [Crash(Alive(-1), Alive(-1))] + [EnterA(1), EnterB(1)]
                    + [Crash(Alive(0), Alive(0))] + [GiveA]
    ensures Ready(states[7], acts[7]) && Breaks(states[7], acts[7])
    ensures states[9].toB == [] && states[9].b.got == []
    ensures states[9].a.sent == 1 && states[9].a.end.log == Log([Region(0, MsgRange(0, 1), At(0))], map[0 := f(0)], 0)
    ensures states[9].b.end.log == Log([NONE], map[], -1)
  {
    states, acts := BothForgotten(f, g);
    StaleSends(f(0));
    var w, a := Forgotten<M>(), Single(Region(0, MsgRange(0, 1), At(0)), map[0 := f(0)], 0, 0);
    AGives(w, a, [], f, g);
    states, acts := Grow(states, acts, GiveA, w.(a := Alone(a, 1, [])), f, g);
  }
}
