/** A run from the start after which a failure is fatal although the tables agree. */
module RecoveryExamples {
  import opened MessageLog
  import opened Consistency
  import opened MessageReplay
  import opened MessageRecovery

  /** One more step of a run. */
  lemma Grow<M>(states: seq<System<M>>, steps: seq<Step<M>>, step: Step<M>, t: System<M>, f: int -> M, g: int -> M)
    returns (longer: seq<System<M>>, more: seq<Step<M>>)
    requires Runs(states, steps, f, g) && Goes(states[|steps|], step, t, f, g)
    ensures longer == states + [t] && more == steps + [step] && Runs(longer, more, f, g)
    ensures longer[0] == states[0] && longer[|more|] == t
  {
    longer, more := states + [t], steps + [step];
    forall i | 0 <= i < |more| ensures Goes(longer[i], more[i], longer[i + 1], f, g) {
      if i < |steps| { assert Goes(states[i], steps[i], states[i + 1], f, g); }
    }
  }

  lemma SideABegins<M>(s: System<M>, id: nat, e: Endpoint<M>, f: int -> M, g: int -> M)
    requires |s.a.log.regions| > 0 && |s.b.log.regions| > 0 && Begin(s.a, id) == Ok(e)
    ensures Goes(s, BeginA(id), s.(a := e), f, g)
  {
  }

  lemma SideBBegins<M>(s: System<M>, id: nat, e: Endpoint<M>, f: int -> M, g: int -> M)
    requires |s.a.log.regions| > 0 && |s.b.log.regions| > 0 && Begin(s.b, id) == Ok(e)
    ensures Goes(s, BeginB(id), s.(b := e), f, g)
  {
  }

  lemma SideASends<M>(s: System<M>, e: Endpoint<M>, chan: seq<M>, f: int -> M, g: int -> M)
    requires |s.a.log.regions| > 0 && |s.b.log.regions| > 0 && Send(s.a, s.toB, f(s.a.log.NextSend())) == Ok((e, chan))
    ensures Goes(s, SendA, s.(a := e, toB := chan), f, g)
  {
  }

  lemma SideBSends<M>(s: System<M>, e: Endpoint<M>, chan: seq<M>, f: int -> M, g: int -> M)
    requires |s.a.log.regions| > 0 && |s.b.log.regions| > 0 && Send(s.b, s.toA, g(s.b.log.NextSend())) == Ok((e, chan))
    ensures Goes(s, SendB, s.(b := e, toA := chan), f, g)
  {
  }

  lemma SideAReceives<M>(s: System<M>, e: Endpoint<M>, chan: seq<M>, f: int -> M, g: int -> M)
    requires |s.a.log.regions| > 0 && |s.b.log.regions| > 0 && Receive(s.a, s.toA) == Ok((e, chan))
    ensures Goes(s, RecvA, s.(a := e, toA := chan), f, g)
  {
  }

  lemma SideBReceives<M>(s: System<M>, e: Endpoint<M>, chan: seq<M>, f: int -> M, g: int -> M)
    requires |s.a.log.regions| > 0 && |s.b.log.regions| > 0 && Receive(s.b, s.toB) == Ok((e, chan))
    ensures Goes(s, RecvB, s.(b := e, toB := chan), f, g)
  {
  }

  lemma BothFail<M>(s: System<M>, ca: Comeback<M>, cb: Comeback<M>, a: Endpoint<M>, b: Endpoint<M>,
                    la: Log<M>, lb: Log<M>, f: int -> M, g: int -> M)
    requires |s.a.log.regions| > 0 && |s.b.log.regions| > 0 && HasTables(s, Fail(ca, cb))
    requires Sensible(Fail(ca, cb), f, g) && Return(s.a, ca) == Ok(a) && Return(s.b, cb) == Ok(b)
    requires |a.log.regions| > 0 && |b.log.regions| > 0 && (a.log.Cur().Valid() || b.log.Cur().Valid())
    requires Synchronise(a.log, a.active, Table(b.log, b.active)) == Ok(la) && |la.regions| > 0
    requires Synchronise(b.log, b.active, Table(a.log, a.active)) == Ok(lb) && |lb.regions| > 0
    ensures CanReplay(la) && CanReplay(lb)
    ensures Goes(s, Fail(ca, cb), System(a.(log := la), b.(log := lb), Replayed(lb), Replayed(la)), f, g)
  {
  }

  /** Three more steps of a run. */
  lemma Grow3<M>(states: seq<System<M>>, steps: seq<Step<M>>, more: seq<Step<M>>, s: System<M>,
                  t: System<M>, u: System<M>, f: int -> M, g: int -> M)
    returns (longer: seq<System<M>>, all: seq<Step<M>>)
    requires Runs(states, steps, f, g) && |more| == 3 && Goes(states[|steps|], more[0], s, f, g)
    requires Goes(s, more[1], t, f, g) && Goes(t, more[2], u, f, g)
    ensures all == steps + more && Runs(longer, all, f, g) && |states| <= |longer|
    ensures longer[0] == states[0] && longer[|steps|] == states[|steps|] && longer[|all|] == u
  {
    longer, all := Grow(states, steps, more[0], s, f, g);
    longer, all := Grow(longer, all, more[1], t, f, g);
    longer, all := Grow(longer, all, more[2], u, f, g);
  }

  /** A table of two regions. */
  function Two<M>(r: Region, cur: Region, sends: map<int, M>, alreadySent: int, active: int): Endpoint<M> {
    Endpoint(Log([r, cur], sends, alreadySent), active)
  }

  lemma TwoBegins<M>(e: Endpoint<M>, r: Region, id: nat)
    requires |e.log.regions| == 2 && e.log.Cur().id < id && e.log.regions[0] == NONE
    requires r == if e.log.Cur().Valid() then After(id, e.log.Cur()) else Region(id, At(0), At(0))
    ensures Begin(e, id) == Ok(Two(e.log.regions[1], r, e.log.sends, e.log.alreadySent, id))
  {
    assert e.log.regions[1..] + [r] == [e.log.regions[1], r];
  }

  lemma TwoTraffic<M>(f: int -> M)
    ensures var e: Endpoint<M> := Two(NONE, Region(0, At(0), At(0)), map[], -1, 0);
            && Send(e, [], f(0)) == Ok((Two(NONE, Region(0, MsgRange(0, 1), At(0)), map[0 := f(0)], -1, 0), [f(0)]))
            && Receive(e, [f(0)]) == Ok((Two(NONE, Region(0, At(0), MsgRange(0, 1)), map[], -1, 0), []))
  {
    var e: Endpoint<M> := Two(NONE, Region(0, At(0), At(0)), map[], -1, 0);
    var r, q := Region(0, MsgRange(0, 1), At(0)), Region(0, At(0), MsgRange(0, 1));
    assert e.log.regions[1 := r] == [NONE, r] && e.log.regions[1 := q] == [NONE, q];
    assert [] + [f(0)] == [f(0)] && [f(0)][1..] == [];
  }

  /** a in region 1, having received message 0 in region 0; nothing else has happened to it. */
  function Ahead<M>(): Endpoint<M> {
    Two(Region(0, At(0), MsgRange(0, 1)), Region(1, At(0), At(1)), map[], -1, 1)
  }

  lemma AheadStays<M>()
    ensures Return(Ahead<M>(), Keep(-1)) == Ok(Ahead<M>())
    ensures LowerBound(Ahead<M>().log.regions, 0) == 0 && LowerBound(Ahead<M>().log.regions, 1) == 1
  {
  }

  lemma RewindsFirst<M>(m: M)
    ensures Return(Two(NONE, Region(0, MsgRange(0, 1), At(0)), map[0 := m], -1, 0), Keep(0)) ==
            Ok(Two(NONE, Region(0, At(0), At(0)), map[], -1, 0))
  {
    var b := Two(NONE, Region(0, MsgRange(0, 1), At(0)), map[0 := m], -1, 0);
    assert b.log.regions[1 := Region(0, At(0), At(0))] == [NONE, Region(0, At(0), At(0))];
    assert Without(b.log.sends, b.log.Cur()) == map[];
  }

  /** Both know region 0 to start at 0 on either side. */
  lemma BothKnowFirst<M>()
    ensures var a, b := Ahead<M>().log, Two<M>(NONE, Region(0, At(0), At(0)), map[], -1, 0).log;
            Synchronise(a, 1, b.regions) == Ok(a) && Synchronise(b, 0, a.regions) == Ok(b.(alreadySent := 0))
  {
    var a, b := Ahead<M>().log, Two<M>(NONE, Region(0, At(0), At(0)), map[], -1, 0).log;
    AheadStays<M>();
    assert Agree(a.regions, b.regions) == Ok((a.regions, b.regions));
    assert Agree(b.regions, a.regions) == Ok((b.regions, a.regions));
  }

  /** b goes back to the start of region 0, and is told that a has its message 0. */
  lemma GoesBack<M>(f: int -> M, g: int -> M)
    ensures var b := Two(NONE, Region(0, MsgRange(0, 1), At(0)), map[0 := g(0)], -1, 0);
            var b' := Two(NONE, Region(0, At(0), At(0)), map[], 0, 0);
            Goes(System(Ahead<M>(), b, [], []), Fail(Keep(-1), Keep(0)), System(Ahead<M>(), b', [], []), f, g)
  {
    AheadStays<M>();
    RewindsFirst(g(0));
    BothKnowFirst<M>();
    var a, b := Ahead<M>(), Two<M>(NONE, Region(0, At(0), At(0)), map[], -1, 0);
    BothFail(System(a, Two(NONE, Region(0, MsgRange(0, 1), At(0)), map[0 := g(0)], -1, 0), [], []), Keep(-1), Keep(0),
             a, b, a.log, b.log.(alreadySent := 0), f, g);
  }

  /** b has begun region 1 without sending message 0 again; a knows region 1 to start behind it. */
  lemma MovesAway<M>(f: int -> M, g: int -> M)
    ensures var b := Two(Region(0, At(0), At(0)), Region(1, At(0), At(0)), map[], 0, 1);
            var b' := Two(Region(0, At(0), At(0)), Region(1, At(1), At(0)), map[], 0, 1);
            var step := Fail(Keep(-1), Keep(-1));
            Goes(System(Ahead<M>(), b, [], []), step, System(Ahead<M>(), b', [], []), f, g)
            && HasTables(System(Ahead<M>(), b, [], []), step) && Tears(System(Ahead<M>(), b, [], []), step)
  {
    var a, b := Ahead<M>(), Two<M>(Region(0, At(0), At(0)), Region(1, At(0), At(0)), map[], 0, 1);
    var b' := Two<M>(Region(0, At(0), At(0)), Region(1, At(1), At(0)), map[], 0, 1);
    AheadStays<M>();
    assert Return(b, Keep(-1)) == Ok(b) && LowerBound(b.log.regions, 1) == 1;
    assert WithLast(b.log.regions, Mirror(Last(a.log.regions))) == b'.log.regions;
    assert Agree(a.log.regions, b.log.regions) == Ok((a.log.regions, b'.log.regions));
    assert Agree(b.log.regions, a.log.regions) == Ok((b'.log.regions, a.log.regions));
    assert Synchronise(a.log, 1, b.log.regions) == Ok(a.log);
    assert Synchronise(b.log, 1, a.log.regions) == Ok(b'.log);
  }

  /** Their tables agree on region 0, but b does not have message 0 to replay it. */
  lemma CannotReplay<M>(f: int -> M, g: int -> M)
    ensures var b := Two(Region(0, At(0), At(0)), Region(1, At(1), At(0)), map[], 0, 1);
            var s, step := System(Ahead<M>(), b, [], []), Fail(Keep(0), Keep(-1));
            HasTables(s, step) && !CannotMeet(s, step) && Next(s, step, f, g).Fatal?
  {
    var a, b := Ahead<M>(), Two<M>(Region(0, At(0), At(0)), Region(1, At(1), At(0)), map[], 0, 1);
    var back := Two<M>(NONE, Region(0, At(0), At(0)), map[], -1, 0);
    AheadGoesBack<M>();
    assert Return(b, Keep(-1)) == Ok(b) && LowerBound(b.log.regions, 0) == 0;
    assert Agree(back.log.regions, b.log.regions) == Ok((back.log.regions, b.log.regions));
    assert Agree(b.log.regions, back.log.regions) == Ok((b.log.regions, back.log.regions));
    assert 0 !in b.log.sends;
    assert Synchronise(b.log, 1, back.log.regions).Fatal?;
  }

  lemma AheadGoesBack<M>()
    ensures Return(Ahead<M>(), Keep(0)) == Ok(Two(NONE, Region(0, At(0), At(0)), map[], -1, 0))
  {
    var a := Ahead<M>().log;
    AheadStays<M>();
    assert a.regions[1..] == [a.regions[1]] && Nones(1) + a.regions[..1] == [NONE, a.regions[0]];
    assert WithoutAll(a.sends, [a.regions[1]]) == map[] by { assert [a.regions[1]][1..] == []; }
    assert EraseFrom(a, 1) == Log([NONE, a.regions[0]], map[], -1);
    assert [NONE, a.regions[0]][1 := Region(0, At(0), At(0))] == [NONE, Region(0, At(0), At(0))];
  }

  /** A run after which a failure is fatal although the tables agree: b, sent back to region 0, begins region 1 without
      sending its message 0 again, an agreement moves b's region 1 behind that message, and then a goes back. */
  lemma MovedSenderCannotReplay<M>(f: int -> M, g: int -> M)
    returns (states: seq<System<M>>, steps: seq<Step<M>>)
    ensures Runs(states, steps, f, g) && Begins(states[0])
    ensures steps == [BeginA(0), BeginB(0), SendB, RecvA] + [BeginA(1), Fail(Keep(-1), Keep(0)), BeginB(1)]
                     + [Fail(Keep(-1), Keep(-1))]
    ensures HasTables(states[7], steps[7]) && Tears(states[7], steps[7])
    ensures var step := Fail(Keep(0), Keep(-1));
            HasTables(states[8], step) && !CannotMeet(states[8], step) && Next(states[8], step, f, g).Fatal?
  {
    var none: map<int, M> := map[];
    var b1 := Two(NONE, Region(0, MsgRange(0, 1), At(0)), map[0 := g(0)], -1, 0);
    var b2 := Two(NONE, Region(0, At(0), At(0)), none, 0, 0);
    var b3 := Two(Region(0, At(0), At(0)), Region(1, At(0), At(0)), none, 0, 1);
    states, steps := Received0(f, g);
    var a1 := Two(NONE, Region(0, At(0), MsgRange(0, 1)), none, -1, 0);
    TwoBegins(a1, Region(1, At(0), At(1)), 1);
    SideABegins(System(a1, b1, [], []), 1, Ahead<M>(), f, g);
    GoesBack(f, g);
    TwoBegins(b2, Region(1, At(0), At(0)), 1);
    SideBBegins(System(Ahead<M>(), b2, [], []), 1, b3, f, g);
    states, steps := Grow3(states, steps, [BeginA(1), Fail(Keep(-1), Keep(0)), BeginB(1)],
                           System(Ahead<M>(), b1, [], []),
                           System(Ahead<M>(), b2, [], []), System(Ahead<M>(), b3, [], []), f, g);
    MovesAway(f, g);
    var b4 := Two(Region(0, At(0), At(0)), Region(1, At(1), At(0)), none, 0, 1);
    states, steps := Grow(states, steps, Fail(Keep(-1), Keep(-1)), System(Ahead<M>(), b4, [], []), f, g);
    CannotReplay(f, g);
  }

  lemma Received0<M>(f: int -> M, g: int -> M) returns (states: seq<System<M>>, steps: seq<Step<M>>)
    ensures Runs(states, steps, f, g) && Begins(states[0]) && steps == [BeginA(0), BeginB(0), SendB, RecvA]
    ensures states[4] == System(Two(NONE, Region(0, At(0), MsgRange(0, 1)), map[], -1, 0),
                                Two(NONE, Region(0, MsgRange(0, 1), At(0)), map[0 := g(0)], -1, 0), [], [])
  {
    var start: Endpoint<M> := Start(2, 0);
    var e := Two<M>(NONE, Region(0, At(0), At(0)), map[], -1, 0);
    var a := Two(NONE, Region(0, At(0), MsgRange(0, 1)), map[], -1, 0);
    var b := Two(NONE, Region(0, MsgRange(0, 1), At(0)), map[0 := g(0)], -1, 0);
    TwoBegins(start, Region(0, At(0), At(0)), 0);
    TwoTraffic(g);
    var s := System(start, start, [], []);
    states, steps := [s], [];
    assert Begins(s);
    SideABegins(s, 0, e, f, g);
    states, steps := Grow(states, steps, BeginA(0), System(e, start, [], []), f, g);
    SideBBegins(System(e, start, [], []), 0, e, f, g);
    SideBSends(System(e, e, [], []), b, [g(0)], f, g);
    SideAReceives(System(e, b, [g(0)], []), a, [], f, g);
    states, steps := Grow3(states, steps, [BeginB(0), SendB, RecvA], System(e, e, [], []), System(e, b, [g(0)], []),
                           System(a, b, [], []), f, g);
  }
}
