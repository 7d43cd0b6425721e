/** When coming back can fail: over whole runs, nothing to replay is ever missing as long as no agreement moves
    a region away from an older one. */
module MessageRecovery {
  import opened MessageLog
  import opened Consistency
  import opened MessageReplay

  /** Logs of the same applications; the channels do not matter here. */
  ghost predicate Logged<M>(s: System<M>, f: int -> M, g: int -> M) {
    Faithful(s.a.log, f) && Faithful(s.b.log, g) && s.a.active >= 0 && s.b.active >= 0
  }

  ghost predicate Exact<M>(s: System<M>) {
    ExactFrom(s.a.log.regions, 0) && ExactFrom(s.b.log.regions, 0)
  }

  /** Saved logs were exact when they were saved. */
  ghost predicate SavedExact<M>(step: Step<M>) {
    && (step.Fail? && step.ca.Load? ==> ExactFrom(step.ca.log.regions, 0))
    && (step.Fail? && step.cb.Load? ==> ExactFrom(step.cb.log.regions, 0))
  }

  /** A failure whose agreement moves a region away from an older one. */
  predicate Tears<M>(s: System<M>, step: Step<M>)
    requires HasTables(s, step)
  {
    step.Fail? &&
    match (Return(s.a, step.ca), Return(s.b, step.cb))
    case (Ok(a), Ok(b)) =>
      && |a.log.regions| > 0 && |b.log.regions| > 0
      && var ta, tb := Table(a.log, a.active), Table(b.log, b.active);
         Displaces(ta, tb) || Displaces(tb, ta)
    case _ => false
  }

  lemma RecvFaithful<M>(l: Log<M>, active: int, f: int -> M)
    requires Faithful(l, f) && active >= 0 && LogRecv(l, active).Ok?
    ensures Faithful(LogRecv(l, active).value, f)
  {
    RecvKeeps(l, active);
  }

  lemma ReturnExact<M>(e: Endpoint<M>, c: Comeback<M>, f: int -> M)
    requires Faithful(e.log, f) && ExactFrom(e.log.regions, 0) && SensibleReturn(c, f)
    requires c.Load? ==> |c.log.regions| > 0 && ExactFrom(c.log.regions, 0)
    requires Return(e, c).Ok?
    ensures ExactFrom(Return(e, c).value.log.regions, 0)
  {
    match c
    case Lose(active) =>
    case Keep(target) => ResetKeepsExact(e.log, target);
    case Load(l, active, target) => ResetKeepsExact(l, target);
  }

  /** Both are back with exact logs: the step fails exactly when the tables do not agree, and then the logs are exact
      again exactly unless it moved a region away from an older one. */
  lemma RejoinExact<M>(a: Endpoint<M>, b: Endpoint<M>, f: int -> M, g: int -> M)
    requires Faithful(a.log, f) && Faithful(b.log, g) && a.active >= 0 && b.active >= 0
    requires ExactFrom(a.log.regions, 0) && ExactFrom(b.log.regions, 0)
    ensures var ta, tb := Table(a.log, a.active), Table(b.log, b.active);
            && (Rejoin(a, b).Fatal? <==> (a.log.Cur().Valid() || b.log.Cur().Valid()) && Agree(ta, tb).Fatal?)
            && (Rejoin(a, b).Ok? ==> Logged(Rejoin(a, b).value, f, g))
            && (Rejoin(a, b).Ok? ==> (Exact(Rejoin(a, b).value) <==> !Displaces(ta, tb) && !Displaces(tb, ta)))
  {
    var ta, tb := Table(a.log, a.active), Table(b.log, b.active);
    TableExchanged(a.log, a.active);
    TableExchanged(b.log, b.active);
    EndpointsAgree(ta, tb);
    if a.log.Cur().Valid() || b.log.Cur().Valid() {
      NothingMissing(a.log, a.active, tb);
      NothingMissing(b.log, b.active, ta);
      if Agree(ta, tb).Ok? {
        SynchroniseKeeps(a.log, a.active, tb);
        SynchroniseKeeps(b.log, b.active, ta);
        TableExact(a.log, a.active);
        TableExact(b.log, b.active);
        AgreeKeepsExact(ta, tb);
        AgreeKeepsExact(tb, ta);
      }
    }
  }

  // ----- one step -----

  ghost predicate Whole<M>(s: System<M>, f: int -> M, g: int -> M) {
    Logged(s, f, g) && Exact(s)
  }

  /** One side goes back to a region that was never begun, or their tables do not agree. */
  predicate CannotMeet<M>(s: System<M>, step: Step<M>)
    requires HasTables(s, step) && step.Fail?
  {
    match (Return(s.a, step.ca), Return(s.b, step.cb))
    case (Ok(a), Ok(b)) =>
      && |a.log.regions| > 0 && |b.log.regions| > 0
      && (a.log.Cur().Valid() || b.log.Cur().Valid())
      && Agree(Table(a.log, a.active), Table(b.log, b.active)).Fatal?
    case _ => true
  }

  lemma TrafficWhole<M>(s: System<M>, step: Step<M>, f: int -> M, g: int -> M)
    requires Whole(s, f, g) && Sensible(step, f, g) && HasTables(s, step) && !step.Fail? && Next(s, step, f, g).Ok?
    ensures Whole(Next(s, step, f, g).value, f, g)
  {
    match step
    case SendA => SendFaithful(s.a.log, s.a.active, f); TrafficKeepsExact(s.a.log, s.a.active, f(s.a.log.NextSend()));
    case SendB => SendFaithful(s.b.log, s.b.active, g); TrafficKeepsExact(s.b.log, s.b.active, g(s.b.log.NextSend()));
    case RecvA => RecvFaithful(s.a.log, s.a.active, f); TrafficKeepsExact(s.a.log, s.a.active, f(0));
    case RecvB => RecvFaithful(s.b.log, s.b.active, g); TrafficKeepsExact(s.b.log, s.b.active, g(0));
    case BeginA(id) => BeginSame(s.a.log, id, f); BeginKeepsExact(s.a.log, id);
    case BeginB(id) => BeginSame(s.b.log, id, g); BeginKeepsExact(s.b.log, id);
  }

  lemma FailureWhole<M>(s: System<M>, step: Step<M>, f: int -> M, g: int -> M)
    requires Whole(s, f, g) && Sensible(step, f, g) && SavedExact(step) && HasTables(s, step) && step.Fail?
    ensures Next(s, step, f, g).Fatal? <==> CannotMeet(s, step)
    ensures Next(s, step, f, g).Ok? ==> (Whole(Next(s, step, f, g).value, f, g) <==> !Tears(s, step))
  {
    if Return(s.a, step.ca).Ok? && Return(s.b, step.cb).Ok? {
      ReturnFaithful(s.a, step.ca, f);
      ReturnFaithful(s.b, step.cb, g);
      ReturnExact(s.a, step.ca, f);
      ReturnExact(s.b, step.cb, g);
      RejoinExact(Return(s.a, step.ca).value, Return(s.b, step.cb).value, f, g);
    }
  }

  // ----- runs -----

  lemma StartWhole<M>(s: System<M>, f: int -> M, g: int -> M)
    requires Begins(s)
    ensures Whole(s, f, g)
  {
    StartHolds(s, f, g);
  }

  lemma StepWhole<M>(s: System<M>, step: Step<M>, t: System<M>, f: int -> M, g: int -> M)
    requires Whole(s, f, g) && SavedExact(step) && Goes(s, step, t, f, g)
    ensures Whole(t, f, g) <==> !Tears(s, step)
  {
    if step.Fail? { FailureWhole(s, step, f, g); } else { TrafficWhole(s, step, f, g); }
  }

  lemma {:induction false} WholeAt<M>(states: seq<System<M>>, steps: seq<Step<M>>, f: int -> M, g: int -> M, n: nat)
    requires Runs(states, steps, f, g) && Begins(states[0]) && n <= |steps|
    requires forall i :: 0 <= i < n ==>
      SavedExact(steps[i]) && HasTables(states[i], steps[i]) && !Tears(states[i], steps[i])
    ensures Whole(states[n], f, g)
  {
    if n == 0 {
      StartWhole(states[0], f, g);
    } else {
      WholeAt(states, steps, f, g, n - 1);
      StepWhole(states[n - 1], steps[n - 1], states[n], f, g);
    }
  }

  /** When recovery cannot fail for want of a message: after any run from the start in which no agreement moved a
      region away from an older one, a failure is survived exactly when both sides can go back and their tables agree.
      Stale sides and moved receivers make no difference to this. */
  lemma RecoveryExact<M>(states: seq<System<M>>, steps: seq<Step<M>>, step: Step<M>, f: int -> M, g: int -> M)
    requires Runs(states, steps, f, g) && Begins(states[0])
    requires forall i :: 0 <= i < |steps| ==>
      SavedExact(steps[i]) && HasTables(states[i], steps[i]) && !Tears(states[i], steps[i])
    requires step.Fail? && Sensible(step, f, g) && SavedExact(step) && HasTables(states[|steps|], step)
    ensures Next(states[|steps|], step, f, g).Ok? <==> !CannotMeet(states[|steps|], step)
  {
    WholeAt(states, steps, f, g, |steps|);
    FailureWhole(states[|steps|], step, f, g);
  }

  /** And the logs stay exact over a run exactly as long as no agreement does that. */
  lemma RunStaysWhole<M>(states: seq<System<M>>, steps: seq<Step<M>>, f: int -> M, g: int -> M)
    requires Runs(states, steps, f, g) && Begins(states[0]) && forall i :: 0 <= i < |steps| ==> SavedExact(steps[i])
    ensures (forall i :: 0 <= i < |states| ==> Whole(states[i], f, g)) <==>
            (forall i :: 0 <= i < |steps| ==> HasTables(states[i], steps[i]) && !Tears(states[i], steps[i]))
  {
    if forall i :: 0 <= i < |states| ==> Whole(states[i], f, g) {
      forall i | 0 <= i < |steps| ensures HasTables(states[i], steps[i]) && !Tears(states[i], steps[i]) {
        assert Whole(states[i], f, g) && Whole(states[i + 1], f, g);
        StepWhole(states[i], steps[i], states[i + 1], f, g);
      }
    }
    if forall i :: 0 <= i < |steps| ==> HasTables(states[i], steps[i]) && !Tears(states[i], steps[i]) {
      forall i | 0 <= i < |states| ensures Whole(states[i], f, g) { WholeAt(states, steps, f, g, i); }
    }
  }
}
