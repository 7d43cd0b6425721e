/** Two endpoints, two FIFO channels that lose their content at a failure, and the runs they allow, in terms of
    message indices: the message logged under index k is fixed. MessageDelivery adds the programs behind the logs. */
module MessageReplay {
  import opened MessageLog
  import opened Consistency

  /** One side: its log and its active region. */
  datatype Endpoint<M> = Endpoint(log: Log<M>, active: int)

  /** toB carries a's messages to b; the channel knows no indices. */
  datatype System<M> = System(a: Endpoint<M>, b: Endpoint<M>, toA: seq<M>, toB: seq<M>)

  /** How a side comes back from a failure: alive with its own log, from a saved log, or with nothing; target
      is the region it goes back to, -1 to stay where it was. */
  datatype Comeback<M> =
    | Keep(target: int)
    | Load(log: Log<M>, active: int, target: int)
    | Lose(active: int)

  datatype Step<M> =
    | SendA | SendB | RecvA | RecvB
    | BeginA(id: int) | BeginB(id: int)
    | Fail(ca: Comeback<M>, cb: Comeback<M>)

  function Stream<M>(f: int -> M, lo: int, hi: int): (s: seq<M>)
    ensures |s| == if lo < hi then hi - lo else 0
  {
    if hi <= lo then [] else seq(hi - lo, i requires 0 <= i => f(lo + i))
  }

  function Later(a: int, b: int): int { if a < b then b else a }

  /** One side sends a message: logged always, put on the channel only past alreadySent. */
  function Send<M>(e: Endpoint<M>, chan: seq<M>, m: M): Outcome<(Endpoint<M>, seq<M>)>
    requires |e.log.regions| > 0
  {
    match LogSend(e.log, e.active, m)
    case Fatal => Fatal
    case Ok(l) => Ok((e.(log := l), if e.log.NextSend() <= l.alreadySent then chan else chan + [m]))
  }

  /** One side takes the next message off its channel; without one it cannot step. */
  function Receive<M>(e: Endpoint<M>, chan: seq<M>): Outcome<(Endpoint<M>, seq<M>)>
    requires |e.log.regions| > 0
  {
    match LogRecv(e.log, e.active)
    case Fatal => Fatal
    case Ok(l) =>
      if chan == [] then Fatal
      else Ok((e.(log := l), chan[1..]))
  }

  function Begin<M>(e: Endpoint<M>, id: int): Outcome<Endpoint<M>>
    requires |e.log.regions| > 0
  {
    match BeginRegion(e.log, id)
    case Fatal => Fatal
    case Ok(l) => Ok(e.(log := l, active := id))
  }

  /** The log and active region with which a side enters the consistency step. */
  function Return<M>(e: Endpoint<M>, c: Comeback<M>): Outcome<Endpoint<M>>
    requires |e.log.regions| > 0 && (c.Load? ==> |c.log.regions| > 0)
  {
    match c
    case Lose(active) => Ok(e.(log := Log(Nones(|e.log.regions|), map[], -1), active := active))
    case Keep(target) => ResetTo(e, target)
    case Load(l, active, target) => ResetTo(Endpoint(l, active), target)
  }

  function ResetTo<M>(e: Endpoint<M>, target: int): Outcome<Endpoint<M>>
    requires |e.log.regions| > 0
  {
    match Reset(e.log, target)
    case Fatal => Fatal
    case Ok(l) => Ok(Endpoint(l, if target >= 0 then target else e.active))
  }

  /** What the replay puts on the new channel. */
  function Replayed<M>(l: Log<M>): seq<M>
    requires |l.regions| > 0 && CanReplay(l)
  {
    var first, n := l.alreadySent + 1, l.NextSend() - (l.alreadySent + 1);
    if n <= 0 then [] else seq(n, i requires 0 <= i < n => l.sends[first + i])
  }

  /** Both sides are back. If neither has a valid region nobody starts the consistency step. */
  function Rejoin<M>(a: Endpoint<M>, b: Endpoint<M>): Outcome<System<M>>
    requires |a.log.regions| > 0 && |b.log.regions| > 0
  {
    if !a.log.Cur().Valid() && !b.log.Cur().Valid() then Ok(System(a, b, [], []))
    else
      var ta, tb := Table(a.log, a.active), Table(b.log, b.active);
      match (Synchronise(a.log, a.active, tb), Synchronise(b.log, b.active, ta))
      case (Ok(la), Ok(lb)) =>
        if |la.regions| > 0 && |lb.regions| > 0 && CanReplay(la) && CanReplay(lb)
        then Ok(System(a.(log := la), b.(log := lb), Replayed(lb), Replayed(la)))
        else Fatal
      case _ => Fatal
  }

  predicate HasTables<M>(s: System<M>, step: Step<M>) {
    && |s.a.log.regions| > 0 && |s.b.log.regions| > 0
    && (step.Fail? && step.ca.Load? ==> |step.ca.log.regions| > 0)
    && (step.Fail? && step.cb.Load? ==> |step.cb.log.regions| > 0)
  }

  function Next<M>(s: System<M>, step: Step<M>, f: int -> M, g: int -> M): Outcome<System<M>>
    requires HasTables(s, step)
  {
    match step
    case SendA =>
      (match Send(s.a, s.toB, f(s.a.log.NextSend()))
       case Fatal => Fatal
       case Ok(r) => Ok(s.(a := r.0, toB := r.1)))
    case SendB =>
      (match Send(s.b, s.toA, g(s.b.log.NextSend()))
       case Fatal => Fatal
       case Ok(r) => Ok(s.(b := r.0, toA := r.1)))
    case RecvA => (match Receive(s.a, s.toA) case Fatal => Fatal case Ok(r) => Ok(s.(a := r.0, toA := r.1)))
    case RecvB => (match Receive(s.b, s.toB) case Fatal => Fatal case Ok(r) => Ok(s.(b := r.0, toB := r.1)))
    case BeginA(id) => (match Begin(s.a, id) case Fatal => Fatal case Ok(e) => Ok(s.(a := e)))
    case BeginB(id) => (match Begin(s.b, id) case Fatal => Fatal case Ok(e) => Ok(s.(b := e)))
    case Fail(ca, cb) =>
      match (Return(s.a, ca), Return(s.b, cb))
      case (Ok(a), Ok(b)) =>
        if |a.log.regions| > 0 && |b.log.regions| > 0 then Rejoin(a, b) else Fatal
      case _ => Fatal
  }

  // ----- the invariant -----

  ghost predicate Faithful<M>(l: Log<M>, f: int -> M) {
    WellFormed(l) && forall k :: k in l.sends ==> l.sends[k] == f(k)
  }

  /** A channel holds exactly what its receiver still has to get of what its sender has sent or will skip. */
  ghost predicate Carries<M>(chan: seq<M>, from: Log<M>, to: Log<M>, f: int -> M)
    requires |from.regions| > 0 && |to.regions| > 0
  {
    var end := Later(from.NextSend(), from.alreadySent + 1);
    to.NextRecv() <= end && chan == Stream(f, to.NextRecv(), end)
  }

  ghost predicate Inv<M>(s: System<M>, f: int -> M, g: int -> M) {
    && Faithful(s.a.log, f) && Faithful(s.b.log, g) && s.a.active >= 0 && s.b.active >= 0
    && Carries(s.toB, s.a.log, s.b.log, f) && Carries(s.toA, s.b.log, s.a.log, g)
  }

  /** What a step may bring in from outside: regions have non-negative ids, saved logs are logs of the same
      application. */
  ghost predicate Sensible<M>(step: Step<M>, f: int -> M, g: int -> M) {
    match step
    case BeginA(id) => id >= 0
    case BeginB(id) => id >= 0
    case Fail(ca, cb) => SensibleReturn(ca, f) && SensibleReturn(cb, g)
    case _ => true
  }

  ghost predicate SensibleReturn<M>(c: Comeback<M>, f: int -> M) {
    match c
    case Keep(target) => target >= -1
    case Load(l, active, target) => Faithful(l, f) && active >= 0 && target >= -1
    case Lose(active) => active >= 0
  }

  /** No consistency step takes place, and a side remembers an older partner's progress. */
  ghost predicate Stale<M>(s: System<M>, step: Step<M>)
    requires HasTables(s, step)
  {
    step.Fail? && match (Return(s.a, step.ca), Return(s.b, step.cb))
      case (Ok(a), Ok(b)) =>
        && |a.log.regions| > 0 && |b.log.regions| > 0
        && !a.log.Cur().Valid() && !b.log.Cur().Valid()
        && (a.log.alreadySent >= 0 || b.log.alreadySent >= 0)
      case _ => false
  }

  // ----- each step keeps it -----

  lemma StreamExtends<M>(f: int -> M, lo: int, hi: int)
    requires lo <= hi
    ensures Stream(f, lo, hi + 1) == Stream(f, lo, hi) + [f(hi)]
    ensures Stream(f, lo, hi + 1)[0] == f(lo) && Stream(f, lo, hi + 1)[1..] == Stream(f, lo + 1, hi + 1)
  {
  }

  lemma SendFaithful<M>(l: Log<M>, active: int, f: int -> M)
    requires Faithful(l, f) && active >= 0 && LogSend(l, active, f(l.NextSend())).Ok?
    ensures var t := LogSend(l, active, f(l.NextSend())).value;
      && Faithful(t, f) && t.alreadySent == l.alreadySent
      && t.NextSend() == l.NextSend() + 1 && t.NextRecv() == l.NextRecv()
  {
    SendKeeps(l, active, f(l.NextSend()));
    EnsureKeeps(l, active);
    if !l.Cur().Valid() { NoSends(l); }
  }

  lemma SendCarries<M>(e: Endpoint<M>, peer: Log<M>, chan: seq<M>, f: int -> M)
    requires Faithful(e.log, f) && e.active >= 0 && |peer.regions| > 0
    requires Carries(chan, e.log, peer, f) && Send(e, chan, f(e.log.NextSend())).Ok?
    ensures var r := Send(e, chan, f(e.log.NextSend())).value;
      && Faithful(r.0.log, f) && r.0.active == e.active && Carries(r.1, r.0.log, peer, f)
      && r.0.log.NextSend() == e.log.NextSend() + 1 && r.0.log.NextRecv() == e.log.NextRecv()
  {
    SendFaithful(e.log, e.active, f);
    if e.log.NextSend() > e.log.alreadySent { StreamExtends(f, peer.NextRecv(), e.log.NextSend()); }
  }

  /** What comes off the channel is the message of the index that is received under. */
  lemma ReceiveCarries<M>(e: Endpoint<M>, peer: Log<M>, chan: seq<M>, f: int -> M, g: int -> M)
    requires Faithful(e.log, f) && e.active >= 0 && |peer.regions| > 0
    requires Carries(chan, peer, e.log, g) && Receive(e, chan).Ok?
    ensures var r := Receive(e, chan).value;
      && Faithful(r.0.log, f) && r.0.active == e.active && Carries(r.1, peer, r.0.log, g)
      && r.0.log.NextSend() == e.log.NextSend() && r.0.log.NextRecv() == e.log.NextRecv() + 1
      && r.0.log.alreadySent == e.log.alreadySent && chan[0] == g(e.log.NextRecv())
  {
    RecvKeeps(e.log, e.active);
    var lo, end := e.log.NextRecv(), Later(peer.NextSend(), peer.alreadySent + 1);
    StreamExtends(g, lo, end - 1);
  }

  lemma BeginSame<M>(l: Log<M>, id: int, f: int -> M)
    requires Faithful(l, f) && id >= 0 && BeginRegion(l, id).Ok?
    ensures var t := BeginRegion(l, id).value;
      Faithful(t, f) && t.NextSend() == l.NextSend() && t.NextRecv() == l.NextRecv() && t.alreadySent == l.alreadySent
  {
    BeginKeeps(l, id);
  }

  lemma SubsetFaithful<M>(sends: map<int, M>, rs: seq<Region>, f: int -> M)
    requires forall k :: k in sends ==> sends[k] == f(k)
    ensures forall k :: k in WithoutAll(sends, rs) ==> WithoutAll(sends, rs)[k] == f(k)
  {
    forall k | k in WithoutAll(sends, rs) ensures WithoutAll(sends, rs)[k] == f(k) {
      WithoutAllExact(sends, rs, k);
    }
  }

  lemma ResetFaithful<M>(l: Log<M>, target: int, f: int -> M)
    requires Faithful(l, f) && target >= -1 && Reset(l, target).Ok?
    ensures Faithful(Reset(l, target).value, f)
  {
    ResetKeeps(l, target);
    SubsetFaithful(l.sends, l.regions[LowerBound(l.regions, target + 1)..], f);
  }

  lemma ReturnFaithful<M>(e: Endpoint<M>, c: Comeback<M>, f: int -> M)
    requires Faithful(e.log, f) && e.active >= 0
    requires SensibleReturn(c, f) && (c.Load? ==> |c.log.regions| > 0) && Return(e, c).Ok?
    ensures var r := Return(e, c).value; Faithful(r.log, f) && r.active >= 0
  {
    match c
    case Lose(active) =>
      assert forall k :: !InRegions(Nones(|e.log.regions|), k);
    case Keep(target) => ResetFaithful(e.log, target, f);
    case Load(l, active, target) => ResetFaithful(l, target, f);
  }

  lemma ReplayCarries<M>(from: Log<M>, to: Log<M>, f: int -> M)
    requires Faithful(from, f) && |to.regions| > 0 && CanReplay(from) && from.alreadySent + 1 == to.NextRecv()
    ensures Carries(Replayed(from), from, to, f)
  {
  }

  /** Whatever both sides come back with, a successful consistency step restores the invariant. */
  lemma RejoinEstablishes<M>(a: Endpoint<M>, b: Endpoint<M>, f: int -> M, g: int -> M)
    requires Faithful(a.log, f) && Faithful(b.log, g) && a.active >= 0 && b.active >= 0
    requires Rejoin(a, b).Ok?
    ensures a.log.Cur().Valid() || b.log.Cur().Valid() ==> Inv(Rejoin(a, b).value, f, g)
    ensures !a.log.Cur().Valid() && !b.log.Cur().Valid() ==>
      (Inv(Rejoin(a, b).value, f, g) <==> a.log.alreadySent < 0 && b.log.alreadySent < 0)
  {
    if a.log.Cur().Valid() || b.log.Cur().Valid() {
      PairSynchronised(a.log, b.log, a.active, b.active);
      var t := Rejoin(a, b).value;
      PairCarries(t, f, g);
    }
  }

  lemma PairCarries<M>(t: System<M>, f: int -> M, g: int -> M)
    requires Faithful(t.a.log, f) && Faithful(t.b.log, g) && t.a.active >= 0 && t.b.active >= 0
    requires CanReplay(t.a.log) && CanReplay(t.b.log)
    requires t.a.log.alreadySent + 1 == t.b.log.NextRecv() && t.b.log.alreadySent + 1 == t.a.log.NextRecv()
    requires t.toA == Replayed(t.b.log) && t.toB == Replayed(t.a.log)
    ensures Inv(t, f, g)
  {
    ReplayCarries(t.a.log, t.b.log, f);
    ReplayCarries(t.b.log, t.a.log, g);
  }

  lemma FailureKeeps<M>(s: System<M>, step: Step<M>, f: int -> M, g: int -> M)
    requires Inv(s, f, g) && Sensible(step, f, g) && HasTables(s, step) && step.Fail? && Next(s, step, f, g).Ok?
    ensures Inv(Next(s, step, f, g).value, f, g) <==> !Stale(s, step)
  {
    ReturnFaithful(s.a, step.ca, f);
    ReturnFaithful(s.b, step.cb, g);
    RejoinEstablishes(Return(s.a, step.ca).value, Return(s.b, step.cb).value, f, g);
  }

  lemma TrafficOfA<M>(s: System<M>, step: Step<M>, f: int -> M, g: int -> M)
    requires Inv(s, f, g) && Sensible(step, f, g) && HasTables(s, step) && (step.SendA? || step.RecvA? || step.BeginA?)
    requires Next(s, step, f, g).Ok?
    ensures Inv(Next(s, step, f, g).value, f, g)
  {
    match step
    case SendA => SendCarries(s.a, s.b.log, s.toB, f);
    case RecvA => ReceiveCarries(s.a, s.b.log, s.toA, f, g);
    case BeginA(id) => BeginSame(s.a.log, id, f);
  }

  lemma TrafficOfB<M>(s: System<M>, step: Step<M>, f: int -> M, g: int -> M)
    requires Inv(s, f, g) && Sensible(step, f, g) && HasTables(s, step) && (step.SendB? || step.RecvB? || step.BeginB?)
    requires Next(s, step, f, g).Ok?
    ensures Inv(Next(s, step, f, g).value, f, g)
  {
    match step
    case SendB => SendCarries(s.b, s.a.log, s.toA, g);
    case RecvB => ReceiveCarries(s.b, s.a.log, s.toB, g, f);
    case BeginB(id) => BeginSame(s.b.log, id, g);
  }

  lemma TrafficInv<M>(s: System<M>, step: Step<M>, f: int -> M, g: int -> M)
    requires Inv(s, f, g) && Sensible(step, f, g) && HasTables(s, step) && !step.Fail?
    requires Next(s, step, f, g).Ok?
    ensures Inv(Next(s, step, f, g).value, f, g)
  {
    if step.SendA? || step.RecvA? || step.BeginA? { TrafficOfA(s, step, f, g); } else { TrafficOfB(s, step, f, g); }
  }

  lemma StepKeeps<M>(s: System<M>, step: Step<M>, f: int -> M, g: int -> M)
    requires Inv(s, f, g) && Sensible(step, f, g) && HasTables(s, step) && !Stale(s, step)
    requires Next(s, step, f, g).Ok?
    ensures Inv(Next(s, step, f, g).value, f, g)
  {
    if step.Fail? { FailureKeeps(s, step, f, g); } else { TrafficInv(s, step, f, g); }
  }

  // ----- runs -----

  ghost predicate Goes<M>(s: System<M>, step: Step<M>, t: System<M>, f: int -> M, g: int -> M) {
    HasTables(s, step) && Sensible(step, f, g) && Next(s, step, f, g) == Ok(t)
  }

  /** A run as the sequence of its states. */
  ghost predicate Runs<M>(states: seq<System<M>>, steps: seq<Step<M>>, f: int -> M, g: int -> M) {
    |states| == |steps| + 1 && forall i :: 0 <= i < |steps| ==> Goes(states[i], steps[i], states[i + 1], f, g)
  }

  function Start<M>(size: nat, active: int): Endpoint<M> {
    Endpoint(Log(Nones(size), map[], -1), active)
  }

  /** Two sides that have not logged anything yet. */
  ghost predicate Begins<M>(s: System<M>) {
    && |s.a.log.regions| > 0 && |s.b.log.regions| > 0 && s.a.active >= 0 && s.b.active >= 0
    && s == System(Start(|s.a.log.regions|, s.a.active), Start(|s.b.log.regions|, s.b.active), [], [])
  }

  lemma StartHolds<M>(s: System<M>, f: int -> M, g: int -> M)
    requires Begins(s)
    ensures Inv(s, f, g)
  {
    assert forall k :: !InRegions(s.a.log.regions, k) && !InRegions(s.b.log.regions, k);
  }

  /** What the channels hold, over every run from the start: the invariant holds in every state exactly when no
      failure on the way leaves a stale side without a consistency step. */
  lemma RunKeeps<M>(states: seq<System<M>>, steps: seq<Step<M>>, f: int -> M, g: int -> M)
    requires Runs(states, steps, f, g) && Begins(states[0])
    ensures (forall i :: 0 <= i < |states| ==> Inv(states[i], f, g)) <==>
            (forall i :: 0 <= i < |steps| ==> HasTables(states[i], steps[i]) && !Stale(states[i], steps[i]))
  {
    if forall i :: 0 <= i < |states| ==> Inv(states[i], f, g) {
      forall i | 0 <= i < |steps| ensures HasTables(states[i], steps[i]) && !Stale(states[i], steps[i]) {
        assert Goes(states[i], steps[i], states[i + 1], f, g) && Inv(states[i + 1], f, g);
        if steps[i].Fail? { FailureKeeps(states[i], steps[i], f, g); }
      }
    }
    if forall i :: 0 <= i < |steps| ==> HasTables(states[i], steps[i]) && !Stale(states[i], steps[i]) {
      forall i | 0 <= i < |states| ensures Inv(states[i], f, g) { InvAt(states, steps, f, g, i); }
    }
  }

  lemma {:induction false} InvAt<M>(states: seq<System<M>>, steps: seq<Step<M>>, f: int -> M, g: int -> M, n: nat)
    requires Runs(states, steps, f, g) && Begins(states[0]) && n <= |steps|
    requires forall i :: 0 <= i < n ==> HasTables(states[i], steps[i]) && !Stale(states[i], steps[i])
    ensures Inv(states[n], f, g)
  {
    if n == 0 {
      StartHolds(states[0], f, g);
    } else {
      InvAt(states, steps, f, g, n - 1);
      assert Goes(states[n - 1], steps[n - 1], states[n], f, g);
      StepKeeps(states[n - 1], steps[n - 1], f, g);
    }
  }
}
