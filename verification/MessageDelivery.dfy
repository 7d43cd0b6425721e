/** Delivery over whole runs, to the programs behind the logs. A program does not know the log's indices: its k-th
    message is f(k), whatever index that is logged under, and what it takes is whatever comes off the channel. Each
    side has got exactly its partner's messages, in order, as long as no failure leaves a program off its log. */
module MessageDelivery {
  import opened MessageLog
  import opened Consistency
  import opened MessageReplay

  /** How many messages a program has sent and got. */
  datatype Mark = Mark(sent: int, got: int)

  /** One side: its endpoint, how many messages its program has sent, what it has got, and how many it had sent and
      got when it began each region. */
  datatype Program<M> = Program(end: Endpoint<M>, sent: int, got: seq<M>, marks: map<int, Mark>) {
    function Now(): Mark { Mark(sent, |got|) }

    function MarkOf(region: int): Mark {
      if region in marks then marks[region] else Now()
    }

    /** The marks once a region begins: a region begun again, before anything happened in it, keeps its mark. */
    function Marking(region: int): map<int, Mark> {
      (map k | k in marks && k < region :: marks[k])[region := MarkOf(region)]
    }
  }

  datatype Pair<M> = Pair(a: Program<M>, b: Program<M>, toA: seq<M>, toB: seq<M>) {
    function Plain(): System<M> { System(a.end, b.end, toA, toB) }
  }

  /** How a side comes back from a failure: alive, from a saved state, or with nothing but its data as they were at
      the start of a region; target is the region it goes back to, -1 to stay where it was. */
  datatype Back<M> =
    | Alive(target: int)
    | Saved(saved: Program<M>, target: int)
    | Dead(region: int)

  datatype Act<M> =
    | GiveA | GiveB | TakeA | TakeB
    | EnterA(id: int) | EnterB(id: int)
    | Crash(ca: Back<M>, cb: Back<M>)

  // ----- what each side does -----

  function Give<M>(p: Program<M>, chan: seq<M>, f: int -> M): Outcome<(Program<M>, seq<M>)>
    requires |p.end.log.regions| > 0
  {
    match Send(p.end, chan, f(p.sent))
    case Fatal => Fatal
    case Ok(r) => Ok((p.(end := r.0, sent := p.sent + 1), r.1))
  }

  function Take<M>(p: Program<M>, chan: seq<M>): Outcome<(Program<M>, seq<M>)>
    requires |p.end.log.regions| > 0
  {
    match Receive(p.end, chan)
    case Fatal => Fatal
    case Ok(r) => if chan == [] then Fatal else Ok((p.(end := r.0, got := p.got + [chan[0]]), r.1))
  }

  function Enter<M>(p: Program<M>, id: int): Outcome<Program<M>>
    requires |p.end.log.regions| > 0
  {
    match Begin(p.end, id)
    case Fatal => Fatal
    case Ok(e) => Ok(p.(end := e, marks := p.Marking(id)))
  }

  function Cut<T>(s: seq<T>, n: int): seq<T> {
    if 0 <= n < |s| then s[..n] else s
  }

  /** The program goes back to where it began the region; one it has not begun yet is the very next one. */
  function Restart<M>(p: Program<M>, region: int): Program<M> {
    var m := p.MarkOf(region);
    p.(sent := m.sent, got := Cut(p.got, m.got), marks := p.Marking(region))
  }

  predicate HasTable<M>(p: Program<M>, c: Back<M>) {
    |p.end.log.regions| > 0 && (c.Saved? ==> |c.saved.end.log.regions| > 0)
  }

  function Revive<M>(p: Program<M>, target: int): Outcome<Program<M>>
    requires |p.end.log.regions| > 0
  {
    match Return(p.end, Keep(target))
    case Fatal => Fatal
    case Ok(e) => Ok((if target >= 0 then Restart(p, target) else p).(end := e))
  }

  function ComeBack<M>(p: Program<M>, c: Back<M>): Outcome<Program<M>>
    requires HasTable(p, c)
  {
    match c
    case Alive(target) => Revive(p, target)
    case Saved(saved, target) => Revive(saved, target)
    case Dead(region) =>
      match Return(p.end, Lose(region))
      case Fatal => Fatal
      case Ok(e) => Ok(Restart(p, region).(end := e))
  }

  function Meet<M>(a: Program<M>, b: Program<M>): Outcome<Pair<M>>
    requires |a.end.log.regions| > 0 && |b.end.log.regions| > 0
  {
    match Rejoin(a.end, b.end)
    case Fatal => Fatal
    case Ok(t) => Ok(Pair(a.(end := t.a), b.(end := t.b), t.toA, t.toB))
  }

  predicate Ready<M>(w: Pair<M>, act: Act<M>) {
    && |w.a.end.log.regions| > 0 && |w.b.end.log.regions| > 0
    && (act.Crash? ==> HasTable(w.a, act.ca) && HasTable(w.b, act.cb))
  }

  function Do<M>(w: Pair<M>, act: Act<M>, f: int -> M, g: int -> M): Outcome<Pair<M>>
    requires Ready(w, act)
  {
    match act
    case GiveA => (match Give(w.a, w.toB, f) case Fatal => Fatal case Ok(r) => Ok(w.(a := r.0, toB := r.1)))
    case GiveB => (match Give(w.b, w.toA, g) case Fatal => Fatal case Ok(r) => Ok(w.(b := r.0, toA := r.1)))
    case TakeA => (match Take(w.a, w.toA) case Fatal => Fatal case Ok(r) => Ok(w.(a := r.0, toA := r.1)))
    case TakeB => (match Take(w.b, w.toB) case Fatal => Fatal case Ok(r) => Ok(w.(b := r.0, toB := r.1)))
    case EnterA(id) => (match Enter(w.a, id) case Fatal => Fatal case Ok(p) => Ok(w.(a := p)))
    case EnterB(id) => (match Enter(w.b, id) case Fatal => Fatal case Ok(p) => Ok(w.(b := p)))
    case Crash(ca, cb) =>
      match (ComeBack(w.a, ca), ComeBack(w.b, cb))
      case (Ok(a), Ok(b)) =>
        if |a.end.log.regions| > 0 && |b.end.log.regions| > 0 then Meet(a, b) else Fatal
      case _ => Fatal
  }

  // ----- programs and their logs -----

  /** The program's next message is the one its log counts next, and it has got the partner's messages 0 to the one
      its log counts as received last, each once and in order. */
  ghost predicate InStep<M>(p: Program<M>, g: int -> M) {
    |p.end.log.regions| > 0 && p.sent == p.end.log.NextSend() && p.got == Stream(g, 0, p.end.log.NextRecv())
  }

  /** Both programs are in step, and the channels hold exactly what is still to come. */
  ghost predicate Sound<M>(w: Pair<M>, f: int -> M, g: int -> M) {
    Inv(w.Plain(), f, g) && InStep(w.a, g) && InStep(w.b, f)
  }

  /** Saved states were saved in step. */
  ghost predicate SaneBack<M>(c: Back<M>, f: int -> M, g: int -> M) {
    match c
    case Alive(target) => target >= -1
    case Saved(p, target) => target >= -1 && Faithful(p.end.log, f) && p.end.active >= 0 && InStep(p, g)
    case Dead(region) => region >= 0
  }

  ghost predicate Sane<M>(act: Act<M>, f: int -> M, g: int -> M) {
    match act
    case EnterA(id) => id >= 0
    case EnterB(id) => id >= 0
    case Crash(ca, cb) => SaneBack(ca, f, g) && SaneBack(cb, g, f)
    case _ => true
  }

  // ----- where the consistency step leaves a log -----

  /** The indices at which a side goes on sending and receiving after the step, from what both come back with: a log
      without a valid region, or in a region in which nothing was ever sent or received, takes the start its partner
      knows. */
  function ResumeAt<M>(to: Log<M>, active: int, from: Log<M>): Mark
    requires |to.regions| > 0 && |from.regions| > 0
  {
    var stays := to.Cur().Valid() && !(to.Cur().Fresh() && from.Cur().id >= to.Cur().id);
    if !from.Cur().Valid() || stays then Mark(to.NextSend(), to.NextRecv())
    else KnownStart(from.regions, if to.Cur().Valid() then to.Cur().id else active)
  }

  /** Where a region starts for the partner of the side that knows it; a region it does not know starts at 0. */
  function KnownStart(rs: seq<Region>, id: int): Mark {
    var i := LowerBound(rs, id);
    if i < |rs| && rs[i].id == id then Mark(rs[i].recv.first, rs[i].send.first) else Mark(0, 0)
  }

  /** The same on the tables that are exchanged. */
  function Resumes(to: seq<Region>, from: seq<Region>): Mark
    requires |to| > 0 && |from| > 0
  {
    var r := Last(to);
    if !Last(from).Valid() || (r.Valid() && !(r.Fresh() && Last(from).id >= r.id)) then Mark(r.send.next, r.recv.next)
    else KnownStart(from, r.id)
  }

  function StandsAt(r: Region): Mark { Mark(r.send.next, r.recv.next) }

  lemma SecondResumes(a: seq<Region>, b: seq<Region>)
    requires Exchanged(a) && Exchanged(b) && Agree(a, b).Ok?
    ensures var t := Agree(a, b).value; |t.1| == |b| && Last(t.1).Valid() && StandsAt(Last(t.1)) == Resumes(b, a)
  {
    AgreeMoves(a, b);
    if Last(a).Valid() && Last(b).Valid() && Last(a).id < Last(b).id { BoundOfLast(b); }
  }

  lemma FirstResumes(a: seq<Region>, b: seq<Region>)
    requires Exchanged(a) && Exchanged(b) && Agree(a, b).Ok?
    ensures var t := Agree(a, b).value; |t.0| == |a| && Last(t.0).Valid() && StandsAt(Last(t.0)) == Resumes(a, b)
  {
    EndpointsAgree(a, b);
    SecondResumes(b, a);
  }

  lemma ResumesThere<M>(to: Log<M>, active: int, from: Log<M>, fromActive: int)
    requires WellFormed(to) && WellFormed(from) && active >= 0 && fromActive >= 0
    requires Synchronise(to, active, Table(from, fromActive)).Ok?
    ensures var l := Synchronise(to, active, Table(from, fromActive)).value;
            |l.regions| > 0 && Mark(l.NextSend(), l.NextRecv()) == ResumeAt(to, active, from)
  {
    TableExchanged(from, fromActive);
    TableExchanged(to, active);
    FirstResumes(Table(to, active), Table(from, fromActive));
  }

  /** Where each side goes on once both are back. */
  lemma RejoinResumes<M>(a: Endpoint<M>, b: Endpoint<M>)
    requires WellFormed(a.log) && WellFormed(b.log) && a.active >= 0 && b.active >= 0 && Rejoin(a, b).Ok?
    ensures var t := Rejoin(a, b).value;
            && |t.a.log.regions| > 0 && |t.b.log.regions| > 0
            && Mark(t.a.log.NextSend(), t.a.log.NextRecv()) == ResumeAt(a.log, a.active, b.log)
            && Mark(t.b.log.NextSend(), t.b.log.NextRecv()) == ResumeAt(b.log, b.active, a.log)
  {
    if a.log.Cur().Valid() || b.log.Cur().Valid() {
      ResumesThere(a.log, a.active, b.log, b.active);
      ResumesThere(b.log, b.active, a.log, a.active);
    }
  }

  /** A log with a valid region is moved exactly when nothing was ever sent or received in that region, and its
      partner, no older, knows the region to start elsewhere; one without goes where its partner says. */
  lemma LogMoves<M>(a: Endpoint<M>, b: Endpoint<M>)
    requires WellFormed(a.log) && WellFormed(b.log) && a.active >= 0 && b.active >= 0 && Rejoin(a, b).Ok?
    ensures var t := Rejoin(a, b).value.b.log;
            var id := if b.log.Cur().Valid() then b.log.Cur().id else b.active;
            && |t.regions| > 0
            && (Mark(t.NextSend(), t.NextRecv()) != Mark(b.log.NextSend(), b.log.NextRecv()) <==>
                && a.log.Cur().Valid() && (b.log.Cur().Valid() ==> b.log.Cur().Fresh() && a.log.Cur().id >= id)
                && KnownStart(a.log.regions, id) != Mark(0, 0))
  {
    RejoinResumes(a, b);
  }

  // ----- traffic -----

  lemma GiveKeeps<M>(p: Program<M>, peer: Log<M>, chan: seq<M>, f: int -> M, g: int -> M)
    requires Faithful(p.end.log, f) && p.end.active >= 0 && |peer.regions| > 0 && InStep(p, g)
    requires Carries(chan, p.end.log, peer, f) && Give(p, chan, f).Ok?
    ensures var r := Give(p, chan, f).value;
            && Send(p.end, chan, f(p.end.log.NextSend())) == Ok((r.0.end, r.1)) && InStep(r.0, g)
  {
    SendCarries(p.end, peer, chan, f);
  }

  lemma TakeKeeps<M>(p: Program<M>, peer: Log<M>, chan: seq<M>, f: int -> M, g: int -> M)
    requires Faithful(p.end.log, f) && p.end.active >= 0 && |peer.regions| > 0 && InStep(p, g)
    requires Carries(chan, peer, p.end.log, g) && Take(p, chan).Ok?
    ensures var r := Take(p, chan).value; Receive(p.end, chan) == Ok((r.0.end, r.1)) && InStep(r.0, g)
  {
    ReceiveCarries(p.end, peer, chan, f, g);
    StreamExtends(g, 0, p.end.log.NextRecv());
  }

  lemma EnterKeeps<M>(p: Program<M>, id: int, f: int -> M, g: int -> M)
    requires Faithful(p.end.log, f) && id >= 0 && InStep(p, g) && Enter(p, id).Ok?
    ensures var r := Enter(p, id).value; Begin(p.end, id) == Ok(r.end) && InStep(r, g)
  {
    BeginSame(p.end.log, id, f);
  }

  /** The step of the endpoints under a step of their programs. */
  function Under<M>(act: Act<M>): Step<M>
    requires !act.Crash?
  {
    match act
    case GiveA => SendA
    case GiveB => SendB
    case TakeA => RecvA
    case TakeB => RecvB
    case EnterA(id) => BeginA(id)
    case EnterB(id) => BeginB(id)
  }

  lemma TrafficUnder<M>(w: Pair<M>, act: Act<M>, f: int -> M, g: int -> M)
    requires Sound(w, f, g) && Sane(act, f, g) && Ready(w, act) && !act.Crash? && Do(w, act, f, g).Ok?
    ensures var t := Do(w, act, f, g).value;
            HasTables(w.Plain(), Under(act)) && Next(w.Plain(), Under(act), f, g) == Ok(t.Plain())
            && InStep(t.a, g) && InStep(t.b, f)
  {
    match act
    case GiveA => GiveKeeps(w.a, w.b.end.log, w.toB, f, g);
    case GiveB => GiveKeeps(w.b, w.a.end.log, w.toA, g, f);
    case TakeA => TakeKeeps(w.a, w.b.end.log, w.toA, f, g);
    case TakeB => TakeKeeps(w.b, w.a.end.log, w.toB, g, f);
    case EnterA(id) => EnterKeeps(w.a, id, f, g);
    case EnterB(id) => EnterKeeps(w.b, id, g, f);
  }

  /** Without a failure nothing is lost, repeated or reordered. */
  lemma TrafficKeeps<M>(w: Pair<M>, act: Act<M>, f: int -> M, g: int -> M)
    requires Sound(w, f, g) && Sane(act, f, g) && Ready(w, act) && !act.Crash? && Do(w, act, f, g).Ok?
    ensures Sound(Do(w, act, f, g).value, f, g)
  {
    TrafficUnder(w, act, f, g);
    TrafficInv(w.Plain(), Under(act), f, g);
  }

  // ----- failures -----

  /** The step leaves the log elsewhere than the program stands. */
  predicate Off<M>(p: Program<M>, from: Log<M>)
    requires |p.end.log.regions| > 0 && |from.regions| > 0
  {
    ResumeAt(p.end.log, p.end.active, from) != p.Now()
  }

  /** A failure that cannot go well: the step leaves a log elsewhere than its program stands, or else, with no valid
      region on either side, there is no step and one side remembers an older partner. */
  predicate Breaks<M>(w: Pair<M>, act: Act<M>)
    requires Ready(w, act)
  {
    act.Crash? &&
    match (ComeBack(w.a, act.ca), ComeBack(w.b, act.cb))
    case (Ok(a), Ok(b)) =>
      |a.end.log.regions| > 0 && |b.end.log.regions| > 0 && (Off(a, b.end.log) || Off(b, a.end.log) || Strand(a, b))
    case _ => false
  }

  predicate Strand<M>(a: Program<M>, b: Program<M>)
    requires |a.end.log.regions| > 0 && |b.end.log.regions| > 0
  {
    && !a.end.log.Cur().Valid() && !b.end.log.Cur().Valid()
    && (a.end.log.alreadySent >= 0 || b.end.log.alreadySent >= 0)
  }

  /** What it has got is the first messages of its partner. */
  ghost predicate Prefix<M>(p: Program<M>, g: int -> M) {
    p.got == Stream(g, 0, |p.got|)
  }

  lemma RestartPrefix<M>(p: Program<M>, region: int, g: int -> M)
    requires Prefix(p, g)
    ensures Prefix(Restart(p, region), g)
  {
  }

  /** However a side comes back, its log is its own and what it has got is a first part of all it will get. */
  lemma ComeBackPrefix<M>(p: Program<M>, c: Back<M>, f: int -> M, g: int -> M)
    requires Faithful(p.end.log, f) && p.end.active >= 0 && InStep(p, g) && HasTable(p, c) && SaneBack(c, f, g)
    requires ComeBack(p, c).Ok?
    ensures var r := ComeBack(p, c).value; Faithful(r.end.log, f) && r.end.active >= 0 && Prefix(r, g)
  {
    match c
    case Alive(target) =>
      ReturnFaithful(p.end, Keep(target), f);
      RestartPrefix(p, target, g);
    case Saved(saved, target) =>
      ReturnFaithful(saved.end, Keep(target), f);
      RestartPrefix(saved, target, g);
    case Dead(region) =>
      ReturnFaithful(p.end, Lose(region), f);
      RestartPrefix(p, region, g);
  }

  lemma InStepWhen<M>(p: Program<M>, e: Endpoint<M>, g: int -> M)
    requires Prefix(p, g) && |e.log.regions| > 0 && e.log.NextRecv() >= 0
    ensures InStep(p.(end := e), g) <==> p.Now() == Mark(e.log.NextSend(), e.log.NextRecv())
  {
    if InStep(p.(end := e), g) { assert |Stream(g, 0, e.log.NextRecv())| == e.log.NextRecv(); }
  }

  lemma MeetExact<M>(a: Program<M>, b: Program<M>, f: int -> M, g: int -> M)
    requires Faithful(a.end.log, f) && Faithful(b.end.log, g) && a.end.active >= 0 && b.end.active >= 0
    requires Prefix(a, g) && Prefix(b, f) && Meet(a, b).Ok?
    ensures Sound(Meet(a, b).value, f, g) <==> !Off(a, b.end.log) && !Off(b, a.end.log) && !Strand(a, b)
  {
    RejoinResumes(a.end, b.end);
    RejoinEstablishes(a.end, b.end, f, g);
    var t := Rejoin(a.end, b.end).value;
    InStepWhen(a, t.a, g);
    InStepWhen(b, t.b, f);
  }

  /** A failure goes well exactly under a condition on what both sides come back with. */
  lemma FailureExact<M>(w: Pair<M>, act: Act<M>, f: int -> M, g: int -> M)
    requires Sound(w, f, g) && Sane(act, f, g) && Ready(w, act) && act.Crash? && Do(w, act, f, g).Ok?
    ensures Sound(Do(w, act, f, g).value, f, g) <==> !Breaks(w, act)
  {
    ComeBackPrefix(w.a, act.ca, f, g);
    ComeBackPrefix(w.b, act.cb, g, f);
    MeetExact(ComeBack(w.a, act.ca).value, ComeBack(w.b, act.cb).value, f, g);
  }

  // ----- runs -----

  ghost predicate Acts<M>(w: Pair<M>, act: Act<M>, t: Pair<M>, f: int -> M, g: int -> M) {
    Ready(w, act) && Sane(act, f, g) && Do(w, act, f, g) == Ok(t)
  }

  /** A run as the sequence of its states. */
  ghost predicate History<M>(states: seq<Pair<M>>, acts: seq<Act<M>>, f: int -> M, g: int -> M) {
    |states| == |acts| + 1 && forall i :: 0 <= i < |acts| ==> Acts(states[i], acts[i], states[i + 1], f, g)
  }

  function Newcomer<M>(size: nat, active: int): Program<M> {
    Program(Start(size, active), 0, [], map[active := Mark(0, 0)])
  }

  /** Two sides that have done nothing yet. */
  ghost predicate Opens<M>(w: Pair<M>) {
    && Begins(w.Plain())
    && w.a == Newcomer(|w.a.end.log.regions|, w.a.end.active) && w.b == Newcomer(|w.b.end.log.regions|, w.b.end.active)
  }

  lemma OpensSound<M>(w: Pair<M>, f: int -> M, g: int -> M)
    requires Opens(w)
    ensures Sound(w, f, g)
  {
    StartHolds(w.Plain(), f, g);
  }

  lemma ActSound<M>(w: Pair<M>, act: Act<M>, t: Pair<M>, f: int -> M, g: int -> M)
    requires Sound(w, f, g) && Acts(w, act, t, f, g)
    ensures Sound(t, f, g) <==> !Breaks(w, act)
  {
    if act.Crash? { FailureExact(w, act, f, g); } else { TrafficKeeps(w, act, f, g); }
  }

  lemma {:induction false} SoundAt<M>(states: seq<Pair<M>>, acts: seq<Act<M>>, f: int -> M, g: int -> M, n: nat)
    requires History(states, acts, f, g) && Opens(states[0]) && n <= |acts|
    requires forall i :: 0 <= i < n ==> Ready(states[i], acts[i]) && !Breaks(states[i], acts[i])
    ensures Sound(states[n], f, g)
  {
    if n == 0 {
      OpensSound(states[0], f, g);
    } else {
      SoundAt(states, acts, f, g, n - 1);
      ActSound(states[n - 1], acts[n - 1], states[n], f, g);
    }
  }

  /** Exactly once and in order. Over every run from the start, whatever sides roll back, reload or are lost: in every
      state each program has got the messages 0 to n - 1 of its partner's program, each once, its channel carries on
      from n, and its log counts as its program does, exactly when no failure breaks it; and which failures do can be
      told from what both sides come back with. */
  lemma ExactlyOnce<M>(states: seq<Pair<M>>, acts: seq<Act<M>>, f: int -> M, g: int -> M)
    requires History(states, acts, f, g) && Opens(states[0])
    ensures (forall i :: 0 <= i < |states| ==> Sound(states[i], f, g)) <==>
            (forall i :: 0 <= i < |acts| ==> Ready(states[i], acts[i]) && !Breaks(states[i], acts[i]))
  {
    if forall i :: 0 <= i < |states| ==> Sound(states[i], f, g) {
      forall i | 0 <= i < |acts| ensures Ready(states[i], acts[i]) && !Breaks(states[i], acts[i]) {
        assert Sound(states[i], f, g) && Sound(states[i + 1], f, g);
        ActSound(states[i], acts[i], states[i + 1], f, g);
      }
    }
    if forall i :: 0 <= i < |acts| ==> Ready(states[i], acts[i]) && !Breaks(states[i], acts[i]) {
      forall i | 0 <= i < |states| ensures Sound(states[i], f, g) { SoundAt(states, acts, f, g, i); }
    }
  }
}
