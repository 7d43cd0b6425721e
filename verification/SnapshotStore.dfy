/** Committed snapshots of a data group: a fixed pool per member, trimmed to the group's depth, and timestamps
    that the group and its members keep in step. */
module SnapshotStore {

  /** A member's snapshots by number: the one being staged, the committed ones by timestamp, those waiting to be
      used again (taken from the end), and how many were ever made. */
  datatype Member = Member(stage: nat, committed: map<int, nat>, avail: seq<nat>, depth: nat, made: nat)

  datatype Group = Group(timestart: int, timestamp: int, depth: nat, timestamps: set<int>)

  // ----- members -----

  /** A new member's pool, filled once by the local policy and twice by the in-memory one, whose constructor has
      already filled it; the second filling drops the first staged snapshot. */
  function Fresh(depth: nat, fillings: nat): Member
    requires fillings >= 1
  {
    Member(0, map[], seq(fillings * (depth + 1), i requires 0 <= i => i + 1), depth, fillings * (depth + 1) + 1)
  }

  ghost predicate IsOldest(s: set<int>, t: int) {
    t in s && forall u :: u in s ==> t <= u
  }

  lemma SomeMember(s: set<int>)
    ensures s == {} || exists w :: w in s
  {
    if forall w :: w !in s { assert s == {}; }
  }

  lemma {:induction false} OldestExists(s: set<int>) returns (t: int)
    requires s != {}
    ensures IsOldest(s, t)
  {
    SomeMember(s);
    var w :| w in s;
    var rest := s - {w};
    if rest != {} {
      var u := OldestExists(rest);
      t := if u < w then u else w;
      forall v | v in s ensures t <= v { assert v == w || v in rest; }
    } else {
      t := w;
      assert s == {w};
    }
  }

  ghost function Oldest(s: set<int>): (t: int)
    requires s != {}
    ensures IsOldest(s, t)
  {
    assert exists t :: IsOldest(s, t) by { var w := OldestExists(s); }
    var t :| IsOldest(s, t);
    t
  }

  /** Deleting a committed snapshot makes it available again. */
  function Delete(m: Member, ts: int): Member {
    if ts in m.committed then m.(committed := m.committed - {ts}, avail := m.avail + [m.committed[ts]]) else m
  }

  /** The staged snapshot joins the committed ones. */
  function Enter(m: Member, ts: int): Member {
    if ts in m.committed then m else m.(committed := m.committed[ts := m.stage])
  }

  ghost function Trim(m: Member): Member {
    if |m.committed| > m.depth + 1 then Delete(m, Oldest(m.committed.Keys)) else m
  }

  /** The next snapshot to stage into comes from the pool, or is made when the pool is dry. */
  function Restage(m: Member): Member {
    if m.avail != [] then m.(stage := m.avail[|m.avail| - 1], avail := m.avail[..|m.avail| - 1])
    else m.(stage := m.made, made := m.made + 1)
  }

  ghost function Commit(m: Member, ts: int): Member {
    Restage(Trim(Enter(m, ts)))
  }

  // ----- the pool -----

  ghost predicate Kept(m: Member, x: nat) {
    exists t :: t in m.committed && m.committed[t] == x
  }

  function Size(m: Member): nat {
    1 + |m.committed| + |m.avail|
  }

  /** Every snapshot ever made is in exactly one place. */
  ghost predicate Pool(m: Member) {
    && (forall x: nat :: x < m.made <==> Holds(m, x))
    && m.stage !in m.avail && !Kept(m, m.stage)
    && (forall j, k :: 0 <= j < k < |m.avail| ==> m.avail[j] != m.avail[k])
    && (forall j :: 0 <= j < |m.avail| ==> !Kept(m, m.avail[j]))
    && (forall s, t :: s in m.committed && t in m.committed && m.committed[s] == m.committed[t] ==> s == t)
  }

  ghost predicate Holds(m: Member, x: nat) {
    x == m.stage || x in m.avail || Kept(m, x)
  }

  lemma FreshPool(depth: nat, fillings: nat)
    requires fillings >= 1
    ensures Pool(Fresh(depth, fillings)) && Size(Fresh(depth, fillings)) == Fresh(depth, fillings).made
    ensures Size(Fresh(depth, fillings)) >= depth + 2 && (fillings == 1 ==> Size(Fresh(depth, fillings)) == depth + 2)
  {
    var m := Fresh(depth, fillings);
    forall x: nat ensures x < m.made <==> Holds(m, x) {
      if 0 < x < m.made { assert m.avail[x - 1] == x; }
    }
  }

  /** A member in the middle of a commit, its staged snapshot entered and not yet replaced. */
  ghost predicate Emptied(m: Member) {
    && (forall x: nat :: x < m.made <==> x in m.avail || Kept(m, x))
    && (forall j, k :: 0 <= j < k < |m.avail| ==> m.avail[j] != m.avail[k])
    && (forall j :: 0 <= j < |m.avail| ==> !Kept(m, m.avail[j]))
    && (forall s, t :: s in m.committed && t in m.committed && m.committed[s] == m.committed[t] ==> s == t)
  }

  lemma EnterPool(m: Member, ts: int)
    requires Pool(m) && ts !in m.committed
    ensures Emptied(Enter(m, ts)) && |Enter(m, ts).committed| == |m.committed| + 1
    ensures Enter(m, ts).committed.Keys == m.committed.Keys + {ts}
  {
    var e := Enter(m, ts);
    assert e.committed.Keys == m.committed.Keys + {ts};
    assert e.committed[ts] == m.stage;
    forall y: nat ensures Kept(e, y) <==> y == m.stage || Kept(m, y) {
      if Kept(m, y) {
        var t :| t in m.committed && m.committed[t] == y;
        assert t in e.committed && e.committed[t] == y;
      }
    }
    forall s, t | s in e.committed && t in e.committed && e.committed[s] == e.committed[t] ensures s == t {
      assert s != ts ==> Kept(m, e.committed[s]);
      assert t != ts ==> Kept(m, e.committed[t]);
    }
    forall y: nat ensures y < m.made <==> y in e.avail || Kept(e, y) { assert y < m.made <==> Holds(m, y); }
  }

  /** Deleting moves one snapshot from the committed ones to the available ones. */
  lemma DeleteKept(m: Member, ts: int)
    requires ts in m.committed
    requires forall s, t :: s in m.committed && t in m.committed && m.committed[s] == m.committed[t] ==> s == t
    ensures var d, x := Delete(m, ts), m.committed[ts];
            && (forall y: nat :: Kept(d, y) <==> Kept(m, y) && y != x)
            && (forall y: nat :: y in d.avail <==> y in m.avail || y == x)
            && d.committed.Keys == m.committed.Keys - {ts} && |d.committed| + 1 == |m.committed|
  {
    var d, x := Delete(m, ts), m.committed[ts];
    assert m.committed.Keys == d.committed.Keys + {ts};
    forall y: nat ensures Kept(d, y) <==> Kept(m, y) && y != x {
      if Kept(m, y) && y != x {
        var t :| t in m.committed && m.committed[t] == y;
        assert t in d.committed && d.committed[t] == y;
      }
      if Kept(d, y) {
        var t :| t in d.committed && d.committed[t] == y;
        assert t in m.committed && m.committed[t] == y;
      }
    }
  }

  lemma TrimPool(m: Member, ts: int)
    requires Emptied(m) && ts in m.committed
    ensures var d := Delete(m, ts);
            Emptied(d) && |d.committed| + |d.avail| == |m.committed| + |m.avail| && d.made == m.made
            && d.committed.Keys == m.committed.Keys - {ts}
  {
    DeleteKept(m, ts);
    assert Kept(m, m.committed[ts]);
  }

  lemma RestagePool(m: Member)
    requires Emptied(m) && m.avail != []
    ensures Pool(Restage(m)) && Size(Restage(m)) == |m.committed| + |m.avail| && Restage(m).made == m.made
  {
    var r, n := Restage(m), |m.avail| - 1;
    assert m.avail == m.avail[..n] + [m.avail[n]];
    assert forall y: nat :: y in m.avail <==> y in r.avail || y == r.stage;
    forall y: nat ensures Kept(r, y) <==> Kept(m, y) {}
  }

  lemma DeletePool(m: Member, ts: int)
    requires Pool(m)
    ensures Pool(Delete(m, ts)) && Size(Delete(m, ts)) == Size(m) && Delete(m, ts).made == m.made
    ensures Delete(m, ts).committed.Keys == m.committed.Keys - {ts}
  {
    if ts in m.committed {
      DeleteKept(m, ts);
      var d, x := Delete(m, ts), m.committed[ts];
      assert Kept(m, x);
      forall y: nat ensures y < m.made <==> Holds(d, y) { assert Holds(m, y) <==> Holds(d, y); }
    }
  }

  /** Committing keeps every snapshot in exactly one place and never finds the pool dry. */
  lemma CommitPool(m: Member, ts: int)
    requires Pool(m) && Size(m) >= m.depth + 2 && |m.committed| <= m.depth + 1 && ts !in m.committed
    ensures Trim(Enter(m, ts)).avail != []
    ensures Pool(Commit(m, ts)) && Size(Commit(m, ts)) == Size(m) && Commit(m, ts).made == m.made
    ensures |Commit(m, ts).committed| <= m.depth + 1
    ensures Commit(m, ts).committed.Keys == Trim(Enter(m, ts)).committed.Keys
  {
    EnterPool(m, ts);
    var e := Enter(m, ts);
    if |e.committed| > m.depth + 1 {
      TrimPool(e, Oldest(e.committed.Keys));
    }
    RestagePool(Trim(e));
  }

  // ----- groups -----

  ghost predicate Sound(g: Group) {
    |g.timestamps| <= g.depth + 1 && forall t :: t in g.timestamps ==> t <= g.timestamp
  }

  /** The timestamp the next commit gets. */
  function Next(g: Group): int {
    if g.timestamp == -1 then g.timestart else g.timestamp + 1
  }

  ghost function CommitGroup(g: Group): Group {
    g.(timestamp := Next(g), timestamps := Rolled(g.timestamps, Next(g), g.depth))
  }

  function DeleteFromGroup(g: Group, ts: int): Group {
    g.(timestamps := g.timestamps - {ts})
  }

  /** The timestamps from the first one on. */
  ghost function From(timestamps: set<int>, first: int): set<int> {
    set t | t in timestamps && t >= first
  }

  /** A member created when first was the next timestamp holds exactly the group's timestamps since then. */
  ghost predicate InStep(g: Group, m: Member, first: int) {
    && Pool(m) && m.depth == g.depth && Size(m) >= g.depth + 2 && first <= Next(g)
    && m.committed.Keys == From(g.timestamps, first)
  }

  /** Timestamps are not negative once a commit has been made, so that the next one is new. */
  ghost predicate Started(g: Group) {
    if g.timestamp == -1 then g.timestamps == {} else g.timestamp >= 0
  }

  lemma FromSize(timestamps: set<int>, first: int)
    ensures From(timestamps, first) <= timestamps && |From(timestamps, first)| <= |timestamps|
  {
    SubsetSize(From(timestamps, first), timestamps);
  }

  lemma SubsetSize(a: set<int>, b: set<int>)
    requires a <= b
    ensures |a| <= |b| && (|a| == |b| ==> a == b)
  {
    assert b == a + (b - a);
    if |a| == |b| { assert b - a == {}; }
  }

  lemma NextIsNew(g: Group)
    requires Sound(g) && Started(g)
    ensures forall t :: t in g.timestamps ==> t < Next(g)
  {
  }

  /** A commit keeps the group within its depth. */
  lemma CommitSound(g: Group)
    requires Sound(g) && Started(g) && g.timestart >= 0
    ensures Sound(CommitGroup(g)) && Started(CommitGroup(g)) && Next(g) in CommitGroup(g).timestamps
    ensures Next(CommitGroup(g)) == Next(g) + 1
  {
    NextIsNew(g);
  }

  /** Adding a new timestamp and dropping the oldest one when there are too many. */
  ghost function Rolled(timestamps: set<int>, ts: int, depth: nat): set<int> {
    (if |timestamps| == depth + 1 then timestamps - {Oldest(timestamps)} else timestamps) + {ts}
  }

  ghost function Trimmed(timestamps: set<int>, ts: int, depth: nat): set<int> {
    var all := timestamps + {ts};
    if |all| > depth + 1 then all - {Oldest(all)} else all
  }

  /** Trimming after adding, on the timestamps since a first one, is dropping before adding on all of them. */
  lemma TrimTogether(timestamps: set<int>, first: int, ts: int, depth: nat)
    requires |timestamps| <= depth + 1 && first <= ts && forall t :: t in timestamps ==> t < ts
    ensures From(Rolled(timestamps, ts, depth), first) == Trimmed(From(timestamps, first), ts, depth)
  {
    var since := From(timestamps, first);
    FromSize(timestamps, first);
    if |timestamps| == depth + 1 {
      if |since| == depth + 1 {
        SubsetSize(since, timestamps);
        SameOldest(timestamps, ts);
      } else {
        DroppedIsOlder(timestamps, first);
      }
    }
  }

  lemma SameOldest(s: set<int>, ts: int)
    requires s != {} && forall t :: t in s ==> t < ts
    ensures Oldest(s + {ts}) == Oldest(s)
  {
    assert Oldest(s) in s + {ts};
  }

  lemma DroppedIsOlder(s: set<int>, first: int)
    requires s != {} && |From(s, first)| < |s|
    ensures Oldest(s) < first
  {
    AllSince(s, first);
  }

  lemma AllSince(s: set<int>, first: int)
    requires s != {}
    ensures Oldest(s) >= first ==> From(s, first) == s
  {
  }

  /** A commit trims a member exactly when the group drops a timestamp the member has. */
  lemma CommitInStep(g: Group, m: Member, first: int)
    requires Sound(g) && Started(g) && g.timestart >= 0 && InStep(g, m, first)
    ensures InStep(CommitGroup(g), Commit(m, Next(g)), first)
    ensures Size(Commit(m, Next(g))) == Size(m) && Commit(m, Next(g)).made == m.made
  {
    var ts := Next(g);
    NextIsNew(g);
    CommitSound(g);
    FromSize(g.timestamps, first);
    assert |m.committed.Keys| == |m.committed|;
    CommitPool(m, ts);
    CommitKeys(m, ts);
    TrimTogether(g.timestamps, first, ts, g.depth);
  }

  lemma CommitKeys(m: Member, ts: int)
    requires Pool(m) && Size(m) >= m.depth + 2 && |m.committed| <= m.depth + 1 && ts !in m.committed
    ensures Commit(m, ts).committed.Keys == Trimmed(m.committed.Keys, ts, m.depth) && Commit(m, ts).depth == m.depth
  {
    EnterPool(m, ts);
    var e := Enter(m, ts);
    assert |e.committed.Keys| == |e.committed|;
    if |e.committed| > m.depth + 1 { TrimPool(e, Oldest(e.committed.Keys)); }
  }

  /** Where a commit puts which snapshot: the staged one goes under the new timestamp, whoever stays keeps its own,
      and the next one to stage into is the one that is dropped, or else the last one of the pool. */
  ghost predicate Filed(was: Member, ts: int, now: Member) {
    && (ts in now.committed ==> now.committed[ts] == was.stage)
    && (forall t :: t in now.committed && t != ts ==> t in was.committed && now.committed[t] == was.committed[t])
    && (forall t :: t in was.committed && t !in now.committed ==>
          |was.committed| > was.depth && now.stage == was.committed[t] && now.avail == was.avail && t <= ts
          && forall u :: u in was.committed ==> t <= u)
    && (|was.committed| <= was.depth ==>
          if was.avail == [] then now.stage == was.made else was.avail == now.avail + [now.stage])
  }

  lemma CommitFiles(m: Member, ts: int)
    requires ts !in m.committed
    ensures Filed(m, ts, Commit(m, ts))
    ensures (forall t :: t in m.committed ==> t < ts) ==> ts in Commit(m, ts).committed
  {
    var e := Enter(m, ts);
    assert e.committed.Keys == m.committed.Keys + {ts};
    assert |e.committed.Keys| == |e.committed| && |m.committed.Keys| == |m.committed|;
    if |m.committed| <= m.depth {
      if m.avail != [] { assert m.avail == m.avail[..|m.avail| - 1] + [m.avail[|m.avail| - 1]]; }
    } else {
      var oldest := Oldest(e.committed.Keys);
      DropsOldest(m, e, oldest);
      var w := OldestExists(m.committed.Keys);
      assert w in e.committed.Keys;
    }
  }

  /** The pool gives back what was put there last. */
  lemma DropsOldest(m: Member, e: Member, t: int)
    requires t in e.committed && e.avail == m.avail
    ensures var r := Restage(Delete(e, t)); r.stage == e.committed[t] && r.avail == m.avail
  {
    assert (m.avail + [e.committed[t]])[..|m.avail|] == m.avail;
  }

  lemma DeleteInStep(g: Group, m: Member, first: int, ts: int)
    requires Sound(g) && InStep(g, m, first)
    ensures Sound(DeleteFromGroup(g, ts)) && InStep(DeleteFromGroup(g, ts), Delete(m, ts), first)
    ensures Size(Delete(m, ts)) == Size(m) && Delete(m, ts).made == m.made
  {
    DeletePool(m, ts);
    SubsetSize(g.timestamps - {ts}, g.timestamps);
  }

  /** A new member has nothing to catch up on. */
  lemma FreshInStep(g: Group, fillings: nat)
    requires Sound(g) && Started(g) && fillings >= 1
    ensures InStep(g, Fresh(g.depth, fillings), Next(g))
  {
    FreshPool(g.depth, fillings);
    NextIsNew(g);
    assert From(g.timestamps, Next(g)) == {};
  }

  // ----- runs -----

  datatype Step = Create(fillings: nat) | Remove(index: nat) | CommitAll | DeleteAt(ts: int)

  /** A group with its members, and for each member the timestamp that was next when it was created. */
  datatype Store = Store(group: Group, members: seq<Member>, firsts: seq<int>)

  ghost predicate Valid(s: Store) {
    && Sound(s.group) && Started(s.group) && s.group.timestart >= 0 && |s.firsts| == |s.members|
    && forall i :: 0 <= i < |s.members| ==> InStep(s.group, s.members[i], s.firsts[i])
  }

  predicate Enabled(s: Store, step: Step) {
    match step
    case Create(fillings) => fillings >= 1
    case Remove(i) => i < |s.members| && i < |s.firsts|
    case CommitAll => true
    case DeleteAt(_) => true
  }

  ghost function Do(s: Store, step: Step): Store
    requires Enabled(s, step)
  {
    match step
    case Create(fillings) =>
      s.(members := s.members + [Fresh(s.group.depth, fillings)], firsts := s.firsts + [Next(s.group)])
    case Remove(i) => s.(members := s.members[..i] + s.members[i + 1..], firsts := s.firsts[..i] + s.firsts[i + 1..])
    case CommitAll =>
      var members := seq(|s.members|, i requires 0 <= i < |s.members| => Commit(s.members[i], Next(s.group)));
      Store(CommitGroup(s.group), members, s.firsts)
    case DeleteAt(ts) =>
      var members := seq(|s.members|, i requires 0 <= i < |s.members| => Delete(s.members[i], ts));
      Store(DeleteFromGroup(s.group, ts), members, s.firsts)
  }

  lemma DoKeeps(s: Store, step: Step)
    requires Valid(s) && Enabled(s, step)
    ensures Valid(Do(s, step))
  {
    var r := Do(s, step);
    match step
    case Create(fillings) =>
      FreshInStep(s.group, fillings);
    case Remove(_) =>
    case CommitAll =>
      CommitSound(s.group);
      forall i | 0 <= i < |s.members| ensures InStep(r.group, r.members[i], r.firsts[i]) {
        CommitInStep(s.group, s.members[i], s.firsts[i]);
      }
    case DeleteAt(ts) =>
      SubsetSize(s.group.timestamps - {ts}, s.group.timestamps);
      forall i | 0 <= i < |s.members| ensures InStep(r.group, r.members[i], r.firsts[i]) {
        DeleteInStep(s.group, s.members[i], s.firsts[i], ts);
      }
  }

  ghost predicate Possible(s: Store, steps: seq<Step>)
    decreases |steps|
  {
    steps != [] ==> Enabled(s, steps[0]) && Possible(Do(s, steps[0]), steps[1..])
  }

  ghost function Run(s: Store, steps: seq<Step>): Store
    requires Possible(s, steps)
    decreases |steps|
  {
    if steps == [] then s else Run(Do(s, steps[0]), steps[1..])
  }

  /** Over every run of creations, removals, commits and deletions the group stays within its depth, every member
      holds exactly the timestamps since it was created, and no pool loses or gains a snapshot. */
  lemma {:induction false} RunKeeps(s: Store, steps: seq<Step>)
    requires Valid(s) && Possible(s, steps)
    ensures Valid(Run(s, steps))
    decreases |steps|
  {
    if steps != [] {
      DoKeeps(s, steps[0]);
      RunKeeps(Do(s, steps[0]), steps[1..]);
    }
  }
}
