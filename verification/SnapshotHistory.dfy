/** What the snapshots of a group hold over its runs: data go into the staged snapshot, and what a commit files stays
    as it was until it is deleted or trimmed, however often snapshots are used again. */
module SnapshotHistory {
  import opened SnapshotStore

  /** A member and what each of its snapshots holds. */
  datatype Tracked<D> = Tracked(member: Member, contents: map<nat, D>) {
    ghost predicate Whole() {
      forall x: nat :: x < member.made ==> x in contents
    }

    /** If the timestamp is committed, it has these data. */
    ghost predicate Has(ts: int, data: D) {
      ts in member.committed ==> var x := member.committed[ts]; x in contents && contents[x] == data
    }
  }

  datatype World<D> = World(group: Group, members: seq<Tracked<D>>, firsts: seq<int>) {
    /** The store without what the snapshots hold. */
    function Plain(): Store {
      Store(group, seq(|members|, i requires 0 <= i < |members| => members[i].member), firsts)
    }
  }

  datatype Change<D> = Stage(index: nat, data: D) | Manage(step: Step)

  /** Data are staged: only the staged snapshot changes. */
  function Staged<D>(t: Tracked<D>, data: D): Tracked<D> {
    t.(contents := t.contents[t.member.stage := data])
  }

  /** A snapshot that leaves the committed ones is reset; one that is made is blank. */
  ghost function Recycled<D>(t: Tracked<D>, now: Member, blank: D): Tracked<D> {
    Tracked(now, map x: nat | x < now.made ::
      if x !in t.contents || (Kept(t.member, x) && !Kept(now, x)) then blank else t.contents[x])
  }

  ghost function New<D>(m: Member, blank: D): Tracked<D> {
    Recycled(Tracked(m, map[]), m, blank)
  }

  ghost predicate Sane<D>(w: World<D>) {
    Valid(w.Plain()) && forall i :: 0 <= i < |w.members| ==> w.members[i].Whole()
  }

  predicate Allowed<D>(w: World<D>, c: Change<D>) {
    match c
    case Stage(i, _) => i < |w.members|
    case Manage(step) => Enabled(w.Plain(), step)
  }

  ghost function After<D>(w: World<D>, c: Change<D>, blank: D): World<D>
    requires Allowed(w, c)
  {
    match c
    case Stage(i, data) => w.(members := w.members[i := Staged(w.members[i], data)])
    case Manage(Create(fillings)) =>
      w.(members := w.members + [New(Fresh(w.group.depth, fillings), blank)], firsts := w.firsts + [Next(w.group)])
    case Manage(Remove(i)) =>
      w.(members := w.members[..i] + w.members[i + 1..], firsts := w.firsts[..i] + w.firsts[i + 1..])
    case Manage(CommitAll) =>
      var members := seq(|w.members|, i requires 0 <= i < |w.members| =>
        Recycled(w.members[i], Commit(w.members[i].member, Next(w.group)), blank));
      World(CommitGroup(w.group), members, w.firsts)
    case Manage(DeleteAt(ts)) =>
      var members := seq(|w.members|, i requires 0 <= i < |w.members| =>
        Recycled(w.members[i], Delete(w.members[i].member, ts), blank));
      World(DeleteFromGroup(w.group, ts), members, w.firsts)
  }

  lemma MemberInStep<D>(w: World<D>, i: nat)
    requires Sane(w) && i < |w.members|
    ensures i < |w.firsts| && InStep(w.group, w.members[i].member, w.firsts[i])
  {
    assert w.Plain().members[i] == w.members[i].member;
  }

  /** Underneath, the store does what it does without contents. */
  lemma AfterPlain<D>(w: World<D>, c: Change<D>, blank: D)
    requires Sane(w) && Allowed(w, c)
    ensures After(w, c, blank).Plain() == if c.Stage? then w.Plain() else Do(w.Plain(), c.step)
    ensures Sane(After(w, c, blank))
  {
    var n := After(w, c, blank).Plain();
    if c.Stage? {
      assert n.members == w.Plain().members;
    } else {
      assert n.members == Do(w.Plain(), c.step).members;
      DoKeeps(w.Plain(), c.step);
    }
  }

  // ----- what is filed stays -----

  lemma StagedKeeps<D>(t: Tracked<D>, data: D, ts: int, d: D)
    requires Pool(t.member) && t.Has(ts, d)
    ensures Staged(t, data).Has(ts, d)
  {
    if ts in t.member.committed { assert Kept(t.member, t.member.committed[ts]); }
  }

  /** What stays committed is not reset. */
  lemma RecycledKeeps<D>(t: Tracked<D>, now: Member, blank: D, ts: int, d: D)
    requires Pool(t.member) && Pool(now) && now.made == t.member.made && t.Has(ts, d)
    requires ts in now.committed ==> ts in t.member.committed && now.committed[ts] == t.member.committed[ts]
    ensures Recycled(t, now, blank).Has(ts, d)
  {
    if ts in now.committed { assert Kept(now, now.committed[ts]) && Holds(now, now.committed[ts]); }
  }

  /** A commit files what is staged. */
  lemma CommitHas<D>(w: World<D>, i: nat, blank: D)
    requires Sane(w) && i < |w.members|
    ensures w.members[i].member.stage in w.members[i].contents
    ensures var t, r := w.members[i], After(w, Manage(CommitAll), blank).members[i];
            Next(w.group) in r.member.committed && r.Has(Next(w.group), t.contents[t.member.stage])
  {
    var t, ts := w.members[i], Next(w.group);
    MemberInStep(w, i);
    NextIsNew(w.group);
    assert Holds(t.member, t.member.stage);
    CommitInStep(w.group, t.member, w.firsts[i]);
    CommitFiles(t.member, ts);
    var now := Commit(t.member, ts);
    assert Kept(now, t.member.stage) && Holds(now, t.member.stage);
  }

  /** Where a member stands after a change that does not remove it. */
  function Place<D>(i: nat, c: Change<D>): nat
    requires c != Manage(Remove(i))
  {
    if c.Manage? && c.step.Remove? && c.step.index < i then i - 1 else i
  }

  /** A later change leaves it so, unless the timestamp is deleted or trimmed. */
  lemma ChangeKeeps<D>(w: World<D>, c: Change<D>, blank: D, i: nat, ts: int, d: D)
    requires Sane(w) && Allowed(w, c) && i < |w.members| && c != Manage(Remove(i))
    requires ts < Next(w.group) && w.members[i].Has(ts, d)
    ensures var n := After(w, c, blank);
            Place(i, c) < |n.members| && ts < Next(n.group) && n.members[Place(i, c)].Has(ts, d)
  {
    var t := w.members[i];
    MemberInStep(w, i);
    match c
    case Stage(_, data) => StagedKeeps(t, data, ts, d);
    case Manage(Create(_)) =>
    case Manage(Remove(_)) =>
    case Manage(CommitAll) =>
      NextIsNew(w.group);
      CommitSound(w.group);
      CommitInStep(w.group, t.member, w.firsts[i]);
      CommitFiles(t.member, Next(w.group));
      RecycledKeeps(t, Commit(t.member, Next(w.group)), blank, ts, d);
    case Manage(DeleteAt(u)) =>
      DeletePool(t.member, u);
      RecycledKeeps(t, Delete(t.member, u), blank, ts, d);
  }

  // ----- runs -----

  ghost predicate Possible<D>(w: World<D>, changes: seq<Change<D>>, blank: D)
    decreases |changes|
  {
    changes != [] ==> Allowed(w, changes[0]) && Possible(After(w, changes[0], blank), changes[1..], blank)
  }

  ghost function Run<D>(w: World<D>, changes: seq<Change<D>>, blank: D): World<D>
    requires Possible(w, changes, blank)
    decreases |changes|
  {
    if changes == [] then w else Run(After(w, changes[0], blank), changes[1..], blank)
  }

  /** The member in place i is never removed. */
  predicate Stays<D(==)>(i: nat, changes: seq<Change<D>>)
    decreases |changes|
  {
    changes != [] ==> changes[0] != Manage(Remove(i)) && Stays(Place(i, changes[0]), changes[1..])
  }

  function PlaceAfter<D>(i: nat, changes: seq<Change<D>>): nat
    requires Stays(i, changes)
    decreases |changes|
  {
    if changes == [] then i else PlaceAfter(Place(i, changes[0]), changes[1..])
  }

  lemma {:induction false} RunKeepsData<D>(w: World<D>, changes: seq<Change<D>>, blank: D, i: nat, ts: int, d: D)
    requires Sane(w) && Possible(w, changes, blank) && i < |w.members| && Stays(i, changes)
    requires ts < Next(w.group) && w.members[i].Has(ts, d)
    ensures var r := Run(w, changes, blank);
            PlaceAfter(i, changes) < |r.members| && r.members[PlaceAfter(i, changes)].Has(ts, d)
    decreases |changes|
  {
    if changes != [] {
      AfterPlain(w, changes[0], blank);
      ChangeKeeps(w, changes[0], blank, i, ts, d);
      RunKeepsData(After(w, changes[0], blank), changes[1..], blank, Place(i, changes[0]), ts, d);
    }
  }

  /** After a commit, whatever is staged, committed, deleted, created or removed: as long as a member has the timestamp
      committed, its snapshot holds what was staged at that commit. */
  lemma CommitLasts<D>(w: World<D>, later: seq<Change<D>>, blank: D, i: nat)
    requires Sane(w) && i < |w.members| && Stays(i, later)
    requires Possible(After(w, Manage(CommitAll), blank), later, blank)
    ensures w.members[i].member.stage in w.members[i].contents
    ensures var t, r := w.members[i], Run(After(w, Manage(CommitAll), blank), later, blank);
            PlaceAfter(i, later) < |r.members|
            && r.members[PlaceAfter(i, later)].Has(Next(w.group), t.contents[t.member.stage])
  {
    var t, n := w.members[i], After(w, Manage(CommitAll), blank);
    AfterPlain(w, Manage(CommitAll), blank);
    CommitHas(w, i, blank);
    CommitSound(w.group);
    RunKeepsData(n, later, blank, i, Next(w.group), t.contents[t.member.stage]);
  }

  /** An empty group is where runs start. */
  lemma EmptySane<D>(timestart: nat, depth: nat)
    ensures Sane(World<D>.World(Group(timestart, -1, depth, {}), [], []))
  {
  }
}
