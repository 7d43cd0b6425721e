/** The snapshot store as its objects run it: members that move snapshots between the stage, the committed ones and
    the pool, and a group that commits, deletes and synchronises them together. */
module DataGroups {
  import opened SnapshotStore
  import opened TimestampSync

  const LATEST: int := -1
  const ALL: int := -2

  method OldestOf(s: set<int>) returns (t: int)
    requires s != {}
    ensures t == Oldest(s)
  {
    ghost var w := OldestExists(s);
    t :| t in s && forall u :: u in s ==> t <= u;
  }

  method NewestOf(s: set<int>) returns (t: int)
    requires s != {}
    ensures t in s && forall u :: u in s ==> u <= t
  {
    ghost var w := NewestExists(s);
    t :| t in s && forall u :: u in s ==> u <= t;
  }

  lemma {:induction false} NewestExists(s: set<int>) returns (t: int)
    requires s != {}
    ensures t in s && forall u :: u in s ==> u <= t
  {
    SomeMember(s);
    var w :| w in s;
    var rest := s - {w};
    if rest != {} {
      var u := NewestExists(rest);
      t := if u > w then u else w;
      forall v | v in s ensures v <= t { assert v == w || v in rest; }
    } else {
      t := w;
      assert s == {w};
    }
  }

  /** What forgetting timestamps does to a member: every snapshot stays in the pool. */
  ghost predicate Cleaned(now: Member, was: Member, valid: set<int>) {
    && Pool(now) && Size(now) == Size(was) && now.made == was.made && now.stage == was.stage && now.depth == was.depth
    && now.committed.Keys == was.committed.Keys * valid
    && forall t :: t in now.committed ==> now.committed[t] == was.committed[t]
  }

  lemma Deleted(was: Member, ts: int, now: Member)
    requires now.committed.Keys == was.committed.Keys - {ts}
    requires forall t :: t in now.committed ==> now.committed[t] == was.committed[t]
    requires now.avail == if ts in was.committed then was.avail + [was.committed[ts]] else was.avail
    requires now.stage == was.stage && now.made == was.made && now.depth == was.depth
    ensures now == Delete(was, ts)
  {
    var left := was.committed - {ts};
    forall t ensures t in now.committed <==> t in left {
      assert t in now.committed.Keys <==> t in was.committed.Keys - {ts};
    }
    assert now.committed.Keys == left.Keys && (ts !in was.committed ==> left.Keys == was.committed.Keys);
    forall t | t in left ensures now.committed[t] == left[t] {}
    assert now.committed == left && (ts !in was.committed ==> left == was.committed);
  }

  class DataMember {
    var stage: nat
    var committed: map<int, nat>
    var avail: seq<nat>
    const depth: nat
    var made: nat
    var unstored: bool

    ghost function State(): Member
      reads this
    {
      Member(stage, committed, avail, depth, made)
    }

    /** A new member; the in-memory policies fill the pool twice. */
    constructor (depth: nat, fillings: nat)
      requires fillings >= 1
      ensures State() == Fresh(depth, fillings) && !unstored
    {
      this.depth := depth;
      stage, committed, avail := 0, map[], seq(fillings * (depth + 1), i requires 0 <= i => i + 1);
      made, unstored := fillings * (depth + 1) + 1, false;
    }

    method Commit(ts: int)
      modifies this
      ensures State() == SnapshotStore.Commit(old(State()), ts) && unstored == old(unstored)
      ensures ts !in old(committed) && (forall t :: t in old(committed) ==> t < ts) ==>
                ts in committed && committed[ts] == old(stage)
      ensures ts !in old(committed) ==> Filed(old(State()), ts, State())
    {
      if ts !in committed { CommitFiles(State(), ts); }
      if ts !in committed { committed := committed[ts := stage]; }
      if |committed| > depth + 1 {
        var oldest := OldestOf(committed.Keys);
        ghost var before := State();
        SnapshotDelete(oldest);
        Deleted(before, oldest, State());
      }
      if avail != [] {
        stage, avail := avail[|avail| - 1], avail[..|avail| - 1];
      } else {
        stage, made := made, made + 1;
      }
    }

    /** Afterwards ts is not committed and every other snapshot is as before; the number of a deleted snapshot is the
        last one of the pool, which still holds each number once. */
    method SnapshotDelete(ts: int)
      modifies this
      ensures committed.Keys == old(committed.Keys) - {ts} && unstored == old(unstored)
      ensures forall t :: t in committed ==> committed[t] == old(committed)[t]
      ensures ts in old(committed) ==> avail == old(avail) + [old(committed)[ts]]
      ensures ts !in old(committed) ==> avail == old(avail)
      ensures stage == old(stage) && made == old(made)
      ensures old(Pool(State())) ==> Pool(State()) && Size(State()) == old(Size(State()))
    {
      ghost var was := State();
      if Pool(was) { DeletePool(was, ts); }
      if ts in committed {
        avail := avail + [committed[ts]];
        committed := committed - {ts};
      }
      assert State() == SnapshotStore.Delete(was, ts);
    }

    /** Forgets committed snapshots whose timestamps are no longer valid, oldest first. */
    method CleanupTimestamps(valid: set<int>)
      requires Pool(State())
      modifies this
      ensures Cleaned(State(), old(State()), valid)
    {
      ghost var was := State();
      var ahead := committed.Keys;
      while ahead != {}
        invariant ahead <= was.committed.Keys
        invariant Pool(State()) && Size(State()) == Size(was)
        invariant made == was.made && stage == was.stage
        invariant committed.Keys == was.committed.Keys * (ahead + valid)
        invariant forall t :: t in committed ==> committed[t] == was.committed[t]
        decreases |ahead|
      {
        var ts := OldestOf(ahead);
        if ts !in valid {
          SnapshotDelete(ts);
        }
        ahead := ahead - {ts};
      }
    }
  }

  class DataGroup {
    const timestart: int
    const depth: nat
    var timestamp: int
    var timestamps: set<int>
    var members: seq<DataMember>

    ghost function State(): Group
      reads this
    {
      Group(timestart, timestamp, depth, timestamps)
    }

    ghost predicate Distinct()
      reads this
    {
      forall j, k :: 0 <= j < k < |members| ==> members[j] != members[k]
    }

    constructor (timestart: int, depth: nat)
      ensures State() == Group(timestart, -1, depth, {}) && members == []
      ensures Sound(State()) && Started(State())
    {
      this.timestart, this.depth := timestart, depth;
      timestamp, timestamps, members := -1, {}, [];
    }

    /** Commits what all members have stored under the next timestamp, which is used up even when some member
        still has data that is not stored. */
    method Commit() returns (ok: bool)
      requires Distinct() && |timestamps| <= depth + 1
      modifies this`timestamp, this`timestamps, members
      ensures ok <==> forall i :: 0 <= i < |members| ==> !old(members[i].unstored)
      ensures timestamp == Next(old(State())) == if old(timestamp) == -1 then timestart else old(timestamp) + 1
      ensures ok ==> timestamp in timestamps && timestamps <= old(timestamps) + {timestamp}
      ensures ok ==> forall t :: t in old(timestamps) && t !in timestamps ==>
                                   |old(timestamps)| == depth + 1 && forall u :: u in old(timestamps) ==> t <= u
      ensures ok ==> State() == CommitGroup(old(State()))
      ensures ok ==> forall i :: 0 <= i < |members| ==>
                                   members[i].State() == SnapshotStore.Commit(old(members[i].State()), timestamp)
      ensures !ok ==> timestamps == old(timestamps) && forall i :: 0 <= i < |members| ==> unchanged(members[i])
    {
      timestamp := if timestamp == -1 then timestart else timestamp + 1;
      ok := AllStored();
      if !ok { return; }
      if |timestamps| == depth + 1 {
        var oldest := OldestOf(timestamps);
        timestamps := timestamps - {oldest};
      }
      timestamps := timestamps + {timestamp};
      CommitMembers();
    }

    method AllStored() returns (ok: bool)
      ensures ok <==> forall i :: 0 <= i < |members| ==> !members[i].unstored
    {
      for i := 0 to |members|
        invariant forall k :: 0 <= k < i ==> !members[k].unstored
      {
        if members[i].unstored { return false; }
      }
      ok := true;
    }

    method CommitMembers()
      requires Distinct()
      modifies members
      ensures forall i :: 0 <= i < |members| ==>
                            members[i].State() == SnapshotStore.Commit(old(members[i].State()), timestamp)
    {
      for i := 0 to |members|
        modifies members
        invariant forall k :: 0 <= k < i ==>
                                members[k].State() == SnapshotStore.Commit(old(members[k].State()), timestamp)
        invariant forall k :: i <= k < |members| ==> members[k].State() == old(members[k].State())
      {
        members[i].Commit(timestamp);
      }
    }

    /** Deletes one snapshot from the group and from every member that has it. */
    method DeleteOne(ts: int)
      requires Distinct()
      modifies this`timestamps, members
      ensures State() == DeleteFromGroup(old(State()), ts)
      ensures forall i :: 0 <= i < |members| ==> members[i].State() == SnapshotStore.Delete(old(members[i].State()), ts)
    {
      timestamps := timestamps - {ts};
      for i := 0 to |members|
        modifies members
        invariant forall k :: 0 <= k < i ==> members[k].State() == SnapshotStore.Delete(old(members[k].State()), ts)
        invariant forall k :: i <= k < |members| ==> members[k].State() == old(members[k].State())
      {
        ghost var was := members[i].State();
        members[i].SnapshotDelete(ts);
        Deleted(was, ts, members[i].State());
      }
    }

    /** Deletes one snapshot, the newest one, or all of them. */
    method SnapshotDelete(ts: int) returns (ok: bool)
      requires Distinct() && |timestamps| <= depth + 1
      modifies this`timestamps, members
      ensures ok <==> Deletable(old(timestamps), ts)
      ensures !ok ==> timestamps == old(timestamps) && forall i :: 0 <= i < |members| ==> unchanged(members[i])
      ensures ok ==> timestamps == if ts == ALL then {} else old(timestamps) - {Meant(old(timestamps), ts)}
      ensures ok && ts != ALL ==>
                forall i :: 0 <= i < |members| ==>
                  members[i].State() == SnapshotStore.Delete(old(members[i].State()), Meant(old(timestamps), ts))
      ensures ok && ts == ALL ==>
                forall i :: 0 <= i < |members| ==>
                  members[i].State().committed.Keys == old(members[i].committed.Keys) - old(timestamps)
    {
      if timestamps == {} { return false; }
      ok := true;
      if ts == ALL {
        while timestamps != {}
          modifies this`timestamps, members
          invariant timestamps <= old(timestamps)
          invariant forall i :: 0 <= i < |members| ==>
            members[i].committed.Keys == old(members[i].committed.Keys) - (old(timestamps) - timestamps)
          decreases |timestamps|
        {
          var newest := NewestOf(timestamps);
          DeleteOne(newest);
        }
        return;
      }
      var meant := ts;
      if ts == LATEST { meant := NewestOf(timestamps); }
      if meant !in timestamps { return false; }
      MeantExact(timestamps, ts, meant);
      DeleteOne(meant);
    }

    /** Agrees with the other ranks of the cohort, given their lists, and drops what is not agreed on. */
    method SyncTimestamps(peers: seq<seq<int>>)
      requires Distinct() && AllTimestamps(peers) && forall t :: t in timestamps ==> t >= 0
      requires forall i :: 0 <= i < |members| ==> Pool(members[i].State())
      modifies this`timestamp, this`timestamps, members
      ensures exists own ::
                Timestamps(own) && Elements(own) == old(timestamps) && timestamps == Elements(Synced([own] + peers))
      ensures timestamp == (if timestamps == {} then -1 else Greatest(timestamps))
      ensures forall i :: 0 <= i < |members| ==> Cleaned(members[i].State(), old(members[i].State()), timestamps)
    {
      var own := Listed(timestamps);
      var agreed := Agree(own, peers);
      timestamps := SetOf(agreed);
      timestamp := -1;
      if timestamps != {} { timestamp := NewestOf(timestamps); }
      Drop();
    }

    method Drop()
      requires Distinct() && forall i :: 0 <= i < |members| ==> Pool(members[i].State())
      modifies members
      ensures forall i :: 0 <= i < |members| ==> Cleaned(members[i].State(), old(members[i].State()), timestamps)
    {
      ghost var ms := members;
      ghost var was := seq(|ms|, k requires 0 <= k < |ms| reads ms => ms[k].State());
      assert forall k :: 0 <= k < |was| ==> Pool(was[k]);
      ghost var now := was;
      for i := 0 to |members|
        modifies members
        invariant |now| == |was| && forall k :: 0 <= k < |members| ==> members[k].State() == now[k]
        invariant forall k :: 0 <= k < i ==> Cleaned(now[k], was[k], timestamps)
        invariant forall k :: i <= k < |now| ==> now[k] == was[k]
      {
        members[i].CleanupTimestamps(timestamps);
        now := now[i := members[i].State()];
      }
    }
  }

  ghost function Elements(s: seq<int>): set<int> {
    set t | t in s
  }

  ghost predicate IsGreatest(s: set<int>, t: int) {
    t in s && forall u :: u in s ==> u <= t
  }

  ghost function Greatest(s: set<int>): (t: int)
    requires s != {}
    ensures IsGreatest(s, t)
  {
    assert exists t :: IsGreatest(s, t) by { var w := NewestExists(s); assert IsGreatest(s, w); }
    var t :| IsGreatest(s, t);
    t
  }

  ghost predicate Deletable(timestamps: set<int>, ts: int) {
    timestamps != {} && (ts == ALL || ts == LATEST || ts in timestamps)
  }

  ghost function Meant(timestamps: set<int>, ts: int): int
    requires Deletable(timestamps, ts)
  {
    if ts == LATEST then Greatest(timestamps) else ts
  }

  lemma MeantExact(timestamps: set<int>, ts: int, meant: int)
    requires ts != ALL && (if ts == LATEST then IsGreatest(timestamps, meant) else meant == ts) && meant in timestamps
    ensures Deletable(timestamps, ts) && Meant(timestamps, ts) == meant
  {
  }

  /** A set of timestamps as the list the program keeps: newest first. */
  method Listed(timestamps: set<int>) returns (list: seq<int>)
    requires forall t :: t in timestamps ==> t >= 0
    ensures Timestamps(list) && Elements(list) == timestamps
  {
    list := [];
    var ahead := timestamps;
    while ahead != {}
      invariant ahead <= timestamps && Timestamps(list) && Elements(list) == timestamps - ahead
      invariant forall k, t :: 0 <= k < |list| && t in ahead ==> t < list[k]
      decreases |ahead|
    {
      var t := NewestOf(ahead);
      ListedMore(timestamps, ahead, list, t);
      list := list + [t];
      ahead := ahead - {t};
    }
  }

  /** The newest one that is not listed yet comes next. */
  lemma ListedMore(timestamps: set<int>, ahead: set<int>, list: seq<int>, t: int)
    requires ahead <= timestamps && Timestamps(list) && Elements(list) == timestamps - ahead
    requires t in ahead && t >= 0 && forall u :: u in ahead ==> u <= t
    requires forall k, u :: 0 <= k < |list| && u in ahead ==> u < list[k]
    ensures Timestamps(list + [t]) && Elements(list + [t]) == timestamps - (ahead - {t})
    ensures forall k, u :: 0 <= k < |list + [t]| && u in ahead - {t} ==> u < (list + [t])[k]
  {
    ElementsMore(list, t);
  }

  lemma NextList(own: seq<int>, peers: seq<seq<int>>, r: nat)
    requires r < |peers|
    ensures var before, after := [own] + peers[..r], [own] + peers[..r + 1];
            after[..|after| - 1] == before && after[|after| - 1] == peers[r]
  {
  }

  /** The reduction at one position. */
  method MaxOver(own: seq<int>, peers: seq<seq<int>>, k: nat) returns (t: int)
    ensures t == MaxAt([own] + peers, k)
  {
    t := Padded(own, k);
    assert [own][..0] == [];
    if t < PADDING { t := PADDING; }
    assert peers[..0] == [] && [own] + [] == [own];
    for r := 0 to |peers|
      invariant t == MaxAt([own] + peers[..r], k)
    {
      NextList(own, peers, r);
      if Padded(peers[r], k) > t { t := Padded(peers[r], k); }
    }
    assert peers[..|peers|] == peers;
  }

  /** The two reductions: the longest list gives the length, then the maximum at every position. */
  method Agree(own: seq<int>, peers: seq<seq<int>>) returns (agreed: seq<int>)
    ensures agreed == Synced([own] + peers)
  {
    ghost var lists := [own] + peers;
    var n := |own|;
    assert peers[..0] == [] && [own] + [] == [own] && [own][..0] == [];
    for r := 0 to |peers|
      invariant n == Longest([own] + peers[..r])
    {
      NextList(own, peers, r);
      if |peers[r]| > n { n := |peers[r]|; }
    }
    assert peers[..|peers|] == peers;
    agreed := [];
    for k := 0 to n
      invariant |agreed| == k && forall j :: 0 <= j < k ==> agreed[j] == MaxAt(lists, j)
    {
      var t := MaxOver(own, peers, k);
      agreed := agreed + [t];
    }
  }

  lemma ElementsMore(s: seq<int>, t: int)
    ensures Elements(s + [t]) == Elements(s) + {t}
  {
  }

  method SetOf(list: seq<int>) returns (s: set<int>)
    ensures s == Elements(list)
  {
    s := {};
    for k := 0 to |list|
      invariant s == Elements(list[..k])
    {
      assert list[..k + 1] == list[..k] + [list[k]];
      ElementsMore(list[..k], list[k]);
      s := s + {list[k]};
    }
    assert list[..|list|] == list;
  }
}
