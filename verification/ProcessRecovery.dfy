/** The process groups as the program keeps them: two tables updated in place while spares take over the ranks
    of the dead, and the repair that retries until everyone agrees. */
module ProcessRecovery {
  import opened Basics
  import opened ProcessGroups

  class Runtime {
    var user: seq<nat>
    var spare: seq<nat>
    var dead: seq<nat>
    var rankToPid: seq<int>
    var pidToRank: seq<int>

    ghost function State(): Procs
      reads this
    {
      Procs(user, spare, dead, rankToPid, pidToRank)
    }

    constructor (n: nat, spares: nat)
      requires spares < n
      ensures State() == Initial(n, spares) && Valid(State(), n, n - spares)
      ensures |user| == n - spares && forall i :: 0 <= i < |user| ==> user[i] == i
      ensures |rankToPid| == n - spares && forall i :: 0 <= i < |user| ==> rankToPid[i] == i && pidToRank[i] == i
      ensures |spare| == spares && |pidToRank| == n && dead == []
      ensures forall i :: 0 <= i < spares ==> spare[i] == n - spares + i && pidToRank[n - spares + i] == UNDEFINED
    {
      var active := n - spares;
      user := Everyone(active);
      spare := Minus(Everyone(n), Everyone(active));
      dead := [];
      var byPid, byRank := seq(n, i => UNDEFINED), seq(active, i => UNDEFINED);
      for i := 0 to active
        invariant |byPid| == n && |byRank| == active
        invariant forall k :: 0 <= k < n ==> byPid[k] == if k < i then k else UNDEFINED
        invariant forall k :: 0 <= k < active ==> byRank[k] == if k < i then k else UNDEFINED
      {
        byPid, byRank := byPid[i := i], byRank[i := i];
      }
      pidToRank, rankToPid := byPid, byRank;
      new;
      InitialValid(n, spares);
      InitialExact(n, spares);
    }

    /** Rebuilds the groups for a world in which some have died. */
    method RebuildProcGroups(world: seq<nat>)
      requires Tables(State()) && NoSpareWorks(State())
      modifies this
      ensures State() == Rebuild(old(State()), world)
    {
      ghost var p := State();
      MarkDead(world);
      Composed(p, world, State());
      var deadUser := Positions(user, dead, 0);
      Refill(deadUser, Min(|deadUser|, |spare|));
      spare := Minus(spare, user);
    }

    /** Fills what can be filled and gives up the rest. */
    method Refill(deadUser: seq<nat>, n: nat)
      requires Shape(State()) && InUser(State(), deadUser) && Increasing(deadUser)
      requires n <= |deadUser| && n <= |spare|
      modifies this
      ensures State() == Shrink(Fill(old(State()), deadUser, n), deadUser, n)
    {
      Replace(deadUser, n);
      GiveUpRest(deadUser, n);
    }

    /** Who has died, and which spares are left. */
    method MarkDead(world: seq<nat>)
      requires Shape(State())
      modifies this
      ensures State() == Newly(old(State()), world)
      ensures Shape(State()) && InUser(State(), Positions(user, dead, 0)) && Increasing(Positions(user, dead, 0))
    {
      NewlyShape(State(), world);
      dead := Minus(Everyone(|pidToRank|), world);
      spare := Minus(spare, dead);
    }

    /** Replaces what can be replaced. */
    method Replace(deadUser: seq<nat>, n: nat)
      requires Shape(State()) && InUser(State(), deadUser) && n <= |deadUser| && n <= |spare|
      modifies this
      ensures State() == Fill(old(State()), deadUser, n)
    {
      ghost var p := State();
      for i := 0 to n
        invariant State() == Fill(p, deadUser, i)
      {
        var idx := deadUser[i];
        var pid := user[idx];
        var rank := pidToRank[pid];
        assert rank != UNDEFINED;
        var sparePid := spare[i];
        user := user[idx := sparePid];
        rankToPid := rankToPid[rank := sparePid];
        pidToRank := pidToRank[sparePid := rank];
      }
    }

    /** Gives up the rest, last one first since positions are erased. */
    method GiveUpRest(deadUser: seq<nat>, n: nat)
      requires Shape(State()) && InUser(State(), deadUser) && Increasing(deadUser) && n <= |deadUser|
      modifies this
      ensures State() == Shrink(old(State()), deadUser, n)
    {
      ghost var p := State();
      var i := |deadUser|;
      while i > n
        invariant n <= i <= |deadUser|
        invariant State() == Shrink(p, deadUser, i)
      {
        i := i - 1;
        var idx := deadUser[i];
        PrefixKept(p.user, user, deadUser, i);
        var pid := user[idx];
        var rank := pidToRank[pid];
        assert rank != UNDEFINED;
        user := user[..idx] + user[idx + 1..];
        rankToPid := rankToPid[rank := UNDEFINED];
      }
    }

    /** Repairs until an attempt is agreed on; each attempt sees the world left by then. Tells whether the
        user group has become smaller than it started, for good. */
    method RepairRanks(worlds: seq<seq<nat>>, ghost n: nat, ghost active: nat) returns (depleted: bool)
      requires Valid(State(), n, active) && active <= n
      requires worlds != [] && Shrinking(worlds) && Follows(State(), worlds[0])
      modifies this
      ensures State() == RebuildAll(old(State()), worlds)
      ensures Valid(State(), n, active) && DeadOutside(State(), n, worlds[|worlds| - 1])
      ensures depleted <==> |dead| > n - active
    {
      ghost var p := State();
      var attempt := 0;
      ghost var rest := worlds;
      while attempt < |worlds|
        invariant attempt <= |worlds| && rest == worlds[attempt..]
        invariant Valid(State(), n, active) && Shrinking(rest)
        invariant rest != [] ==> Follows(State(), rest[0])
        invariant rest == [] ==> State() == RebuildAll(p, worlds)
        invariant rest != [] ==> RebuildAll(State(), rest) == RebuildAll(p, worlds)
        invariant attempt > 0 ==> DeadOutside(State(), n, worlds[attempt - 1])
      {
        ghost var before := State();
        ghost var r := RunFirst(before, rest, n, active);
        RunStep(before, rest);
        RebuildKeeps(before, rest[0], n, active);
        RebuildProcGroups(worlds[attempt]);
        attempt := attempt + 1;
        rest := rest[1..];
      }
      SizeExact(State(), n, active);
      depleted := |user| < |rankToPid|;
    }
  }

  /** The steps of a rebuild, one after the other. */
  lemma Composed(p: Procs, world: seq<nat>, q: Procs)
    requires Shape(p) && q == Newly(p, world)
    ensures var ds := Positions(q.user, q.dead, 0);
            && Shape(q) && InUser(q, ds) && Increasing(ds)
            && var k := Min(|ds|, |q.spare|);
               var s := Shrink(Fill(q, ds, k), ds, k);
               Rebuild(p, world) == s.(spare := Minus(s.spare, s.user))
  {
    NewlyShape(p, world);
  }
}
