/** Buddy protection: every rank keeps a copy of its left neighbour's protected data. Of a kind of subsets only two
    things matter here, the order in which packing visits the indices of one, and the union of two; BuddySubsets has
    the library's subsets as such a kind. */
module Buddy {
  import opened Basics
  import Packing

  type Visits = seq<nat>

  datatype Kind<!S> = Kind(order: S -> Visits, join: (S, S) -> S)

  /** What one rank keeps of a snapshot: its data, the copy of its left neighbour's data, what every rank has
      protected, and what the copy holds. */
  datatype Snap<T, S> = Snap(data: seq<T>, partner: seq<T>, protected: seq<S>, held: S)

  /** A cohort of buddies has two or three ranks. */
  predicate BuddySize(n: nat) { n == 2 || n == 3 }

  function Left(n: nat, r: nat): (l: nat)
    requires r < n
    ensures l < n
  {
    if r == 0 then n - 1 else r - 1
  }

  function Right(n: nat, r: nat): (l: nat)
    requires r < n
    ensures l < n
  {
    if r == n - 1 then 0 else r + 1
  }

  predicate Below(o: Visits, n: nat) {
    forall k :: 0 <= k < |o| ==> o[k] < n
  }

  /** c visits what a and b visit, each index once; nothing joined with b is b. BuddySubsets shows that the union of
      the library's subsets is like this. */
  ghost predicate Joins(a: Visits, b: Visits, c: Visits) {
    && (Distinct(a) && Distinct(b) ==> Distinct(c))
    && (forall x :: x in c <==> x in a || x in b)
    && (a == [] ==> c == b)
  }

  ghost predicate IsUnion<S(!new)>(k: Kind<S>) {
    forall a, b :: Joins(k.order(a), k.order(b), k.order(k.join(a, b)))
  }

  /** The elements a message carries. */
  function Packed<T>(o: Visits, src: seq<T>): (m: seq<T>)
    requires Below(o, |src|)
    ensures |m| == |o|
  {
    seq(|o|, k requires 0 <= k < |o| => src[o[k]])
  }

  function Unpacked<T>(o: Visits, m: seq<T>, dst: seq<T>): (r: seq<T>)
    requires |m| == |o| && Below(o, |dst|)
    ensures |r| == |dst|
  {
    if o == [] then dst
    else
      var n := |o| - 1;
      Unpacked(o[..n], m[..n], dst)[o[n] := m[n]]
  }

  function MaxCount(o: Visits): (n: nat)
    ensures Below(o, n) && (n > 0 ==> n - 1 in o)
  {
    if o == [] then 0
    else
      var n, last := MaxCount(o[..|o| - 1]), o[|o| - 1];
      if last < n then n else last + 1
  }

  /** The elements a buffer needs: all of the member's if it has a fixed count, else up to the last one staged. */
  function Need(count: nat, o: Visits): nat {
    if count > 0 then count else MaxCount(o)
  }

  /** Grows a buffer that is too short; what the new elements are is up to the allocator. */
  function Fitted<T>(buf: seq<T>, need: nat, junk: seq<T>): (r: seq<T>)
    requires |junk| >= need
    ensures |r| >= need && |r| >= |buf| && r[..|buf|] == buf
  {
    if |buf| < need then buf + junk[|buf|..need] else buf
  }

  lemma {:induction false} UnpackedExact<T>(o: Visits, m: seq<T>, dst: seq<T>)
    requires |m| == |o| && Below(o, |dst|) && Distinct(o)
    ensures Packing.Scattered(Unpacked(o, m, dst), dst, o, |o|, m)
  {
    if o != [] {
      var n := |o| - 1;
      UnpackedExact(o[..n], m[..n], dst);
      var before := Unpacked(o[..n], m[..n], dst);
      var r := before[o[n] := m[n]];
      forall k | 0 <= k < |o| ensures r[o[k]] == m[k] {
        if k < n { assert o[..n][k] == o[k] && before[o[..n][k]] == m[..n][k]; }
      }
      forall x | 0 <= x < |dst| && x !in o[..|o|] ensures r[x] == dst[x] {
        assert o[..|o|] == o == o[..n] + [o[n]] && o[..n][..n] == o[..n];
      }
    }
  }

  /** Unpacking what was packed in the same order copies exactly those elements. */
  lemma UnpackPacked<T>(o: Visits, src: seq<T>, dst: seq<T>, x: nat)
    requires Below(o, |src|) && Below(o, |dst|) && Distinct(o) && x < |dst|
    ensures x in o ==> x < |src| && Unpacked(o, Packed(o, src), dst)[x] == src[x]
    ensures x !in o ==> Unpacked(o, Packed(o, src), dst)[x] == dst[x]
  {
    UnpackedExact(o, Packed(o, src), dst);
    assert o[..|o|] == o;
  }

  /** One rank's part of protecting: take in what the left neighbour staged, and note what all have protected. */
  function ProtectRank<T, S>(s: Snap<T, S>, leftData: seq<T>, staged: seq<S>, left: nat, count: nat, k: Kind<S>,
      junk: seq<T>): Snap<T, S>
    requires left < |staged| == |s.protected| && Below(k.order(staged[left]), |leftData|)
    requires var need := Need(count, k.order(k.join(s.held, staged[left])));
             |junk| >= need && Below(k.order(staged[left]), need)
  {
    var held, o := k.join(s.held, staged[left]), k.order(staged[left]);
    var partner := Fitted(s.partner, Need(count, k.order(held)), junk);
    Snap(s.data, Unpacked(o, Packed(o, leftData), partner),
         seq(|staged|, i requires 0 <= i < |staged| => k.join(s.protected[i], staged[i])), held)
  }

  // ----- what holds between protections -----

  ghost predicate Copies<T>(partner: seq<T>, data: seq<T>, o: Visits) {
    Below(o, |partner|) && Below(o, |data|) && forall x :: x in o ==> partner[x] == data[x]
  }

  /** Every rank knows what all have protected and holds its left neighbour's share of it. */
  ghost predicate Guarded<T, S>(k: Kind<S>, snaps: seq<Snap<T, S>>, protected: seq<S>) {
    && BuddySize(|snaps|) && |protected| == |snaps|
    && (forall r :: 0 <= r < |snaps| ==> Distinct(k.order(protected[r])) && GuardedRank(k, snaps, protected, r))
  }

  ghost predicate GuardedRank<T, S>(k: Kind<S>, snaps: seq<Snap<T, S>>, protected: seq<S>, r: nat)
    requires r < |snaps| == |protected|
  {
    var l := Left(|snaps|, r);
    && snaps[r].protected == protected
    && snaps[r].held == protected[l]
    && Below(k.order(protected[r]), |snaps[r].data|)
    && Copies(snaps[r].partner, snaps[l].data, k.order(protected[l]))
  }

  /** New data may differ from the old only where it is staged. */
  ghost predicate Stages<T>(now: seq<T>, was: seq<T>, o: Visits) {
    |now| >= |was| && Below(o, |now|) && forall x :: 0 <= x < |was| && x !in o ==> now[x] == was[x]
  }

  /** Protecting freshly staged data keeps every copy exact. */
  lemma ProtectKeeps<T, S(!new)>(was: Snap<T, S>, leftWas: seq<T>, own: seq<T>, leftNow: seq<T>, staged: seq<S>,
      left: nat, count: nat, k: Kind<S>, junk: seq<T>)
    requires IsUnion(k) && left < |staged| == |was.protected|
    requires Distinct(k.order(staged[left])) && Distinct(k.order(was.held))
    requires Stages(leftNow, leftWas, k.order(staged[left])) && Copies(was.partner, leftWas, k.order(was.held))
    requires var held := k.order(k.join(was.held, staged[left]));
             |junk| >= Need(count, held) && Below(held, Need(count, held))
    ensures Below(k.order(staged[left]), Need(count, k.order(k.join(was.held, staged[left]))))
    ensures var s := ProtectRank(was.(data := own), leftNow, staged, left, count, k, junk);
            s.held == k.join(was.held, staged[left]) && Copies(s.partner, leftNow, k.order(s.held))
  {
    var o, held := k.order(staged[left]), k.order(k.join(was.held, staged[left]));
    assert Joins(k.order(was.held), o, held);
    SharesKept(was.partner, leftWas, leftNow, k.order(was.held), o, held, Need(count, held), junk);
  }

  /** On the orders alone. */
  lemma SharesKept<T>(partner: seq<T>, leftWas: seq<T>, leftNow: seq<T>, was: Visits, o: Visits, held: Visits,
      need: nat, junk: seq<T>)
    requires Joins(was, o, held) && Distinct(o) && Stages(leftNow, leftWas, o) && Copies(partner, leftWas, was)
    requires |junk| >= need && Below(held, need)
    ensures Below(o, need) && Copies(Unpacked(o, Packed(o, leftNow), Fitted(partner, need, junk)), leftNow, held)
  {
    forall i | 0 <= i < |o| ensures o[i] < need { assert o[i] in held; }
    var fitted := Fitted(partner, need, junk);
    var r := Unpacked(o, Packed(o, leftNow), fitted);
    forall i | 0 <= i < |held| ensures held[i] < |leftNow| {
      assert held[i] in held;
      InBelow(o, |leftNow|);
      InBelow(was, |leftWas|);
    }
    forall x | x in held ensures x < |r| && r[x] == leftNow[x] {
      UnpackPacked(o, leftNow, fitted, x);
      if x !in o { assert fitted[..|partner|][x] == partner[x]; }
    }
  }

  lemma InBelow(o: Visits, n: nat)
    requires Below(o, n)
    ensures forall x :: x in o ==> x < n
  {
  }

  // ----- a whole cohort -----

  predicate FitsCount(count: nat, o: Visits) {
    count > 0 ==> forall k :: 0 <= k < |o| ==> o[k] < count
  }

  function Joined<S>(k: Kind<S>, protected: seq<S>, staged: seq<S>): (r: seq<S>)
    requires |staged| == |protected|
    ensures |r| == |protected|
  {
    seq(|staged|, i requires 0 <= i < |staged| => k.join(protected[i], staged[i]))
  }

  /** What storing asks of one rank: distinct indices that fit, a value for each, and room for what they need. */
  ghost predicate StorableRank<S>(count: nat, k: Kind<S>, protected: S, staged: S, junk: nat) {
    && Distinct(k.order(staged)) && FitsCount(count, k.order(protected)) && FitsCount(count, k.order(staged))
    && junk >= Need(count, k.order(k.join(protected, staged)))
  }

  ghost predicate Storable<T, S>(count: nat, k: Kind<S>, protected: seq<S>, staged: seq<S>, values: seq<seq<T>>,
      junk: seq<T>) {
    && |staged| == |values| == |protected|
    && (forall r :: 0 <= r < |protected| ==>
                      && |values[r]| == |k.order(staged[r])|
                      && StorableRank(count, k, protected[r], staged[r], |junk|))
  }

  lemma NeedFits<S(!new)>(count: nat, k: Kind<S>, protected: S, staged: S, junk: nat)
    requires IsUnion(k) && StorableRank(count, k, protected, staged, junk)
    ensures Below(k.order(staged), Need(count, k.order(k.join(protected, staged))))
    ensures Below(k.order(k.join(protected, staged)), Need(count, k.order(k.join(protected, staged))))
  {
    JoinFits(count, k.order(protected), k.order(staged), k.order(k.join(protected, staged)));
  }

  lemma JoinFits(count: nat, a: Visits, b: Visits, c: Visits)
    requires Joins(a, b, c) && FitsCount(count, a) && FitsCount(count, b)
    ensures Below(b, Need(count, c)) && Below(c, Need(count, c))
  {
    InBelow(c, MaxCount(c));
    forall i | 0 <= i < |b| ensures b[i] < Need(count, c) { assert b[i] in c; }
    forall i | 0 <= i < |c| ensures c[i] < Need(count, c) {
      assert c[i] in c;
      if count > 0 { AllFit(count, a, b, c[i]); }
    }
  }

  lemma AllFit(count: nat, a: Visits, b: Visits, x: nat)
    requires FitsCount(count, a) && FitsCount(count, b) && count > 0 && (x in a || x in b)
    ensures x < count
  {
  }

  /** A rank's data once the staged values are in it. */
  function Staged<T>(data: seq<T>, o: Visits, values: seq<T>, need: nat, junk: seq<T>): (r: seq<T>)
    requires |junk| >= need && |values| == |o| && Below(o, need)
    ensures |r| >= |data| && |r| >= need
  {
    Unpacked(o, values, Fitted(data, need, junk))
  }

  lemma StagedStages<T>(data: seq<T>, o: Visits, values: seq<T>, need: nat, junk: seq<T>)
    requires |junk| >= need && |values| == |o| && Below(o, need) && Distinct(o)
    ensures Stages(Staged(data, o, values, need, junk), data, o)
    ensures forall k :: 0 <= k < |o| ==> Staged(data, o, values, need, junk)[o[k]] == values[k]
  {
    var now, fit := Staged(data, o, values, need, junk), Fitted(data, need, junk);
    UnpackedExact(o, values, fit);
    assert o[..|o|] == o;
    forall x | 0 <= x < |data| && x !in o ensures now[x] == data[x] {
      assert fit[..|data|][x] == data[x];
    }
  }

  /** What a lost rank is given back by its neighbours. */
  function Recovered<T, S>(k: Kind<S>, snaps: seq<Snap<T, S>>, lost: nat, protected: seq<S>, count: nat, spare: seq<T>,
      junk: seq<T>): Snap<T, S>
    requires lost < |snaps| == |protected| && Answers(k, snaps, protected, lost)
    requires Room(k, protected, lost, count, |junk|)
  {
    var n := |snaps|;
    var left, right := snaps[Left(n, lost)], snaps[Right(n, lost)];
    var own, theirs := k.order(protected[lost]), k.order(protected[Left(n, lost)]);
    Snap(Unpacked(own, Packed(own, right.partner), Fitted([], Need(count, own), junk)),
         Unpacked(theirs, Packed(theirs, left.data), Fitted(spare, Need(count, theirs), junk)),
         protected, protected[Left(n, lost)])
  }

  /** The neighbours of a lost rank can answer: one for its data, the other for the copy it held. */
  predicate Answers<T, S(==)>(k: Kind<S>, snaps: seq<Snap<T, S>>, protected: seq<S>, lost: nat)
    requires lost < |snaps| == |protected|
  {
    var n := |snaps|;
    && BuddySize(n)
    && Below(k.order(protected[lost]), |snaps[Right(n, lost)].partner|)
    && Below(k.order(protected[Left(n, lost)]), |snaps[Left(n, lost)].data|)
    && snaps[Right(n, lost)].held == protected[lost]
    && forall r :: 0 <= r < n && r != lost ==> snaps[r].protected == protected
  }

  predicate Room<S>(k: Kind<S>, protected: seq<S>, lost: nat, count: nat, junk: nat)
    requires lost < |protected|
  {
    var own, theirs := k.order(protected[lost]), k.order(protected[Left(|protected|, lost)]);
    && FitsCount(count, own) && FitsCount(count, theirs)
    && junk >= Need(count, own) && junk >= Need(count, theirs)
  }

  lemma Neighbours(n: nat, r: nat)
    requires BuddySize(n) && r < n
    ensures Left(n, Right(n, r)) == r == Right(n, Left(n, r)) && Left(n, r) != r && Right(n, r) != r
  {
  }

  lemma GuardedAnswers<T, S>(k: Kind<S>, whole: seq<Snap<T, S>>, protected: seq<S>, lost: nat)
    requires Guarded(k, whole, protected) && lost < |whole|
    ensures Answers(k, whole, protected, lost)
  {
    var n := |whole|;
    Neighbours(n, lost);
    RankOf(k, whole, protected, Left(n, lost));
    RankOf(k, whole, protected, Right(n, lost));
    forall r | 0 <= r < n ensures whole[r].protected == protected {
      RankOf(k, whole, protected, r);
    }
  }

  lemma RankOf<T, S>(k: Kind<S>, whole: seq<Snap<T, S>>, protected: seq<S>, r: nat)
    requires Guarded(k, whole, protected) && r < |whole|
    ensures Distinct(k.order(protected[r])) && GuardedRank(k, whole, protected, r)
  {
  }

  /** Losing any one rank and repairing gives back its protected data and its copy, and everything is guarded
      as before. */
  lemma RepairRestores<T, S>(k: Kind<S>, whole: seq<Snap<T, S>>, protected: seq<S>, lost: nat, count: nat,
      spare: seq<T>, junk: seq<T>)
    requires Guarded(k, whole, protected) && lost < |whole| && Room(k, protected, lost, count, |junk|)
    ensures Answers(k, whole, protected, lost)
    ensures var r := Recovered(k, whole, lost, protected, count, spare, junk);
            Copies(r.data, whole[lost].data, k.order(protected[lost]))
            && Copies(r.partner, whole[lost].partner, k.order(protected[Left(|whole|, lost)]))
            && Guarded(k, whole[lost := r], protected)
  {
    GuardedAnswers(k, whole, protected, lost);
    DataBack(k, whole, protected, lost, count, spare, junk);
    PartnerBack(k, whole, protected, lost, count, spare, junk);
    StaysGuarded(k, whole, protected, lost, Recovered(k, whole, lost, protected, count, spare, junk));
  }

  lemma DataBack<T, S>(k: Kind<S>, whole: seq<Snap<T, S>>, protected: seq<S>, lost: nat, count: nat,
      spare: seq<T>, junk: seq<T>)
    requires Guarded(k, whole, protected) && lost < |whole| && Room(k, protected, lost, count, |junk|)
    requires Answers(k, whole, protected, lost)
    ensures var r := Recovered(k, whole, lost, protected, count, spare, junk);
            Copies(r.data, whole[lost].data, k.order(protected[lost]))
  {
    var right := Right(|whole|, lost);
    Neighbours(|whole|, lost);
    RankOf(k, whole, protected, right);
    RankOf(k, whole, protected, lost);
    var fitted := Fitted([], Need(count, k.order(protected[lost])), junk);
    CopiedBack(k.order(protected[lost]), whole[right].partner, fitted, whole[lost].data);
  }

  lemma PartnerBack<T, S>(k: Kind<S>, whole: seq<Snap<T, S>>, protected: seq<S>, lost: nat, count: nat,
      spare: seq<T>, junk: seq<T>)
    requires Guarded(k, whole, protected) && lost < |whole| && Room(k, protected, lost, count, |junk|)
    requires Answers(k, whole, protected, lost)
    ensures var left := Left(|whole|, lost);
            var r := Recovered(k, whole, lost, protected, count, spare, junk);
            Copies(r.partner, whole[lost].partner, k.order(protected[left]))
  {
    var left := Left(|whole|, lost);
    Neighbours(|whole|, lost);
    RankOf(k, whole, protected, left);
    RankOf(k, whole, protected, lost);
    var fitted := Fitted(spare, Need(count, k.order(protected[left])), junk);
    CopiedBack(k.order(protected[left]), whole[left].data, fitted, whole[lost].partner);
  }

  /** A rank may be replaced by one that agrees with it on what is protected. */
  lemma StaysGuarded<T, S>(k: Kind<S>, whole: seq<Snap<T, S>>, protected: seq<S>, lost: nat, r: Snap<T, S>)
    requires Guarded(k, whole, protected) && lost < |whole|
    requires Copies(r.data, whole[lost].data, k.order(protected[lost]))
    requires Copies(r.partner, whole[lost].partner, k.order(protected[Left(|whole|, lost)]))
    requires r.protected == protected && r.held == protected[Left(|whole|, lost)]
    ensures Guarded(k, whole[lost := r], protected)
  {
    var now := whole[lost := r];
    forall q: nat | q < |whole| ensures GuardedRank(k, now, protected, q) {
      RankOf(k, whole, protected, q);
      RankOf(k, whole, protected, lost);
      StaysGuardedRank(k, whole, protected, lost, r, q);
    }
    forall q | 0 <= q < |whole| ensures Distinct(k.order(protected[q])) { RankOf(k, whole, protected, q); }
  }

  lemma StaysGuardedRank<T, S>(k: Kind<S>, whole: seq<Snap<T, S>>, protected: seq<S>, lost: nat, r: Snap<T, S>,
      q: nat)
    requires BuddySize(|whole|) && |protected| == |whole| && lost < |whole| && q < |whole|
    requires GuardedRank(k, whole, protected, q) && GuardedRank(k, whole, protected, lost)
    requires Copies(r.data, whole[lost].data, k.order(protected[lost]))
    requires Copies(r.partner, whole[lost].partner, k.order(protected[Left(|whole|, lost)]))
    requires r.protected == protected && r.held == protected[Left(|whole|, lost)]
    ensures GuardedRank(k, whole[lost := r], protected, q)
  {
    Neighbours(|whole|, q);
    var l := Left(|whole|, q);
    if q == lost {
      CopiesVia(r.partner, whole[lost].partner, whole[l].data, k.order(protected[l]));
    } else if l == lost {
      CopiesVia(whole[q].partner, whole[lost].data, r.data, k.order(protected[lost]));
    }
  }

  lemma CopiesVia<T>(a: seq<T>, b: seq<T>, c: seq<T>, o: Visits)
    requires Copies(a, b, o) && (Copies(b, c, o) || Copies(c, b, o))
    ensures Copies(a, c, o)
  {
  }

  lemma CopiedBack<T>(o: Visits, src: seq<T>, dst: seq<T>, was: seq<T>)
    requires Distinct(o) && Below(o, |src|) && Below(o, |dst|) && Below(o, |was|)
    requires forall x :: x in o ==> src[x] == was[x]
    ensures Copies(Unpacked(o, Packed(o, src), dst), was, o)
    ensures Copies(Unpacked(o, Packed(o, src), dst), src, o)
  {
    forall x | x in o ensures Unpacked(o, Packed(o, src), dst)[x] == src[x] {
      InBelow(o, |dst|);
      UnpackPacked(o, src, dst, x);
    }
  }
}
