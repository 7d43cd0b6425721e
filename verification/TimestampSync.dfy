/** Agreeing on committed timestamps across a cohort: every rank lists its own newest first, pads the list to the
    longest one, and the cohort takes the maximum at each position. */
module TimestampSync {

  const PADDING: int := -1

  ghost predicate Descending(s: seq<int>) {
    forall j, k :: 0 <= j < k < |s| ==> s[j] > s[k]
  }

  /** A rank's timestamps: newest first, none negative. */
  ghost predicate Timestamps(s: seq<int>) {
    Descending(s) && forall k :: 0 <= k < |s| ==> s[k] >= 0
  }

  ghost predicate AllTimestamps(lists: seq<seq<int>>) {
    forall r :: 0 <= r < |lists| ==> Timestamps(lists[r])
  }

  function Longest(lists: seq<seq<int>>): (n: nat)
    ensures forall r :: 0 <= r < |lists| ==> |lists[r]| <= n
  {
    if lists == [] then 0
    else
      var m := |lists| - 1;
      var n := Longest(lists[..m]);
      assert forall r :: 0 <= r < m ==> lists[..m][r] == lists[r];
      if |lists[m]| > n then |lists[m]| else n
  }

  /** A padded list at a position. */
  function Padded(list: seq<int>, k: nat): int {
    if k < |list| then list[k] else PADDING
  }

  function MaxAt(lists: seq<seq<int>>, k: nat): int {
    if lists == [] then PADDING
    else
      var m := |lists| - 1;
      var x := MaxAt(lists[..m], k);
      if Padded(lists[m], k) > x then Padded(lists[m], k) else x
  }

  function Synced(lists: seq<seq<int>>): (r: seq<int>)
    ensures |r| == Longest(lists)
  {
    seq(Longest(lists), k requires 0 <= k => MaxAt(lists, k))
  }

  lemma {:induction false} LongestReached(lists: seq<seq<int>>) returns (r: nat)
    requires lists != []
    ensures r < |lists| && |lists[r]| == Longest(lists)
  {
    var m := |lists| - 1;
    if m == 0 || |lists[m]| > Longest(lists[..m]) {
      r := m;
      assert m == 0 ==> lists[..m] == [];
    } else {
      r := LongestReached(lists[..m]);
    }
  }

  lemma {:induction false} MaxAtBounds(lists: seq<seq<int>>, k: nat, r: nat)
    requires r < |lists|
    ensures Padded(lists[r], k) <= MaxAt(lists, k)
  {
    var m := |lists| - 1;
    if r < m {
      assert lists[..m][r] == lists[r];
      MaxAtBounds(lists[..m], k, r);
    }
  }

  /** The maximum is padding or some rank's timestamp. */
  lemma {:induction false} MaxAtReached(lists: seq<seq<int>>, k: nat) returns (r: nat)
    requires MaxAt(lists, k) != PADDING
    ensures r < |lists| && k < |lists[r]| && lists[r][k] == MaxAt(lists, k)
  {
    var m := |lists| - 1;
    if MaxAt(lists, k) == MaxAt(lists[..m], k) {
      r := MaxAtReached(lists[..m], k);
      assert lists[..m][r] == lists[r];
    } else {
      r := m;
    }
  }

  /** Within the longest list every position holds a real timestamp of some rank. */
  lemma SyncedHeld(lists: seq<seq<int>>, k: nat) returns (r: nat)
    requires AllTimestamps(lists) && k < Longest(lists)
    ensures r < |lists| && k < |lists[r]| && lists[r][k] == Synced(lists)[k] >= 0
  {
    assert lists != [];
    var l := LongestReached(lists);
    MaxAtBounds(lists, k, l);
    assert Timestamps(lists[l]);
    r := MaxAtReached(lists, k);
    assert Timestamps(lists[r]);
  }

  /** The agreed list is a rank's list again: newest first, no padding, only timestamps some rank held. */
  lemma SyncedExact(lists: seq<seq<int>>)
    requires AllTimestamps(lists)
    ensures Timestamps(Synced(lists)) && |Synced(lists)| == Longest(lists)
    ensures forall k :: 0 <= k < |Synced(lists)| ==> HeldBySome(lists, Synced(lists)[k])
  {
    var s := Synced(lists);
    forall k | 0 <= k < |s| ensures s[k] >= 0 && HeldBySome(lists, s[k]) {
      var r := SyncedHeld(lists, k);
      assert s[k] in lists[r];
    }
    forall j, k | 0 <= j < k < |s| ensures s[j] > s[k] {
      var r := SyncedHeld(lists, k);
      assert Timestamps(lists[r]);
      MaxAtBounds(lists, j, r);
    }
  }

  ghost predicate HeldBySome(lists: seq<seq<int>>, t: int) {
    exists r :: 0 <= r < |lists| && t in lists[r]
  }

  /** No rank holds anything newer than the first of the agreed list. */
  lemma NewestKept(lists: seq<seq<int>>, r: nat, t: int)
    requires AllTimestamps(lists) && r < |lists| && t in lists[r]
    ensures Synced(lists) != [] && t <= Synced(lists)[0]
  {
    var k :| 0 <= k < |lists[r]| && lists[r][k] == t;
    assert Timestamps(lists[r]);
    MaxAtBounds(lists, 0, r);
  }

  /** A timestamp that every rank holds is agreed on. */
  lemma CommonKept(lists: seq<seq<int>>, t: int)
    requires AllTimestamps(lists) && lists != [] && forall r :: 0 <= r < |lists| ==> t in lists[r]
    ensures t in Synced(lists)
  {
    var k := LastPosition(lists, t);
    assert MaxAt(lists, k) == t;
    assert Synced(lists)[k] == t;
  }

  /** The furthest position at which any rank has a common timestamp; nobody has anything newer there. */
  lemma {:induction false} LastPosition(lists: seq<seq<int>>, t: int) returns (k: nat)
    requires AllTimestamps(lists) && lists != [] && forall r :: 0 <= r < |lists| ==> t in lists[r]
    ensures k < Longest(lists) && MaxAt(lists, k) == t
    ensures exists r :: 0 <= r < |lists| && k < |lists[r]| && lists[r][k] == t
    ensures forall r, j :: 0 <= r < |lists| && 0 <= j < |lists[r]| && lists[r][j] == t ==> j <= k
  {
    var m := |lists| - 1;
    var list := lists[m];
    assert t in list && Timestamps(list);
    var i :| 0 <= i < |list| && list[i] == t;
    k := i;
    if m > 0 {
      var front := lists[..m];
      assert forall r :: 0 <= r < m ==> front[r] == lists[r];
      var h := LastPosition(front, t);
      if h > i { k := h; }
      UpToCommon(front, t, k, h);
    } else {
      assert lists[..m] == [];
    }
  }

  /** Past the furthest position of a common timestamp everything is older. */
  lemma UpToCommon(lists: seq<seq<int>>, t: int, k: nat, h: nat)
    requires AllTimestamps(lists) && h <= k && MaxAt(lists, h) == t
    ensures MaxAt(lists, k) <= t
  {
    if MaxAt(lists, k) > PADDING {
      var r := MaxAtReached(lists, k);
      assert Timestamps(lists[r]);
      MaxAtBounds(lists, h, r);
    } else {
      PaddingLeast(lists, h);
    }
  }

  lemma {:induction false} PaddingLeast(lists: seq<seq<int>>, k: nat)
    ensures MaxAt(lists, k) >= PADDING
  {
    if lists != [] { PaddingLeast(lists[..|lists| - 1], k); }
  }

  /** Agreeing again changes nothing. */
  lemma SyncTwice(lists: seq<seq<int>>, ranks: nat)
    requires AllTimestamps(lists) && ranks > 0
    ensures Synced(seq(ranks, r => Synced(lists))) == Synced(lists)
  {
    var s := Synced(lists);
    var again := seq(ranks, r => s);
    SyncedExact(lists);
    SameLongest(s, ranks);
    forall k | 0 <= k < |s| ensures Synced(again)[k] == s[k] { SameMax(s, ranks, k); }
  }

  lemma {:induction false} SameLongest(s: seq<int>, ranks: nat)
    ensures ranks > 0 ==> Longest(seq(ranks, r => s)) == |s|
  {
    if ranks > 1 { SameLongest(s, ranks - 1); }
    if ranks > 0 { assert seq(ranks, r => s)[..ranks - 1] == seq(ranks - 1, r => s); }
  }

  lemma {:induction false} SameMax(s: seq<int>, ranks: nat, k: nat)
    requires k < |s| && s[k] >= 0 && ranks > 0
    ensures MaxAt(seq(ranks, r => s), k) == s[k]
  {
    assert seq(ranks, r => s)[..ranks - 1] == seq(ranks - 1, r => s);
    if ranks > 1 { SameMax(s, ranks - 1, k); }
  }
}
