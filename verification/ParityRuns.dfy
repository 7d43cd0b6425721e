/** Losses one after the other: when a repaired cohort is protected again, and which runs of losses it survives. */
module ParityRuns {
  import opened ParityLayout
  import opened Parity

  // ----- one repair -----

  /** Only the lost rank's block has changed, so a line cancels exactly if that block contributes what it did. */
  lemma BalancedAgain(l: Shape, whole: seq<Block>, b: Block, lost: nat, root: nat)
    requires Protected(l, whole) && lost < l.ranks && Fits(l, b, lost) && root < l.ranks
    ensures Balanced(l, whole[lost := b], root) <==> Segment(l, b, lost, root) == Segment(l, whole[lost], lost, root)
  {
    assert Balanced(l, whole, root);
    var r, old', new' := whole[lost := b], Segment(l, whole[lost], lost, root), Segment(l, b, lost, root);
    forall t: nat | t < l.Length(root) ensures Xor(Column(l, r, root, t)) == 0 <==> new'[t] == old'[t] {
      ColumnUpdate(l, whole, lost, b, root, t);
      XorZero(old'[t], new'[t]);
    }
    if new' == old' {
      forall t: nat | t < l.Length(root) ensures Xor(Column(l, r, root, t)) == 0 {
        assert new'[t] == old'[t];
      }
    } else {
      var t: nat :| t < l.Length(root) && new'[t] != old'[t];
      assert Xor(Column(l, r, root, t)) != 0;
    }
  }

  lemma XorZero(a: Byte, b: Byte)
    ensures 0 as Byte ^ a ^ b == 0 <==> b == a
  {
  }

  /** A segment of the repaired data against the same segment of the data that was lost. */
  ghost predicate SameSegment(l: Shape, was: seq<Byte>, lost: nat, root: nat)
    requires l.Valid() && lost < l.ranks && root < l.ranks && root != lost && l.bytes <= |was|
  {
    forall t :: 0 <= t < l.Length(root) ==> SameByte(l, was, lost, root, t)
  }

  predicate SameByte(l: Shape, was: seq<Byte>, lost: nat, root: nat, t: nat)
    requires l.Valid() && lost < l.ranks && root < l.ranks && root != lost && l.bytes <= |was| && t < l.Length(root)
  {
    StartFits(l, l.bytes, lost, root);
    StartFits(l, |was|, lost, root);
    Recovered(l, was, lost, Start(l, l.bytes, lost, root) + t) == was[Start(l, |was|, lost, root) + t]
  }

  lemma SegmentsCompared(l: Shape, b: Block, whole: Block, lost: nat, root: nat)
    requires Fits(l, b, lost) && Fits(l, whole, lost) && |b.data| == l.bytes && root < l.ranks && root != lost
    requires forall x: nat :: x < l.bytes ==> b.data[x] == Recovered(l, whole.data, lost, x)
    ensures Segment(l, b, lost, root) == Segment(l, whole, lost, root) <==> SameSegment(l, whole.data, lost, root)
  {
    var p, q := Segment(l, b, lost, root), Segment(l, whole, lost, root);
    forall t | 0 <= t < l.Length(root) ensures p[t] == q[t] <==> SameByte(l, whole.data, lost, root, t) {
      SegmentAt(l, b, lost, root, t);
      SegmentAt(l, whole, lost, root, t);
    }
    if SameSegment(l, whole.data, lost, root) {
      assert p == q;
    }
  }

  /** The byte covered twice was zero, and so was the next one if it was there. */
  predicate ZeroThere(l: Shape, was: seq<Byte>, lost: nat)
    requires l.Valid() && lost < l.ranks && l.bytes <= |was| && !l.Tiles(lost) && 0 <= l.Shared(lost) < l.bytes
  {
    was[l.Shared(lost)] == 0 && (|was| > l.bytes ==> was[l.Shared(lost) + 1] == 0)
  }

  lemma TiledByte(l: Shape, was: seq<Byte>, lost: nat, root: nat, t: nat)
    requires l.Valid() && lost < l.ranks && root < l.ranks && root != lost && l.bytes <= |was| && t < l.Length(root)
    requires l.Tiles(lost)
    ensures SameByte(l, was, lost, root, t)
  {
    StartFits(l, l.bytes, lost, root);
    StartExact(l, l.bytes, lost, root);
    StartExact(l, |was|, lost, root);
  }

  /** Where the segments overlap, all of them read the same again exactly if the bytes in question were zero. */
  lemma OverlapByte(l: Shape, was: seq<Byte>, lost: nat, root: nat, t: nat)
    requires l.Valid() && lost < l.ranks && root < l.ranks && root != lost && l.bytes <= |was| && t < l.Length(root)
    requires !l.Tiles(lost) && 0 <= l.Shared(lost) < l.bytes && ZeroThere(l, was, lost)
    ensures SameByte(l, was, lost, root, t)
  {
    TurnExact(l, lost);
    StartFits(l, l.bytes, lost, root);
    StartExact(l, l.bytes, lost, root);
    StartExact(l, |was|, lost, root);
    BeforeTurn(l, lost, root);
  }

  /** A segment that is not empty comes before the one that turns back, or is that one. */
  lemma BeforeTurn(l: Shape, lost: nat, root: nat)
    requires l.Valid() && lost < l.ranks && !l.Tiles(lost) && root < l.ranks && root != lost
    ensures l.Turn(lost) < l.ranks && (l.Length(root) > 0 ==> root <= l.Turn(lost))
    ensures root < l.Turn(lost) ==> Total(l, lost, root) + l.Length(root) <= l.Shared(lost) + 1
  {
    TurnExact(l, lost);
    WholeTotal(l, lost);
    if root > l.Turn(lost) {
      TotalMono(l, lost, l.Turn(lost) + 1, root);
      TotalMono(l, lost, root + 1, l.ranks);
    } else if root < l.Turn(lost) {
      TotalMono(l, lost, root + 1, l.Turn(lost));
    }
  }

  /** The two segments that share a byte. */
  lemma OverlapNeeds(l: Shape, was: seq<Byte>, lost: nat) returns (p: nat)
    requires l.Valid() && lost < l.ranks && !l.Tiles(lost) && l.bytes <= |was|
    ensures 0 <= l.Shared(lost) < l.bytes && p < l.ranks && p != lost && l.Turn(lost) < l.ranks && l.Turn(lost) != lost
    ensures SameSegment(l, was, lost, p) && SameSegment(l, was, lost, l.Turn(lost)) ==> ZeroThere(l, was, lost)
  {
    TurnExact(l, lost);
    var shared, turn := l.Shared(lost), l.Turn(lost);
    p := RootOf(l, lost, turn, shared);
    StartExact(l, l.bytes, lost, p);
    StartExact(l, |was|, lost, p);
    StartExact(l, l.bytes, lost, turn);
    StartExact(l, |was|, lost, turn);
    if SameSegment(l, was, lost, p) && SameSegment(l, was, lost, turn) {
      assert SameByte(l, was, lost, p, shared - Total(l, lost, p));
      assert SameByte(l, was, lost, turn, 0);
      ZeroFrom(was[shared], if |was| > l.bytes then was[shared + 1] else 0);
    }
  }

  lemma ZeroFrom(a: Byte, b: Byte)
    ensures a ^ b == a ==> b == 0
    ensures a ^ b == b ==> a == 0
  {
  }

  /** A repaired cohort is protected again exactly when the lost rank's segments tile its data, or the bytes that are
      covered twice were zero. */
  lemma ProtectedAgain(l: Shape, whole: seq<Block>, lost: nat)
    requires Protected(l, whole) && lost < l.ranks
    ensures !l.Tiles(lost) ==> 0 <= l.Shared(lost) < l.bytes
    ensures Protected(l, Repair(l, whole, lost, l.ranks)) <==> l.Tiles(lost) || ZeroThere(l, whole[lost].data, lost)
  {
    RepairExact(l, whole, whole, lost);
    var r, was := Repair(l, whole, lost, l.ranks), whole[lost].data;
    assert r == whole[lost := r[lost]];
    forall root | 0 <= root < l.ranks && root != lost
      ensures Balanced(l, r, root) <==> SameSegment(l, was, lost, root)
    {
      BalancedAgain(l, whole, r[lost], lost, root);
      SegmentsCompared(l, r[lost], whole[lost], lost, root);
    }
    BalancedAgain(l, whole, r[lost], lost, lost);
    SegmentsAgain(l, was, lost);
  }

  lemma SegmentsAgain(l: Shape, was: seq<Byte>, lost: nat)
    requires l.Valid() && lost < l.ranks && l.bytes <= |was|
    ensures !l.Tiles(lost) ==> 0 <= l.Shared(lost) < l.bytes
    ensures (forall root :: 0 <= root < l.ranks && root != lost ==> SameSegment(l, was, lost, root)) <==>
            l.Tiles(lost) || ZeroThere(l, was, lost)
  {
    if !l.Tiles(lost) { var p := OverlapNeeds(l, was, lost); }
    if l.Tiles(lost) || ZeroThere(l, was, lost) {
      forall root, t | 0 <= root < l.ranks && root != lost && 0 <= t < l.Length(root)
        ensures SameByte(l, was, lost, root, t)
      {
        if l.Tiles(lost) { TiledByte(l, was, lost, root, t); } else { OverlapByte(l, was, lost, root, t); }
      }
    }
  }

  // ----- runs of losses -----

  /** The cohort after the given ranks are lost, one at a time, each repaired before the next. */
  function After(l: Shape, blocks: seq<Block>, losses: seq<nat>): (r: seq<Block>)
    requires Cohort(l, blocks) && forall i :: 0 <= i < |losses| ==> losses[i] < l.ranks
    ensures Cohort(l, r)
  {
    if losses == [] then blocks
    else Repair(l, After(l, blocks, losses[..|losses| - 1]), losses[|losses| - 1], l.ranks)
  }

  /** Every rank has its protected bytes and its parity block. */
  predicate Same(l: Shape, whole: seq<Block>, now: seq<Block>)
    requires Cohort(l, whole) && Cohort(l, now)
  {
    forall j :: 0 <= j < l.ranks ==>
      now[j].data[..l.bytes] == whole[j].data[..l.bytes] && now[j].parity == whole[j].parity
  }

  lemma {:induction false} TilingKeeps(l: Shape, whole: seq<Block>, losses: seq<nat>)
    requires Protected(l, whole) && forall i :: 0 <= i < |losses| ==> losses[i] < l.ranks && l.Tiles(losses[i])
    ensures Protected(l, After(l, whole, losses)) && Same(l, whole, After(l, whole, losses))
    ensures forall j :: 0 <= j < l.ranks ==> |After(l, whole, losses)[j].data| <= |whole[j].data|
  {
    if losses != [] {
      var rest, lost := losses[..|losses| - 1], losses[|losses| - 1];
      TilingKeeps(l, whole, rest);
      var now := After(l, whole, rest);
      ProtectedAgain(l, now, lost);
      RepairExact(l, now, now, lost);
      assert Repair(l, now, lost, l.ranks)[lost].data[..l.bytes] == now[lost].data[..l.bytes];
    }
  }

  /** Whatever a protected cohort holds, it still holds after each of the losses. */
  ghost predicate Survives(l: Shape, losses: seq<nat>)
    requires l.Valid() && forall i :: 0 <= i < |losses| ==> losses[i] < l.ranks
  {
    forall whole, n: nat :: Protected(l, whole) && n <= |losses| ==> Same(l, whole, After(l, whole, losses[..n]))
  }

  /** Which runs of losses lose nothing, whatever was protected: those of ranks whose segments tile their data. */
  lemma LossesInvisible(l: Shape, losses: seq<nat>)
    requires l.Valid() && forall i :: 0 <= i < |losses| ==> losses[i] < l.ranks
    ensures Survives(l, losses) <==> forall i :: 0 <= i < |losses| ==> l.Tiles(losses[i])
  {
    if forall i :: 0 <= i < |losses| ==> l.Tiles(losses[i]) {
      forall whole, n: nat | Protected(l, whole) && n <= |losses| ensures Same(l, whole, After(l, whole, losses[..n])) {
        TilingKeeps(l, whole, losses[..n]);
      }
    } else {
      var k := FirstOverlap(l, losses);
      LostThere(l, losses, k);
    }
  }

  lemma {:induction false} FirstOverlap(l: Shape, losses: seq<nat>) returns (k: nat)
    requires l.Valid() && (forall i :: 0 <= i < |losses| ==> losses[i] < l.ranks)
    requires exists i :: 0 <= i < |losses| && !l.Tiles(losses[i])
    ensures k < |losses| && !l.Tiles(losses[k]) && forall i :: 0 <= i < k ==> l.Tiles(losses[i])
  {
    if !l.Tiles(losses[0]) {
      k := 0;
    } else {
      var i :| 0 <= i < |losses| && !l.Tiles(losses[i]);
      assert losses[1..][i - 1] == losses[i];
      k := FirstOverlap(l, losses[1..]);
      assert losses[k + 1] == losses[1..][k];
      k := k + 1;
    }
  }

  lemma LostThere(l: Shape, losses: seq<nat>, k: nat)
    requires l.Valid() && (forall i :: 0 <= i < |losses| ==> losses[i] < l.ranks) && k < |losses|
    requires !l.Tiles(losses[k]) && forall i :: 0 <= i < k ==> l.Tiles(losses[i])
    ensures !Survives(l, losses)
  {
    var whole := Ones(l);
    var lost := losses[k];
    TilingKeeps(l, whole, losses[..k]);
    var now := After(l, whole, losses[..k]);
    assert losses[..k + 1][..k] == losses[..k];
    TurnExact(l, lost);
    RepairExact(l, now, now, lost);
    var r := After(l, whole, losses[..k + 1]);
    assert r[lost].data[..l.bytes][l.Shared(lost)] == Recovered(l, now[lost].data, lost, l.Shared(lost)) == 0;
    assert whole[lost].data[..l.bytes][l.Shared(lost)] == 1;
    assert !Same(l, whole, r);
  }

  /** A protected cohort in which every byte is one. */
  lemma Ones(l: Shape) returns (whole: seq<Block>)
    requires l.Valid()
    ensures Protected(l, whole) && forall j :: 0 <= j < l.ranks ==> whole[j].data == seq(l.bytes, x => 1 as Byte)
  {
    var ones := seq(l.ranks, j => seq(l.bytes, x => 1 as Byte));
    var blocks := Prepared(l, ones, ones);
    ProtectProtects(l, blocks, l.ranks);
    whole := Protect(l, blocks, l.ranks);
  }
}
