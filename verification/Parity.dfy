/** Rotating XOR parity across a cohort: what protecting writes into the parity blocks, and what repairing
    one lost rank gives back. */
module Parity {
  import opened ParityLayout

  type Byte = bv8

  /** What one rank keeps of a snapshot: its own data and the parity block it holds for the others. */
  datatype Block = Block(data: seq<Byte>, parity: seq<Byte>)

  function Zeros(n: nat): (s: seq<Byte>)
    ensures |s| == n
  {
    seq(n, i => 0)
  }

  function Xor(column: seq<Byte>): Byte {
    if column == [] then 0 else column[0] ^ Xor(column[1..])
  }

  predicate Fits(l: Shape, b: Block, rank: nat) {
    l.Valid() && rank < l.ranks && |b.data| >= l.bytes && |b.parity| == l.Length(rank)
  }

  predicate Cohort(l: Shape, blocks: seq<Block>) {
    l.Valid() && |blocks| == l.ranks && forall j :: 0 <= j < l.ranks ==> Fits(l, blocks[j], j)
  }

  /** What a rank contributes to the reduction for a root: its parity block if it is the root, else a segment. */
  function Segment(l: Shape, b: Block, rank: nat, root: nat): (s: seq<Byte>)
    requires Fits(l, b, rank) && root < l.ranks
    ensures |s| == l.Length(root)
  {
    if rank == root then b.parity
    else
      StartFits(l, |b.data|, rank, root);
      var start := Start(l, |b.data|, rank, root);
      b.data[start..start + l.Length(root)]
  }

  function WithSegment(l: Shape, b: Block, rank: nat, root: nat, s: seq<Byte>): (r: Block)
    requires Fits(l, b, rank) && root < l.ranks && |s| == l.Length(root)
    ensures Fits(l, r, rank) && |r.data| == |b.data|
  {
    if rank == root then b.(parity := s)
    else
      StartFits(l, |b.data|, rank, root);
      var start := Start(l, |b.data|, rank, root);
      b.(data := b.data[..start] + s + b.data[start + l.Length(root)..])
  }

  function Column(l: Shape, blocks: seq<Block>, root: nat, t: nat): (c: seq<Byte>)
    requires Cohort(l, blocks) && root < l.ranks && t < l.Length(root)
    ensures |c| == l.ranks && forall j :: 0 <= j < l.ranks ==> c[j] == Segment(l, blocks[j], j, root)[t]
  {
    seq(l.ranks, j requires 0 <= j < l.ranks => Segment(l, blocks[j], j, root)[t])
  }

  /** The reduction for a root: the exclusive or of what all ranks contribute. */
  function Reduce(l: Shape, blocks: seq<Block>, root: nat): (s: seq<Byte>)
    requires Cohort(l, blocks) && root < l.ranks
    ensures |s| == l.Length(root)
  {
    seq(l.Length(root), t requires 0 <= t < l.Length(root) => Xor(Column(l, blocks, root, t)))
  }

  /** The reduction for a root, delivered in place to a target rank. */
  function Reduced(l: Shape, blocks: seq<Block>, root: nat, target: nat): (r: seq<Block>)
    requires Cohort(l, blocks) && root < l.ranks && target < l.ranks
    ensures Cohort(l, r)
  {
    blocks[target := WithSegment(l, blocks[target], target, root, Reduce(l, blocks, root))]
  }

  /** Grows a buffer that is too short; what the new bytes hold is up to the allocator. */
  function Grown(data: seq<Byte>, n: nat, junk: seq<Byte>): (r: seq<Byte>)
    requires |junk| >= n
    ensures |r| == (if |data| < n then n else |data|) && r[..|data|] == data
  {
    if |data| < n then data + junk[|data|..n] else data
  }

  function Prepared(l: Shape, datas: seq<seq<Byte>>, junk: seq<seq<Byte>>): (r: seq<Block>)
    requires l.Valid() && |datas| == |junk| == l.ranks
    requires forall j :: 0 <= j < l.ranks ==> |junk[j]| >= l.bytes
    ensures Cohort(l, r)
    ensures forall j :: 0 <= j < l.ranks ==> r[j] == Block(Grown(datas[j], l.bytes, junk[j]), Zeros(l.Length(j)))
  {
    seq(l.ranks, j requires 0 <= j < l.ranks => Block(Grown(datas[j], l.bytes, junk[j]), Zeros(l.Length(j))))
  }

  /** Protecting, up to a root. */
  function Protect(l: Shape, blocks: seq<Block>, n: nat): (r: seq<Block>)
    requires Cohort(l, blocks) && n <= l.ranks
    ensures Cohort(l, r)
  {
    if n == 0 then blocks else Reduced(l, Protect(l, blocks, n - 1), n - 1, n - 1)
  }

  /** A lost rank starts again from zeros. */
  function Blank(l: Shape, lost: nat): (b: Block)
    requires l.Valid() && lost < l.ranks
    ensures Fits(l, b, lost)
  {
    Block(Zeros(l.bytes), Zeros(l.Length(lost)))
  }

  /** Repairing a lost rank, up to a root. */
  function Repair(l: Shape, blocks: seq<Block>, lost: nat, n: nat): (r: seq<Block>)
    requires |blocks| == l.ranks && lost < l.ranks && n <= l.ranks
    requires l.Valid() && forall j :: 0 <= j < l.ranks && j != lost ==> Fits(l, blocks[j], j)
    ensures Cohort(l, r)
  {
    if n == 0 then blocks[lost := Blank(l, lost)]
    else Reduced(l, Repair(l, blocks, lost, n - 1), n - 1, lost)
  }

  /** Protected: for every root, each line of the segments and the parity block cancels out. */
  ghost predicate Balanced(l: Shape, blocks: seq<Block>, root: nat)
    requires Cohort(l, blocks) && root < l.ranks
  {
    forall t :: 0 <= t < l.Length(root) ==> Xor(Column(l, blocks, root, t)) == 0
  }

  ghost predicate Protected(l: Shape, blocks: seq<Block>) {
    Cohort(l, blocks) && forall root :: 0 <= root < l.ranks ==> Balanced(l, blocks, root)
  }

  /** One byte is its own exclusive or, and that of two columns is the one of both. */
  lemma {:induction false} XorJoined(v: Byte, a: seq<Byte>, b: seq<Byte>)
    ensures Xor([v]) == v && Xor(a + b) == Xor(a) ^ Xor(b)
  {
    if a == [] {
      assert a + b == b;
    } else {
      assert (a + b)[1..] == a[1..] + b;
      XorJoined(v, a[1..], b);
    }
  }

  lemma {:induction false} XorUpdate(c: seq<Byte>, k: nat, v: Byte)
    requires k < |c|
    ensures Xor(c[k := v]) == Xor(c) ^ c[k] ^ v
  {
    if k == 0 {
      assert c[0 := v][1..] == c[1..];
      Cancels(c[0], Xor(c[1..]), v);
    } else {
      assert c[k := v][1..] == c[1..][k - 1 := v];
      XorUpdate(c[1..], k - 1, v);
      Regroups(c[0], Xor(c[1..]), c[k], v);
    }
  }

  lemma Cancels(a: Byte, x: Byte, v: Byte)
    ensures v ^ x == (a ^ x) ^ a ^ v
  {
  }

  lemma Regroups(a: Byte, x: Byte, b: Byte, v: Byte)
    ensures a ^ (x ^ b ^ v) == (a ^ x) ^ b ^ v
  {
  }

  /** Replacing one rank's block changes one entry of every column. */
  lemma ColumnUpdate(l: Shape, blocks: seq<Block>, rank: nat, b: Block, root: nat, t: nat)
    requires Cohort(l, blocks) && rank < l.ranks && Fits(l, b, rank) && root < l.ranks && t < l.Length(root)
    ensures Cohort(l, blocks[rank := b])
    ensures Xor(Column(l, blocks[rank := b], root, t))
            == Xor(Column(l, blocks, root, t)) ^ Segment(l, blocks[rank], rank, root)[t] ^ Segment(l, b, rank, root)[t]
  {
    var c := Column(l, blocks, root, t);
    assert Column(l, blocks[rank := b], root, t) == c[rank := Segment(l, b, rank, root)[t]];
    XorUpdate(c, rank, Segment(l, b, rank, root)[t]);
  }

  /** Writing a parity block leaves the contributions to the other roots alone. */
  lemma OtherRoots(l: Shape, b: Block, rank: nat, s: seq<Byte>, root: nat)
    requires Fits(l, b, rank) && root < l.ranks && root != rank && |s| == l.Length(rank)
    ensures Segment(l, WithSegment(l, b, rank, rank, s), rank, root) == Segment(l, b, rank, root)
  {
  }

  lemma ProtectStep(l: Shape, blocks: seq<Block>, root: nat)
    requires Cohort(l, blocks) && root < l.ranks && blocks[root].parity == Zeros(l.Length(root))
    ensures Balanced(l, Reduced(l, blocks, root, root), root)
  {
    var s := Reduce(l, blocks, root);
    var b := WithSegment(l, blocks[root], root, root, s);
    var r := Reduced(l, blocks, root, root);
    forall t | 0 <= t < l.Length(root) ensures Xor(Column(l, r, root, t)) == 0 {
      ColumnUpdate(l, blocks, root, b, root, t);
    }
  }

  lemma ProtectStepKeeps(l: Shape, blocks: seq<Block>, root: nat, i: nat)
    requires Cohort(l, blocks) && root < l.ranks && i < l.ranks && i != root && Balanced(l, blocks, i)
    ensures Balanced(l, Reduced(l, blocks, root, root), i)
  {
    var s := Reduce(l, blocks, root);
    var b := WithSegment(l, blocks[root], root, root, s);
    var r := Reduced(l, blocks, root, root);
    OtherRoots(l, blocks[root], root, s, i);
    forall t | 0 <= t < l.Length(i) ensures Xor(Column(l, r, i, t)) == 0 {
      ColumnUpdate(l, blocks, root, b, i, t);
    }
  }

  /** Protecting leaves all data alone and makes every line cancel. */
  lemma {:induction false} ProtectProtects(l: Shape, blocks: seq<Block>, n: nat)
    requires Cohort(l, blocks) && n <= l.ranks
    requires forall j :: 0 <= j < l.ranks ==> blocks[j].parity == Zeros(l.Length(j))
    ensures forall j :: 0 <= j < l.ranks ==> Protect(l, blocks, n)[j].data == blocks[j].data
    ensures forall j :: n <= j < l.ranks ==> Protect(l, blocks, n)[j] == blocks[j]
    ensures forall i :: 0 <= i < n ==> Balanced(l, Protect(l, blocks, n), i)
    ensures n == l.ranks ==> Protected(l, Protect(l, blocks, n))
  {
    if n > 0 {
      ProtectProtects(l, blocks, n - 1);
      var before := Protect(l, blocks, n - 1);
      ProtectStep(l, before, n - 1);
      var after := Reduced(l, before, n - 1, n - 1);
      forall i | 0 <= i < n - 1 ensures Balanced(l, after, i) {
        ProtectStepKeeps(l, before, n - 1, i);
      }
    }
  }

  /** A reduction towards the lost rank adds what that rank once contributed to what it holds now. */
  lemma RepairStep(l: Shape, whole: seq<Block>, now: seq<Block>, lost: nat, root: nat, t: nat)
    requires Protected(l, whole) && Cohort(l, now) && lost < l.ranks && root < l.ranks && t < l.Length(root)
    requires forall j :: 0 <= j < l.ranks && j != lost ==> now[j] == whole[j]
    ensures Reduce(l, now, root)[t] == Segment(l, now[lost], lost, root)[t] ^ Segment(l, whole[lost], lost, root)[t]
  {
    assert Balanced(l, whole, root);
    assert whole[lost := now[lost]] == now;
    ColumnUpdate(l, whole, lost, now[lost], root, t);
  }

  /** What a lost rank's data reads after repair: all of it when its segments tile; else the shared byte is
      wrong, and so is all that follows when the buffer used to be longer than the data. */
  function Recovered(l: Shape, was: seq<Byte>, lost: nat, x: nat): Byte
    requires l.Valid() && lost < l.ranks && x < l.bytes <= |was|
  {
    if l.Tiles(lost) || x < l.Shared(lost) then was[x]
    else if |was| == l.bytes then (if x == l.Shared(lost) then 0 else was[x])
    else if x == l.Shared(lost) then was[x] ^ was[x + 1]
    else was[x + 1]
  }

  /** The lost rank's data after n roots. */
  function Partly(l: Shape, was: seq<Byte>, lost: nat, n: nat, x: nat): Byte
    requires l.Valid() && lost < l.ranks && x < l.bytes <= |was|
  {
    if !l.Tiles(lost) && n > l.Turn(lost) then Recovered(l, was, lost, x)
    else if x < Total(l, lost, n) then was[x]
    else 0
  }

  /** What one root's step of the repair adds to a byte of the lost data. */
  function Added(l: Shape, was: seq<Byte>, size: nat, lost: nat, root: nat, x: nat): Byte
    requires l.Valid() && lost < l.ranks && root < l.ranks
  {
    var from, to := Start(l, |was|, lost, root), Start(l, size, lost, root);
    if to <= x < to + l.Length(root) && 0 <= from + x - to < |was| then was[from + x - to] else 0
  }

  lemma {:induction false} AddedExact(l: Shape, was: seq<Byte>, lost: nat, root: nat, x: nat)
    requires l.Valid() && lost < l.ranks && x < l.bytes <= |was| && root < l.ranks && root != lost
    ensures var turns := !l.Tiles(lost) && root == l.Turn(lost);
            var to := Total(l, lost, root) - (if turns then 1 else 0);
            Added(l, was, l.bytes, lost, root, x)
            == if !(to <= x < to + l.Length(root)) then 0
               else if turns && |was| > l.bytes then was[x + 1]
               else was[x]
  {
    if l.Length(root) > 0 {
      StartFits(l, |was|, lost, root);
      StartExact(l, |was|, lost, root);
      StartExact(l, l.bytes, lost, root);
    }
  }

  lemma PartlyBefore(l: Shape, was: seq<Byte>, lost: nat, root: nat, x: nat)
    requires l.Valid() && lost < l.ranks && x < l.bytes <= |was| && root < l.ranks && root != lost
    requires l.Tiles(lost) || root < l.Turn(lost)
    ensures Partly(l, was, lost, root + 1, x)
            == Partly(l, was, lost, root, x) ^ Added(l, was, l.bytes, lost, root, x)
  {
    AddedExact(l, was, lost, root, x);
  }

  lemma PartlyTurn(l: Shape, was: seq<Byte>, lost: nat, x: nat)
    requires l.Valid() && lost < l.ranks && x < l.bytes <= |was| && !l.Tiles(lost)
    ensures l.Turn(lost) < l.ranks && l.Turn(lost) != lost
    ensures var root := l.Turn(lost);
            Recovered(l, was, lost, x) == Partly(l, was, lost, root, x) ^ Added(l, was, l.bytes, lost, root, x)
  {
    TurnExact(l, lost);
    var root := l.Turn(lost);
    AddedExact(l, was, lost, root, x);
    assert Partly(l, was, lost, root, x) == if x <= l.Shared(lost) then was[x] else 0;
    assert Added(l, was, l.bytes, lost, root, x)
        == if x < l.Shared(lost) then 0 else if |was| > l.bytes then was[x + 1] else was[x];
  }

  lemma PartlyAfter(l: Shape, was: seq<Byte>, lost: nat, root: nat, x: nat)
    requires l.Valid() && lost < l.ranks && x < l.bytes <= |was| && root < l.ranks && root != lost
    requires !l.Tiles(lost) && root > l.Turn(lost)
    ensures Added(l, was, l.bytes, lost, root, x) == 0
  {
    AddedExact(l, was, lost, root, x);
    TurnExact(l, lost);
    WholeTotal(l, lost);
    TotalMono(l, lost, root + 1, l.ranks);
    TotalMono(l, lost, l.Turn(lost) + 1, root);
  }

  lemma PartlyStep(l: Shape, was: seq<Byte>, lost: nat, root: nat, x: nat)
    requires l.Valid() && lost < l.ranks && x < l.bytes <= |was| && root < l.ranks && root != lost
    ensures Partly(l, was, lost, root + 1, x)
            == Partly(l, was, lost, root, x) ^ Added(l, was, l.bytes, lost, root, x)
  {
    if l.Tiles(lost) || root < l.Turn(lost) {
      PartlyBefore(l, was, lost, root, x);
    } else if root == l.Turn(lost) {
      PartlyTurn(l, was, lost, x);
    } else {
      PartlyAfter(l, was, lost, root, x);
    }
  }

  lemma SegmentWritten(l: Shape, b: Block, rank: nat, root: nat, s: seq<Byte>, x: nat)
    requires Fits(l, b, rank) && root < l.ranks && root != rank && |s| == l.Length(root) && x < |b.data|
    ensures var start := Start(l, |b.data|, rank, root);
            WithSegment(l, b, rank, root, s).data[x]
            == if start <= x < start + l.Length(root) then s[x - start] else b.data[x]
  {
    StartFits(l, |b.data|, rank, root);
  }

  lemma SegmentAt(l: Shape, b: Block, rank: nat, root: nat, t: nat)
    requires Fits(l, b, rank) && root < l.ranks && root != rank && t < l.Length(root)
    ensures 0 <= Start(l, |b.data|, rank, root) + t < |b.data|
    ensures Segment(l, b, rank, root)[t] == b.data[Start(l, |b.data|, rank, root) + t]
  {
    StartFits(l, |b.data|, rank, root);
  }

  /** What is added at a place of the segment, and nothing elsewhere. */
  lemma AddedAt(l: Shape, was: Block, size: nat, rank: nat, root: nat, x: nat)
    requires Fits(l, was, rank) && root < l.ranks && root != rank
    ensures var to := Start(l, size, rank, root);
            Added(l, was.data, size, rank, root, x)
            == if to <= x < to + l.Length(root) then Segment(l, was, rank, root)[x - to] else 0
  {
    var to := Start(l, size, rank, root);
    if to <= x < to + l.Length(root) { SegmentAt(l, was, rank, root, x - to); }
  }

  /** Adding to a block's segment what another block holds there. */
  lemma AddedByte(l: Shape, b: Block, was: Block, rank: nat, root: nat, s: seq<Byte>, x: nat)
    requires Fits(l, b, rank) && Fits(l, was, rank) && root < l.ranks && root != rank && |s| == l.Length(root)
    requires forall t :: 0 <= t < |s| ==> s[t] == Segment(l, b, rank, root)[t] ^ Segment(l, was, rank, root)[t]
    requires x < |b.data|
    ensures WithSegment(l, b, rank, root, s).data[x] == b.data[x] ^ Added(l, was.data, |b.data|, rank, root, x)
  {
    var to := Start(l, |b.data|, rank, root);
    SegmentWritten(l, b, rank, root, s, x);
    AddedAt(l, was, |b.data|, rank, root, x);
    if to <= x < to + l.Length(root) { SegmentAt(l, b, rank, root, x - to); }
  }

  lemma RepairStepData(l: Shape, whole: seq<Block>, now: seq<Block>, lost: nat, root: nat, x: nat)
    requires Protected(l, whole) && Cohort(l, now) && lost < l.ranks && root < l.ranks && root != lost && x < l.bytes
    requires forall j :: 0 <= j < l.ranks && j != lost ==> now[j] == whole[j]
    requires |now[lost].data| == l.bytes && now[lost].data[x] == Partly(l, whole[lost].data, lost, root, x)
    ensures Reduced(l, now, root, lost)[lost].data[x] == Partly(l, whole[lost].data, lost, root + 1, x)
  {
    var s := Reduce(l, now, root);
    forall t | 0 <= t < |s|
      ensures s[t] == Segment(l, now[lost], lost, root)[t] ^ Segment(l, whole[lost], lost, root)[t]
    {
      RepairStep(l, whole, now, lost, root, t);
    }
    AddedByte(l, now[lost], whole[lost], lost, root, s, x);
    PartlyStep(l, whole[lost].data, lost, root, x);
  }

  lemma RepairStepParity(l: Shape, whole: seq<Block>, now: seq<Block>, lost: nat)
    requires Protected(l, whole) && Cohort(l, now) && lost < l.ranks
    requires forall j :: 0 <= j < l.ranks && j != lost ==> now[j] == whole[j]
    requires now[lost].parity == Zeros(l.Length(lost))
    ensures Reduced(l, now, lost, lost)[lost] == Block(now[lost].data, whole[lost].parity)
  {
    forall t | 0 <= t < l.Length(lost) ensures Reduce(l, now, lost)[t] == whole[lost].parity[t] {
      RepairStep(l, whole, now, lost, lost, t);
    }
  }

  /** The cohort in the middle of a repair, before root n. */
  ghost predicate Midway(l: Shape, whole: seq<Block>, now: seq<Block>, lost: nat, n: nat)
    requires Cohort(l, whole) && lost < l.ranks
  {
    && Cohort(l, now)
    && (forall j :: 0 <= j < l.ranks && j != lost ==> now[j] == whole[j])
    && |now[lost].data| == l.bytes
    && (forall x :: 0 <= x < l.bytes ==> now[lost].data[x] == Partly(l, whole[lost].data, lost, n, x))
    && now[lost].parity == (if n > lost then whole[lost].parity else Zeros(l.Length(lost)))
  }

  lemma MidwayStep(l: Shape, whole: seq<Block>, now: seq<Block>, lost: nat, root: nat, next: seq<Block>)
    requires Protected(l, whole) && lost < l.ranks && root < l.ranks && Midway(l, whole, now, lost, root)
    requires next == Reduced(l, now, root, lost)
    ensures Midway(l, whole, next, lost, root + 1)
  {
    if root == lost {
      RepairStepParity(l, whole, now, lost);
      TurnSkips(l, lost);
    } else {
      forall x | 0 <= x < l.bytes
        ensures next[lost].data[x] == Partly(l, whole[lost].data, lost, root + 1, x)
      {
        RepairStepData(l, whole, now, lost, root, x);
      }
    }
  }

  lemma {:induction false} RepairProgress(l: Shape, whole: seq<Block>, hurt: seq<Block>, lost: nat, n: nat)
    requires Protected(l, whole) && lost < l.ranks && |hurt| == l.ranks && n <= l.ranks
    requires forall j :: 0 <= j < l.ranks && j != lost ==> hurt[j] == whole[j]
    ensures Midway(l, whole, Repair(l, hurt, lost, n), lost, n)
  {
    if n == 0 {
      MidwayStart(l, whole, hurt, lost);
    } else {
      var now := Repair(l, hurt, lost, n - 1);
      RepairProgress(l, whole, hurt, lost, n - 1);
      MidwayStep(l, whole, now, lost, n - 1, Repair(l, hurt, lost, n));
    }
  }

  lemma MidwayStart(l: Shape, whole: seq<Block>, hurt: seq<Block>, lost: nat)
    requires Cohort(l, whole) && lost < l.ranks && |hurt| == l.ranks
    requires forall j :: 0 <= j < l.ranks && j != lost ==> hurt[j] == whole[j]
    ensures Midway(l, whole, hurt[lost := Blank(l, lost)], lost, 0)
  {
  }

  lemma TurnSkips(l: Shape, lost: nat)
    requires l.Valid() && lost < l.ranks
    ensures !l.Tiles(lost) ==> l.Turn(lost) != lost
  {
    if !l.Tiles(lost) { TurnExact(l, lost); }
  }

  /** What repairing one lost rank of a protected cohort gives, for any buffers at least as long as the data:
      the others keep everything, the parity block comes back, and the data reads as Recovered says. */
  lemma RepairExact(l: Shape, whole: seq<Block>, hurt: seq<Block>, lost: nat)
    requires Protected(l, whole) && lost < l.ranks && |hurt| == l.ranks
    requires forall j :: 0 <= j < l.ranks && j != lost ==> hurt[j] == whole[j]
    ensures var r := Repair(l, hurt, lost, l.ranks);
            (forall j: nat :: j < l.ranks && j != lost ==> r[j] == whole[j])
            && r[lost].parity == whole[lost].parity && |r[lost].data| == l.bytes
            && (forall x: nat :: x < l.bytes ==> r[lost].data[x] == Recovered(l, whole[lost].data, lost, x))
  {
    RepairProgress(l, whole, hurt, lost, l.ranks);
    WholeTotal(l, lost);
    if !l.Tiles(lost) { TurnExact(l, lost); }
  }

  /** Every protected cohort gets the lost rank back byte for byte. */
  ghost predicate AlwaysRestores(l: Shape, lost: nat)
    requires l.Valid() && lost < l.ranks
  {
    forall whole: seq<Block> :: Protected(l, whole) ==>
                      Repair(l, whole, lost, l.ranks)[lost] == Block(whole[lost].data[..l.bytes], whole[lost].parity)
  }

  /** A single erasure is always undone exactly when the lost rank's segments tile its data. */
  lemma SafeRanks(l: Shape, lost: nat)
    requires l.Valid() && lost < l.ranks
    ensures AlwaysRestores(l, lost) <==> l.Tiles(lost)
    ensures AlwaysRestores(l, lost) <==> l.bytes % (l.ranks - 1) == 0 || lost <= l.bytes % (l.ranks - 1)
  {
    UsualDivision(l);
    if l.Tiles(lost) {
      forall whole: seq<Block> | Protected(l, whole)
        ensures Repair(l, whole, lost, l.ranks)[lost] == Block(whole[lost].data[..l.bytes], whole[lost].parity)
      {
        RepairExact(l, whole, whole, lost);
        assert Repair(l, whole, lost, l.ranks)[lost].data == whole[lost].data[..l.bytes];
      }
    } else {
      SharedByteLost(l, lost);
    }
  }

  /** A cohort whose lost rank comes back changed: all its bytes were one. */
  lemma SharedByteLost(l: Shape, lost: nat)
    requires l.Valid() && lost < l.ranks && !l.Tiles(lost)
    ensures !AlwaysRestores(l, lost)
  {
    var ones := seq(l.ranks, j => seq(l.bytes, x => 1 as Byte));
    var blocks := Prepared(l, ones, ones);
    ProtectProtects(l, blocks, l.ranks);
    var whole := Protect(l, blocks, l.ranks);
    TurnExact(l, lost);
    RepairExact(l, whole, whole, lost);
    assert whole[lost].data == ones[lost];
    assert Repair(l, whole, lost, l.ranks)[lost].data[l.Shared(lost)] == 0;
    assert whole[lost].data[..l.bytes][l.Shared(lost)] == 1;
  }

  /** Three ranks, three bytes: losing the last rank loses its middle byte. */
  lemma SmallestLoss()
    ensures var l := Shape(3, 3); l.Valid() && !l.Tiles(2) && l.Shared(2) == 1 && !AlwaysRestores(l, 2)
  {
    SharedByteLost(Shape(3, 3), 2);
  }

  /** Three ranks, three bytes, and a last rank that had staged four: whatever the bytes were, after its loss the middle
      one comes back mixed with the next one, and the fourth byte stands in the place of the third. */
  lemma LongerBufferShifts(datas: seq<seq<Byte>>) returns (whole: seq<Block>)
    requires |datas| == 3 && |datas[0]| == |datas[1]| == 3 && |datas[2]| == 4
    ensures Protected(Shape(3, 3), whole) && whole[2].data == datas[2]
    ensures var was := datas[2]; Repair(Shape(3, 3), whole, 2, 3)[2].data == [was[0], was[1] ^ was[2], was[3]]
  {
    var l := Shape(3, 3);
    var blocks := Prepared(l, datas, datas);
    ProtectProtects(l, blocks, 3);
    whole := Protect(l, blocks, 3);
    RepairExact(l, whole, whole, 2);
    var r := Repair(l, whole, 2, 3)[2].data;
    assert |r| == 3;
    Shifted(l, datas[2]);
  }

  lemma Shifted(l: Shape, was: seq<Byte>)
    requires l == Shape(3, 3) && |was| == 4
    ensures Recovered(l, was, 2, 0) == was[0] && Recovered(l, was, 2, 1) == was[1] ^ was[2]
    ensures Recovered(l, was, 2, 2) == was[3]
  {
    SmallestLoss();
  }
}
