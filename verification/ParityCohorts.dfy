/** The parity policy as the ranks of a cohort run it in lockstep: one reduction per root, every rank advancing
    an offset through its own buffer. */
module ParityCohorts {
  import opened Arith
  import opened ParityLayout
  import opened Parity
  import Regions
  import Subsets

  /** A subset without end counts as none. */
  ghost function BoundedIndices(s: Subsets.DataSubset): iset<nat>
    reads s
  {
    if Regions.MAX in s.Indices() then iset{} else s.Indices()
  }

  class ParityCohort {
    var blocks: seq<Block>

    /** Fresh snapshots of a cohort, with nothing in them. */
    constructor (ranks: nat)
      ensures blocks == seq(ranks, j => Block([], []))
    {
      blocks := seq(ranks, j => Block([], []));
    }

    /** The parity lengths that every rank computes for itself. */
    static method ParityLengths(l: Shape) returns (ret: seq<nat>)
      requires l.Valid()
      ensures |ret| == l.ranks && forall i :: 0 <= i < l.ranks ==> ret[i] == l.Length(i)
    {
      var partners := l.ranks - 1;
      var parityBytes, remainderBytes := l.bytes / partners, l.bytes % partners;
      UsualDivision(l);
      SplitsBytes(l);
      if remainderBytes > 0 { remainderBytes := remainderBytes + 1; }
      ret := seq(l.ranks, i => parityBytes);
      for i := 0 to remainderBytes
        invariant |ret| == l.ranks
        invariant forall k :: 0 <= k < i ==> ret[k] == parityBytes + 1
        invariant forall k :: i <= k < l.ranks ==> ret[k] == parityBytes
      {
        ret := ret[i := ret[i] + 1];
      }
    }

    /** Grows all data buffers to the protected length and sizes the parity blocks, zeroed. */
    method Prepare(l: Shape, junk: seq<seq<Byte>>)
      requires l.Valid() && |blocks| == |junk| == l.ranks
      requires forall j :: 0 <= j < l.ranks ==> |junk[j]| >= l.bytes
      modifies this
      ensures |blocks| == l.ranks
      ensures forall j :: 0 <= j < l.ranks ==>
                            blocks[j] == Block(Grown(old(blocks)[j].data, l.bytes, junk[j]), Zeros(l.Length(j)))
    {
      var lengths := ParityLengths(l);
      ghost var was := blocks;
      for i := 0 to l.ranks
        invariant |blocks| == l.ranks
        invariant forall j :: 0 <= j < i ==>
                                blocks[j] == Block(Grown(was[j].data, l.bytes, junk[j]), Zeros(l.Length(j)))
        invariant forall j :: i <= j < l.ranks ==> blocks[j] == was[j]
      {
        var data := blocks[i].data;
        if |data| < l.bytes { data := data + junk[i][|data|..l.bytes]; }
        blocks := blocks[i := Block(data, Zeros(lengths[i]))];
      }
    }

    ghost predicate Aligned(l: Shape, offsets: seq<nat>, root: nat)
      reads this
    {
      l.Valid() && |offsets| == |blocks| == l.ranks
      && forall j :: 0 <= j < l.ranks ==> offsets[j] == Offset(l, |blocks[j].data|, j, root)
    }

    /** What a rank hands to the reduction for a root, and its offset afterwards. */
    static method Input(l: Shape, b: Block, rank: nat, root: nat, len: nat, offset: nat)
      returns (input: nat, next: nat, part: seq<Byte>)
      requires Fits(l, b, rank) && root < l.ranks && len == l.Length(root)
      requires offset == Offset(l, |b.data|, rank, root)
      ensures next == Offset(l, |b.data|, rank, root + 1)
      ensures part == Segment(l, b, rank, root)
      ensures rank != root ==> input == Start(l, |b.data|, rank, root)
    {
      if rank == root { return 0, offset, b.parity; }
      StartFits(l, |b.data|, rank, root);
      input, next := offset, offset + len;
      if input + len > |b.data| {
        assert input + len == |b.data| + 1;
        input, next := input - 1, next - 1;
      }
      part := b.data[input..input + len];
    }

    /** One root: every rank picks its input and moves on, then the inputs are reduced into the target's own input. */
    method Round(l: Shape, root: nat, len: nat, target: nat, offsets: seq<nat>) returns (next: seq<nat>)
      requires Cohort(l, blocks) && root < l.ranks && target < l.ranks && len == l.Length(root)
      requires Aligned(l, offsets, root)
      modifies this
      ensures blocks == Reduced(l, old(blocks), root, target)
      ensures Aligned(l, next, root + 1)
    {
      next := [];
      var parts, into := [], 0;
      ghost var was := blocks;
      for j := 0 to l.ranks
        modifies {}
        invariant |next| == |parts| == j
        invariant forall k :: 0 <= k < j ==> next[k] == Offset(l, |was[k].data|, k, root + 1)
        invariant forall k :: 0 <= k < j ==> parts[k] == Segment(l, was[k], k, root)
        invariant target < j && target != root ==> into == Start(l, |was[target].data|, target, root)
      {
        var input, offset, part := Input(l, blocks[j], j, root, len, offsets[j]);
        next, parts := next + [offset], parts + [part];
        if j == target { into := input; }
      }
      MergeReduces(l, blocks, root, parts);
      Deliver(l, root, target, into, Merge(parts, len));
    }

    method Deliver(l: Shape, root: nat, target: nat, input: nat, s: seq<Byte>)
      requires Cohort(l, blocks) && root < l.ranks && target < l.ranks && |s| == l.Length(root)
      requires target != root ==> input == Start(l, |blocks[target].data|, target, root)
      modifies this
      ensures blocks == old(blocks)[target := WithSegment(l, old(blocks)[target], target, root, s)]
      ensures forall j :: 0 <= j < l.ranks ==> |blocks[j].data| == |old(blocks)[j].data|
    {
      var b := blocks[target];
      if target == root {
        blocks := blocks[target := b.(parity := s)];
      } else {
        StartFits(l, |b.data|, target, root);
        blocks := blocks[target := b.(data := b.data[..input] + s + b.data[input + |s|..])];
      }
    }

    /** Recomputes every rank's parity block from the data of the others. */
    method Iprotect(l: Shape, junk: seq<seq<Byte>>)
      requires l.Valid() && |blocks| == |junk| == l.ranks
      requires forall j :: 0 <= j < l.ranks ==> |junk[j]| >= l.bytes
      modifies this
      ensures Protected(l, blocks)
      ensures forall j :: 0 <= j < l.ranks ==> blocks[j].data == Grown(old(blocks)[j].data, l.bytes, junk[j])
      ensures forall j :: 0 <= j < l.ranks ==> old(blocks)[j].data <= blocks[j].data
    {
      Prepare(l, junk);
      var lengths := ParityLengths(l);
      ghost var was := blocks;
      var offsets: seq<nat> := seq(l.ranks, j => 0);
      for root := 0 to l.ranks
        invariant |blocks| == l.ranks && blocks == Parity.Protect(l, was, root) && Aligned(l, offsets, root)
      {
        offsets := Round(l, root, lengths[root], root, offsets);
      }
      ProtectProtects(l, was, l.ranks);
    }

    /** One past the last index of any subset. */
    static method DataCount(staged: seq<Subsets.DataSubset>, protected: seq<Subsets.DataSubset>) returns (count: nat)
      requires forall i :: 0 <= i < |staged + protected| ==> (staged + protected)[i].Valid()
      ensures forall i, x: nat ::
                0 <= i < |staged + protected| && x in BoundedIndices((staged + protected)[i]) ==> x < count
      ensures count > 0 ==>
                exists i :: 0 <= i < |staged + protected| && count - 1 in BoundedIndices((staged + protected)[i])
    {
      count := 0;
      var all := staged + protected;
      for i := 0 to |all|
        invariant forall j, x: nat :: 0 <= j < i && x in BoundedIndices(all[j]) ==> x < count
        invariant count > 0 ==> exists j :: 0 <= j < i && count - 1 in BoundedIndices(all[j])
      {
        var last := all[i].End();
        if last != Regions.MAX && last + 1 > count { count := last + 1; }
      }
    }

    /** Protects what the subsets of all ranks have staged or protected, in elements of a fixed size. A subset
        without end counts for nothing. */
    method ProtectSubsets(staged: seq<Subsets.DataSubset>, protected: seq<Subsets.DataSubset>, elmSize: nat,
        junk: seq<seq<Byte>>)
      returns (l: Shape)
      requires |staged| >= 2 && |blocks| == |junk| == |staged|
      requires forall i :: 0 <= i < |staged + protected| ==> (staged + protected)[i].Valid()
      requires forall i, x: nat :: 0 <= i < |staged + protected| && x in BoundedIndices((staged + protected)[i]) ==>
                 forall j :: 0 <= j < |junk| ==> |junk[j]| >= Mul(x + 1, elmSize)
      modifies this
      ensures l.Valid() && l.ranks == |staged| && Protected(l, blocks)
      ensures forall j :: 0 <= j < |junk| ==> |junk[j]| >= l.bytes
      ensures forall i, x: nat :: 0 <= i < |staged + protected| && x in BoundedIndices((staged + protected)[i]) ==>
                Mul(x + 1, elmSize) <= l.bytes
      ensures forall j :: 0 <= j < l.ranks ==> blocks[j].data == Grown(old(blocks)[j].data, l.bytes, junk[j])
      ensures forall j :: 0 <= j < l.ranks ==> old(blocks)[j].data <= blocks[j].data
    {
      var count := DataCount(staged, protected);
      l := Shape(|staged|, Mul(count, elmSize));
      forall i, x: nat | 0 <= i < |staged + protected| && x in BoundedIndices((staged + protected)[i])
        ensures Mul(x + 1, elmSize) <= l.bytes
      {
        MulMono(x + 1, count, elmSize);
      }
      if count > 0 {
        ghost var i :| 0 <= i < |staged + protected| && count - 1 in BoundedIndices((staged + protected)[i]);
        assert forall j :: 0 <= j < |junk| ==> |junk[j]| >= Mul(count - 1 + 1, elmSize);
      }
      Iprotect(l, junk);
    }

    /** The one rank that did not find the snapshot, or -1 when there is none or more than one. */
    static method Recovering(found: seq<bool>) returns (recovering: int)
      ensures -1 <= recovering < |found|
      ensures recovering != -1 ==> !found[recovering] && forall i :: 0 <= i < |found| && i != recovering ==> found[i]
      ensures recovering == -1 ==> forall i :: 0 <= i < |found| && !found[i] ==>
                                                 exists k :: 0 <= k < |found| && k != i && !found[k]
    {
      recovering := -1;
      for i := 0 to |found|
        invariant -1 <= recovering < i
        invariant recovering == -1 ==> forall k :: 0 <= k < i ==> found[k]
        invariant recovering != -1 ==> !found[recovering] && forall k :: 0 <= k < i && k != recovering ==> found[k]
      {
        if !found[i] {
          if recovering != -1 { return -1; }
          recovering := i;
        }
      }
    }

    /** The repair of one snapshot: nothing happens unless exactly one rank has lost it. */
    method RestoreSnapshot(l: Shape, found: seq<bool>)
      requires l.Valid() && |blocks| == |found| == l.ranks
      requires forall j :: 0 <= j < l.ranks && found[j] ==> Fits(l, blocks[j], j)
      modifies this
      ensures forall lost: nat :: lost < l.ranks && Only(found, lost) ==>
                                    blocks == Parity.Repair(l, old(blocks), lost, l.ranks)
      ensures (forall lost: nat :: lost < l.ranks ==> !Only(found, lost)) ==> blocks == old(blocks)
    {
      var recovering := Recovering(found);
      if recovering == -1 { return; }
      assert Only(found, recovering);
      Repair(l, recovering);
    }

    /** Gives a lost rank its data and parity block back, adding up what the others contribute. */
    method Repair(l: Shape, lost: nat)
      requires l.Valid() && |blocks| == l.ranks && lost < l.ranks
      requires forall j :: 0 <= j < l.ranks && j != lost ==> Fits(l, blocks[j], j)
      modifies this
      ensures blocks == Parity.Repair(l, old(blocks), lost, l.ranks)
    {
      var lengths := ParityLengths(l);
      ghost var was := blocks;
      blocks := blocks[lost := Block(Zeros(l.bytes), Zeros(lengths[lost]))];
      var offsets: seq<nat> := seq(l.ranks, j => 0);
      for root := 0 to l.ranks
        invariant |blocks| == l.ranks && blocks == Parity.Repair(l, was, lost, root) && Aligned(l, offsets, root)
      {
        offsets := Round(l, root, lengths[root], lost, offsets);
      }
    }
  }

  predicate Only(found: seq<bool>, lost: nat) {
    lost < |found| && !found[lost] && forall i :: 0 <= i < |found| && i != lost ==> found[i]
  }

  /** The reduction as the communication library defines it: byte by byte over all contributions. */
  function Merge(parts: seq<seq<Byte>>, len: nat): (s: seq<Byte>)
    requires forall j :: 0 <= j < |parts| ==> |parts[j]| == len
    ensures |s| == len
  {
    seq(len, t requires 0 <= t < len => Xor(seq(|parts|, j requires 0 <= j < |parts| => parts[j][t])))
  }

  lemma MergeReduces(l: Shape, blocks: seq<Block>, root: nat, parts: seq<seq<Byte>>)
    requires Cohort(l, blocks) && root < l.ranks && |parts| == l.ranks
    requires forall j :: 0 <= j < l.ranks ==> parts[j] == Segment(l, blocks[j], j, root)
    ensures forall j :: 0 <= j < l.ranks ==> |parts[j]| == l.Length(root)
    ensures Merge(parts, l.Length(root)) == Reduce(l, blocks, root)
  {
    forall t | 0 <= t < l.Length(root)
      ensures Merge(parts, l.Length(root))[t] == Reduce(l, blocks, root)[t]
    {
      assert seq(|parts|, j requires 0 <= j < |parts| => parts[j][t]) == Column(l, blocks, root, t);
    }
  }
}
