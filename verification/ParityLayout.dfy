/** How rotating parity cuts every rank's data: the lengths of the parity blocks, the walk that places one
    segment per root, and the one byte by which that walk may overshoot. */
module ParityLayout {
  import opened Arith
  import opened Basics

  /** A cohort of ranks protecting the same number of bytes each. */
  datatype Shape = Shape(ranks: nat, bytes: nat) {
    predicate Valid() { ranks >= 2 }

    function Even(): nat
      requires Valid()
    {
      Div(bytes, ranks - 1)
    }

    function Rest(): nat
      requires Valid()
    {
      Mod(bytes, ranks - 1)
    }

    /** How many ranks hold a parity block that is one byte longer. */
    function Longer(): nat
      requires Valid()
    {
      if Rest() > 0 then Rest() + 1 else 0
    }

    /** The length of a rank's parity block. */
    function Length(rank: nat): nat
      requires Valid()
    {
      Even() + (if rank < Longer() then 1 else 0)
    }

    /** The ranks whose segments fit without overlap. */
    predicate Tiles(rank: nat)
      requires Valid()
    {
      Rest() == 0 || rank < Longer()
    }

    /** The root whose segment starts early for a rank that does not tile. */
    function Turn(rank: nat): nat
      requires Valid()
    {
      if Even() == 0 then Rest() else if rank == ranks - 1 then ranks - 2 else ranks - 1
    }

    /** The byte that two segments of such a rank share. */
    function Shared(rank: nat): int
      requires Valid()
    {
      bytes - Length(Turn(rank))
    }
  }

  /** The offset of a rank with a buffer of the given size when it comes to a root. */
  function Offset(l: Shape, size: nat, rank: nat, root: nat): int
    requires l.Valid()
  {
    if root == 0 then 0
    else
      var o := Offset(l, size, rank, root - 1);
      if root - 1 == rank then o
      else if o + l.Length(root - 1) > size then o + l.Length(root - 1) - 1
      else o + l.Length(root - 1)
  }

  /** Where the rank's segment for a root begins. */
  function Start(l: Shape, size: nat, rank: nat, root: nat): int
    requires l.Valid()
  {
    var o := Offset(l, size, rank, root);
    if o + l.Length(root) > size then o - 1 else o
  }

  /** How far the segment of a root would leave the buffer were it not moved back. */
  function Overshoot(l: Shape, size: nat, rank: nat, root: nat): int
    requires l.Valid()
  {
    Offset(l, size, rank, root) + l.Length(root) - size
  }

  predicate Within(l: Shape, size: nat, rank: nat, root: nat, x: int)
    requires l.Valid()
  {
    root < l.ranks && root != rank && Start(l, size, rank, root) <= x < Start(l, size, rank, root) + l.Length(root)
  }

  /** The bytes of all segments before a root. */
  function Total(l: Shape, rank: nat, root: nat): nat
    requires l.Valid()
  {
    if root == 0 then 0
    else Total(l, rank, root - 1) + (if root - 1 == rank then 0 else l.Length(root - 1))
  }

  lemma SplitsBytes(l: Shape)
    requires l.Valid()
    ensures l.bytes == Mul(l.ranks - 1, l.Even()) + l.Rest() && l.Rest() < l.ranks - 1 && l.Longer() < l.ranks
  {
    DivMod(l.bytes, l.ranks - 1);
    UsualProduct(l.Even(), l.ranks - 1);
    UsualProduct(l.ranks - 1, l.Even());
    assert l.Even() * (l.ranks - 1) == (l.ranks - 1) * l.Even();
  }

  /** The usual quotient and remainder. */
  lemma UsualDivision(l: Shape)
    requires l.Valid()
    ensures l.Even() == l.bytes / (l.ranks - 1) && l.Rest() == l.bytes % (l.ranks - 1)
  {
    var s := l.ranks - 1;
    UsualProduct(l.bytes / s, s);
    DivUnique(l.bytes, l.bytes / s, s);
  }

  lemma {:induction false} TotalClosed(l: Shape, rank: nat, root: nat)
    requires l.Valid() && rank <= l.ranks && root <= l.ranks
    ensures var skipped := if rank < root then 1 else 0;
            var short := if rank < root && rank < l.Longer() then 1 else 0;
            Total(l, rank, root) == Mul(root - skipped, l.Even()) + Min(root, l.Longer()) - short
  {
    if root > 0 { TotalClosed(l, rank, root - 1); }
  }

  lemma {:induction false} TotalMono(l: Shape, rank: nat, p: nat, q: nat)
    requires l.Valid() && p <= q
    ensures Total(l, rank, p) <= Total(l, rank, q)
  {
    if p < q { TotalMono(l, rank, p, q - 1); }
  }

  /** All segments together are the data, or one byte more. */
  lemma WholeTotal(l: Shape, rank: nat)
    requires l.Valid() && rank < l.ranks
    ensures Total(l, rank, l.ranks) == l.bytes + (if l.Tiles(rank) then 0 else 1)
  {
    SplitsBytes(l);
    TotalClosed(l, rank, l.ranks);
  }

  /** What parity costs: the blocks of all ranks are as long as the data and one share of it more, rounded up; they
      differ by at most one byte, and the longer ones come first. */
  lemma LengthsExact(l: Shape, i: nat, j: nat)
    requires l.Valid() && i <= j < l.ranks
    ensures l.Length(j) <= l.Length(i) <= l.Length(j) + 1
    ensures Total(l, l.ranks, l.ranks) == l.bytes + Div(l.bytes + l.ranks - 2, l.ranks - 1)
  {
    SplitsBytes(l);
    TotalClosed(l, l.ranks, l.ranks);
    MulPlus(l.ranks - 1, 1, l.Even());
    RoundedUp(l.bytes, l.ranks - 1);
  }

  lemma RoundedUp(n: nat, s: nat)
    requires s > 0
    ensures Div(n + s - 1, s) == Div(n, s) + (if Mod(n, s) > 0 then 1 else 0)
  {
    var k := Div(n, s);
    DivMod(n, s);
    MulMono(k, k + 1, s);
    DivUnique(n + s - 1, if Mod(n, s) > 0 then k + 1 else k, s);
  }

  /** The walk follows the running total and never leaves the buffer by more than the byte it takes back. */
  lemma {:induction false} WalkExact(l: Shape, size: nat, rank: nat, root: nat)
    requires l.Valid() && rank < l.ranks && root <= l.ranks && size >= l.bytes
    ensures Offset(l, size, rank, root) == Min(Total(l, rank, root), size)
    ensures Total(l, rank, root) <= l.bytes + 1
  {
    WholeTotal(l, rank);
    TotalMono(l, rank, root, l.ranks);
    if root > 0 { WalkExact(l, size, rank, root - 1); }
  }

  lemma {:induction false} TurnExact(l: Shape, rank: nat)
    requires l.Valid() && rank < l.ranks && !l.Tiles(rank)
    ensures 0 <= l.Shared(rank) < l.bytes && l.Turn(rank) < l.ranks && l.Turn(rank) != rank
    ensures Total(l, rank, l.Turn(rank)) == l.Shared(rank) + 1
    ensures Total(l, rank, l.Turn(rank) + 1) == l.bytes + 1
    ensures l.Length(l.Turn(rank)) > 0
  {
    var k := l.Turn(rank);
    SplitsBytes(l);
    WholeTotal(l, rank);
    if l.Even() == 0 {
      MulZero(l.ranks - 1);
      TotalClosed(l, rank, k + 1);
      MulZero(k + 1);
      MulZero(k);
    } else {
      MulMono(1, l.ranks - 1, l.Even());
      MulMono(2, l.ranks - 1, l.Even());
      if rank == l.ranks - 1 { assert Total(l, rank, l.ranks) == Total(l, rank, l.ranks - 1); }
    }
  }

  lemma StartFits(l: Shape, size: nat, rank: nat, root: nat)
    requires l.Valid() && rank < l.ranks && root < l.ranks && root != rank && size >= l.bytes
    ensures 0 <= Start(l, size, rank, root) <= Start(l, size, rank, root) + l.Length(root) <= size
    ensures Overshoot(l, size, rank, root) <= 1
    ensures var total := Total(l, rank, root);
            Start(l, size, rank, root) == if total + l.Length(root) > size >= total then total - 1 else Min(total, size)
  {
    WalkExact(l, size, rank, root);
    WalkExact(l, size, rank, root + 1);
    LengthFits(l, root);
  }

  lemma LengthFits(l: Shape, root: nat)
    requires l.Valid()
    ensures l.Length(root) <= l.bytes
  {
    SplitsBytes(l);
    if l.ranks > 2 { MulMono(2, l.ranks - 1, l.Even()); }
    MulMono(1, l.ranks - 1, l.Even());
  }

  /** Where segments begin: at the running total, one byte earlier at the turn of a rank whose buffer is exact. */
  lemma StartExact(l: Shape, size: nat, rank: nat, root: nat)
    requires l.Valid() && rank < l.ranks && root < l.ranks && root != rank && size >= l.bytes
    requires l.Length(root) > 0
    ensures var early := !l.Tiles(rank) && size == l.bytes && root == l.Turn(rank);
            Start(l, size, rank, root) == Total(l, rank, root) - (if early then 1 else 0)
  {
    StartFits(l, size, rank, root);
    WholeTotal(l, rank);
    TotalMono(l, rank, root + 1, l.ranks);
    if !l.Tiles(rank) {
      TurnExact(l, rank);
      if root > l.Turn(rank) {
        TotalMono(l, rank, l.Turn(rank) + 1, root);
      } else if root < l.Turn(rank) {
        TotalMono(l, rank, root + 1, l.Turn(rank));
      }
    }
  }

  /** The segments of a rank whose buffer is exactly as long as the data: inside it, covering it, and the
      overshoot is never more than the one byte that the program takes back. */
  lemma LayoutBound(l: Shape, rank: nat)
    requires l.Valid() && rank < l.ranks
    ensures forall root :: 0 <= root < l.ranks && root != rank ==> Overshoot(l, l.bytes, rank, root) <= 1
    ensures forall root, x :: Within(l, l.bytes, rank, root, x) ==> 0 <= x < l.bytes
    ensures forall x :: 0 <= x < l.bytes ==> Covered(l, rank, x)
  {
    forall root | 0 <= root < l.ranks && root != rank
      ensures Overshoot(l, l.bytes, rank, root) <= 1
    {
      StartFits(l, l.bytes, rank, root);
    }
    forall root, x | Within(l, l.bytes, rank, root, x)
      ensures 0 <= x < l.bytes
    {
      StartFits(l, l.bytes, rank, root);
    }
    forall x | 0 <= x < l.bytes
      ensures Covered(l, rank, x)
    {
      WholeTotal(l, rank);
      var root := RootOf(l, rank, l.ranks, x);
      StartExact(l, l.bytes, rank, root);
      if !l.Tiles(rank) { TurnExact(l, rank); }
      assert Within(l, l.bytes, rank, root, x);
    }
  }

  /** The root whose share of the running total holds a position. */
  lemma {:induction false} RootOf(l: Shape, rank: nat, n: nat, x: nat) returns (root: nat)
    requires l.Valid() && x < Total(l, rank, n)
    ensures root < n && root != rank && Total(l, rank, root) <= x < Total(l, rank, root + 1)
  {
    if x < Total(l, rank, n - 1) {
      root := RootOf(l, rank, n - 1, x);
    } else {
      root := n - 1;
    }
  }

  ghost predicate Covered(l: Shape, rank: nat, x: int)
    requires l.Valid()
  {
    exists root :: Within(l, l.bytes, rank, root, x)
  }

  /** Whether two different segments share a position. */
  ghost predicate Twice(l: Shape, rank: nat, x: int)
    requires l.Valid()
  {
    exists p, q :: p < q && Within(l, l.bytes, rank, p, x) && Within(l, l.bytes, rank, q, x)
  }

  /** The segments tile the data exactly when there is no remainder or the rank is below the incremented
      remainder; otherwise exactly one byte is covered twice. */
  lemma TilesExact(l: Shape, rank: nat, x: int)
    requires l.Valid() && rank < l.ranks
    ensures Twice(l, rank, x) <==> !l.Tiles(rank) && x == l.Shared(rank)
  {
    if !l.Tiles(rank) && x == l.Shared(rank) {
      SharedTwice(l, rank);
    }
    if Twice(l, rank, x) {
      var p, q :| p < q && Within(l, l.bytes, rank, p, x) && Within(l, l.bytes, rank, q, x);
      OnlyShared(l, rank, p, q, x);
    }
  }

  lemma SharedTwice(l: Shape, rank: nat)
    requires l.Valid() && rank < l.ranks && !l.Tiles(rank)
    ensures Twice(l, rank, l.Shared(rank))
  {
    var x := l.Shared(rank);
    TurnExact(l, rank);
    var q := l.Turn(rank);
    var p := RootOf(l, rank, q, x);
    StartExact(l, l.bytes, rank, p);
    StartExact(l, l.bytes, rank, q);
    assert p < q && Within(l, l.bytes, rank, p, x) && Within(l, l.bytes, rank, q, x);
  }

  lemma OnlyShared(l: Shape, rank: nat, p: nat, q: nat, x: int)
    requires l.Valid() && rank < l.ranks && p < q
    requires Within(l, l.bytes, rank, p, x) && Within(l, l.bytes, rank, q, x)
    ensures !l.Tiles(rank) && x == l.Shared(rank)
  {
    StartExact(l, l.bytes, rank, p);
    StartExact(l, l.bytes, rank, q);
    TotalMono(l, rank, p + 1, q);
    assert Total(l, rank, p + 1) == Total(l, rank, p) + l.Length(p);
    if !l.Tiles(rank) { TurnExact(l, rank); }
  }
}
