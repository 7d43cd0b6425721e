/** Which ranks protect each other: the partner arithmetic of the in-memory policy and the proof that it
    partitions the ranks. */
module Cohorts {
  import opened Arith

  /** Division that drops the fraction, also below zero. */
  function Trunc(a: int, b: nat): int
    requires b > 0
  {
    if a >= 0 then Div(a, b) else -(Div(-a, b) as int)
  }

  /** The sizes that every rank works out for itself in mode 1. */
  datatype Plan = Plan(size: nat, sep: nat) {
    predicate Valid() { size >= 1 && sep >= 1 }

    predicate Odd() { size % 2 != 0 }

    function Extra(): nat { if Odd() then 1 else 0 }

    function Remaining(): int { size - (if Odd() then 3 else 0) }

    function FullGroups(): int
      requires Valid()
    {
      Trunc(Remaining(), sep * 2)
    }

    function Mini(): int
      requires Valid()
    {
      Trunc(Remaining() - FullGroups() * sep * 2, 2)
    }

    function First(): int
      requires Valid()
    {
      Mini() + Extra()
    }

    function Mid(): int { size / 2 }

    function EndMini(): int
      requires Valid()
    {
      size - Mini() - Extra()
    }
  }

  predicate Normal(p: Plan, rank: int)
    requires p.Valid()
  {
    p.First() <= rank < p.EndMini() && (p.Odd() ==> rank != p.Mid())
  }

  /** The rank's position among the normal ranks. */
  function Effective(p: Plan, rank: int): int
    requires p.Valid()
  {
    if p.Odd() && rank > p.Mid() then rank - p.First() - 1 else rank - p.First()
  }

  function Partner(p: Plan, rank: int): int
    requires p.Valid() && Normal(p, rank)
  {
    if Trunc(Effective(p, rank), p.sep) % 2 == 0 then
      var q := rank + p.sep;
      if p.Odd() && rank < p.Mid() && q >= p.Mid() then q + 1 else q
    else
      var q := rank - p.sep;
      if p.Odd() && rank > p.Mid() && q <= p.Mid() then q - 1 else q
  }

  /** The partners of a rank in mode 1. */
  function Pairing(p: Plan, rank: int): set<int>
    requires p.Valid()
  {
    if Normal(p, rank) then {rank, Partner(p, rank)}
    else if p.Extra() <= rank < p.Extra() + p.Mini() then {rank, p.EndMini() + (rank - p.Extra())}
    else if p.EndMini() <= rank < p.size - p.Extra() then {rank, p.Extra() + (rank - p.EndMini())}
    else {rank, 0, p.Mid(), p.size - 1}
  }

  /** The normal ranks come in full groups; the rest is split evenly before and after them. */
  lemma PlanExact(p: Plan) returns (half: nat, groups: nat)
    requires p.Valid() && p.size > 1
    ensures half == Mul(groups, p.sep) && groups == p.FullGroups() && 0 <= p.Mini()
    ensures p.EndMini() == p.First() + 2 * half + p.Extra()
    ensures p.size == 2 * half + 2 * p.Mini() + (if p.Odd() then 3 else 0)
    ensures p.Odd() ==> p.Mid() == p.First() + half
  {
    var r := p.Remaining();
    DivMod(r, p.sep * 2);
    groups := Div(r, p.sep * 2);
    half := Mul(groups, p.sep);
    Doubles(groups, p.sep);
    UsualProduct(groups, p.sep * 2);
    Reorders(groups, p.sep);
    assert p.FullGroups() * p.sep * 2 == 2 * half;
    Halves(r - 2 * half);
    assert 2 * p.Mini() == r - 2 * half;
  }

  lemma Reorders(a: int, b: int)
    ensures a * (b * 2) == a * b * 2
  {
  }

  lemma {:induction false} Doubles(k: nat, s: nat)
    ensures Mul(k, s * 2) == 2 * Mul(k, s) == Mul(2 * k, s)
  {
    if k > 0 { Doubles(k - 1, s); }
  }

  lemma {:induction false} Halves(n: nat)
    requires n % 2 == 0
    ensures 2 * Div(n, 2) == n
  {
    if n > 0 { Halves(n - 2); }
  }

  /** The position a normal position is paired with. */
  function Swap(e: nat, s: nat): int
    requires s > 0
  {
    if Div(e, s) % 2 == 0 then e + s else e - s
  }

  lemma {:induction false} SwapPairs(e: nat, s: nat, groups: nat)
    requires s > 0 && e < 2 * Mul(groups, s)
    ensures 0 <= Swap(e, s) < 2 * Mul(groups, s)
    ensures Swap(e, s) != e && Swap(Swap(e, s), s) == e
  {
    Doubles(groups, s);
    var b := QuotientBelow(e, 2 * groups, s);
    MulMono(b + 1, 2 * groups, s);
    if b % 2 == 0 { MulMono(b + 2, 2 * groups, s); }
  }

  /** The partner of a normal rank is the normal rank at the paired position. */
  lemma PartnerExact(p: Plan, rank: int)
    requires p.Valid() && p.size > 1 && Normal(p, rank)
    ensures Normal(p, Partner(p, rank)) && Partner(p, rank) != rank && Partner(p, Partner(p, rank)) == rank
  {
    var half, groups := PlanExact(p);
    var e, q := Effective(p, rank), Partner(p, rank);
    SwapPairs(e, p.sep, groups);
    assert Normal(p, q) && Effective(p, q) == Swap(e, p.sep);
  }

  /** How many normal ranks come before a rank. */
  function NormalsBefore(p: Plan, rank: nat): nat
    requires p.Valid()
  {
    if rank == 0 then 0 else NormalsBefore(p, rank - 1) + if Normal(p, rank - 1) then 1 else 0
  }

  lemma {:induction false} CountNormals(p: Plan, rank: nat)
    requires p.Valid() && p.size > 1 && rank <= p.EndMini()
    ensures NormalsBefore(p, rank) ==
            if rank <= p.First() then 0 else rank - p.First() - if p.Odd() && rank > p.Mid() then 1 else 0
  {
    var half, groups := PlanExact(p);
    if rank > 0 { CountNormals(p, rank - 1); }
  }

  /** The policy's separation: a normal rank and its partner are sep places apart among the normal ranks, so the two
      ranks are sep apart, or one more across the middle rank of an odd size. */
  ghost predicate SepApart(p: Plan, rank: nat, other: nat)
    requires p.Valid()
  {
    && (NormalsBefore(p, other) == NormalsBefore(p, rank) + p.sep
        || NormalsBefore(p, rank) == NormalsBefore(p, other) + p.sep)
    && (p.Odd() && (rank < p.Mid() <==> other > p.Mid()) ==> other == rank + p.sep + 1 || rank == other + p.sep + 1)
    && (!(p.Odd() && (rank < p.Mid() <==> other > p.Mid())) ==> other == rank + p.sep || rank == other + p.sep)
  }

  lemma PartnerApart(p: Plan, rank: nat)
    requires p.Valid() && p.size > 1 && Normal(p, rank)
    ensures Normal(p, Partner(p, rank)) && Partner(p, rank) >= 0 && SepApart(p, rank, Partner(p, rank))
  {
    var half, groups := PlanExact(p);
    PartnerExact(p, rank);
    CountNormals(p, rank);
    CountNormals(p, Partner(p, rank));
  }

  /** The outer groups are too small for another two groups of normal ranks. */
  lemma OuterSmall(p: Plan) returns (groups: nat)
    requires p.Valid() && p.size > 1
    ensures 0 <= p.Mini() < p.sep
    ensures p.size == 2 * Mul(groups, p.sep) + 2 * p.Mini() + (if p.Odd() then 3 else 0)
  {
    var half, g := PlanExact(p);
    groups := g;
    var r := p.Remaining();
    DivMod(r, p.sep * 2);
    Doubles(groups, p.sep);
  }

  /** What the policy asks of a rank's partners in a communicator of more than one rank. */
  ghost predicate Separated(p: Plan, rank: nat, partners: set<int>)
    requires p.Valid()
  {
    if Normal(p, rank) then exists q: nat :: partners == {rank, q} && Normal(p, q) && SepApart(p, rank, q)
    else if Leftover(p, rank) then partners == {0, p.Mid(), p.size - 1}
    else
      var across := p.size - p.Mini() - 2 * p.Extra();
      partners == {rank, if rank < p.First() then rank + across else rank - across}
  }

  lemma PairingSeparated(p: Plan, rank: nat)
    requires p.Valid() && p.size > 1 && rank < p.size
    ensures Separated(p, rank, Pairing(p, rank))
  {
    var half, groups := PlanExact(p);
    if Normal(p, rank) {
      PartnerApart(p, rank);
      var q: nat := Partner(p, rank);
      assert Pairing(p, rank) == {rank, q};
    }
  }

  /** The communicator is made of whole sets of blocks. */
  predicate WholeSets(size: nat, sep: nat, setSize: nat)
    requires sep > 0 && setSize > 0
  {
    var whole := setSize * sep;
    whole > 0 && size % whole == 0
  }

  /** Two ranks at the same place of their blocks, in the same set of blocks. */
  predicate SamePlace(sep: nat, setSize: nat, rank: nat, other: nat)
    requires sep > 0 && setSize > 0
  {
    Mod(other, sep) == Mod(rank, sep) && Div(other, sep) / setSize == Div(rank, sep) / setSize
  }

  /** In mode 5, with whole sets, those are the partners. */
  lemma StridedApart(size: nat, sep: nat, setSize: nat, rank: nat, other: nat)
    requires sep > 0 && setSize > 0 && WholeSets(size, sep, setSize) && rank < size && other < size
    ensures other in Strided(size, sep, setSize, rank) <==> SamePlace(sep, setSize, rank, other)
  {
    var sets := HowMany(size, sep, setSize);
    var h, t := Locate(sep, setSize, sets, rank);
    var h', t' := Locate(sep, setSize, sets, other);
    StridedExact(size, sep, setSize, sets, h, t, Div(rank, sep) % setSize);
    PlaceParts(sep, setSize, h, t, Div(rank, sep) % setSize);
    PlaceParts(sep, setSize, h', t', Div(other, sep) % setSize);
    if other in Strided(size, sep, setSize, rank) {
      var i :| 0 <= i < setSize && other == Place(sep, setSize, h, t, i);
      PlaceUnique(sep, setSize, h, t, i, h', t', Div(other, sep) % setSize);
    }
  }

  lemma HowMany(size: nat, sep: nat, setSize: nat) returns (sets: nat)
    requires sep > 0 && setSize > 0 && WholeSets(size, sep, setSize)
    ensures size == sets * setSize * sep
  {
    var whole := setSize * sep;
    sets := size / whole;
    Associates(sets, setSize, sep);
  }

  lemma Associates(a: nat, b: nat, c: nat)
    ensures a * (b * c) == a * b * c
  {
  }

  lemma PlaceParts(sep: nat, setSize: nat, h: nat, t: nat, i: nat)
    requires i < setSize && t < sep
    ensures Place(sep, setSize, h, t, i) >= 0
    ensures Mod(Place(sep, setSize, h, t, i), sep) == t && Div(Place(sep, setSize, h, t, i), sep) / setSize == h
  {
    PlaceNumber(sep, setSize, h, t, i);
    var b := h * setSize + i;
    InBlockAt(b, sep, t);
    Quotient(h, setSize, i);
  }

  lemma InBlockAt(b: nat, sep: nat, t: nat)
    requires t < sep
    ensures b * sep + t >= 0 && Mod(b * sep + t, sep) == t
  {
    UsualProduct(b, sep);
    DivMod(b * sep + t, sep);
    DivUnique(b * sep + t, b, sep);
  }

  lemma Quotient(h: nat, k: nat, i: nat)
    requires i < k
    ensures (h * k + i) / k == h
  {
    var x := h * k + i;
    SameParts(h, i, x / k, x % k, k);
  }

  /** The three ranks that an odd size leaves over. */
  predicate Leftover(p: Plan, rank: int) {
    p.Odd() && (rank == 0 || rank == p.Mid() || rank == p.size - 1)
  }

  /** Mode 1 partitions the ranks: everyone is in its own cohort, members agree on their cohort, and cohorts are
      pairs except for the three left over by an odd size. */
  lemma PairingPartitions(p: Plan, rank: int, other: int)
    requires p.Valid() && 0 <= rank < p.size
    ensures rank in Pairing(p, rank)
    ensures other in Pairing(p, rank) ==> 0 <= other < p.size && Pairing(p, other) == Pairing(p, rank)
    ensures Leftover(p, rank) ==> Pairing(p, rank) == {0, p.Mid(), p.size - 1}
    ensures |Pairing(p, rank)| == if !Leftover(p, rank) then 2 else if p.size == 1 then 1 else 3
  {
    if p.size == 1 {
      Alone(p);
    } else if Normal(p, rank) {
      NormalPairs(p, rank);
    } else {
      OuterPairs(p, rank, other);
    }
  }

  lemma NormalPairs(p: Plan, rank: int)
    requires p.Valid() && p.size > 1 && 0 <= rank < p.size && Normal(p, rank)
    ensures var q := Partner(p, rank);
            Pairing(p, rank) == {rank, q} == Pairing(p, q) && q != rank && 0 <= q < p.size && !Leftover(p, rank)
  {
    var half, groups := PlanExact(p);
    PartnerExact(p, rank);
  }

  lemma OuterPairs(p: Plan, rank: int, other: int)
    requires p.Valid() && p.size > 1 && 0 <= rank < p.size && !Normal(p, rank)
    ensures other in Pairing(p, rank) ==> 0 <= other < p.size && Pairing(p, other) == Pairing(p, rank)
    ensures Leftover(p, rank) ==> Pairing(p, rank) == {0, p.Mid(), p.size - 1}
    ensures |Pairing(p, rank)| == if !Leftover(p, rank) then 2 else 3
  {
    var half, groups := PlanExact(p);
  }

  lemma Alone(p: Plan)
    requires p.Valid() && p.size == 1
    ensures Pairing(p, 0) == {0}
  {
    if p.sep == 1 {
      assert Div(2, 2) == 1;
    } else {
      assert Div(2, p.sep * 2) == 0;
    }
  }

  /** The partners of a rank in mode 5. */
  function Stride(size: nat, sep: nat, setSize: nat, rank: int, i: int): int
    requires size > 0 && sep > 0 && setSize > 0
  {
    (size + rank - sep * (Trunc(rank, sep) % setSize - i)) % size
  }

  function Strided(size: nat, sep: nat, setSize: nat, rank: int): set<int>
    requires size > 0 && sep > 0 && setSize > 0
  {
    {rank} + set i | 0 <= i < setSize :: Stride(size, sep, setSize, rank, i)
  }

  /** The i-th rank of the h-th set of blocks, at place t of its block. */
  function Place(sep: nat, setSize: nat, h: nat, t: nat, i: int): int {
    (h * setSize + i) * sep + t
  }

  lemma Smaller(a: nat, b: nat, s: nat)
    requires a * s < b * s
    ensures a < b
  {
    UsualProduct(a, s);
    UsualProduct(b, s);
    MulCancel(a, b, s);
  }

  /** A quotient and remainder are the only ones. */
  lemma SameParts(h: nat, i: nat, h': nat, i': nat, k: nat)
    requires i < k && i' < k && h * k + i == h' * k + i'
    ensures h == h' && i == i'
  {
    UsualProduct(h, k);
    UsualProduct(h', k);
    DivUnique(h * k + i, h, k);
    DivUnique(h * k + i, h', k);
  }

  lemma Remainder(h: nat, k: nat, i: nat)
    requires i < k
    ensures (h * k + i) % k == i
  {
    var x := h * k + i;
    SameParts(h, i, x / k, x % k, k);
  }

  /** A place divides by the separation to its own number in the set. */
  lemma PlaceNumber(sep: nat, setSize: nat, h: nat, t: nat, i: nat)
    requires i < setSize && t < sep
    ensures Place(sep, setSize, h, t, i) >= 0
    ensures Div(Place(sep, setSize, h, t, i), sep) == h * setSize + i
    ensures Div(Place(sep, setSize, h, t, i), sep) % setSize == i
  {
    UsualProduct(h * setSize + i, sep);
    DivUnique((h * setSize + i) * sep + t, h * setSize + i, sep);
    Remainder(h, setSize, i);
  }

  lemma PlaceUnique(sep: nat, setSize: nat, h: nat, t: nat, i: nat, h': nat, t': nat, i': nat)
    requires i < setSize && i' < setSize && t < sep && t' < sep
    requires Place(sep, setSize, h, t, i) == Place(sep, setSize, h', t', i')
    ensures h == h' && t == t' && i == i'
  {
    PlaceNumber(sep, setSize, h, t, i);
    PlaceNumber(sep, setSize, h', t', i');
    SameParts(h, i, h', i', setSize);
  }

  /** Every rank is at some place. */
  lemma Locate(sep: nat, setSize: nat, sets: nat, rank: nat) returns (h: nat, t: nat)
    requires sep > 0 && setSize > 0 && rank < sets * setSize * sep
    ensures t < sep && h < sets && rank == Place(sep, setSize, h, t, Div(rank, sep) % setSize)
  {
    var a := Div(rank, sep);
    DivMod(rank, sep);
    UsualProduct(a, sep);
    t := Mod(rank, sep);
    Smaller(a, sets * setSize, sep);
    h := SetOf(a, setSize, sets);
  }

  lemma SetOf(a: nat, setSize: nat, sets: nat) returns (h: nat)
    requires setSize > 0 && a < sets * setSize
    ensures h < sets && a == h * setSize + a % setSize
  {
    h := a / setSize;
    assert a == h * setSize + a % setSize;
    Smaller(h, sets, setSize);
  }

  lemma Rows(h: nat, k: nat, i: nat, n: nat)
    requires h < n && i < k
    ensures 0 <= h * k + i < n * k
  {
    UsualProduct(h, k);
    UsualProduct(n, k);
    MulMono(h, n, k);
  }

  lemma PlaceBelow(sep: nat, setSize: nat, sets: nat, h: nat, t: nat, i: nat)
    requires h < sets && i < setSize && t < sep
    ensures 0 <= Place(sep, setSize, h, t, i) < sets * setSize * sep
  {
    Rows(h, setSize, i, sets);
    Rows(h * setSize + i, sep, t, sets * setSize);
  }

  lemma Shift(b: int, pos: int, i: int, s: int, t: int)
    ensures (b + pos) * s + t - s * (pos - i) == (b + i) * s + t
  {
  }

  lemma Wraps(n: nat, v: nat)
    requires v < n
    ensures (n + v) % n == v
  {
  }

  /** A partner sits at the same place within its block, in the same set of blocks. */
  lemma StrideExact(size: nat, sep: nat, setSize: nat, sets: nat, h: nat, t: nat, pos: nat, i: nat)
    requires sep > 0 && setSize > 0 && size == sets * setSize * sep
    requires h < sets && t < sep && pos < setSize && i < setSize
    ensures 0 <= Place(sep, setSize, h, t, i) < size
    ensures Stride(size, sep, setSize, Place(sep, setSize, h, t, pos), i) == Place(sep, setSize, h, t, i)
  {
    PlaceNumber(sep, setSize, h, t, pos);
    PlaceBelow(sep, setSize, sets, h, t, i);
    Shift(h * setSize, pos, i, sep, t);
    Wraps(size, Place(sep, setSize, h, t, i));
  }

  function Places(sep: nat, setSize: nat, h: nat, t: nat, n: nat): set<int> {
    set i | 0 <= i < n :: Place(sep, setSize, h, t, i)
  }

  /** The whole cohort of a rank in mode 5: its place in every block of its set. */
  lemma StridedExact(size: nat, sep: nat, setSize: nat, sets: nat, h: nat, t: nat, pos: nat)
    requires sep > 0 && setSize > 0 && size == sets * setSize * sep
    requires h < sets && t < sep && pos < setSize
    ensures Strided(size, sep, setSize, Place(sep, setSize, h, t, pos)) == Places(sep, setSize, h, t, setSize)
  {
    var rank := Place(sep, setSize, h, t, pos);
    forall i | 0 <= i < setSize
      ensures Stride(size, sep, setSize, rank, i) == Place(sep, setSize, h, t, i)
    {
      StrideExact(size, sep, setSize, sets, h, t, pos, i);
    }
    assert rank in Places(sep, setSize, h, t, setSize);
  }

  lemma {:induction false} PlacesCount(sep: nat, setSize: nat, h: nat, t: nat, n: nat)
    requires t < sep && n <= setSize
    ensures |Places(sep, setSize, h, t, n)| == n
  {
    if n > 0 {
      PlacesCount(sep, setSize, h, t, n - 1);
      var last := Place(sep, setSize, h, t, n - 1);
      assert Places(sep, setSize, h, t, n) == Places(sep, setSize, h, t, n - 1) + {last};
      if last in Places(sep, setSize, h, t, n - 1) {
        var i :| 0 <= i < n - 1 && Place(sep, setSize, h, t, i) == last;
        PlaceUnique(sep, setSize, h, t, i, h, t, n - 1);
      }
    }
  }

  /** Mode 5 partitions the ranks into sets of the asked size when the communicator is made of whole sets. */
  lemma StridedPartitions(size: nat, sep: nat, setSize: nat, sets: nat, rank: nat, other: int)
    requires sep > 0 && setSize > 0 && size == sets * setSize * sep && rank < size
    ensures rank in Strided(size, sep, setSize, rank) && |Strided(size, sep, setSize, rank)| == setSize
    ensures other in Strided(size, sep, setSize, rank) ==>
              0 <= other < size && Strided(size, sep, setSize, other) == Strided(size, sep, setSize, rank)
  {
    var h, t := Locate(sep, setSize, sets, rank);
    StridedExact(size, sep, setSize, sets, h, t, Div(rank, sep) % setSize);
    PlacesCount(sep, setSize, h, t, setSize);
    if other in Strided(size, sep, setSize, rank) {
      var i :| 0 <= i < setSize && other == Place(sep, setSize, h, t, i);
      PlaceBelow(sep, setSize, sets, h, t, i);
      StridedExact(size, sep, setSize, sets, h, t, i);
    }
  }

  /** The partners that a rank of the communicator picks for itself. */
  method CreateCohort(mode: int, size: nat, sep: nat, setSize: nat, rank: nat) returns (partners: set<int>)
    requires size > 0 && sep > 0 && rank < size && (mode == 5 ==> setSize > 0)
    ensures mode == 1 ==> partners == Pairing(Plan(size, sep), rank)
    ensures mode == 5 ==> partners == Strided(size, sep, setSize, rank)
    ensures mode != 1 && mode != 5 ==> partners == {rank}
    ensures mode == 1 && size > 1 ==> Separated(Plan(size, sep), rank, partners)
    ensures mode == 5 && WholeSets(size, sep, setSize) ==>
              forall other: nat :: other < size ==> (other in partners <==> SamePlace(sep, setSize, rank, other))
  {
    if mode == 1 && size > 1 { PairingSeparated(Plan(size, sep), rank); }
    if mode == 5 && WholeSets(size, sep, setSize) {
      forall other: nat | other < size
        ensures other in Strided(size, sep, setSize, rank) <==> SamePlace(sep, setSize, rank, other)
      {
        StridedApart(size, sep, setSize, rank, other);
      }
    }
    partners := {rank};
    if mode == 1 {
      var p := Plan(size, sep);
      if Normal(p, rank) {
        partners := partners + {Partner(p, rank)};
      } else if p.Extra() <= rank < p.Extra() + p.Mini() {
        partners := partners + {p.EndMini() + (rank - p.Extra())};
      } else if p.EndMini() <= rank < size - p.Extra() {
        partners := partners + {p.Extra() + (rank - p.EndMini())};
      } else {
        partners := partners + {0, p.Mid(), size - 1};
      }
    } else if mode == 5 {
      for i := 0 to setSize
        invariant partners == {rank} + set k | 0 <= k < i :: Stride(size, sep, setSize, rank, k)
      {
        partners := partners + {Stride(size, sep, setSize, rank, i)};
      }
    }
  }
}
