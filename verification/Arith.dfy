/** Products and quotients of a variable stride, by recursion on the number of strides,
    so that proofs about strided index sets stay within linear arithmetic. */
module Arith {

  /** k strides. */
  function Mul(k: nat, s: nat): nat {
    if k == 0 then 0 else s + Mul(k - 1, s)
  }

  /** How many whole strides fit into a distance. */
  function Div(d: nat, s: nat): nat
    requires s > 0
  {
    if d < s then 0 else 1 + Div(d - s, s)
  }

  /** What is left of a distance after whole strides. */
  function Mod(d: nat, s: nat): nat
    requires s > 0
  {
    if d < s then d else Mod(d - s, s)
  }

  /** This is the usual product; DivMod and DivUnique say the same of Div and Mod. */
  lemma {:induction false} UsualProduct(k: nat, s: nat)
    ensures Mul(k, s) == k * s
  {
    if k > 0 { UsualProduct(k - 1, s); }
  }

  lemma {:induction false} MulPlus(p: nat, q: nat, s: nat)
    ensures Mul(p + q, s) == Mul(p, s) + Mul(q, s)
  {
    if q > 0 { MulPlus(p, q - 1, s); }
  }

  lemma MulMono(p: nat, q: nat, s: nat)
    requires p <= q
    ensures Mul(p, s) + Mul(q - p, s) == Mul(q, s)
    ensures p < q ==> Mul(p, s) + s <= Mul(q, s)
  {
    MulPlus(p, q - p, s);
  }

  /** Comparing multiples of a common stride compares the factors. */
  lemma MulCancel(p: nat, q: nat, s: nat)
    requires Mul(p, s) < Mul(q, s)
    ensures p < q
  {
    if q <= p { MulMono(q, p, s); }
  }

  lemma {:induction false} DivMod(d: nat, s: nat)
    requires s > 0
    ensures Mul(Div(d, s), s) + Mod(d, s) == d && Mod(d, s) < s
  {
    if d >= s { DivMod(d - s, s); }
  }

  /** The quotient is the only multiple that leaves a remainder below the stride. */
  lemma {:induction false} DivUnique(d: nat, k: nat, s: nat)
    requires Mul(k, s) <= d < Mul(k, s) + s
    ensures Div(d, s) == k && Mod(d, s) == d - Mul(k, s)
  {
    if k > 0 { DivUnique(d - s, k - 1, s); }
  }

  /** Every distance falls into exactly one repetition of a stride. */
  lemma Quotient(d: nat, s: nat) returns (k: nat)
    requires s > 0
    ensures k == Div(d, s) && Mul(k, s) <= d < Mul(k, s) + s
  {
    k := Div(d, s);
    DivMod(d, s);
  }

  /** A distance shorter than n repetitions falls into one of them. */
  lemma QuotientBelow(d: nat, n: nat, s: nat) returns (k: nat)
    requires d < Mul(n, s)
    ensures s > 0 && k < n && k == Div(d, s) && Mul(k, s) <= d < Mul(k, s) + s
  {
    if s == 0 { MulZero(n); }
    k := Quotient(d, s);
    MulCancel(k, n, s);
  }

  lemma {:induction false} MulZero(n: nat)
    ensures Mul(n, 0) == 0
  {
    if n > 0 { MulZero(n - 1); }
  }
}
