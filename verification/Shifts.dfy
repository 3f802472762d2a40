/** Index arithmetic of the 32-way trie: shifts and masks as division and remainder. */
module Shifts {

  const BRANCHING: nat := 32

  /** 32 to the power `d`: the number of elements below one child slot of a node at level 5 * d. */
  function Power(d: nat): (p: nat)
    ensures 0 < p
  {
    if d == 0 then 1 else BRANCHING * Power(d - 1)
  }

  /** `x >> n` for an unsigned word. */
  function Shr(x: nat, n: nat): nat {
    if n == 0 then x else Shr(x / 2, n - 1)
  }

  /** `(index >> level) & RRB_MASK` */
  function Slot(index: nat, level: nat): (i: nat)
    ensures i < BRANCHING
  {
    Shr(index, level) % BRANCHING
  }

  /** Quotient and remainder are unique. */
  lemma DivModUnique(x: nat, m: nat, q: nat, r: nat)
    requires 0 < m && r < m && x == q * m + r
    ensures x / m == q && x % m == r
  {
    var q', r' := x / m, x % m;
    assert x == q' * m + r';
    assert (q' + 1) * m == q' * m + m && (q + 1) * m == q * m + m;
    if q' < q { MulMonotone(q' + 1, q, m); }
    if q < q' { MulMonotone(q + 1, q', m); }
  }

  lemma {:induction false} MulMonotone(a: nat, b: nat, m: nat)
    requires a <= b
    ensures a * m <= b * m
  {
    if a < b {
      MulMonotone(a, b - 1, m);
      assert b * m == (b - 1) * m + m;
    }
  }

  /** Dividing twice. */
  lemma DivDiv(x: nat, a: nat, b: nat)
    requires 0 < a && 0 < b
    ensures 0 < a * b && x / (a * b) == x / a / b
  {
    var q := x / a;
    Regroup(a, b, x % a, q / b, q % b);
    DivModUnique(x, a * b, q / b, q % b * a + x % a);
  }

  /** Two remainders make one. */
  lemma Regroup(a: nat, b: nat, r: nat, q: nat, s: nat)
    requires r < a && s < b
    ensures (q * b + s) * a + r == q * (a * b) + (s * a + r) && s * a + r < a * b
  {
    assert (q * b + s) * a == q * (a * b) + s * a;
    assert (s + 1) * a == s * a + a;
    MulMonotone(s + 1, b, a);
  }

  /** Shifting by five bits divides by 32. */
  lemma ShrFive(x: nat, n: nat)
    ensures Shr(x, n + 5) == Shr(x / BRANCHING, n)
  {
    assert Shr(x, n + 5) == Shr(x / 2, n + 4) == Shr(x / 2 / 2, n + 3) == Shr(x / 2 / 2 / 2, n + 2);
    assert Shr(x / 2 / 2 / 2, n + 2) == Shr(x / 2 / 2 / 2 / 2, n + 1) == Shr(x / 2 / 2 / 2 / 2 / 2, n);
    assert x / 2 / 2 / 2 / 2 / 2 == x / 32;
  }

  lemma {:induction false} ShrIsDiv(x: nat, d: nat)
    ensures Shr(x, 5 * d) == x / Power(d)
  {
    if d != 0 {
      ShrFive(x, 5 * (d - 1));
      ShrIsDiv(x / BRANCHING, d - 1);
      DivDiv(x, BRANCHING, Power(d - 1));
    }
  }

  /** The part of an index a node at level 5 * d looks at, split into child slot and rest. */
  lemma SlotSplits(index: nat, d: nat)
    ensures index % Power(d + 1) == Slot(index, 5 * d) * Power(d) + index % Power(d)
    ensures Slot(index, 5 * d) * Power(d) + Power(d) <= Power(d + 1)
  {
    ShrIsDiv(index, d);
    var p := Power(d);
    var q := index / p;
    SplitAgain(index, p, q, index % p, q / BRANCHING, q % BRANCHING);
  }

  lemma SplitAgain(x: nat, p: nat, q: nat, r: nat, a: nat, b: nat)
    requires r < p && x == q * p + r && q == a * BRANCHING + b && b < BRANCHING
    ensures x % (BRANCHING * p) == b * p + r && b * p + p <= BRANCHING * p
  {
    assert (a * BRANCHING + b) * p == a * (BRANCHING * p) + b * p;
    assert (b + 1) * p == b * p + p;
    MulMonotone(b + 1, BRANCHING, p);
    DivModUnique(x, BRANCHING * p, a, b * p + r);
  }

  /** The five low bits of an index stay when the bits above level 5 * d + 5 go. */
  lemma LowBits(index: nat, d: nat)
    ensures index % Power(d + 1) % BRANCHING == index % BRANCHING
  {
    var p, r := Power(d), index % Power(d + 1);
    var q := index / Power(d + 1);
    assert index == q * (BRANCHING * p) + r;
    assert index == (q * p + r / BRANCHING) * BRANCHING + r % BRANCHING;
    DivModUnique(index, BRANCHING, q * p + r / BRANCHING, r % BRANCHING);
  }
}
