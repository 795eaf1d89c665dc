/**
 * Unsigned integer division as the converter uses it for strides, byte
 * offsets and alignment rounding, with the facts about it the layout proofs
 * rest on.
 */
module Arith {

  /** The product n * x, kept behind a name so that definitions using it stay
      linear for the solver until a proof unfolds it. */
  function Mul(n: nat, x: nat): nat {
    n * x
  }

  /** The unsigned quotient x / a. */
  function Div(x: nat, a: nat): nat
    requires a > 0
  {
    x / a
  }

  /** The unsigned remainder x % a. */
  function Mod(x: nat, a: nat): nat
    requires a > 0
  {
    x % a
  }

  /** x rounded up to a multiple of a: (x + a - 1) / a * a. */
  function RoundUp(x: nat, a: nat): nat
    requires a > 0
  {
    var held := [x + a - 1];
    held[0] / a * a
  }

  lemma DivMod(x: nat, a: nat)
    requires a > 0
    ensures x == Div(x, a) * a + Mod(x, a) && Mod(x, a) < a
  {
  }

  /** Products grow with their first factor. */
  lemma {:induction false} MulLe(m: nat, n: nat, a: nat)
    requires m <= n
    ensures m * a <= n * a
    decreases n - m
  {
    if m < n {
      MulLe(m, n - 1, a);
      assert n * a == (n - 1) * a + a;
    }
  }

  lemma DivMono(x: nat, y: nat, a: nat)
    requires a > 0 && x <= y
    ensures Div(x, a) <= Div(y, a)
  {
    DivMod(x, a);
    DivMod(y, a);
    if Div(x, a) > Div(y, a) {
      MulLe(Div(y, a) + 1, Div(x, a), a);
      assert false;
    }
  }

  /** Division undoes multiplication: (q * a + r) / a == q when r < a. */
  lemma DivOfMul(q: nat, r: nat, a: nat)
    requires a > 0 && r < a
    ensures Div(q * a + r, a) == q && Mod(q * a + r, a) == r
  {
    var x := q * a + r;
    var d := Div(x, a);
    DivMod(x, a);
    if d > q {
      MulLe(q + 1, d, a);
      assert false;
    } else if d < q {
      MulLe(d + 1, q, a);
      assert false;
    }
  }

  lemma RoundUpBounds(x: nat, a: nat)
    requires a > 0
    ensures x <= RoundUp(x, a) < x + a
    ensures Mod(RoundUp(x, a), a) == 0
  {
    DivMod(x + a - 1, a);
    DivOfMul(Div(x + a - 1, a), 0, a);
  }

  lemma RoundUpMultiple(k: nat, a: nat)
    requires a > 0
    ensures RoundUp(k * a, a) == k * a
  {
    DivOfMul(k, a - 1, a);
  }

  /** Rounding a multiple of a up to a multiple of a leaves it unchanged. */
  lemma RoundUpOfAligned(x: nat, a: nat)
    requires a > 0 && Mod(x, a) == 0
    ensures RoundUp(x, a) == x
  {
    DivMod(x, a);
    RoundUpMultiple(Div(x, a), a);
  }

  /** A multiple of 8k is a multiple of 8. */
  lemma {:induction false} MultipleOfMultiple(q: nat, k: nat)
    requires k > 0
    ensures Mod(q * (k * 8), 8) == 0
  {
    assert q * (k * 8) == (q * k) * 8;
    DivOfMul(q * k, 0, 8);
  }

  /** Rounding up to a multiple of 8 keeps a multiple of 8. */
  lemma RoundUpKeeps8(x: nat, a: nat)
    requires a > 0 && Mod(a, 8) == 0
    ensures Mod(RoundUp(x, a), 8) == 0
  {
    DivMod(a, 8);
    MultipleOfMultiple(Div(x + a - 1, a), Div(a, 8));
  }

  /** Sums of multiples of 8 are multiples of 8. */
  lemma Add8(x: nat, y: nat)
    requires Mod(x, 8) == 0 && Mod(y, 8) == 0
    ensures Mod(x + y, 8) == 0
  {
    DivMod(x, 8);
    DivMod(y, 8);
    assert x + y == (Div(x, 8) + Div(y, 8)) * 8;
    DivOfMul(Div(x, 8) + Div(y, 8), 0, 8);
  }

  /** n copies of a multiple of 8 make a multiple of 8. */
  lemma Mul8(n: nat, x: nat)
    requires Mod(x, 8) == 0
    ensures Mod(n * x, 8) == 0
  {
    DivMod(x, 8);
    assert n * x == (n * Div(x, 8)) * 8;
    DivOfMul(n * Div(x, 8), 0, 8);
  }

  // ------------------------------------------------ strides and indices

  lemma MulSucc(k: nat, x: nat)
    ensures Mul(k + 1, x) == Mul(k, x) + x
  {
  }

  lemma {:induction false} MulMono(k: nat, j: nat, x: nat)
    requires k <= j
    ensures Mul(k, x) <= Mul(j, x)
    decreases j - k
  {
    if k < j {
      MulMono(k, j - 1, x);
      MulSucc(j - 1, x);
    }
  }

  /** A non-zero product has non-zero factors. */
  lemma MulPositive(n: nat, x: nat)
    requires Mul(n, x) > 0
    ensures n > 0 && x > 0
  {
  }

  /** Position q of slot k of n slots of width a: its quotient is k, its
      remainder q, and it lies before the end of the last slot. */
  lemma SlotPosition(k: nat, q: nat, a: nat, n: nat, p: nat)
    requires q < a && k < n && p == Mul(k, a) + q
    ensures Div(p, a) == k && p - Mul(Div(p, a), a) == q && p < Mul(n, a)
  {
    DivOfMul(k, q, a);
    MulSucc(k, a);
    MulMono(k + 1, n, a);
  }

  /** Position p lies in slot Div(p, a) of width a. */
  lemma DivSlot(p: nat, a: nat)
    requires a > 0
    ensures Mul(Div(p, a), a) <= p < Mul(Div(p, a), a) + a
  {
    DivMod(p, a);
  }

  lemma DivStep(x: nat, a: nat)
    requires a > 0
    ensures Div(x + a, a) == Div(x, a) + 1
  {
    DivMod(x, a);
    assert x + a == (Div(x, a) + 1) * a + Mod(x, a);
    DivOfMul(Div(x, a) + 1, Mod(x, a), a);
  }

  /** A position before n slots of width a falls in one of them. */
  lemma {:induction false} DivBelow(p: nat, n: nat, a: nat)
    requires a > 0 && p < Mul(n, a)
    ensures Div(p, a) < n
    decreases n
  {
    if p >= a {
      MulSucc(n - 1, a);
      DivBelow(p - a, n - 1, a);
    }
  }

  /** Rounding the end of a span within n slots up to a slot boundary stays within them. */
  lemma DivCeilBelow(last: nat, n: nat, a: nat)
    requires a > 0 && last <= Mul(n, a)
    ensures Div(last + a - 1, a) <= n
  {
    DivMono(last + a - 1, Mul(n, a) + a - 1, a);
    DivOfMul(n, a - 1, a);
  }

  /** Position p of a window [first, last) over n slots of width a lies in slot
      p / a, one of the slots first / a .. (last + a - 1) / a - 1. */
  lemma SlotOfPosition(first: nat, last: nat, p: nat, n: nat, a: nat)
    requires a > 0 && first <= p < last <= Mul(n, a)
    ensures Div(first, a) <= Div(p, a) < Div(last + a - 1, a) <= n
    ensures Mul(Div(p, a), a) <= p < Mul(Div(p, a), a) + a
  {
    DivMono(first, p, a);
    DivMono(p, last - 1, a);
    DivStep(last - 1, a);
    DivCeilBelow(last, n, a);
    DivSlot(p, a);
  }

  /** A position between slot f and the end of slot i lies in a slot between them. */
  lemma SlotBetween(f: nat, i: nat, p: nat, a: nat)
    requires a > 0 && Mul(f, a) <= p < Mul(i, a) + a
    ensures f <= Div(p, a) <= i
    ensures Mul(Div(p, a), a) <= p < Mul(Div(p, a), a) + a
  {
    DivMono(Mul(f, a), p, a);
    DivOfMul(f, 0, a);
    MulSucc(i, a);
    DivBelow(p, i + 1, a);
    DivSlot(p, a);
  }
}
