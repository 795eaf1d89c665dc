/**
 * Bit patterns of integer constants.  A pattern is a sequence of booleans in
 * order of significance: element 0 is the least significant bit.  These are
 * the constant-folding primitives the bit slices are built from: zero
 * extension, truncation, logical shifts, and the bitwise operations.
 */
module Bits {

  type Bits = seq<bool>

  /** n zero bits; also the model of an undefined integer of width n. */
  function Zeros(n: nat): (r: Bits)
    ensures |r| == n
    ensures forall i :: 0 <= i < n ==> !r[i]
  {
    seq(n, i => false)
  }

  /** Zero extension (CreateZExtOrBitCast) to width w. */
  function ZExt(c: Bits, w: nat): (r: Bits)
    requires |c| <= w
    ensures |r| == w
  {
    seq(w, i requires 0 <= i < w => i < |c| && c[i])
  }

  /** Truncation (CreateTruncOrBitCast) to width w: the w low bits. */
  function Trunc(c: Bits, w: nat): (r: Bits)
    requires w <= |c|
    ensures |r| == w
  {
    seq(w, i requires 0 <= i < w => c[i])
  }

  /** Bits zero-extended or truncated to width w. */
  function Fit(b: Bits, w: nat): (r: Bits)
    ensures |r| == w
    ensures forall i :: 0 <= i < w ==> r[i] == (i < |b| && b[i])
  {
    if |b| <= w then ZExt(b, w) else Trunc(b, w)
  }

  /** Shift left by k (CreateShl): zeros enter at the low end. */
  function Shl(c: Bits, k: nat): (r: Bits)
    ensures |r| == |c|
  {
    seq(|c|, i requires 0 <= i < |c| => k <= i && c[i - k])
  }

  /** Logical shift right by k (CreateLShr): zeros enter at the high end. */
  function LShr(c: Bits, k: nat): (r: Bits)
    ensures |r| == |c|
  {
    seq(|c|, i requires 0 <= i < |c| => i + k < |c| && c[i + k])
  }

  /** Bitwise and of two patterns of one width. */
  function And(a: Bits, b: Bits): (r: Bits)
    requires |a| == |b|
    ensures |r| == |a|
    ensures forall i :: 0 <= i < |a| ==> r[i] == (a[i] && b[i])
  {
    seq(|a|, i requires 0 <= i < |a| => a[i] && b[i])
  }

  /** Bitwise or of two patterns of one width. */
  function Or(a: Bits, b: Bits): (r: Bits)
    requires |a| == |b|
    ensures |r| == |a|
    ensures forall i :: 0 <= i < |a| ==> r[i] == (a[i] || b[i])
  {
    seq(|a|, i requires 0 <= i < |a| => a[i] || b[i])
  }

  /** Bitwise complement. */
  function Not(a: Bits): (r: Bits)
    ensures |r| == |a|
    ensures forall i :: 0 <= i < |a| ==> r[i] == !a[i]
  {
    seq(|a|, i requires 0 <= i < |a| => !a[i])
  }

  /** A w-bit mask whose bits lo up to (excluding) hi are set (APInt::getBitsSet). */
  function BitsSet(w: nat, lo: nat, hi: nat): (r: Bits)
    requires lo <= hi <= w
    ensures |r| == w
    ensures forall i :: 0 <= i < w ==> r[i] == (lo <= i < hi)
  {
    seq(w, i => lo <= i < hi)
  }
}
