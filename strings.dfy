/**
 * ConvertSTRING_CST: a string literal as an array of its characters.  An
 * 8-bit string becomes one i8 constant per byte of the literal.  The array's
 * length is then fixed to the length of the literal's array type: a literal
 * longer than the type is truncated (char x[2] = "foo"), a shorter one is
 * padded with null characters, and when the type has no upper bound the
 * array takes the literal's own length.
 *
 * Strings of 16- and 32-bit characters arrive here already decoded into
 * their characters (the decoding swaps bytes when the host's byte order
 * differs from the target's, and the host is not part of this model).
 */
module Strings {
  import opened Wrappers
  import opened Ranges
  import opened Arith
  import opened Types
  import opened BitView

  /** Bit i of byte b, bit 0 being the least significant. */
  function BitOf(b: bv8, i: nat): bool
    requires i < 8
  {
    (b >> i) & 1 == 1
  }

  /** The i8 constant for one byte of the literal: bit i of the byte is
      element i of its bit pattern. */
  function ByteChar(b: bv8): (c: Constant)
    ensures TypeOf(c) == IntTy(8)
  {
    IntC(seq(8, i requires 0 <= i < 8 => BitOf(b, i)))
  }

  /** The byte an 8-bit pattern spells, least significant bit first. */
  function PatternByte(bits: seq<bool>): (b: bv8)
    requires |bits| == 8
  {
    (if bits[0] then 1 else 0) | (if bits[1] then 2 else 0) | (if bits[2] then 4 else 0) |
    (if bits[3] then 8 else 0) | (if bits[4] then 16 else 0) | (if bits[5] then 32 else 0) |
    (if bits[6] then 64 else 0) | (if bits[7] then 128 else 0)
  }

  /** Reading the byte back from its character gives the byte. */
  lemma ByteCharRoundTrip(b: bv8)
    ensures PatternByte(ByteChar(b).bits) == b
  {
    var bits := ByteChar(b).bits;
    assert bits[0] == BitOf(b, 0) && bits[1] == BitOf(b, 1) && bits[2] == BitOf(b, 2);
    assert bits[3] == BitOf(b, 3) && bits[4] == BitOf(b, 4) && bits[5] == BitOf(b, 5);
    assert bits[6] == BitOf(b, 6) && bits[7] == BitOf(b, 7);
  }

  /** The loop over an 8-bit literal: one i8 character per byte, in order. */
  method Chars8(bytes: seq<bv8>) returns (elts: seq<Constant>)
    ensures |elts| == |bytes|
    ensures forall i :: 0 <= i < |bytes| ==> elts[i] == ByteChar(bytes[i])
  {
    elts := [];
    var i := 0;
    while i != |bytes|
      invariant 0 <= i <= |bytes| && |elts| == i
      invariant forall k :: 0 <= k < i ==> elts[k] == ByteChar(bytes[k])
    {
      elts := elts + [ByteChar(bytes[i])];
      i := i + 1;
    }
  }

  /** The number of elements of the string's array: the length of the array
      type, or the literal's own length lenInElts when the type has no upper
      bound and so a length of zero. */
  function StringSize(lenInElts: nat, constantSize: nat, unbounded: bool): (n: nat)
    ensures n == constantSize || (constantSize == 0 && unbounded && n == lenInElts)
    ensures constantSize != 0 || !unbounded ==> n == constantSize
  {
    if lenInElts != constantSize && constantSize == 0 && unbounded then lenInElts else constantSize
  }

  /** The characters of a literal once its length is fixed to n: the first n
      of them, followed by nulls where the literal is shorter. */
  function Fixed(elts: seq<Constant>, n: nat, nul: Constant): (r: seq<Constant>)
    ensures |r| == n
    ensures forall i :: 0 <= i < n ==> r[i] == if i < |elts| then elts[i] else nul
  {
    seq(n, i requires 0 <= i < n => if i < |elts| then elts[i] else nul)
  }

  /** The null character of type t (getNullValue). */
  function NullChar(t: Type, tgt: Target): (c: Constant)
    requires WfType(t)
    ensures c == NullValue(t, tgt) && TypeOf(c) == t
  {
    NullValueWf(t, tgt);
    NullValue(t, tgt)
  }

  /** Fixing a literal to no more than its length truncates it. */
  lemma FixedTruncates(elts: seq<Constant>, n: nat, nul: Constant)
    requires n <= |elts|
    ensures Fixed(elts, n, nul) == elts[..n]
  {
  }

  /** Fixing a literal to at least its length pads it with nulls. */
  lemma FixedPads(elts: seq<Constant>, n: nat, nul: Constant)
    requires |elts| <= n
    ensures Fixed(elts, n, nul) == elts + seq(n - |elts|, _ => nul)
  {
    var pad := seq(n - |elts|, _ => nul);
    assert forall i :: |elts| <= i < n ==> (elts + pad)[i] == pad[i - |elts|];
  }

  /** The length logic of ConvertSTRING_CST, on the characters elts of the
      literal, whose type eltTy is that of the array's elements.  Nothing
      changes when the literal already has the array's length. */
  method FixLength(elts: seq<Constant>, eltTy: Type, constantSize: nat, unbounded: bool, tgt: Target)
    returns (size: nat, fixed: seq<Constant>)
    requires WfType(eltTy)
    ensures size == StringSize(|elts|, constantSize, unbounded)
    ensures fixed == Fixed(elts, size, NullChar(eltTy, tgt))
  {
    var nul := NullChar(eltTy, tgt);
    var lenInElts := |elts|;
    size := constantSize;
    fixed := elts;
    if lenInElts != size {
      if size == 0 && unbounded {
        size := lenInElts;
      }
      if size < lenInElts {
        fixed := fixed[..size];
      } else {
        while lenInElts != size
          invariant |elts| <= lenInElts <= size && |fixed| == lenInElts
          invariant fixed == Fixed(elts, lenInElts, nul)
        {
          fixed := fixed + [nul];
          lenInElts := lenInElts + 1;
        }
      }
    }
  }

  /** ConvertSTRING_CST for a literal of 8-bit characters: an array of i8 of
      the fixed length, holding the literal's bytes and then null bytes. */
  method ConvertString8(bytes: seq<bv8>, constantSize: nat, unbounded: bool, tgt: Target)
    returns (r: Constant)
    ensures r.ArrayC? && r.elt == IntTy(8)
    ensures |r.elems| == StringSize(|bytes|, constantSize, unbounded)
    ensures forall i :: 0 <= i < |r.elems| ==>
      r.elems[i] == if i < |bytes| then ByteChar(bytes[i]) else ByteChar(0)
  {
    var elts := Chars8(bytes);
    var size, fixed := FixLength(elts, IntTy(8), constantSize, unbounded, tgt);
    assert NullValue(IntTy(8), tgt) == ByteChar(0);
    r := ArrayC(IntTy(8), fixed);
  }

  // ------------------------------------------------------------ the image

  /** Bit j of byte b as memory position j of the byte holds it: the least
      significant bit comes first on a little-endian target and last on a
      big-endian one. */
  function ByteBit(b: bv8, j: nat, bigEndian: bool): bool
    requires j < 8
  {
    BitOf(b, if bigEndian then 7 - j else j)
  }

  /** Storing a byte's character leaves the byte's bits in its 8 bits. */
  lemma ByteCharImage(b: bv8, j: nat, tgt: Target)
    requires j < 8
    ensures Image(ByteChar(b), j, tgt) == Some(ByteBit(b, j, tgt.bigEndian))
  {
    ByteSize(tgt);
    WfConstType(ByteChar(b));
    assert ScalarRange(IntTy(8), tgt) == Range(0, 8);
  }

  /** The memory image of an 8-bit string: byte k of the array holds byte k
      of the literal, or zero past its end, each byte in the target's bit
      order. */
  lemma StringImage(r: Constant, bytes: seq<bv8>, k: nat, j: nat, p: int, tgt: Target)
    requires r.ArrayC? && r.elt == IntTy(8) && k < |r.elems| && j < 8 && p == 8 * k + j
    requires forall i :: 0 <= i < |r.elems| ==>
      r.elems[i] == if i < |bytes| then ByteChar(bytes[i]) else ByteChar(0)
    ensures Image(r, p, tgt) == Some(ByteBit(if k < |bytes| then bytes[k] else 0, j, tgt.bigEndian))
  {
    ByteSize(tgt);
    assert Mul(k, Alloc(IntTy(8), tgt)) == 8 * k;
    ImageElem(r, k, j, p, tgt);
    ByteCharImage(if k < |bytes| then bytes[k] else 0, j, tgt);
  }
}
