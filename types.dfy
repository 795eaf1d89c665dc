/**
 * The structural values the converter produces (LLVM constants) and the
 * target layout they are laid out by.  A constant is a scalar (an integer, a
 * pointer seen as its address bits, or a floating-point or MMX value kept as
 * an opaque bit pattern), an array, a vector, a struct, or an undefined value
 * of some type.
 *
 * The layout oracle (store size, alloc size, ABI alignment, struct field
 * offsets) follows the layout rules of LLVM's TargetData, with the target
 * described by its byte order, its pointer width and the largest ABI
 * alignment it gives a scalar.  All sizes, offsets and alignments are in bits.
 */
module Types {
  import opened Bits
  import opened Arith

  datatype FpKind = Float | Double | X86FP80 | FP128 | PPCFP128 | X86MMX

  datatype Type =
    | IntTy(width: nat)
    | PtrTy
    | FpTy(kind: FpKind)
    | ArrayTy(elt: Type, count: nat)
    | VectorTy(elt: Type, count: nat)
    | StructTy(fields: seq<Type>, packed: bool)
  {
    predicate IsScalar() { IntTy? || PtrTy? || FpTy? }
    predicate IsSequential() { ArrayTy? || VectorTy? }
  }

  datatype Const =
    | IntC(bits: Bits)
    | PtrC(bits: Bits)
    | FpC(kind: FpKind, bits: Bits)
    | ArrayC(elt: Type, elems: seq<Const>)
    | VectorC(elt: Type, elems: seq<Const>)
    | StructC(packed: bool, fields: seq<Const>)
    | Undef(ty: Type)

  /** The target: byte order, pointer width, largest scalar ABI alignment. */
  datatype TargetInfo = TargetInfo(bigEndian: bool, ptrBits: nat, maxAlign: nat) {
    predicate Valid() {
      ptrBits > 0 && Mod(ptrBits, 8) == 0 && maxAlign >= 8 && Mod(maxAlign, 8) == 0
    }
  }

  /** A target whose pointers and largest alignment are whole bytes. */
  type Target = t: TargetInfo | t.Valid() witness TargetInfo(false, 64, 64)

  /** The width of a floating-point or MMX bit pattern. */
  function FpWidth(k: FpKind): (w: nat)
    ensures w > 0
  {
    match k
    case Float => 32
    case Double => 64
    case X86FP80 => 80
    case FP128 => 128
    case PPCFP128 => 128
    case X86MMX => 64
  }

  /** The type of a constant. */
  function TypeOf(c: Const): Type {
    match c
    case IntC(b) => IntTy(|b|)
    case PtrC(_) => PtrTy
    case FpC(k, _) => FpTy(k)
    case ArrayC(e, es) => ArrayTy(e, |es|)
    case VectorC(e, es) => VectorTy(e, |es|)
    case StructC(p, fs) => StructTy(seq(|fs|, i requires 0 <= i < |fs| => TypeOf(fs[i])), p)
    case Undef(t) => t
  }

  /** The primitive width of a scalar type (getPrimitiveSizeInBits). */
  function PrimWidth(t: Type, tgt: Target): nat
    requires t.IsScalar()
  {
    match t
    case IntTy(w) => w
    case PtrTy => tgt.ptrBits
    case FpTy(k) => FpWidth(k)
  }

  predicate WfType(t: Type) {
    match t
    case IntTy(w) => w >= 1
    case PtrTy => true
    case FpTy(_) => true
    case ArrayTy(e, _) => WfType(e)
    case VectorTy(e, _) => WfType(e)
    case StructTy(fs, _) => forall i :: 0 <= i < |fs| ==> WfType(fs[i])
  }

  predicate WfConst(c: Const) {
    match c
    case IntC(b) => |b| >= 1
    case PtrC(_) => true
    case FpC(k, b) => |b| == FpWidth(k)
    case ArrayC(e, es) =>
      WfType(e) && forall i :: 0 <= i < |es| ==> WfConst(es[i]) && TypeOf(es[i]) == e
    case VectorC(e, es) =>
      WfType(e) && forall i :: 0 <= i < |es| ==> WfConst(es[i]) && TypeOf(es[i]) == e
    case StructC(_, fs) => forall i :: 0 <= i < |fs| ==> WfConst(fs[i])
    case Undef(t) => WfType(t)
  }

  /** A well-formed constant: an integer has at least one bit, a floating-point
      pattern has its kind's width, and the elements of an array or vector
      have its element type.  A pointer's address bits may have any width:
      ptrtoint and inttoptr zero-extend or truncate them. */
  type Constant = c: Const | WfConst(c) witness IntC([false])

  lemma {:induction false} WfConstType(c: Const)
    requires WfConst(c)
    ensures WfType(TypeOf(c))
  {
    match c
    case StructC(p, fs) =>
      forall i | 0 <= i < |fs| ensures WfType(TypeOf(fs[i])) {
        WfConstType(fs[i]);
      }
    case _ =>
  }

  // ---------------------------------------------------------------- layout

  /** The smallest power-of-two multiple of a that is at least n, or cap
      when that is no smaller than cap. */
  function Pow2AtLeast(n: nat, a: nat, cap: nat): (r: nat)
    requires a >= 8 && cap >= 8
    ensures 8 <= r <= cap && (r >= n || r == cap)
    decreases cap - a
  {
    if a >= cap then cap
    else if a >= n then a
    else Pow2AtLeast(n, 2 * a, cap)
  }

  /** The ABI alignment of a scalar of the given store size: the smallest
      power of two bytes holding it, at most the target's largest alignment. */
  function PrimAlign(storeBits: nat, tgt: Target): (a: nat)
    ensures 8 <= a <= tgt.maxAlign
  {
    Pow2AtLeast(storeBits, 8, tgt.maxAlign)
  }

  /** The maximum of base and the elements of s. */
  function MaxOf(base: nat, s: seq<nat>): (m: nat)
    ensures m >= base
  {
    if |s| == 0 then base
    else
      var m := MaxOf(base, s[..|s| - 1]);
      if s[|s| - 1] > m then s[|s| - 1] else m
  }

  /** The ABI alignment (getABITypeAlignment, in bits). */
  function Align(t: Type, tgt: Target): (a: nat)
    ensures a >= 8
  {
    match t
    case IntTy(w) => PrimAlign(RoundUp(w, 8), tgt)
    case PtrTy => PrimAlign(tgt.ptrBits, tgt)
    case FpTy(k) => PrimAlign(RoundUp(FpWidth(k), 8), tgt)
    case ArrayTy(e, _) => Align(e, tgt)
    case VectorTy(e, _) => Align(e, tgt)
    case StructTy(fs, p) =>
      if p then 8 else MaxOf(8, seq(|fs|, i requires 0 <= i < |fs| => Align(fs[i], tgt)))
  }

  /** Where a field goes given the end of the previous one (packed: byte alignment). */
  function Place(end: nat, align: nat, packed: bool): nat
    requires align > 0
  {
    RoundUp(end, if packed then 8 else align)
  }

  predicate LayoutArgs(sizes: seq<nat>, aligns: seq<nat>) {
    |sizes| == |aligns| && forall i :: 0 <= i < |aligns| ==> aligns[i] > 0
  }

  /** The end of the first n fields of a struct whose fields have these
      alloc sizes and alignments (StructLayout, before the tail padding). */
  function LayoutEndTo(sizes: seq<nat>, aligns: seq<nat>, packed: bool, n: nat): nat
    requires LayoutArgs(sizes, aligns) && n <= |sizes|
  {
    if n == 0 then 0
    else Place(LayoutEndTo(sizes, aligns, packed, n - 1), aligns[n - 1], packed) + sizes[n - 1]
  }

  /** The end of the last field. */
  function LayoutEnd(sizes: seq<nat>, aligns: seq<nat>, packed: bool): nat
    requires LayoutArgs(sizes, aligns)
  {
    LayoutEndTo(sizes, aligns, packed, |sizes|)
  }

  /** The offset of field i in that layout. */
  function LayoutOffset(sizes: seq<nat>, aligns: seq<nat>, packed: bool, i: nat): nat
    requires LayoutArgs(sizes, aligns) && i < |sizes|
  {
    Place(LayoutEndTo(sizes, aligns, packed, i), aligns[i], packed)
  }

  /** The store size (getTypeStoreSizeInBits). */
  function Store(t: Type, tgt: Target): nat
    decreases t, 1
  {
    match t
    case IntTy(w) => RoundUp(w, 8)
    case PtrTy => tgt.ptrBits
    case FpTy(k) => RoundUp(FpWidth(k), 8)
    case ArrayTy(e, n) => Mul(n, Alloc(e, tgt))
    case VectorTy(e, n) => Mul(n, Alloc(e, tgt))
    case StructTy(fs, p) =>
      var sizes, aligns := FieldAllocs(t, tgt), FieldAligns(t, tgt);
      assert LayoutArgs(sizes, aligns);
      RoundUp(LayoutEnd(sizes, aligns, p), Align(t, tgt))
  }

  /** The alloc size (getTypeAllocSizeInBits): the store size padded to the alignment. */
  function Alloc(t: Type, tgt: Target): nat
    decreases t, 2
  {
    RoundUp(Store(t, tgt), Align(t, tgt))
  }

  /** The alloc sizes of a struct type's fields. */
  function FieldAllocs(t: Type, tgt: Target): (s: seq<nat>)
    requires t.StructTy?
    ensures |s| == |t.fields|
    decreases t, 0
  {
    seq(|t.fields|, i requires 0 <= i < |t.fields| => Alloc(t.fields[i], tgt))
  }

  /** The ABI alignments of a struct type's fields. */
  function FieldAligns(t: Type, tgt: Target): (s: seq<nat>)
    requires t.StructTy?
    ensures |s| == |t.fields| && forall i :: 0 <= i < |s| ==> s[i] > 0
  {
    seq(|t.fields|, i requires 0 <= i < |t.fields| => Align(t.fields[i], tgt))
  }

  /** The bit offset of field i of a struct type (getElementOffsetInBits). */
  function FieldOffset(t: Type, i: nat, tgt: Target): nat
    requires t.StructTy? && i < |t.fields|
  {
    LayoutOffset(FieldAllocs(t, tgt), FieldAligns(t, tgt), t.packed, i)
  }

  /** The array of n bytes (GetUnitType). */
  function UnitTy(n: nat): Type {
    ArrayTy(IntTy(8), n)
  }

  // -------------------------------------------------------- layout facts

  /** Doubling a whole number of bytes gives a whole number of bytes. */
  lemma {:induction false} Pow2AtLeastBytes(n: nat, a: nat, cap: nat)
    requires a >= 8 && Mod(a, 8) == 0 && cap >= 8 && Mod(cap, 8) == 0
    ensures Mod(Pow2AtLeast(n, a, cap), 8) == 0
    decreases cap - a
  {
    if a < cap && a < n {
      Add8(a, a);
      Pow2AtLeastBytes(n, 2 * a, cap);
    }
  }

  /** The maximum of whole numbers of bytes is one. */
  lemma {:induction false} MaxOfBytes(base: nat, s: seq<nat>)
    requires Mod(base, 8) == 0 && forall i :: 0 <= i < |s| ==> Mod(s[i], 8) == 0
    ensures Mod(MaxOf(base, s), 8) == 0
    decreases |s|
  {
    if |s| > 0 {
      var s' := s[..|s| - 1];
      assert forall i :: 0 <= i < |s'| ==> s'[i] == s[i];
      MaxOfBytes(base, s');
    }
  }

  /** Every alignment is a whole number of bytes. */
  lemma {:induction false} AlignBytes(t: Type, tgt: Target)
    ensures Mod(Align(t, tgt), 8) == 0
  {
    match t
    case IntTy(w) => Pow2AtLeastBytes(RoundUp(w, 8), 8, tgt.maxAlign);
    case PtrTy => Pow2AtLeastBytes(tgt.ptrBits, 8, tgt.maxAlign);
    case FpTy(k) => Pow2AtLeastBytes(RoundUp(FpWidth(k), 8), 8, tgt.maxAlign);
    case ArrayTy(e, _) => AlignBytes(e, tgt);
    case VectorTy(e, _) => AlignBytes(e, tgt);
    case StructTy(fs, p) =>
      if !p {
        var aligns := seq(|fs|, i requires 0 <= i < |fs| => Align(fs[i], tgt));
        forall i | 0 <= i < |fs| ensures Mod(aligns[i], 8) == 0 {
          AlignBytes(fs[i], tgt);
        }
        MaxOfBytes(8, aligns);
      }
  }

  /** Sizes are whole bytes and the alloc size covers the store size. */
  lemma SizeFacts(t: Type, tgt: Target)
    ensures Mod(Store(t, tgt), 8) == 0 && Mod(Alloc(t, tgt), 8) == 0
    ensures Store(t, tgt) <= Alloc(t, tgt)
  {
    AlignBytes(t, tgt);
    RoundUpBounds(Store(t, tgt), Align(t, tgt));
    RoundUpKeeps8(Store(t, tgt), Align(t, tgt));
    match t
    case IntTy(w) => RoundUpBounds(w, 8);
    case FpTy(k) => RoundUpBounds(FpWidth(k), 8);
    case ArrayTy(e, n) =>
      AlignBytes(e, tgt);
      RoundUpKeeps8(Store(e, tgt), Align(e, tgt));
      Mul8(n, Alloc(e, tgt));
    case VectorTy(e, n) =>
      AlignBytes(e, tgt);
      RoundUpKeeps8(Store(e, tgt), Align(e, tgt));
      Mul8(n, Alloc(e, tgt));
    case StructTy(fs, p) =>
      var sizes, aligns := FieldAllocs(t, tgt), FieldAligns(t, tgt);
      RoundUpKeeps8(LayoutEnd(sizes, aligns, p), Align(t, tgt));
    case PtrTy =>
  }

  /** A scalar's bits fit in its store size. */
  lemma ScalarFits(t: Type, tgt: Target)
    requires t.IsScalar()
    ensures PrimWidth(t, tgt) <= Store(t, tgt)
    ensures t.PtrTy? ==> Store(t, tgt) == PrimWidth(t, tgt)
  {
    match t
    case IntTy(w) => RoundUpBounds(w, 8);
    case FpTy(k) => RoundUpBounds(FpWidth(k), 8);
    case PtrTy =>
  }

  lemma PlaceAtLeast(end: nat, align: nat, packed: bool)
    requires align > 0
    ensures Place(end, align, packed) >= end
  {
    RoundUpBounds(end, if packed then 8 else align);
  }

  /** The end of the first i+1 fields is the offset of field i plus its size. */
  lemma LayoutEndPrefix(sizes: seq<nat>, aligns: seq<nat>, packed: bool, i: nat)
    requires LayoutArgs(sizes, aligns) && i < |sizes|
    ensures LayoutEndTo(sizes, aligns, packed, i + 1) == LayoutOffset(sizes, aligns, packed, i) + sizes[i]
  {
  }

  /** The end of the first k fields depends only on those fields. */
  lemma {:induction false} LayoutEndKept(sizes: seq<nat>, aligns: seq<nat>, sizes': seq<nat>, aligns': seq<nat>,
                                         packed: bool, k: nat)
    requires LayoutArgs(sizes, aligns) && LayoutArgs(sizes', aligns')
    requires k <= |sizes| && k <= |sizes'|
    requires forall j :: 0 <= j < k ==> sizes[j] == sizes'[j] && aligns[j] == aligns'[j]
    ensures LayoutEndTo(sizes, aligns, packed, k) == LayoutEndTo(sizes', aligns', packed, k)
  {
    if k > 0 {
      LayoutEndKept(sizes, aligns, sizes', aligns', packed, k - 1);
    }
  }

  /** The end of a prefix of the fields grows with the prefix. */
  lemma {:induction false} LayoutEndMono(sizes: seq<nat>, aligns: seq<nat>, packed: bool, i: nat, j: nat)
    requires LayoutArgs(sizes, aligns) && i <= j <= |sizes|
    ensures LayoutEndTo(sizes, aligns, packed, i) <= LayoutEndTo(sizes, aligns, packed, j)
    decreases j - i
  {
    if i < j {
      LayoutEndMono(sizes, aligns, packed, i, j - 1);
      PlaceAtLeast(LayoutEndTo(sizes, aligns, packed, j - 1), aligns[j - 1], packed);
    }
  }

  /** Fields never overlap: each one ends before any later one starts, and
      all of them end by the end of the layout. */
  lemma FieldsDisjoint(sizes: seq<nat>, aligns: seq<nat>, packed: bool, i: nat, j: nat)
    requires LayoutArgs(sizes, aligns) && i < j <= |sizes|
    ensures LayoutOffset(sizes, aligns, packed, i) + sizes[i] <= LayoutEndTo(sizes, aligns, packed, j)
    ensures j < |sizes| ==>
      LayoutOffset(sizes, aligns, packed, i) + sizes[i] <= LayoutOffset(sizes, aligns, packed, j)
    ensures LayoutOffset(sizes, aligns, packed, i) + sizes[i] <= LayoutEnd(sizes, aligns, packed)
  {
    LayoutEndPrefix(sizes, aligns, packed, i);
    LayoutEndMono(sizes, aligns, packed, i + 1, j);
    LayoutEndMono(sizes, aligns, packed, j, |sizes|);
    if j < |sizes| {
      PlaceAtLeast(LayoutEndTo(sizes, aligns, packed, j), aligns[j], packed);
    }
  }

  /** The largest of base and the elements of s is at most any bound of them. */
  lemma {:induction false} MaxOfAtMost(base: nat, s: seq<nat>, m: nat)
    requires base <= m && forall k :: 0 <= k < |s| ==> s[k] <= m
    ensures MaxOf(base, s) <= m
    decreases |s|
  {
    if |s| > 0 {
      MaxOfAtMost(base, s[..|s| - 1], m);
    }
  }

  /** A layout of n fields, each at least m bits, takes at least n * m bits. */
  lemma {:induction false} LayoutEndAtLeast(sizes: seq<nat>, aligns: seq<nat>, packed: bool, n: nat, m: nat)
    requires LayoutArgs(sizes, aligns) && n <= |sizes|
    requires forall k :: 0 <= k < n ==> sizes[k] >= m
    ensures LayoutEndTo(sizes, aligns, packed, n) >= Mul(n, m)
  {
    if n > 0 {
      LayoutEndAtLeast(sizes, aligns, packed, n - 1, m);
      PlaceAtLeast(LayoutEndTo(sizes, aligns, packed, n - 1), aligns[n - 1], packed);
      MulSucc(n - 1, m);
    }
  }

  /** A struct type's store and alloc sizes cover the end of its last field. */
  lemma StructCovers(t: Type, tgt: Target)
    requires t.StructTy?
    ensures LayoutEnd(FieldAllocs(t, tgt), FieldAligns(t, tgt), t.packed) <= Store(t, tgt) <= Alloc(t, tgt)
  {
    RoundUpBounds(LayoutEnd(FieldAllocs(t, tgt), FieldAligns(t, tgt), t.packed), Align(t, tgt));
    SizeFacts(t, tgt);
  }

  /** The alloc sizes and alignments of a sequence of elements, in the
      order a struct of them lays them out. */
  function Allocs(es: seq<Constant>, tgt: Target): (s: seq<nat>)
    ensures |s| == |es|
  {
    seq(|es|, k requires 0 <= k < |es| => Alloc(TypeOf(es[k]), tgt))
  }

  function Aligns(es: seq<Constant>, tgt: Target): (s: seq<nat>)
    ensures |s| == |es| && LayoutArgs(Allocs(es, tgt), s)
  {
    seq(|es|, k requires 0 <= k < |es| => Align(TypeOf(es[k]), tgt))
  }

  /** A struct of the elements lays them out by Allocs and Aligns. */
  lemma StructOf(pack: bool, es: seq<Constant>, tgt: Target)
    ensures var t := TypeOf(StructC(pack, es));
      t.StructTy? && t.packed == pack && |t.fields| == |es|
      && FieldAllocs(t, tgt) == Allocs(es, tgt) && FieldAligns(t, tgt) == Aligns(es, tgt)
  {
  }

  lemma FirstOffsetZero(sizes: seq<nat>, aligns: seq<nat>, packed: bool)
    requires LayoutArgs(sizes, aligns) && |sizes| > 0
    ensures LayoutOffset(sizes, aligns, packed, 0) == 0
  {
    var a := if packed then 8 else aligns[0];
    DivOfMul(0, a - 1, a);
  }

  /** The fields of a struct type lie inside it, in order and without overlap. */
  lemma StructFields(t: Type, tgt: Target, i: nat)
    requires t.StructTy? && i < |t.fields|
    ensures FieldOffset(t, 0, tgt) == 0
    ensures FieldOffset(t, i, tgt) + Store(t.fields[i], tgt) <= Store(t, tgt)
    ensures forall j :: i < j < |t.fields| ==>
      FieldOffset(t, i, tgt) + Store(t.fields[i], tgt) <= FieldOffset(t, j, tgt)
  {
    var sizes, aligns := FieldAllocs(t, tgt), FieldAligns(t, tgt);
    FirstOffsetZero(sizes, aligns, t.packed);
    SizeFacts(t.fields[i], tgt);
    FieldsDisjoint(sizes, aligns, t.packed, i, |sizes|);
    RoundUpBounds(LayoutEnd(sizes, aligns, t.packed), Align(t, tgt));
    forall j | i < j < |t.fields|
      ensures FieldOffset(t, i, tgt) + Store(t.fields[i], tgt) <= FieldOffset(t, j, tgt)
    {
      FieldsDisjoint(sizes, aligns, t.packed, i, j);
    }
  }

  lemma ByteRound()
    ensures RoundUp(8, 8) == 8
  {
    RoundUpMultiple(1, 8);
  }

  lemma BytePrimAlign(tgt: Target)
    ensures PrimAlign(8, tgt) == 8
  {
    assert Pow2AtLeast(8, 8, tgt.maxAlign) == 8;
  }

  lemma ByteAlign(tgt: Target)
    ensures Align(IntTy(8), tgt) == 8
  {
    var b := RoundUp(8, 8);
    assert Align(IntTy(8), tgt) == PrimAlign(b, tgt);
    ByteRound();
    BytePrimAlign(tgt);
  }

  /** A byte is byte aligned and occupies one byte. */
  lemma ByteSize(tgt: Target)
    ensures Align(IntTy(8), tgt) == 8 && Store(IntTy(8), tgt) == 8 && Alloc(IntTy(8), tgt) == 8
  {
    ByteStore(tgt);
    ByteAlign(tgt);
    ByteAlloc(tgt);
  }

  lemma ByteStore(tgt: Target)
    ensures Store(IntTy(8), tgt) == 8
  {
    ByteRound();
  }

  lemma ByteAlloc(tgt: Target)
    ensures Alloc(IntTy(8), tgt) == 8
  {
    var b := IntTy(8);
    assert Alloc(b, tgt) == RoundUp(Store(b, tgt), Align(b, tgt));
    ByteStore(tgt);
    ByteAlign(tgt);
    ByteRound();
  }

  /** An array of n bytes occupies exactly n bytes and is byte aligned. */
  lemma UnitTySize(n: nat, tgt: Target)
    ensures Align(UnitTy(n), tgt) == 8
    ensures Store(UnitTy(n), tgt) == n * 8 && Alloc(UnitTy(n), tgt) == n * 8
  {
    var u := UnitTy(n);
    assert Align(u, tgt) == Align(IntTy(8), tgt);
    assert Store(u, tgt) == Mul(n, Alloc(IntTy(8), tgt));
    ByteAlign(tgt);
    ByteAlloc(tgt);
    assert Store(u, tgt) == n * 8;
    RoundUpMultiple(n, 8);
  }

  /** An array of n bytes stores n * 8 bits. */
  lemma UnitStore(n: nat, tgt: Target)
    ensures Store(UnitTy(n), tgt) == n * 8
  {
    UnitTySize(n, tgt);
  }

  /** An array of n bytes occupies n * 8 bits. */
  lemma UnitAlloc(n: nat, tgt: Target)
    ensures Alloc(UnitTy(n), tgt) == n * 8
  {
    UnitTySize(n, tgt);
  }

  // --------------------------------------------------------- default values

  /** The all-zero constant of a type (getNullValue). */
  function NullValue(t: Type, tgt: Target): Const {
    match t
    case IntTy(w) => IntC(Zeros(w))
    case PtrTy => PtrC(Zeros(tgt.ptrBits))
    case FpTy(k) => FpC(k, Zeros(FpWidth(k)))
    case ArrayTy(e, n) => ArrayC(e, seq(n, i => NullValue(e, tgt)))
    case VectorTy(e, n) => VectorC(e, seq(n, i => NullValue(e, tgt)))
    case StructTy(fs, p) => StructC(p, seq(|fs|, i requires 0 <= i < |fs| => NullValue(fs[i], tgt)))
  }

  /** The default value of a type: zero when globals are default initialized,
      undefined otherwise (getDefaultValue). */
  function DefaultValue(t: Type, defaultInit: bool, tgt: Target): Const {
    if defaultInit then NullValue(t, tgt) else Undef(t)
  }

  lemma {:induction false} NullValueWf(t: Type, tgt: Target)
    requires WfType(t)
    ensures TypeOf(NullValue(t, tgt)) == t && WfConst(NullValue(t, tgt))
  {
    match t
    case ArrayTy(e, n) => NullValueWf(e, tgt);
    case VectorTy(e, n) => NullValueWf(e, tgt);
    case StructTy(fs, p) =>
      var z := NullValue(t, tgt);
      forall i | 0 <= i < |fs| ensures TypeOf(z.fields[i]) == fs[i] && WfConst(z.fields[i]) {
        NullValueWf(fs[i], tgt);
      }
      assert TypeOf(z).fields == fs;
    case _ =>
  }

  lemma DefaultValueWf(t: Type, defaultInit: bool, tgt: Target)
    requires WfType(t)
    ensures TypeOf(DefaultValue(t, defaultInit, tgt)) == t
    ensures WfConst(DefaultValue(t, defaultInit, tgt))
  {
    NullValueWf(t, tgt);
  }
}
