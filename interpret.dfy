/**
 * Interpreting the bits of a constant, from a starting bit, as a constant of
 * another type (InterpretAsType): the constant that loading a value of that
 * type would give after storing the original constant, the first loaded bit
 * being the starting bit.
 */
module Interpretation {
  import opened Wrappers
  import opened Ranges
  import opened Bits
  import opened Arith
  import opened Types
  import opened BitSlices
  import opened BitView

  /** Position q of a store of type t holds a bit of a value of that type (it
      is not padding). */
  predicate ValueBit(t: Type, q: int, tgt: Target)
    requires WfType(t)
    decreases t
  {
    if q < 0 || q >= Store(t, tgt) then false
    else if t.IsScalar() then ScalarRange(t, tgt).Has(q)
    else if t.IsSequential() then
      SequentialStride(t, tgt);
      var stride := Alloc(t.elt, tgt);
      DivBelow(q, t.count, stride);
      DivSlot(q, stride);
      ValueBit(t.elt, q - Mul(Div(q, stride), stride), tgt)
    else
      match FieldAt(t, q, tgt)
      case None => false
      case Some(i) => ValueBit(t.fields[i], q - FieldOffset(t, i, tgt), tgt)
  }

  /** The bits nr of the image of c in window, with the window's first bit
      slid to bit 0: view c over the window, slide the view, and take the
      bits of nr, bits the view leaves out read as zero. */
  function WindowBits(c: Constant, window: Range, nr: Range, start: int, tgt: Target): (b: seq<bool>)
    requires !nr.Empty()
    ensures |b| == nr.Width()
  {
    View(c, window, tgt).Displace(-start).GetBits(nr, tgt.bigEndian)
  }

  /** An integer of width w, read from the image of c starting at bit start:
      the value bits of the integer's store read from there.  IntImage states
      which bits these are. */
  function InterpretAsInt(c: Constant, w: nat, start: int, tgt: Target): (r: Constant)
    requires w >= 1
    ensures r.IntC? && |r.bits| == w
  {
    IntC(WindowBits(c, LoadWindow(w, start, tgt), ScalarRange(IntTy(w), tgt), start, tgt))
  }

  /** The bits an integer of width w read at start occupies: its store. */
  function LoadWindow(w: nat, start: int, tgt: Target): Range {
    Range(start, start + Store(IntTy(w), tgt))
  }

  /** One bit of a window read: a bit the view leaves out is undefined, hence
      zero, and so is the bit GetBits fills in for it. */
  lemma WindowBit(c: Constant, window: Range, nr: Range, start: int, q: int, tgt: Target)
    requires !nr.Empty() && nr.Has(q) && window.Has(start + q)
    ensures WindowBits(c, window, nr, start, tgt)[Index(nr, q, tgt.bigEndian)] == ImageBit(c, start + q, tgt)
  {
    var v := View(c, window, tgt);
    var bits := v.Displace(-start);
    ViewCovers(c, window, start + q, tgt);
    assert bits.r.Has(q) <==> v.r.Has(start + q);
    if bits.r.Has(q) {
      assert bits.BitAt(start + q - start, tgt.bigEndian) == v.BitAt(start + q, tgt.bigEndian);
    }
  }

  /** inttoptr of a pointer-sized integer. */
  function IntToPtr(i: Constant, tgt: Target): (p: Constant)
    requires TypeOf(i) == IntTy(tgt.ptrBits)
    ensures TypeOf(p) == PtrTy
  {
    if i.IntC? then PtrC(i.bits) else Undef(PtrTy)
  }

  /** bitcast of an integer to the floating-point type of its width. */
  function IntToFp(i: Constant, k: FpKind): (f: Constant)
    requires TypeOf(i) == IntTy(FpWidth(k))
    ensures TypeOf(f) == FpTy(k)
  {
    if i.IntC? then FpC(k, i.bits) else Undef(FpTy(k))
  }

  /** A pointer keeps the bits of the integer it was converted from. */
  lemma IntToPtrImage(i: Constant, q: int, tgt: Target)
    requires TypeOf(i) == IntTy(tgt.ptrBits)
    ensures ImageBit(IntToPtr(i, tgt), q, tgt) == ImageBit(i, q, tgt)
  {
    PtrIntLayout(tgt);
    if i.IntC? {
      assert Fit(i.bits, tgt.ptrBits) == i.bits;
    }
  }

  /** A floating-point value keeps the bits of the integer it was cast from. */
  lemma IntToFpImage(i: Constant, k: FpKind, q: int, tgt: Target)
    requires TypeOf(i) == IntTy(FpWidth(k))
    ensures ImageBit(IntToFp(i, k), q, tgt) == ImageBit(i, q, tgt)
  {
  }

  /** A pointer is stored like the integer of its width. */
  lemma PtrIntLayout(tgt: Target)
    ensures Store(IntTy(tgt.ptrBits), tgt) == Store(PtrTy, tgt)
    ensures ScalarRange(IntTy(tgt.ptrBits), tgt) == ScalarRange(PtrTy, tgt)
  {
    RoundUpOfAligned(tgt.ptrBits, 8);
  }

  /** The fast path: the constant already has the requested type.  Guarded,
      the fast path is also required to start at bit 0. */
  predicate FastPath(c: Constant, ty: Type, start: int, guarded: bool) {
    TypeOf(c) == ty && (guarded ==> start == 0)
  }

  /** The integer case of Interpret, as a pointer or floating-point load uses it. */
  function IntPart(c: Constant, w: nat, start: int, guarded: bool, tgt: Target): (r: Constant)
    requires w >= 1
    ensures TypeOf(r) == IntTy(w)
  {
    if FastPath(c, IntTy(w), start, guarded) then c else InterpretAsInt(c, w, start, tgt)
  }

  /** InterpretAsType, with the fast path guarded by a zero start or taken
      whatever the start. */
  function Interpret(c: Constant, ty: Type, start: int, guarded: bool, tgt: Target): (r: Constant)
    requires WfType(ty)
    ensures TypeOf(r) == ty
    decreases ty, 3
  {
    if FastPath(c, ty, start, guarded) then c
    else if ty.IsScalar() then InterpretScalar(c, ty, start, guarded, tgt)
    else if ty.ArrayTy? then ArrayC(ty.elt, InterpretElems(c, ty, start, guarded, tgt))
    else if ty.VectorTy? then VectorC(ty.elt, InterpretElems(c, ty, start, guarded, tgt))
    else InterpretStruct(c, ty, start, guarded, tgt)
  }

  /** The scalar cases: an integer is read from the image, a pointer or a
      floating-point value through the integer of its width. */
  function InterpretScalar(c: Constant, ty: Type, start: int, guarded: bool, tgt: Target): (r: Constant)
    requires WfType(ty) && ty.IsScalar()
    ensures TypeOf(r) == ty
  {
    match ty
    case IntTy(w) => InterpretAsInt(c, w, start, tgt)
    case PtrTy => IntToPtr(IntPart(c, tgt.ptrBits, start, guarded, tgt), tgt)
    case FpTy(k) => IntToFp(IntPart(c, FpWidth(k), start, guarded, tgt), k)
  }

  /** A struct is built field by field. */
  function InterpretStruct(c: Constant, ty: Type, start: int, guarded: bool, tgt: Target): (r: Constant)
    requires WfType(ty) && ty.StructTy?
    ensures TypeOf(r) == ty
    decreases ty, 2
  {
    var vals := InterpretFields(c, ty, start, guarded, tgt);
    assert seq(|vals|, i requires 0 <= i < |vals| => TypeOf(vals[i])) == ty.fields;
    StructC(ty.packed, vals)
  }

  /** The elements of an array or vector, each read by InterpretElemAt. */
  function InterpretElems(c: Constant, ty: Type, start: int, guarded: bool, tgt: Target): (es: seq<Constant>)
    requires WfType(ty) && ty.IsSequential()
    ensures |es| == ty.count
    ensures forall i :: 0 <= i < |es| ==> TypeOf(es[i]) == ty.elt
    decreases ty, 1
  {
    seq(ty.count, i requires 0 <= i < ty.count => InterpretElemAt(c, ty, start, guarded, i, tgt))
  }

  /** Element i of an array or vector is read from start + i * stride. */
  function InterpretElemAt(c: Constant, ty: Type, start: int, guarded: bool, i: nat, tgt: Target): (v: Constant)
    requires WfType(ty) && ty.IsSequential() && i < ty.count
    ensures TypeOf(v) == ty.elt
    decreases ty, 0
  {
    Interpret(c, ty.elt, start + Mul(i, Alloc(ty.elt, tgt)), guarded, tgt)
  }

  /** The fields of a struct, each read by InterpretField. */
  function InterpretFields(c: Constant, ty: Type, start: int, guarded: bool, tgt: Target): (vs: seq<Constant>)
    requires WfType(ty) && ty.StructTy?
    ensures |vs| == |ty.fields|
    ensures forall i :: 0 <= i < |vs| ==> TypeOf(vs[i]) == ty.fields[i]
    decreases ty, 1
  {
    seq(|ty.fields|, i requires 0 <= i < |ty.fields| => InterpretFieldAt(c, ty, start, guarded, i, tgt))
  }

  /** Field i of a struct is read from start plus the field's offset. */
  function InterpretFieldAt(c: Constant, ty: Type, start: int, guarded: bool, i: nat, tgt: Target): (v: Constant)
    requires WfType(ty) && ty.StructTy? && i < |ty.fields|
    ensures TypeOf(v) == ty.fields[i]
    decreases ty, 0
  {
    Interpret(c, ty.fields[i], start + FieldOffset(ty, i, tgt), guarded, tgt)
  }

  /** The constant of type ty whose memory image is that of c from bit start. */
  function InterpretAsType(c: Constant, ty: Type, start: int, tgt: Target): (r: Constant)
    requires WfType(ty)
    ensures TypeOf(r) == ty
  {
    Interpret(c, ty, start, true, tgt)
  }

  /** InterpretAsType with its fast path taken whatever the start: a
      constant that already has type ty is returned unchanged. */
  function InterpretAsTypeAsWritten(c: Constant, ty: Type, start: int, tgt: Target): (r: Constant)
    requires WfType(ty)
    ensures TypeOf(r) == ty
  {
    Interpret(c, ty, start, false, tgt)
  }

  /** Taking the fast path whatever the start breaks the store-then-load
      reading: an integer read from a nonzero start comes back unchanged,
      while value bit q of the integer loaded there is the image bit at
      start + q; the two differ whenever c's bits at q and at start + q do. */
  lemma FastPathIgnoresStart(c: Constant, w: nat, start: int, q: int, tgt: Target)
    requires w >= 1 && TypeOf(c) == IntTy(w) && start != 0 && ScalarRange(IntTy(w), tgt).Has(q)
    ensures InterpretAsTypeAsWritten(c, IntTy(w), start, tgt) == c
    ensures ImageBit(InterpretAsType(c, IntTy(w), start, tgt), q, tgt) == ImageBit(c, start + q, tgt)
    ensures ImageBit(c, start + q, tgt) != ImageBit(c, q, tgt) ==>
      InterpretAsType(c, IntTy(w), start, tgt) != c
  {
    IntImage(c, w, start, q, tgt);
  }

  /** The 16-bit integer whose low byte is all ones, read as a 16-bit integer
      from bit 8 on: bits 0 and 8 of its store are both defined and differ,
      the unconditional fast path returns it unchanged, and the integer
      loaded there differs from it. */
  lemma FastPathCounterexample(tgt: Target)
    ensures var c: Constant := IntC(seq(16, i => i < 8));
      && Image(c, 0, tgt).Some? && Image(c, 8, tgt).Some?
      && ImageBit(c, 0, tgt) != ImageBit(c, 8, tgt)
      && InterpretAsTypeAsWritten(c, IntTy(16), 8, tgt) == c
      && InterpretAsType(c, IntTy(16), 8, tgt) != c
  {
    var c: Constant := IntC(seq(16, i => i < 8));
    RoundUpMultiple(2, 8);
    assert Store(IntTy(16), tgt) == 16;
    assert ScalarRange(IntTy(16), tgt) == Range(0, 16);
    FastPathIgnoresStart(c, 16, 8, 0, tgt);
  }

  // ------------------------------------------------------------ properties

  /** A value bit of a loaded integer is the image bit start positions on. */
  lemma IntImage(c: Constant, w: nat, start: int, q: int, tgt: Target)
    requires w >= 1 && ScalarRange(IntTy(w), tgt).Has(q)
    ensures ImageBit(InterpretAsInt(c, w, start, tgt), q, tgt) == ImageBit(c, start + q, tgt)
  {
    IntLoadBit(c, w, start, q, tgt);
    IntBit(InterpretAsInt(c, w, start, tgt), w, ScalarRange(IntTy(w), tgt), q, tgt);
  }

  /** The content bit of a loaded integer that value bit q is held in. */
  lemma IntLoadBit(c: Constant, w: nat, start: int, q: int, tgt: Target)
    requires w >= 1 && ScalarRange(IntTy(w), tgt).Has(q)
    ensures InterpretAsInt(c, w, start, tgt).bits[Index(ScalarRange(IntTy(w), tgt), q, tgt.bigEndian)]
            == ImageBit(c, start + q, tgt)
  {
    WindowBit(c, LoadWindow(w, start, tgt), ScalarRange(IntTy(w), tgt), start, q, tgt);
  }

  /** Bit q of the image of an integer constant is its value bit at q. */
  lemma IntBit(r: Constant, w: nat, nr: Range, q: int, tgt: Target)
    requires w >= 1 && r.IntC? && |r.bits| == w && nr == ScalarRange(IntTy(w), tgt) && nr.Has(q)
    ensures ImageBit(r, q, tgt) == r.bits[Index(nr, q, tgt.bigEndian)]
  {
  }

  /** The same for the integer part of a pointer or floating-point load. */
  lemma IntPartImage(c: Constant, w: nat, start: int, q: int, tgt: Target)
    requires w >= 1 && ScalarRange(IntTy(w), tgt).Has(q)
    ensures ImageBit(IntPart(c, w, start, true, tgt), q, tgt) == ImageBit(c, start + q, tgt)
  {
    if !FastPath(c, IntTy(w), start, true) {
      IntImage(c, w, start, q, tgt);
    }
  }

  /** InterpretAsType reproduces the memory image: every value bit of the
      result is the bit of c at the same position past start. */
  lemma {:induction false} InterpretImage(c: Constant, ty: Type, start: int, q: int, tgt: Target)
    requires WfType(ty) && ValueBit(ty, q, tgt)
    ensures ImageBit(InterpretAsType(c, ty, start, tgt), q, tgt) == ImageBit(c, start + q, tgt)
    decreases ty, 4
  {
    if !FastPath(c, ty, start, true) {
      match ty
      case IntTy(w) =>
        IntImage(c, w, start, q, tgt);
      case PtrTy =>
        PtrIntLayout(tgt);
        IntToPtrImage(IntPart(c, tgt.ptrBits, start, true, tgt), q, tgt);
        IntPartImage(c, tgt.ptrBits, start, q, tgt);
      case FpTy(k) =>
        IntToFpImage(IntPart(c, FpWidth(k), start, true, tgt), k, q, tgt);
        IntPartImage(c, FpWidth(k), start, q, tgt);
      case ArrayTy(e, n) =>
        ElemImage(c, ty, start, q, tgt);
      case VectorTy(e, n) =>
        ElemImage(c, ty, start, q, tgt);
      case StructTy(fs, p) =>
        FieldImage(c, ty, start, q, tgt);
    }
  }

  /** Element k of an interpreted array or vector is read k strides on, at s. */
  lemma InterpretElem(c: Constant, ty: Type, start: int, k: nat, s: int, tgt: Target)
    requires WfType(ty) && ty.IsSequential() && k < ty.count && !FastPath(c, ty, start, true)
    requires s == start + Mul(k, Alloc(ty.elt, tgt))
    ensures k < Count(TypeOf(InterpretAsType(c, ty, start, tgt)))
    ensures Elem(InterpretAsType(c, ty, start, tgt), k) == InterpretAsType(c, ty.elt, s, tgt)
  {
    ElemOfSequential(c, ty, start, k, tgt);
    ElemAtStart(c, ty, start, k, s, tgt);
  }

  /** Element k of an interpreted array or vector is the one InterpretElemAt reads. */
  lemma ElemOfSequential(c: Constant, ty: Type, start: int, k: nat, tgt: Target)
    requires WfType(ty) && ty.IsSequential() && k < ty.count && !FastPath(c, ty, start, true)
    ensures k < Count(TypeOf(InterpretAsType(c, ty, start, tgt)))
    ensures Elem(InterpretAsType(c, ty, start, tgt), k) == InterpretElemAt(c, ty, start, true, k, tgt)
  {
    SequentialElems(c, ty, start, tgt);
    ElemsAt(c, ty, start, k, tgt);
  }

  /** InterpretElemAt reads element k as the element type at s. */
  lemma ElemAtStart(c: Constant, ty: Type, start: int, k: nat, s: int, tgt: Target)
    requires WfType(ty) && ty.IsSequential() && k < ty.count
    requires s == start + Mul(k, Alloc(ty.elt, tgt))
    ensures InterpretElemAt(c, ty, start, true, k, tgt) == InterpretAsType(c, ty.elt, s, tgt)
  {
    assert InterpretElemAt(c, ty, start, true, k, tgt) == Interpret(c, ty.elt, s, true, tgt);
  }

  /** An interpreted array or vector holds the elements InterpretElems reads. */
  lemma SequentialElems(c: Constant, ty: Type, start: int, tgt: Target)
    requires WfType(ty) && ty.IsSequential() && !FastPath(c, ty, start, true)
    ensures var r := InterpretAsType(c, ty, start, tgt);
      (r.ArrayC? || r.VectorC?) && r.elems == InterpretElems(c, ty, start, true, tgt)
  {
  }

  /** Element k of the elements read for an array or vector. */
  lemma ElemsAt(c: Constant, ty: Type, start: int, k: nat, tgt: Target)
    requires WfType(ty) && ty.IsSequential() && k < ty.count
    ensures InterpretElems(c, ty, start, true, tgt)[k] == InterpretElemAt(c, ty, start, true, k, tgt)
  {
  }

  /** Field i of an interpreted struct is read at the field's offset, at s. */
  lemma InterpretField(c: Constant, ty: Type, start: int, i: nat, s: int, tgt: Target)
    requires WfType(ty) && ty.StructTy? && i < |ty.fields| && !FastPath(c, ty, start, true)
    requires s == start + FieldOffset(ty, i, tgt)
    ensures i < Count(TypeOf(InterpretAsType(c, ty, start, tgt)))
    ensures Elem(InterpretAsType(c, ty, start, tgt), i) == InterpretAsType(c, ty.fields[i], s, tgt)
  {
    var vs := InterpretFields(c, ty, start, true, tgt);
    assert InterpretAsType(c, ty, start, tgt) == InterpretStruct(c, ty, start, true, tgt);
    assert vs[i] == InterpretFieldAt(c, ty, start, true, i, tgt);
  }

  /** A value bit of an array or vector is bit j of the value of the element
      k whose slot holds it; that element's store begins at s. */
  lemma ElemOfBit(ty: Type, q: int, start: int, tgt: Target) returns (k: nat, j: int, off: int, s: int)
    requires WfType(ty) && ty.IsSequential() && ValueBit(ty, q, tgt)
    ensures k < ty.count && 0 <= j < Alloc(ty.elt, tgt) && ValueBit(ty.elt, j, tgt)
    ensures off == Mul(k, Alloc(ty.elt, tgt)) && q == off + j && s == start + off
  {
    var stride := Alloc(ty.elt, tgt);
    SequentialStride(ty, tgt);
    DivBelow(q, ty.count, stride);
    DivSlot(q, stride);
    k := Div(q, stride);
    off := Mul(k, stride);
    j := q - off;
    s := start + off;
  }

  /** A value bit of a struct is bit j of the value of the field i whose slot
      holds it; that field's store begins at s. */
  lemma FieldOfBit(ty: Type, q: int, start: int, tgt: Target) returns (i: nat, j: int, off: int, s: int)
    requires WfType(ty) && ty.StructTy? && ValueBit(ty, q, tgt)
    ensures i < |ty.fields| && 0 <= j < Store(ty.fields[i], tgt) && ValueBit(ty.fields[i], j, tgt)
    ensures off == FieldOffset(ty, i, tgt) && q == off + j && s == start + off
  {
    i := FieldAt(ty, q, tgt).value;
    off := FieldOffset(ty, i, tgt);
    j := q - off;
    s := start + off;
  }

  /** Bit q of an array or vector r of type ty is bit j of its element k. */
  lemma ElemBit(r: Constant, ty: Type, k: nat, j: int, q: int, off: int, tgt: Target)
    requires TypeOf(r) == ty && ty.IsSequential() && k < ty.count && 0 <= j < Alloc(ty.elt, tgt)
    requires off == Mul(k, Alloc(ty.elt, tgt)) && q == off + j
    ensures k < Count(ty) && ImageBit(r, q, tgt) == ImageBit(Elem(r, k), j, tgt)
  {
    ImageElem(r, k, j, q, tgt);
  }

  /** Bit q of a struct r of type ty is bit j of its field i. */
  lemma FieldBit(r: Constant, ty: Type, i: nat, j: int, q: int, off: int, tgt: Target)
    requires TypeOf(r) == ty && ty.StructTy? && i < |ty.fields| && 0 <= j < Store(ty.fields[i], tgt)
    requires off == FieldOffset(ty, i, tgt) && q == off + j
    ensures i < Count(ty) && ImageBit(r, q, tgt) == ImageBit(Elem(r, i), j, tgt)
  {
    ImageField(r, i, j, q, tgt);
  }

  /** InterpretImage with the image position p given as s + j. */
  lemma InterpretImageAt(c: Constant, ty: Type, s: int, j: int, p: int, tgt: Target)
    requires WfType(ty) && ValueBit(ty, j, tgt) && p == s + j
    ensures ImageBit(InterpretAsType(c, ty, s, tgt), j, tgt) == ImageBit(c, p, tgt)
    decreases ty, 5
  {
    InterpretImage(c, ty, s, j, tgt);
  }

  /** The array and vector case of InterpretImage. */
  lemma {:induction false} ElemImage(c: Constant, ty: Type, start: int, q: int, tgt: Target)
    requires WfType(ty) && ty.IsSequential() && ValueBit(ty, q, tgt)
    ensures ImageBit(InterpretAsType(c, ty, start, tgt), q, tgt) == ImageBit(c, start + q, tgt)
    decreases ty, 3
  {
    if !FastPath(c, ty, start, true) {
      ElemRead(c, ty, start, q, InterpretAsType(c, ty, start, tgt), tgt);
    }
  }

  /** Off the fast path, bit q of the interpretation r of an array or vector
      is read through the element holding it. */
  lemma {:induction false} ElemRead(c: Constant, ty: Type, start: int, q: int, r: Constant, tgt: Target)
    requires WfType(ty) && ty.IsSequential() && ValueBit(ty, q, tgt) && !FastPath(c, ty, start, true)
    requires r == InterpretAsType(c, ty, start, tgt)
    ensures ImageBit(r, q, tgt) == ImageBit(c, start + q, tgt)
    decreases ty, 2
  {
    var k, j, off, s := ElemOfBit(ty, q, start, tgt);
    var e := InterpretAsType(c, ty.elt, s, tgt);
    assert k < Count(ty) && Elem(r, k) == e by { InterpretElem(c, ty, start, k, s, tgt); }
    InterpretImageAt(c, ty.elt, s, j, start + q, tgt);
    ElemSlot(r, ty, k, j, q, off, e, ImageBit(c, start + q, tgt), tgt);
  }

  /** In the array or vector r, the bit at q is bit j of element k, so it is
      b when bit j of that element e is. */
  lemma ElemSlot(r: Constant, ty: Type, k: nat, j: int, q: int, off: int, e: Constant, b: bool, tgt: Target)
    requires ty.IsSequential() && TypeOf(r) == ty
    requires k < ty.count && 0 <= j < Alloc(ty.elt, tgt)
    requires off == Mul(k, Alloc(ty.elt, tgt)) && q == off + j
    requires k < Count(ty) && Elem(r, k) == e && ImageBit(e, j, tgt) == b
    ensures ImageBit(r, q, tgt) == b
  {
    ElemBit(r, ty, k, j, q, off, tgt);
  }

  /** The struct case of InterpretImage. */
  lemma {:induction false} FieldImage(c: Constant, ty: Type, start: int, q: int, tgt: Target)
    requires WfType(ty) && ty.StructTy? && ValueBit(ty, q, tgt)
    ensures ImageBit(InterpretAsType(c, ty, start, tgt), q, tgt) == ImageBit(c, start + q, tgt)
    decreases ty, 3
  {
    if !FastPath(c, ty, start, true) {
      FieldRead(c, ty, start, q, InterpretAsType(c, ty, start, tgt), tgt);
    }
  }

  /** Off the fast path, bit q of the interpretation r of a struct is read
      through the field holding it. */
  lemma {:induction false} FieldRead(c: Constant, ty: Type, start: int, q: int, r: Constant, tgt: Target)
    requires WfType(ty) && ty.StructTy? && ValueBit(ty, q, tgt) && !FastPath(c, ty, start, true)
    requires r == InterpretAsType(c, ty, start, tgt)
    ensures ImageBit(r, q, tgt) == ImageBit(c, start + q, tgt)
    decreases ty, 2
  {
    var i, j, off, s := FieldOfBit(ty, q, start, tgt);
    var e := InterpretAsType(c, ty.fields[i], s, tgt);
    assert i < Count(ty) && Elem(r, i) == e by { InterpretField(c, ty, start, i, s, tgt); }
    InterpretImageAt(c, ty.fields[i], s, j, start + q, tgt);
    FieldSlotBit(r, ty, i, j, q, off, e, ImageBit(c, start + q, tgt), tgt);
  }

  /** In the struct r, the bit at q is bit j of field i, so it is b when bit
      j of that field e is. */
  lemma FieldSlotBit(r: Constant, ty: Type, i: nat, j: int, q: int, off: int, e: Constant, b: bool, tgt: Target)
    requires ty.StructTy? && TypeOf(r) == ty
    requires i < |ty.fields| && 0 <= j < Store(ty.fields[i], tgt)
    requires off == FieldOffset(ty, i, tgt) && q == off + j
    requires i < Count(ty) && Elem(r, i) == e && ImageBit(e, j, tgt) == b
    ensures ImageBit(r, q, tgt) == b
  {
    FieldBit(r, ty, i, j, q, off, tgt);
  }
}
