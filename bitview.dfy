/**
 * Viewing a constant as the bits it occupies in memory (ViewAsBits), and the
 * memory image that view is proved against: for every position of a
 * constant's store, the bit a store of the constant leaves there, or nothing
 * for padding and undefined bits.
 */
module BitView {
  import opened Wrappers
  import opened Ranges
  import opened Bits
  import opened Arith
  import opened Types
  import opened BitSlices

  // ------------------------------------------------------------ elements

  /** The number of elements of an aggregate type. */
  function Count(t: Type): nat {
    match t
    case ArrayTy(_, n) => n
    case VectorTy(_, n) => n
    case StructTy(fs, _) => |fs|
    case _ => 0
  }

  /** The type of element i of an aggregate type. */
  function ElemTy(t: Type, i: nat): Type
    requires i < Count(t)
  {
    match t
    case ArrayTy(e, _) => e
    case VectorTy(e, _) => e
    case StructTy(fs, _) => fs[i]
  }

  /** Element i of an aggregate constant (extractvalue, extractelement); an
      undefined aggregate has undefined elements. */
  function Elem(c: Constant, i: nat): (e: Constant)
    requires i < Count(TypeOf(c))
    ensures TypeOf(e) == ElemTy(TypeOf(c), i)
  {
    match c
    case ArrayC(_, es) => es[i]
    case VectorC(_, es) => es[i]
    case StructC(_, fs) => fs[i]
    case Undef(t) => Undef(ElemTy(t, i))
  }

  /** The value bits of a scalar constant, as an integer of its primitive width
      (ptrtoint, or a bitcast to an integer); undefined bits read as zero. */
  function ScalarBits(c: Constant, tgt: Target): (b: Bits)
    requires TypeOf(c).IsScalar()
    ensures |b| == PrimWidth(TypeOf(c), tgt)
  {
    match c
    case IntC(bs) => bs
    case PtrC(bs) => Fit(bs, tgt.ptrBits)
    case FpC(_, bs) => bs
    case Undef(t) => Zeros(PrimWidth(t, tgt))
  }

  /** Where the value bits of a scalar sit inside its store: when the width is
      not a whole number of bytes the padding comes first on a big-endian
      target and last on a little-endian one.  A pointer fills its store. */
  function ScalarRange(t: Type, tgt: Target): (r: Range)
    requires WfType(t) && t.IsScalar()
    ensures !r.Empty() && r.Width() == PrimWidth(t, tgt)
    ensures Range(0, Store(t, tgt)).Includes(r)
  {
    ScalarFits(t, tgt);
    var w, s := PrimWidth(t, tgt), Store(t, tgt);
    if tgt.bigEndian then Range(s - w, s) else Range(0, w)
  }

  // ------------------------------------------------------ layout helpers

  /** A sequential type with a non-empty store has elements and a positive stride. */
  lemma SequentialStride(t: Type, tgt: Target)
    requires t.IsSequential() && Store(t, tgt) > 0
    ensures t.count > 0 && Alloc(t.elt, tgt) > 0
    ensures Store(t, tgt) == Mul(t.count, Alloc(t.elt, tgt))
  {
    MulPositive(t.count, Alloc(t.elt, tgt));
  }

  /** A struct with a non-empty store has fields. */
  lemma StructHasFields(t: Type, tgt: Target)
    requires t.StructTy? && Store(t, tgt) > 0
    ensures |t.fields| > 0
  {
    RoundUpMultiple(0, Align(t, tgt));
  }

  /** The memory taken by element k of a sequential type: its store, at k strides. */
  function Slot(t: Type, k: nat, tgt: Target): Range
    requires t.IsSequential()
  {
    var start := Mul(k, Alloc(t.elt, tgt));
    Range(start, start + Store(t.elt, tgt))
  }

  /** The memory taken by field i of a struct type. */
  function FieldSlot(t: Type, i: nat, tgt: Target): Range
    requires t.StructTy? && i < |t.fields|
  {
    var start := FieldOffset(t, i, tgt);
    Range(start, start + Store(t.fields[i], tgt))
  }

  /** Element slots come in index order and lie inside the store. */
  lemma SlotsOrdered(t: Type, k: nat, j: nat, tgt: Target)
    requires t.IsSequential() && k < j
    ensures Slot(t, k, tgt).last <= Slot(t, j, tgt).first
  {
    SizeFacts(t.elt, tgt);
    MulSucc(k, Alloc(t.elt, tgt));
    MulMono(k + 1, j, Alloc(t.elt, tgt));
  }

  lemma SlotInside(t: Type, k: nat, tgt: Target)
    requires t.IsSequential() && k < t.count
    ensures Range(0, Store(t, tgt)).Includes(Slot(t, k, tgt))
  {
    SizeFacts(t.elt, tgt);
    MulSucc(k, Alloc(t.elt, tgt));
    MulMono(k + 1, t.count, Alloc(t.elt, tgt));
  }

  lemma FieldSlotsOrdered(t: Type, i: nat, j: nat, tgt: Target)
    requires t.StructTy? && i < j < |t.fields|
    ensures FieldSlot(t, i, tgt).last <= FieldSlot(t, j, tgt).first
  {
    StructFields(t, tgt, i);
  }

  lemma FieldSlotInside(t: Type, i: nat, tgt: Target)
    requires t.StructTy? && i < |t.fields|
    ensures Range(0, Store(t, tgt)).Includes(FieldSlot(t, i, tgt))
  {
    StructFields(t, tgt, i);
  }

  /** The index of the field containing byte offset x (getElementContainingOffset):
      the last field starting at or before x. */
  function Containing(t: Type, x: nat, tgt: Target): (i: nat)
    requires t.StructTy? && |t.fields| > 0
    ensures i < |t.fields| && FieldOffset(t, i, tgt) <= 8 * x
    ensures forall j :: i < j < |t.fields| ==> FieldOffset(t, j, tgt) > 8 * x
  {
    LastStartingBy(t, 8 * x, |t.fields| - 1, tgt)
  }

  function LastStartingBy(t: Type, p: nat, k: nat, tgt: Target): (i: nat)
    requires t.StructTy? && k < |t.fields|
    ensures i <= k && FieldOffset(t, i, tgt) <= p
    ensures forall j :: i < j <= k ==> FieldOffset(t, j, tgt) > p
  {
    FirstOffsetZero(FieldAllocs(t, tgt), FieldAligns(t, tgt), t.packed);
    if k == 0 || FieldOffset(t, k, tgt) <= p then k
    else LastStartingBy(t, p, k - 1, tgt)
  }


  /** Later byte offsets lie in the same or later fields. */
  lemma ContainingMono(t: Type, x: nat, y: nat, tgt: Target)
    requires t.StructTy? && |t.fields| > 0 && x <= y
    ensures Containing(t, x, tgt) <= Containing(t, y, tgt)
  {
  }

  /** Field slots start and end in field order. */
  lemma FieldSlotsMono(t: Type, i: nat, j: nat, tgt: Target)
    requires t.StructTy? && i <= j < |t.fields|
    ensures FieldSlot(t, i, tgt).first <= FieldSlot(t, j, tgt).first
    ensures FieldSlot(t, i, tgt).last <= FieldSlot(t, j, tgt).last
  {
    if i < j {
      FieldSlotsOrdered(t, i, j, tgt);
    }
  }

  lemma FieldSlotsStep(t: Type, f: nat, j: nat, tgt: Target)
    requires t.StructTy? && f <= j < |t.fields|
    ensures f < j ==> FieldSlot(t, j - 1, tgt).last <= FieldSlot(t, j, tgt).last
  {
    if f < j {
      FieldSlotsMono(t, j - 1, j, tgt);
    }
  }

  /** Field i's slot ends before field j's starts whenever i < j. */
  lemma FieldsApart(t: Type, i: nat, j: nat, tgt: Target)
    requires t.StructTy? && i < |t.fields| && j < |t.fields|
    ensures i < j ==> FieldSlot(t, i, tgt).last <= FieldSlot(t, j, tgt).first
  {
    if i < j {
      FieldSlotsOrdered(t, i, j, tgt);
    }
  }

  /** The field holding memory position p, if any (none for padding). */
  function FieldAt(t: Type, p: int, tgt: Target): (r: Option<nat>)
    requires t.StructTy?
    ensures r.Some? ==> r.value < |t.fields| && FieldSlot(t, r.value, tgt).Has(p)
    ensures r.None? ==> forall i :: 0 <= i < |t.fields| ==> !FieldSlot(t, i, tgt).Has(p)
  {
    FieldFrom(t, p, 0, tgt)
  }

  function FieldFrom(t: Type, p: int, i: nat, tgt: Target): (r: Option<nat>)
    requires t.StructTy? && i <= |t.fields|
    ensures r.Some? ==> i <= r.value < |t.fields| && FieldSlot(t, r.value, tgt).Has(p)
    ensures r.None? ==> forall j :: i <= j < |t.fields| ==> !FieldSlot(t, j, tgt).Has(p)
    decreases |t.fields| - i
  {
    if i == |t.fields| then None
    else if FieldSlot(t, i, tgt).Has(p) then Some(i)
    else FieldFrom(t, p, i + 1, tgt)
  }

  /** Fields do not overlap, so the field holding a position is unique. */
  lemma FieldAtUnique(t: Type, i: nat, p: int, tgt: Target)
    requires t.StructTy? && i < |t.fields| && FieldSlot(t, i, tgt).Has(p)
    ensures FieldAt(t, p, tgt) == Some(i)
  {
    var j := FieldAt(t, p, tgt).value;
    if j < i {
      FieldSlotsOrdered(t, j, i, tgt);
    } else if i < j {
      FieldSlotsOrdered(t, i, j, tgt);
    }
  }

  // -------------------------------------------------------- memory image

  /** The bit that storing c to memory leaves at position p of its store, or
      None where the store leaves the bit undefined: outside the store, in the
      padding of a scalar, between elements or fields, and everywhere for an
      undefined constant. */
  function Image(c: Constant, p: int, tgt: Target): (b: Option<bool>)
    ensures b.Some? ==> 0 <= p < Store(TypeOf(c), tgt)
    decreases TypeOf(c), 1
  {
    var t := TypeOf(c);
    if c.Undef? || p < 0 || p >= Store(t, tgt) then None
    else if t.IsScalar() then ScalarImage(c, p, tgt)
    else if t.IsSequential() then SequentialImage(c, p, tgt)
    else StructImage(c, p, tgt)
  }

  /** A scalar stores its value bits, in the target's byte order. */
  function ScalarImage(c: Constant, p: int, tgt: Target): (b: Option<bool>)
    requires TypeOf(c).IsScalar() && !c.Undef?
  {
    WfConstType(c);
    var r := ScalarRange(TypeOf(c), tgt);
    if r.Has(p) then Some(ScalarBits(c, tgt)[Index(r, p, tgt.bigEndian)]) else None
  }

  /** Position p of an array or vector lies in element p / stride. */
  function SequentialImage(c: Constant, p: int, tgt: Target): (b: Option<bool>)
    requires TypeOf(c).IsSequential() && 0 <= p < Store(TypeOf(c), tgt)
    decreases TypeOf(c), 0
  {
    var t := TypeOf(c);
    SequentialStride(t, tgt);
    var stride := Alloc(t.elt, tgt);
    DivBelow(p, t.count, stride);
    DivSlot(p, stride);
    var k := Div(p, stride);
    Image(Elem(c, k), p - Mul(k, stride), tgt)
  }

  /** Position p of a struct lies in the field whose slot holds it, if any. */
  function StructImage(c: Constant, p: int, tgt: Target): (b: Option<bool>)
    requires TypeOf(c).StructTy? && !c.Undef?
    decreases TypeOf(c), 0
  {
    var t := TypeOf(c);
    match FieldAt(t, p, tgt)
    case None => None
    case Some(i) => Image(Elem(c, i), p - FieldOffset(t, i, tgt), tgt)
  }

  /** The image with undefined bits read as zero, as a bit slice holds them. */
  predicate ImageBit(c: Constant, p: int, tgt: Target) {
    Image(c, p, tgt) == Some(true)
  }

  /** Element k of a sequential constant is stored at k strides. */
  lemma ImageElem(c: Constant, k: nat, q: int, p: int, tgt: Target)
    requires TypeOf(c).IsSequential() && k < TypeOf(c).count
    requires 0 <= q < Alloc(TypeOf(c).elt, tgt) && p == Mul(k, Alloc(TypeOf(c).elt, tgt)) + q
    ensures Image(c, p, tgt) == Image(Elem(c, k), q, tgt)
  {
    var t := TypeOf(c);
    var stride := Alloc(t.elt, tgt);
    SlotPosition(k, q, stride, t.count, p);
    if q >= Store(t.elt, tgt) {
      assert Image(Elem(c, k), q, tgt).None?;
    }
  }

  /** Field i of a struct constant is stored at the field's offset. */
  lemma ImageField(c: Constant, i: nat, q: int, p: int, tgt: Target)
    requires TypeOf(c).StructTy? && i < |TypeOf(c).fields|
    requires 0 <= q < Store(TypeOf(c).fields[i], tgt) && p == FieldOffset(TypeOf(c), i, tgt) + q
    ensures Image(c, p, tgt) == Image(Elem(c, i), q, tgt)
  {
    var t := TypeOf(c);
    FieldSlotInside(t, i, tgt);
    FieldAtUnique(t, i, p, tgt);
  }

  // --------------------------------------------------------------- views

  /** The field range a struct view visits starts with the field containing
      the byte of the window's first bit. */
  function StructFirstIdx(t: Type, first: nat, tgt: Target): (i: nat)
    requires t.StructTy? && |t.fields| > 0
    ensures i < |t.fields| && FieldOffset(t, i, tgt) <= first
    ensures forall j :: i < j < |t.fields| ==> FieldOffset(t, j, tgt) > first - 8
  {
    DivSlot(first, 8);
    Containing(t, Div(first, 8), tgt)
  }

  /** The first field index with the byte of the window's first bit rounded
      up: a field holding the window's first bits but ending inside the byte
      after them is skipped. */
  function StructFirstIdxAsWritten(t: Type, first: nat, tgt: Target): (i: nat)
    requires t.StructTy? && |t.fields| > 0
    ensures i < |t.fields| && FieldOffset(t, i, tgt) <= 8 * Div(first + 7, 8)
  {
    Containing(t, Div(first + 7, 8), tgt)
  }

  /** When the second field of a struct starts at byte 1 (as in a struct
      of two bytes), a window starting inside byte 0 starts, rounded up, at
      byte 1: the rounded-up index skips field 0, whose slot holds the
      window's first bit when field 0 is a byte, while StructFirstIdx
      visits it. */
  lemma FirstIdxRoundsUp(t: Type, first: nat, tgt: Target)
    requires t.StructTy? && |t.fields| >= 2 && FieldOffset(t, 1, tgt) == 8 && 0 < first < 8
    ensures StructFirstIdxAsWritten(t, first, tgt) >= 1
    ensures StructFirstIdx(t, first, tgt) == 0
    ensures Store(t.fields[0], tgt) == 8 ==> FieldSlot(t, 0, tgt).Has(first)
  {
    StructFields(t, tgt, 0);
    DivOfMul(1, first - 1, 8);
    DivOfMul(0, first, 8);
    var i := StructFirstIdx(t, first, tgt);
    assert FieldOffset(t, i, tgt) <= 0;
    if i > 0 {
      FieldSlotsMono(t, 1, i, tgt);
    }
  }

  /** A struct of two bytes has its second field at byte 1. */
  lemma TwoBytes(t: Type, tgt: Target)
    requires t == StructTy([IntTy(8), IntTy(8)], false)
    ensures FieldOffset(t, 1, tgt) == 8 && Store(t.fields[0], tgt) == 8
  {
    ByteSize(tgt);
    var sizes, aligns := FieldAllocs(t, tgt), FieldAligns(t, tgt);
    assert sizes[0] == 8 && aligns[0] == 8 && aligns[1] == 8;
    FirstOffsetZero(sizes, aligns, false);
    LayoutEndPrefix(sizes, aligns, false, 0);
    RoundUpOfAligned(8, 8);
  }

  /** The struct {i8, i8} viewed from bit 3 on: the rounded-up first index
      is field 1, though bit 3 lies in field 0, which StructFirstIdx visits. */
  lemma FirstIdxCounterexample(tgt: Target)
    ensures var t := StructTy([IntTy(8), IntTy(8)], false);
      && StructFirstIdxAsWritten(t, 3, tgt) == 1
      && StructFirstIdx(t, 3, tgt) == 0
      && FieldSlot(t, 0, tgt).Has(3)
  {
    var t := StructTy([IntTy(8), IntTy(8)], false);
    TwoBytes(t, tgt);
    FirstIdxRoundsUp(t, 3, tgt);
  }

  /** ... and ends after the field containing byte (last + 6) / 8. */
  function StructLastIdx(t: Type, last: nat, tgt: Target): (i: nat)
    requires t.StructTy? && |t.fields| > 0
    ensures 0 < i <= |t.fields|
    ensures forall j :: i <= j < |t.fields| ==> FieldOffset(t, j, tgt) >= last
  {
    DivSlot(last + 6, 8);
    1 + Containing(t, Div(last + 6, 8), tgt)
  }

  /** A struct view visits at least one field. */
  lemma StructIdxOrdered(t: Type, first: nat, last: nat, tgt: Target)
    requires t.StructTy? && |t.fields| > 0 && first < last
    ensures StructFirstIdx(t, first, tgt) < StructLastIdx(t, last, tgt)
  {
    DivMono(first, last + 6, 8);
    ContainingMono(t, Div(first, 8), Div(last + 6, 8), tgt);
  }

  /** The range of memory the view of c in window R covers: empty for an empty
      window, the value bits for a scalar, and for an aggregate the hull of the
      views of the elements or fields the window overlaps, each viewed whole. */
  function ViewRange(c: Constant, R: Range, tgt: Target): (h: Range)
    ensures Range(0, Store(TypeOf(c), tgt)).Includes(h)
    decreases TypeOf(c), 3, 0
  {
    var t := TypeOf(c);
    if R.Empty() then EmptyRange
    else
      var r := R.Meet(Range(0, Store(t, tgt)));
      if r.Empty() then EmptyRange
      else if t.IsScalar() then
        WfConstType(c);
        ScalarRange(t, tgt)
      else if t.IsSequential() then SequentialRange(c, r, tgt)
      else StructRange(c, r, tgt)
  }

  /** An array or vector view covers elements [first / stride, (last + stride - 1) / stride). */
  function SequentialRange(c: Constant, r: Range, tgt: Target): (h: Range)
    requires TypeOf(c).IsSequential() && !r.Empty() && Range(0, Store(TypeOf(c), tgt)).Includes(r)
    ensures Range(0, Store(TypeOf(c), tgt)).Includes(h)
    decreases TypeOf(c), 2, 0
  {
    var t := TypeOf(c);
    SequentialStride(t, tgt);
    var stride := Alloc(t.elt, tgt);
    DivMono(r.first, r.last + stride - 1, stride);
    DivCeilBelow(r.last, t.count, stride);
    var h := ElemHull(c, Div(r.first, stride), Div(r.last + stride - 1, stride), tgt);
    MulMono(Div(r.last + stride - 1, stride), t.count, stride);
    h
  }

  /** A struct view covers fields [StructFirstIdx, StructLastIdx). */
  function StructRange(c: Constant, r: Range, tgt: Target): (h: Range)
    requires TypeOf(c).StructTy? && !r.Empty() && Range(0, Store(TypeOf(c), tgt)).Includes(r)
    ensures Range(0, Store(TypeOf(c), tgt)).Includes(h)
    decreases TypeOf(c), 2, 0
  {
    var t := TypeOf(c);
    StructHasFields(t, tgt);
    var f := StructFirstIdx(t, r.first, tgt);
    var l := StructLastIdx(t, r.last, tgt);
    StructIdxOrdered(t, r.first, r.last, tgt);
    HullInStore(c, f, l, tgt);
    FieldHull(c, f, l, tgt)
  }

  /** The hull of a non-empty run of fields lies within the struct's store. */
  lemma HullInStore(c: Constant, f: nat, l: nat, tgt: Target)
    requires TypeOf(c).StructTy? && f < l <= |TypeOf(c).fields|
    ensures Range(0, Store(TypeOf(c), tgt)).Includes(FieldHull(c, f, l, tgt))
    decreases TypeOf(c), 1, l + 1
  {
    var t := TypeOf(c);
    var slots := Range(FieldOffset(t, f, tgt), FieldSlot(t, l - 1, tgt).last);
    StructFields(t, tgt, l - 1);
    assert Range(0, Store(t, tgt)).Includes(slots);
    IncludesTrans(Range(0, Store(t, tgt)), slots, FieldHull(c, f, l, tgt));
  }

  /** The range covered by element k of a sequential constant, viewed whole
      and placed at k strides. */
  function ElemRange(c: Constant, k: nat, tgt: Target): (e: Range)
    requires TypeOf(c).IsSequential() && k < TypeOf(c).count
    ensures Slot(TypeOf(c), k, tgt).Includes(e)
    decreases TypeOf(c), 0, 0
  {
    var stride := Alloc(TypeOf(c).elt, tgt);
    ViewRange(Elem(c, k), Range(0, stride), tgt).Displace(Mul(k, stride))
  }

  /** The hull of the ranges of elements f .. k-1. */
  function ElemHull(c: Constant, f: nat, k: nat, tgt: Target): (h: Range)
    requires TypeOf(c).IsSequential() && f <= k <= TypeOf(c).count
    ensures Range(Mul(f, Alloc(TypeOf(c).elt, tgt)), Mul(k, Alloc(TypeOf(c).elt, tgt))).Includes(h)
    decreases TypeOf(c), 1, k
  {
    if k == f then EmptyRange
    else
      var t := TypeOf(c);
      var stride := Alloc(t.elt, tgt);
      var h := ElemHull(c, f, k - 1, tgt);
      var e := ElemRange(c, k - 1, tgt);
      SizeFacts(t.elt, tgt);
      MulSucc(k - 1, stride);
      MulMono(f, k - 1, stride);
      MulMono(k - 1, k, stride);
      JoinLeast(h, e, Range(Mul(f, stride), Mul(k, stride)));
      h.Join(e)
  }

  /** The range covered by field i of a struct constant, viewed whole and
      placed at the field's offset. */
  function FieldRange(c: Constant, i: nat, tgt: Target): (e: Range)
    requires TypeOf(c).StructTy? && i < |TypeOf(c).fields|
    ensures FieldSlot(TypeOf(c), i, tgt).Includes(e)
    decreases TypeOf(c), 0, 0
  {
    var t := TypeOf(c);
    ViewRange(Elem(c, i), Range(0, Store(t.fields[i], tgt)), tgt).Displace(FieldOffset(t, i, tgt))
  }

  /** The hull of the ranges of fields f .. k-1. */
  function FieldHull(c: Constant, f: nat, k: nat, tgt: Target): (h: Range)
    requires TypeOf(c).StructTy? && f <= k <= |TypeOf(c).fields|
    ensures f < k ==> Range(FieldOffset(TypeOf(c), f, tgt), FieldSlot(TypeOf(c), k - 1, tgt).last).Includes(h)
    ensures f == k ==> h == EmptyRange
    decreases TypeOf(c), 1, k
  {
    if k == f then EmptyRange
    else
      var t := TypeOf(c);
      var h := FieldHull(c, f, k - 1, tgt);
      var e := FieldRange(c, k - 1, tgt);
      FieldSlotsMono(t, f, k - 1, tgt);
      FieldSlotsStep(t, f, k - 1, tgt);
      JoinLeast(h, e, Range(FieldOffset(t, f, tgt), FieldSlot(t, k - 1, tgt).last));
      h.Join(e)
  }

  /** The slice over range r holding the memory image of c, undefined bits
      read as zero; an empty range gives the empty slice. */
  function ImageSlice(c: Constant, r: Range, tgt: Target): (s: BitSlice)
    ensures s.Valid()
    ensures r.Empty() ==> s == EmptySlice
    ensures !r.Empty() ==> s.r == r
    ensures forall p :: s.r.Has(p) ==> s.BitAt(p, tgt.bigEndian) == ImageBit(c, p, tgt)
  {
    if r.Empty() then EmptySlice
    else BitSlice(r, Some(seq(r.Width(), i requires 0 <= i < r.Width() =>
                                ImageBit(c, Position(r, i, tgt.bigEndian), tgt))))
  }

  /** What ViewAsBits returns: the memory image of c over ViewRange. */
  function View(c: Constant, R: Range, tgt: Target): (s: BitSlice)
    ensures s.Valid() && Range(0, Store(TypeOf(c), tgt)).Includes(s.r)
  {
    ImageSlice(c, ViewRange(c, R, tgt), tgt)
  }

  /** Every bit of a view is c's image bit there. */
  lemma ViewHolds(c: Constant, R: Range, tgt: Target)
    ensures HoldsImage(c, View(c, R, tgt), tgt)
  {
  }

  /** Each bit b holds is the image bit of c at its position. */
  ghost predicate HoldsImage(c: Constant, b: BitSlice, tgt: Target)
    requires b.Valid()
  {
    forall p :: b.r.Has(p) ==> b.BitAt(p, tgt.bigEndian) == ImageBit(c, p, tgt)
  }

  /** Over r, the image of c off positions on is the image of e. */
  ghost predicate ImagesAgree(c: Constant, e: Constant, r: Range, off: int, tgt: Target) {
    forall q :: r.Has(q) ==> Image(c, q + off, tgt) == Image(e, q, tgt)
  }

  /** The hull of elements f .. k-1 includes each of their ranges. */
  lemma {:induction false} ElemHullIncludes(c: Constant, f: nat, k: nat, j: nat, tgt: Target)
    requires TypeOf(c).IsSequential() && f <= j < k <= TypeOf(c).count
    ensures ElemHull(c, f, k, tgt).Includes(ElemRange(c, j, tgt))
    decreases k
  {
    if j < k - 1 {
      ElemHullIncludes(c, f, k - 1, j, tgt);
    }
  }

  lemma {:induction false} FieldHullIncludes(c: Constant, f: nat, k: nat, j: nat, tgt: Target)
    requires TypeOf(c).StructTy? && f <= j < k <= |TypeOf(c).fields|
    ensures FieldHull(c, f, k, tgt).Includes(FieldRange(c, j, tgt))
    decreases k
  {
    var h, e := FieldHull(c, f, k - 1, tgt), FieldRange(c, k - 1, tgt);
    assert FieldHull(c, f, k, tgt) == h.Join(e);
    if j < k - 1 {
      FieldHullIncludes(c, f, k - 1, j, tgt);
      IncludesTrans(h.Join(e), h, FieldRange(c, j, tgt));
    } else {
      assert FieldRange(c, j, tgt) == e;
    }
  }

  /** The view of c in window R holds every defined bit of c inside R (the
      promise that no bit of the window is lost). */
  lemma {:induction false} ViewRangeCovers(c: Constant, R: Range, p: int, tgt: Target)
    ensures R.Has(p) && Image(c, p, tgt).Some? ==> ViewRange(c, R, tgt).Has(p)
    decreases TypeOf(c), 2
  {
    var t := TypeOf(c);
    if R.Has(p) && Image(c, p, tgt).Some? && !t.IsScalar() {
      var r := R.Meet(Range(0, Store(t, tgt)));
      assert r.Has(p);
      if t.IsSequential() {
        SequentialCovers(c, r, p, tgt);
      } else {
        StructCovers(c, r, p, tgt);
      }
    }
  }

  /** The same for the slice View returns. */
  lemma ViewCovers(c: Constant, R: Range, p: int, tgt: Target)
    ensures R.Has(p) && Image(c, p, tgt).Some? ==> View(c, R, tgt).r.Has(p)
  {
    ViewRangeCovers(c, R, p, tgt);
  }

  lemma SequentialCovers(c: Constant, r: Range, p: int, tgt: Target)
    requires TypeOf(c).IsSequential() && r.Has(p) && Range(0, Store(TypeOf(c), tgt)).Includes(r)
    requires Image(c, p, tgt).Some?
    ensures SequentialRange(c, r, tgt).Has(p)
    decreases TypeOf(c), 1
  {
    var t := TypeOf(c);
    SequentialStride(t, tgt);
    var stride := Alloc(t.elt, tgt);
    var k := Div(p, stride);
    SlotOfPosition(r.first, r.last, p, t.count, stride);
    var q := p - Mul(k, stride);
    ImageElem(c, k, q, p, tgt);
    ElemCovers(c, Div(r.first, stride), Div(r.last + stride - 1, stride), k, q, p, tgt);
  }

  /** A defined bit of element k is in the hull of any element range holding k. */
  lemma ElemCovers(c: Constant, f: nat, l: nat, k: nat, q: int, p: int, tgt: Target)
    requires TypeOf(c).IsSequential() && f <= k < l <= TypeOf(c).count
    requires 0 <= q < Alloc(TypeOf(c).elt, tgt) && Image(Elem(c, k), q, tgt).Some?
    requires p == Mul(k, Alloc(TypeOf(c).elt, tgt)) + q
    ensures ElemHull(c, f, l, tgt).Has(p)
    decreases TypeOf(c), 0
  {
    var stride := Alloc(TypeOf(c).elt, tgt);
    ViewRangeCovers(Elem(c, k), Range(0, stride), q, tgt);
    assert ElemRange(c, k, tgt).Has(q + Mul(k, stride));
    ElemHullIncludes(c, f, l, k, tgt);
  }

  lemma StructCovers(c: Constant, r: Range, p: int, tgt: Target)
    requires TypeOf(c).StructTy? && r.Has(p) && Range(0, Store(TypeOf(c), tgt)).Includes(r)
    requires Image(c, p, tgt).Some?
    ensures StructRange(c, r, tgt).Has(p)
    decreases TypeOf(c), 1
  {
    var t := TypeOf(c);
    StructHasFields(t, tgt);
    var i := FieldAt(t, p, tgt).value;
    FieldsApart(t, i, StructFirstIdx(t, r.first, tgt), tgt);
    var q := p - FieldOffset(t, i, tgt);
    ImageField(c, i, q, p, tgt);
    FieldCovers(c, StructFirstIdx(t, r.first, tgt), StructLastIdx(t, r.last, tgt), i, q, p, tgt);
  }

  /** A defined bit of field i is in the hull of any field range holding i. */
  lemma FieldCovers(c: Constant, f: nat, l: nat, i: nat, q: int, p: int, tgt: Target)
    requires TypeOf(c).StructTy? && f <= i < l <= |TypeOf(c).fields|
    requires 0 <= q < Store(TypeOf(c).fields[i], tgt) && Image(Elem(c, i), q, tgt).Some?
    requires p == FieldOffset(TypeOf(c), i, tgt) + q
    ensures FieldHull(c, f, l, tgt).Has(p)
    decreases TypeOf(c), 0
  {
    var t := TypeOf(c);
    ViewRangeCovers(Elem(c, i), Range(0, Store(t.fields[i], tgt)), q, tgt);
    assert FieldRange(c, i, tgt).Has(q + FieldOffset(t, i, tgt));
    FieldHullIncludes(c, f, l, i, tgt);
  }

  // ------------------------------------------------- accumulating the view

  /** Merging a slice of c's image into the image over an earlier range gives
      the image over the hull, provided the gap between them is undefined. */
  lemma MergeImage(c: Constant, h: Range, b: BitSlice, tgt: Target)
    requires b.Valid() && !h.Intersects(b.r) && HoldsImage(c, b, tgt)
    requires !h.Empty() && !b.r.Empty() ==>
      forall p :: h.Join(b.r).Has(p) && !h.Has(p) && !b.r.Has(p) ==> !ImageBit(c, p, tgt)
    ensures !ImageSlice(c, h, tgt).r.Intersects(b.r)
    ensures ImageSlice(c, h, tgt).Merge(b, tgt.bigEndian) == ImageSlice(c, h.Join(b.r), tgt)
  {
    var be := tgt.bigEndian;
    var a := ImageSlice(c, h, tgt);
    var m := a.Merge(b, be);
    var want := ImageSlice(c, h.Join(b.r), tgt);
    if h.Empty() && !b.r.Empty() {
      EqualByBits(m, want, be);
    } else if !h.Empty() && !b.r.Empty() {
      forall p | m.r.Has(p) ensures m.BitAt(p, be) == want.BitAt(p, be) {
        if !h.Has(p) && !b.r.Has(p) {
          MergeOutside(a, b, be, p);
        }
      }
      EqualByBits(m, want, be);
    }
  }

  /** A bit of the stride of element j outside that element's range is undefined. */
  lemma OutsideElem(c: Constant, j: nat, p: int, tgt: Target)
    requires TypeOf(c).IsSequential() && j < TypeOf(c).count
    requires Mul(j, Alloc(TypeOf(c).elt, tgt)) <= p < Mul(j, Alloc(TypeOf(c).elt, tgt)) + Alloc(TypeOf(c).elt, tgt)
    requires !ElemRange(c, j, tgt).Has(p)
    ensures Image(c, p, tgt).None?
  {
    var stride := Alloc(TypeOf(c).elt, tgt);
    var q := p - Mul(j, stride);
    ImageElem(c, j, q, p, tgt);
    ViewRangeCovers(Elem(c, j), Range(0, stride), q, tgt);
    assert ViewRange(Elem(c, j), Range(0, stride), tgt).Has(q) <==> ElemRange(c, j, tgt).Has(q + Mul(j, stride));
  }

  /** A bit of the slot of field j outside that field's range is undefined. */
  lemma OutsideField(c: Constant, j: nat, p: int, tgt: Target)
    requires TypeOf(c).StructTy? && j < |TypeOf(c).fields|
    requires FieldSlot(TypeOf(c), j, tgt).Has(p) && !FieldRange(c, j, tgt).Has(p)
    ensures Image(c, p, tgt).None?
  {
    var t := TypeOf(c);
    var q := p - FieldOffset(t, j, tgt);
    ImageField(c, j, q, p, tgt);
    ViewRangeCovers(Elem(c, j), Range(0, Store(t.fields[j], tgt)), q, tgt);
    assert ViewRange(Elem(c, j), Range(0, Store(t.fields[j], tgt)), tgt).Has(q) <==>
      FieldRange(c, j, tgt).Has(q + FieldOffset(t, j, tgt));
  }

  /** A bit in no field's slot is padding. */
  lemma OutsideFields(c: Constant, p: int, tgt: Target)
    requires TypeOf(c).StructTy? && FieldAt(TypeOf(c), p, tgt).None?
    ensures Image(c, p, tgt).None?
  {
  }

  /** Between the hull of elements f .. i-1 and the range of element i lie
      only undefined bits. */
  lemma ElemGap(c: Constant, f: nat, i: nat, p: int, tgt: Target)
    requires TypeOf(c).IsSequential() && Store(TypeOf(c), tgt) > 0 && f <= i < TypeOf(c).count
    requires !ElemHull(c, f, i, tgt).Empty() && !ElemRange(c, i, tgt).Empty()
    requires ElemHull(c, f, i, tgt).last <= p < ElemRange(c, i, tgt).first
    ensures Image(c, p, tgt).None?
  {
    var t := TypeOf(c);
    SequentialStride(t, tgt);
    var stride := Alloc(t.elt, tgt);
    SizeFacts(t.elt, tgt);
    SlotBetween(f, i, p, stride);
    var j := Div(p, stride);
    NotInElem(c, f, i, j, p, tgt);
    OutsideElem(c, j, p, tgt);
  }

  lemma NotInElem(c: Constant, f: nat, i: nat, j: nat, p: int, tgt: Target)
    requires TypeOf(c).IsSequential() && f <= j <= i < TypeOf(c).count
    requires ElemHull(c, f, i, tgt).last <= p < ElemRange(c, i, tgt).first
    requires !ElemHull(c, f, i, tgt).Empty()
    ensures !ElemRange(c, j, tgt).Has(p)
  {
    if j < i {
      ElemHullIncludes(c, f, i, j, tgt);
    }
  }

  /** Between the hull of fields f .. i-1 and the range of field i lie only
      undefined bits. */
  lemma FieldGap(c: Constant, f: nat, i: nat, p: int, tgt: Target)
    requires TypeOf(c).StructTy? && f <= i < |TypeOf(c).fields|
    requires !FieldHull(c, f, i, tgt).Empty() && !FieldRange(c, i, tgt).Empty()
    requires FieldHull(c, f, i, tgt).last <= p < FieldRange(c, i, tgt).first
    ensures Image(c, p, tgt).None?
  {
    var t := TypeOf(c);
    match FieldAt(t, p, tgt)
    case None =>
      OutsideFields(c, p, tgt);
    case Some(j) =>
      FieldsApart(t, j, f, tgt);
      FieldsApart(t, i, j, tgt);
      if j < i {
        FieldHullIncludes(c, f, i, j, tgt);
      }
      assert !FieldRange(c, j, tgt).Has(p);
      OutsideField(c, j, p, tgt);
  }

  /** A slice of e's image, displaced to where e sits inside c, is a slice of
      c's image. */
  lemma DisplacedImage(c: Constant, e: Constant, v: BitSlice, off: int, tgt: Target)
    requires v.Valid() && HoldsImage(e, v, tgt) && ImagesAgree(c, e, v.r, off, tgt)
    ensures HoldsImage(c, v.Displace(off), tgt)
  {
    var b := v.Displace(off);
    forall p | b.r.Has(p) ensures b.BitAt(p, tgt.bigEndian) == ImageBit(c, p, tgt) {
      var q := p - off;
      assert v.r.Has(q);
      assert b.BitAt(q + off, tgt.bigEndian) == v.BitAt(q, tgt.bigEndian);
    }
  }

  /** The whole view of element i lies within one stride. */
  lemma ViewInStride(c: Constant, i: nat, tgt: Target)
    requires TypeOf(c).IsSequential() && i < TypeOf(c).count
    ensures var v := View(Elem(c, i), Range(0, Alloc(TypeOf(c).elt, tgt)), tgt);
      forall q :: v.r.Has(q) ==> 0 <= q < Alloc(TypeOf(c).elt, tgt)
  {
    SizeFacts(TypeOf(c).elt, tgt);
    assert TypeOf(Elem(c, i)) == TypeOf(c).elt;
  }

  /** The whole view of element i, placed at i strides, covers ElemRange ... */
  lemma ElemPlacedRange(c: Constant, i: nat, tgt: Target)
    requires TypeOf(c).IsSequential() && i < TypeOf(c).count
    ensures var stride := Alloc(TypeOf(c).elt, tgt);
      var b := View(Elem(c, i), Range(0, stride), tgt).Displace(Mul(i, stride));
      b.r == ElemRange(c, i, tgt) || (b.r.Empty() && ElemRange(c, i, tgt).Empty())
  {
  }

  /** ... and holds c's image there. */
  lemma ElemPlacedBits(c: Constant, i: nat, tgt: Target)
    requires TypeOf(c).IsSequential() && i < TypeOf(c).count
    ensures var stride := Alloc(TypeOf(c).elt, tgt);
      HoldsImage(c, View(Elem(c, i), Range(0, stride), tgt).Displace(Mul(i, stride)), tgt)
  {
    var t := TypeOf(c);
    var stride := Alloc(t.elt, tgt);
    var off := Mul(i, stride);
    var v := View(Elem(c, i), Range(0, stride), tgt);
    ViewHolds(Elem(c, i), Range(0, stride), tgt);
    ViewInStride(c, i, tgt);
    forall q | v.r.Has(q) ensures Image(c, q + off, tgt) == Image(Elem(c, i), q, tgt) {
      ImageElem(c, i, q, q + off, tgt);
    }
    DisplacedImage(c, Elem(c, i), v, off, tgt);
  }

  /** The whole view of field i, placed at its offset, covers FieldRange ... */
  lemma FieldPlacedRange(c: Constant, i: nat, tgt: Target)
    requires TypeOf(c).StructTy? && i < |TypeOf(c).fields|
    ensures var t := TypeOf(c);
      var b := View(Elem(c, i), Range(0, Store(t.fields[i], tgt)), tgt).Displace(FieldOffset(t, i, tgt));
      b.r == FieldRange(c, i, tgt) || (b.r.Empty() && FieldRange(c, i, tgt).Empty())
  {
  }

  /** ... and holds c's image there. */
  lemma FieldPlacedBits(c: Constant, i: nat, tgt: Target)
    requires TypeOf(c).StructTy? && i < |TypeOf(c).fields|
    ensures var t := TypeOf(c);
      HoldsImage(c, View(Elem(c, i), Range(0, Store(t.fields[i], tgt)), tgt).Displace(FieldOffset(t, i, tgt)), tgt)
  {
    var t := TypeOf(c);
    var e := Elem(c, i);
    var v := View(e, Range(0, Store(t.fields[i], tgt)), tgt);
    ViewHolds(e, Range(0, Store(t.fields[i], tgt)), tgt);
    assert TypeOf(e) == t.fields[i];
    FieldImages(c, i, v.r, tgt);
    DisplacedImage(c, e, v, FieldOffset(t, i, tgt), tgt);
  }

  /** Over a range inside the store of field i, c's image at the field's
      offset is the field's image. */
  lemma FieldImages(c: Constant, i: nat, r: Range, tgt: Target)
    requires TypeOf(c).StructTy? && i < |TypeOf(c).fields|
    requires Range(0, Store(TypeOf(c).fields[i], tgt)).Includes(r)
    ensures ImagesAgree(c, Elem(c, i), r, FieldOffset(TypeOf(c), i, tgt), tgt)
  {
    var off := FieldOffset(TypeOf(c), i, tgt);
    forall q | r.Has(q) ensures Image(c, q + off, tgt) == Image(Elem(c, i), q, tgt) {
      var p := q + off;
      ImageField(c, i, q, p, tgt);
    }
  }

  /** One iteration of the array and vector loop: merging the view of element
      i into the image over elements f .. i-1 gives the image over f .. i. */
  lemma ElemStep(c: Constant, f: nat, i: nat, tgt: Target)
    requires TypeOf(c).IsSequential() && Store(TypeOf(c), tgt) > 0 && f <= i < TypeOf(c).count
    ensures var stride := Alloc(TypeOf(c).elt, tgt);
      var a := ImageSlice(c, ElemHull(c, f, i, tgt), tgt);
      var b := View(Elem(c, i), Range(0, stride), tgt).Displace(Mul(i, stride));
      && !a.r.Intersects(b.r)
      && a.Merge(b, tgt.bigEndian) == ImageSlice(c, ElemHull(c, f, i + 1, tgt), tgt)
  {
    var stride := Alloc(TypeOf(c).elt, tgt);
    var h, e := ElemHull(c, f, i, tgt), ElemRange(c, i, tgt);
    var b := View(Elem(c, i), Range(0, stride), tgt).Displace(Mul(i, stride));
    ElemPlacedRange(c, i, tgt);
    ElemPlacedBits(c, i, tgt);
    if !h.Empty() && !b.r.Empty() {
      forall p | h.Join(b.r).Has(p) && !h.Has(p) && !b.r.Has(p) ensures !ImageBit(c, p, tgt) {
        ElemGap(c, f, i, p, tgt);
      }
    }
    MergeImage(c, h, b, tgt);
  }

  /** The hull of fields f .. i-1 ends before field i starts. */
  lemma FieldHullBefore(c: Constant, f: nat, i: nat, tgt: Target)
    requires TypeOf(c).StructTy? && f <= i < |TypeOf(c).fields|
    ensures FieldHull(c, f, i, tgt).Empty() || FieldHull(c, f, i, tgt).last <= FieldOffset(TypeOf(c), i, tgt)
  {
    if f < i {
      FieldsApart(TypeOf(c), i - 1, i, tgt);
    }
  }

  /** One iteration of the struct loop. */
  lemma FieldStep(c: Constant, f: nat, i: nat, tgt: Target)
    requires TypeOf(c).StructTy? && f <= i < |TypeOf(c).fields|
    ensures var t := TypeOf(c);
      var a := ImageSlice(c, FieldHull(c, f, i, tgt), tgt);
      var b := View(Elem(c, i), Range(0, Store(t.fields[i], tgt)), tgt).Displace(FieldOffset(t, i, tgt));
      && !a.r.Intersects(b.r)
      && a.Merge(b, tgt.bigEndian) == ImageSlice(c, FieldHull(c, f, i + 1, tgt), tgt)
  {
    var t := TypeOf(c);
    var h, e := FieldHull(c, f, i, tgt), FieldRange(c, i, tgt);
    var b := View(Elem(c, i), Range(0, Store(t.fields[i], tgt)), tgt).Displace(FieldOffset(t, i, tgt));
    FieldPlacedRange(c, i, tgt);
    FieldPlacedBits(c, i, tgt);
    FieldHullBefore(c, f, i, tgt);
    if !h.Empty() && !b.r.Empty() {
      forall p | h.Join(b.r).Has(p) && !h.Has(p) && !b.r.Has(p) ensures !ImageBit(c, p, tgt) {
        FieldGap(c, f, i, p, tgt);
      }
    }
    MergeImage(c, h, b, tgt);
  }

  /** A scalar's view is its value bits where the scalar keeps them. */
  lemma ScalarView(c: Constant, R: Range, tgt: Target)
    requires TypeOf(c).IsScalar() && !R.Empty() && !R.Meet(Range(0, Store(TypeOf(c), tgt))).Empty()
    ensures WfType(TypeOf(c))
    ensures View(c, R, tgt) == BitSlice(ScalarRange(TypeOf(c), tgt), Some(ScalarBits(c, tgt)))
  {
    WfConstType(c);
    var s := BitSlice(ScalarRange(TypeOf(c), tgt), Some(ScalarBits(c, tgt)));
    var v := View(c, R, tgt);
    forall p | s.r.Has(p) ensures v.BitAt(p, tgt.bigEndian) == s.BitAt(p, tgt.bigEndian) {
    }
    EqualByBits(v, s, tgt.bigEndian);
  }

  // ---------------------------------------------------------- ViewAsBits

  /** View the given constant as the bits it leaves in memory, keeping at least
      the defined bits inside window R. */
  method ViewAsBits(c: Constant, R: Range, tgt: Target) returns (bits: BitSlice)
    ensures bits == View(c, R, tgt)
    decreases TypeOf(c), 3
  {
    if R.Empty() {
      return EmptySlice;
    }
    var t := TypeOf(c);
    var storeSize := Store(t, tgt);
    var r := R.Meet(Range(0, storeSize));
    if r.Empty() {
      return EmptySlice;
    }
    if t.IsScalar() {
      ScalarView(c, R, tgt);
      bits := BitSlice(ScalarRange(t, tgt), Some(ScalarBits(c, tgt)));
    } else if t.IsSequential() {
      bits := SequentialBits(c, r, tgt);
    } else {
      bits := StructBits(c, r, tgt);
    }
  }

  /** The elements [first / stride, (last + stride - 1) / stride) of an array
      or vector overlap the sanitized window r. */
  method SequentialBits(c: Constant, r: Range, tgt: Target) returns (bits: BitSlice)
    requires TypeOf(c).IsSequential() && !r.Empty() && Range(0, Store(TypeOf(c), tgt)).Includes(r)
    ensures bits == ImageSlice(c, SequentialRange(c, r, tgt), tgt)
    decreases TypeOf(c), 2
  {
    var t := TypeOf(c);
    SequentialStride(t, tgt);
    var stride := Alloc(t.elt, tgt);
    var firstElt := Div(r.first, stride);
    var lastElt := Div(r.last + stride - 1, stride);
    DivMono(r.first, r.last + stride - 1, stride);
    DivCeilBelow(r.last, t.count, stride);
    assert SequentialRange(c, r, tgt) == ElemHull(c, firstElt, lastElt, tgt);
    bits := ElemLoop(c, firstElt, lastElt, tgt);
  }

  /** The fields [StructFirstIdx, StructLastIdx) of a struct overlap the
      sanitized window r. */
  method StructBits(c: Constant, r: Range, tgt: Target) returns (bits: BitSlice)
    requires TypeOf(c).StructTy? && !r.Empty() && Range(0, Store(TypeOf(c), tgt)).Includes(r)
    ensures bits == ImageSlice(c, StructRange(c, r, tgt), tgt)
    decreases TypeOf(c), 2
  {
    var t := TypeOf(c);
    StructHasFields(t, tgt);
    StructIdxOrdered(t, r.first, r.last, tgt);
    var firstIdx := StructFirstIdx(t, r.first, tgt);
    var lastIdx := StructLastIdx(t, r.last, tgt);
    bits := FieldLoop(c, firstIdx, lastIdx, tgt);
  }

  /** The array and vector loop: merge the whole view of each element
      f .. l-1, displaced to its stride. */
  method ElemLoop(c: Constant, f: nat, l: nat, tgt: Target) returns (bits: BitSlice)
    requires TypeOf(c).IsSequential() && Store(TypeOf(c), tgt) > 0 && f <= l <= TypeOf(c).count
    ensures bits == ImageSlice(c, ElemHull(c, f, l, tgt), tgt)
    decreases TypeOf(c), 1
  {
    bits := EmptySlice;
    assert ElemHull(c, f, f, tgt) == EmptyRange;
    var i := f;
    while i < l
      invariant f <= i <= l
      invariant bits == ImageSlice(c, ElemHull(c, f, i, tgt), tgt)
    {
      bits := AddElem(c, f, i, bits, tgt);
      i := i + 1;
    }
  }

  /** The struct loop: merge the whole view of each field f .. l-1,
      displaced to its offset. */
  method FieldLoop(c: Constant, f: nat, l: nat, tgt: Target) returns (bits: BitSlice)
    requires TypeOf(c).StructTy? && f <= l <= |TypeOf(c).fields|
    ensures FieldsViewed(c, f, l, bits, tgt)
    decreases TypeOf(c), 1
  {
    bits := EmptySlice;
    NoFieldsViewed(c, f, tgt);
    var i := f;
    while i < l
      invariant i <= l && FieldsViewed(c, f, i, bits, tgt)
      decreases l - i
    {
      bits := AddField(c, f, i, bits, tgt);
      i := i + 1;
    }
  }

  /** No fields viewed yet: the empty slice. */
  lemma NoFieldsViewed(c: Constant, f: nat, tgt: Target)
    requires TypeOf(c).StructTy? && f <= |TypeOf(c).fields|
    ensures FieldsViewed(c, f, f, EmptySlice, tgt)
  {
    assert FieldHull(c, f, f, tgt) == EmptyRange;
  }

  /** bits is the image of c over the hull of fields f .. i-1. */
  ghost predicate FieldsViewed(c: Constant, f: nat, i: nat, bits: BitSlice, tgt: Target)
  {
    TypeOf(c).StructTy? && f <= i <= |TypeOf(c).fields| &&
    bits == ImageSlice(c, FieldHull(c, f, i, tgt), tgt)
  }

  /** One array or vector element: extract it, view the whole stride of it,
      and merge it at i strides. */
  method AddElem(c: Constant, f: nat, i: nat, bits: BitSlice, tgt: Target) returns (next: BitSlice)
    requires TypeOf(c).IsSequential() && Store(TypeOf(c), tgt) > 0 && f <= i < TypeOf(c).count
    requires bits == ImageSlice(c, ElemHull(c, f, i, tgt), tgt)
    ensures next == ImageSlice(c, ElemHull(c, f, i + 1, tgt), tgt)
    decreases TypeOf(c), 0
  {
    var stride := Alloc(TypeOf(c).elt, tgt);
    var eltBits := ViewAsBits(Elem(c, i), Range(0, stride), tgt);
    ElemStep(c, f, i, tgt);
    next := bits.Merge(eltBits.Displace(Mul(i, stride)), tgt.bigEndian);
  }

  /** One struct field: extract it, view all of its store, and merge it at
      the field's offset. */
  method AddField(c: Constant, f: nat, i: nat, bits: BitSlice, tgt: Target) returns (next: BitSlice)
    requires TypeOf(c).StructTy? && f <= i < |TypeOf(c).fields|
    requires FieldsViewed(c, f, i, bits, tgt)
    ensures FieldsViewed(c, f, i + 1, next, tgt)
    decreases TypeOf(c), 0
  {
    var t := TypeOf(c);
    var fieldStoreSize := Store(t.fields[i], tgt);
    var fieldBits := ViewAsBits(Elem(c, i), Range(0, fieldStoreSize), tgt);
    FieldStep(c, f, i, tgt);
    next := bits.Merge(fieldBits.Displace(FieldOffset(t, i, tgt)), tgt.bigEndian);
  }
}
