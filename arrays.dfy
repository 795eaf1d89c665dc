/**
 * ConvertArrayCONSTRUCTOR: the initializer of an array or vector type built
 * from a constructor's list of (index, value) elements.  Each element fills
 * one slot, an inclusive range of slots, or (with no index) the slot after
 * the previous element's; the slot vector grows to cover the highest index
 * and starts at the type's length when that is known; slots left unset get
 * the element type's default value.  The slots then become an array, a
 * vector, or, when their types differ, padding is needed or an element is
 * more aligned than the array, a struct.
 *
 * The element values arrive already converted to the element type (the
 * conversion, ConvertInitializerWithCast, is not part of this model); what is
 * modelled is the slot bookkeeping and the choice of the result's shape.
 */
module ArrayCtor {
  import opened Wrappers
  import opened Arith
  import opened Types

  /** The position a constructor element names: none (the next slot), one
      index, or an inclusive range of indices, as the front end writes them,
      that is before the array's lower bound is subtracted. */
  datatype Index = Next | At(i: int) | Span(first: int, last: int)

  /** A constructor element: where it goes and its converted value. */
  datatype Elt = Elt(index: Index, value: Constant)

  /** The indices an element names are at or above the array's lower bound,
      so that they are valid zero-based slots once it is subtracted. */
  predicate InBounds(x: Index, lower: int) {
    match x
    case Next => true
    case At(i) => i >= lower
    case Span(f, l) => f >= lower && l >= lower
  }

  predicate AllInBounds(es: seq<Elt>, lower: int) {
    forall j :: 0 <= j < |es| ==> InBounds(es[j].index, lower)
  }

  /** The zero-based first and last slot (FirstIndex, LastIndex, inclusive)
      an element fills when the next free slot is next. */
  function Slots(x: Index, lower: int, next: nat): (nat, nat)
    requires InBounds(x, lower)
  {
    match x
    case Next => (next, next)
    case At(i) => (i - lower, i - lower)
    case Span(f, l) => (f - lower, l - lower)
  }

  /** The slot after filling s: one past its last slot, or its first slot
      when the range is empty. */
  function After(s: (nat, nat)): nat {
    if s.0 <= s.1 then s.1 + 1 else s.0
  }

  /** NextIndex when element j is reached. */
  function NextAt(es: seq<Elt>, lower: int, j: nat): nat
    requires AllInBounds(es, lower) && j <= |es|
    decreases j, 0
  {
    if j == 0 then 0 else After(SlotsOf(es, lower, j - 1))
  }

  /** The slots element j fills. */
  function SlotsOf(es: seq<Elt>, lower: int, j: nat): (nat, nat)
    requires AllInBounds(es, lower) && j < |es|
    decreases j, 1
  {
    Slots(es[j].index, lower, NextAt(es, lower, j))
  }

  /** The known length of the type, or zero when it is not known. */
  function InitialSize(typeElts: Option<nat>): nat {
    if typeElts.Some? then typeElts.value else 0
  }

  /** The number of slots once the first j elements are in: the initial size,
      grown to LastIndex + 1 whenever an element's last slot is beyond it. */
  function SizeAt(es: seq<Elt>, lower: int, init: nat, j: nat): nat
    requires AllInBounds(es, lower) && j <= |es|
  {
    if j == 0 then init
    else
      var s := SizeAt(es, lower, init, j - 1);
      var l := SlotsOf(es, lower, j - 1).1;
      if l >= s then l + 1 else s
  }

  /** The last of the first j elements whose slots include slot k. */
  function WriterAt(es: seq<Elt>, lower: int, k: nat, j: nat): (w: Option<nat>)
    requires AllInBounds(es, lower) && j <= |es|
    ensures w.Some? ==> w.value < j && SlotsOf(es, lower, w.value).0 <= k <= SlotsOf(es, lower, w.value).1
  {
    if j == 0 then None
    else
      var s := SlotsOf(es, lower, j - 1);
      if s.0 <= k <= s.1 then Some(j - 1) else WriterAt(es, lower, k, j - 1)
  }

  /** The number of bytes from one whole-byte size up to a larger one. */
  function PadUnits(from: nat, to: nat): (u: nat)
    requires from <= to && Mod(from, 8) == 0 && Mod(to, 8) == 0
    ensures from + u * 8 == to
  {
    DivMod(from, 8);
    DivMod(to, 8);
    DivOfMul(Div(to, 8) - Div(from, 8), 0, 8);
    Div(to - from, 8)
  }

  /** A value narrower than the element size, followed by undefined bytes
      making up the difference: an unpacked struct {value, [units x i8]}. */
  function PadTo(v: Constant, eltSize: nat, tgt: Target): (p: Constant)
    requires Alloc(TypeOf(v), tgt) <= eltSize && Mod(eltSize, 8) == 0
    ensures Alloc(TypeOf(v), tgt) == eltSize ==> p == v
    ensures Alloc(TypeOf(v), tgt) < eltSize ==>
      p.StructC? && !p.packed && |p.fields| == 2 && p.fields[0] == v && IsPad(p.fields[1]) &&
      Alloc(TypeOf(v), tgt) + Store(p.fields[1].ty, tgt) == eltSize
    ensures Alloc(TypeOf(p), tgt) >= eltSize
  {
    var valSize := Alloc(TypeOf(v), tgt);
    if valSize < eltSize then
      SizeFacts(TypeOf(v), tgt);
      var pad := PadBytes(valSize, eltSize, tgt);
      var fs := [v, pad];
      assert WfConst(fs[0]) && WfConst(fs[1]);
      PairCovers(v, pad, tgt);
      StructC(false, fs)
    else v
  }

  /** The unpacked struct {v, pad} is at least as big as v's alloc size and
      pad's store size together. */
  lemma PairCovers(v: Constant, pad: Constant, tgt: Target)
    ensures Alloc(TypeOf(StructC(false, [v, pad])), tgt) >= Alloc(TypeOf(v), tgt) + Store(TypeOf(pad), tgt)
  {
    var fs := [v, pad];
    var t := TypeOf(StructC(false, fs));
    StructOf(false, fs, tgt);
    var sizes, aligns := FieldAllocs(t, tgt), FieldAligns(t, tgt);
    PlaceAtLeast(0, aligns[0], false);
    PlaceAtLeast(LayoutEndTo(sizes, aligns, false, 1), aligns[1], false);
    SizeFacts(TypeOf(pad), tgt);
    StructCovers(t, tgt);
  }

  /** The padded element can be bigger than the element size: an i32 padded
      to 48 bits becomes {i32, [2 x i8]}, which is 32-bit aligned when i32 is,
      and so takes 64 bits. */
  lemma PadToOversized(tgt: Target)
    requires tgt.maxAlign >= 32
    ensures var v: Constant := IntC(seq(32, _ => false));
      Alloc(TypeOf(v), tgt) == 32 && Alloc(TypeOf(PadTo(v, 48, tgt)), tgt) == 64
  {
    var v: Constant := IntC(seq(32, _ => false));
    I32Layout(tgt);
    var p := PadTo(v, 48, tgt);
    UnitTySize(p.fields[1].ty.count, tgt);
    PairAlloc(v, p.fields[1], tgt);
  }

  /** A 32-bit, 32-bit aligned value followed by two bytes takes 64 bits
      in an unpacked struct. */
  lemma PairAlloc(v: Constant, pad: Constant, tgt: Target)
    requires Alloc(TypeOf(v), tgt) == 32 && Align(TypeOf(v), tgt) == 32
    requires Alloc(TypeOf(pad), tgt) == 16 && Align(TypeOf(pad), tgt) == 8
    ensures Alloc(TypeOf(StructC(false, [v, pad])), tgt) == 64
  {
    var t := TypeOf(StructC(false, [v, pad]));
    StructOf(false, [v, pad], tgt);
    var sizes, aligns := FieldAllocs(t, tgt), FieldAligns(t, tgt);
    assert sizes == [32, 16] && aligns == [32, 8];
    PairLayout();
    assert Align(t, tgt) == MaxOf(8, aligns);
    RoundUpBounds(48, 32);
    RoundUpMultiple(2, 32);
    assert Store(t, tgt) == 64;
  }

  /** An i32 is 32 bits big and, when the target allows it, 32-bit aligned. */
  lemma I32Layout(tgt: Target)
    requires tgt.maxAlign >= 32
    ensures Align(IntTy(32), tgt) == 32 && Alloc(IntTy(32), tgt) == 32
  {
    var cap := tgt.maxAlign;
    RoundUpMultiple(4, 8);
    assert Pow2AtLeast(32, 32, cap) == 32;
    assert Pow2AtLeast(32, 16, cap) == Pow2AtLeast(32, 32, cap);
    assert Pow2AtLeast(32, 8, cap) == Pow2AtLeast(32, 16, cap);
    RoundUpMultiple(1, 32);
  }

  /** The fields {32 bits, 32-bit aligned} and {16 bits, byte-aligned} end at
      bit 48, and the more aligned one sets the alignment. */
  lemma PairLayout()
    ensures LayoutEnd([32, 16], [32, 8], false) == 48
    ensures MaxOf(8, [32, 8]) == 32
  {
    var sizes, aligns: seq<nat> := [32, 16], [32, 8];
    RoundUpOfAligned(0, 32);
    assert LayoutEndTo(sizes, aligns, false, 1) == 32;
    RoundUpMultiple(4, 8);
    assert LayoutEndTo(sizes, aligns, false, 2) == 48;
    var m: seq<nat> := [32, 8];
    assert m[..1] == [32] && m[..1][..0] == [];
  }

  /** Slot k after the first j elements: the padded value of the last element
      filling it, or nothing. */
  function Written(es: seq<Elt>, lower: int, eltSize: nat, k: nat, j: nat, tgt: Target): Option<Constant>
    requires AllInBounds(es, lower) && j <= |es| && Mod(eltSize, 8) == 0
    requires forall i :: 0 <= i < |es| ==> Alloc(TypeOf(es[i].value), tgt) <= eltSize
  {
    match WriterAt(es, lower, k, j)
    case None => None
    case Some(i) => Some(PadTo(es[i].value, eltSize, tgt))
  }

  // ------------------------------------------------------ slot bookkeeping

  /** Every slot an element fills is below the slot count. */
  lemma {:induction false} SlotsBelowSize(es: seq<Elt>, lower: int, init: nat, j: nat, i: nat)
    requires AllInBounds(es, lower) && i < j <= |es|
    ensures SlotsOf(es, lower, i).1 < SizeAt(es, lower, init, j)
  {
    if i < j - 1 {
      SlotsBelowSize(es, lower, init, j - 1, i);
    }
  }

  /** A slot some element fills is below the slot count. */
  lemma WriterBelowSize(es: seq<Elt>, lower: int, init: nat, k: nat, j: nat)
    requires AllInBounds(es, lower) && j <= |es| && WriterAt(es, lower, k, j).Some?
    ensures k < SizeAt(es, lower, init, j)
  {
    SlotsBelowSize(es, lower, init, j, WriterAt(es, lower, k, j).value);
  }

  /** The slot count never falls below the type's length. */
  lemma {:induction false} SizeAtLeastInit(es: seq<Elt>, lower: int, init: nat, j: nat)
    requires AllInBounds(es, lower) && j <= |es|
    ensures SizeAt(es, lower, init, j) >= init
  {
    if j > 0 {
      SizeAtLeastInit(es, lower, init, j - 1);
    }
  }

  /** A range element fills every slot from its first to its last: each of
      them holds the value of that element or of a later one filling it too. */
  lemma {:induction false} RangeFills(es: seq<Elt>, lower: int, i: nat, k: nat, j: nat)
    requires AllInBounds(es, lower) && i < j <= |es|
    requires SlotsOf(es, lower, i).0 <= k <= SlotsOf(es, lower, i).1
    ensures WriterAt(es, lower, k, j).Some? && i <= WriterAt(es, lower, k, j).value
  {
    if i < j - 1 {
      RangeFills(es, lower, i, k, j - 1);
    }
  }

  /** An element without an index goes in the slot after the previous
      element's last slot (slot 0 for the first element); after an empty
      range, in that range's first slot. */
  lemma NextSlotAfterPrevious(es: seq<Elt>, lower: int, j: nat)
    requires AllInBounds(es, lower) && j < |es| && es[j].index.Next?
    ensures j == 0 ==> SlotsOf(es, lower, j) == (0, 0)
    ensures j > 0 && SlotsOf(es, lower, j - 1).0 <= SlotsOf(es, lower, j - 1).1 ==>
      SlotsOf(es, lower, j) == (SlotsOf(es, lower, j - 1).1 + 1, SlotsOf(es, lower, j - 1).1 + 1)
    ensures j > 0 && SlotsOf(es, lower, j - 1).0 > SlotsOf(es, lower, j - 1).1 ==>
      SlotsOf(es, lower, j) == (SlotsOf(es, lower, j - 1).0, SlotsOf(es, lower, j - 1).0)
  {
  }

  /** Element j overwrites exactly its own slots. */
  lemma WrittenStep(es: seq<Elt>, lower: int, eltSize: nat, k: nat, j: nat, tgt: Target)
    requires AllInBounds(es, lower) && j < |es| && Mod(eltSize, 8) == 0
    requires forall i :: 0 <= i < |es| ==> Alloc(TypeOf(es[i].value), tgt) <= eltSize
    ensures Written(es, lower, eltSize, k, j + 1, tgt) ==
      if SlotsOf(es, lower, j).0 <= k <= SlotsOf(es, lower, j).1 then Some(PadTo(es[j].value, eltSize, tgt))
      else Written(es, lower, eltSize, k, j, tgt)
  {
  }

  /** The loop over the constructor elements: resize the slot vector when an
      element's last slot is beyond it, write the element's (padded) value in
      each of its slots, and move NextIndex past them. */
  method FillSlots(es: seq<Elt>, lower: int, typeElts: Option<nat>, eltSize: nat, tgt: Target)
    returns (elts: seq<Option<Constant>>)
    requires AllInBounds(es, lower) && Mod(eltSize, 8) == 0
    requires forall i :: 0 <= i < |es| ==> Alloc(TypeOf(es[i].value), tgt) <= eltSize
    ensures |elts| == SizeAt(es, lower, InitialSize(typeElts), |es|)
    ensures forall k :: 0 <= k < |elts| ==> elts[k] == Written(es, lower, eltSize, k, |es|, tgt)
  {
    var init := InitialSize(typeElts);
    elts := seq(init, _ => None);
    var next: nat := 0;
    var j := 0;
    while j < |es|
      invariant 0 <= j <= |es|
      invariant next == NextAt(es, lower, j)
      invariant |elts| == SizeAt(es, lower, init, j)
      invariant forall k :: 0 <= k < |elts| ==> elts[k] == Written(es, lower, eltSize, k, j, tgt)
    {
      var val := PadTo(es[j].value, eltSize, tgt);
      var s := Slots(es[j].index, lower, next);
      var first, last := s.0, s.1;
      if last >= |elts| {
        elts := Grow(es, lower, init, eltSize, j, elts, last + 1, tgt);
      }
      elts, next := FillRange(elts, first, last, val);
      forall k | 0 <= k < |elts|
        ensures elts[k] == Written(es, lower, eltSize, k, j + 1, tgt)
      {
        WrittenStep(es, lower, eltSize, k, j, tgt);
      }
      j := j + 1;
    }
  }

  /** The resize of the slot vector: new slots hold nothing, as no element
      so far has written them. */
  method Grow(es: seq<Elt>, lower: int, init: nat, eltSize: nat, j: nat, elts: seq<Option<Constant>>, size: nat,
              tgt: Target)
    returns (grown: seq<Option<Constant>>)
    requires AllInBounds(es, lower) && j <= |es| && Mod(eltSize, 8) == 0
    requires forall i :: 0 <= i < |es| ==> Alloc(TypeOf(es[i].value), tgt) <= eltSize
    requires |elts| == SizeAt(es, lower, init, j) <= size
    requires forall k :: 0 <= k < |elts| ==> elts[k] == Written(es, lower, eltSize, k, j, tgt)
    ensures |grown| == size
    ensures forall k :: 0 <= k < size ==> grown[k] == Written(es, lower, eltSize, k, j, tgt)
  {
    grown := elts + seq(size - |elts|, _ => None);
    forall k | |elts| <= k < size ensures Written(es, lower, eltSize, k, j, tgt).None? {
      if WriterAt(es, lower, k, j).Some? {
        WriterBelowSize(es, lower, init, k, j);
      }
    }
  }

  /** The loop over one element's slots: slots first to last (none when
      first > last) get val, and the index ends one past the last slot, or
      at the first when there are none. */
  method FillRange(elts: seq<Option<Constant>>, first: nat, last: nat, val: Constant)
    returns (filled: seq<Option<Constant>>, next: nat)
    requires last < |elts|
    ensures |filled| == |elts| && next == After((first, last))
    ensures forall k :: 0 <= k < |elts| ==> filled[k] == if first <= k <= last then Some(val) else elts[k]
  {
    filled := elts;
    next := first;
    while next <= last
      invariant first <= next && (next <= last + 1 || next == first)
      invariant |filled| == |elts|
      invariant forall k :: 0 <= k < |elts| ==> filled[k] == if first <= k < next then Some(val) else elts[k]
    {
      filled := filled[next := Some(val)];
      next := next + 1;
    }
  }

  /** The default-fill loop: every slot left empty gets the default element. */
  method DefaultFill(elts: seq<Option<Constant>>, dflt: Constant) returns (filled: seq<Option<Constant>>)
    ensures |filled| == |elts|
    ensures forall i :: 0 <= i < |elts| ==> filled[i] == if elts[i].Some? then elts[i] else Some(dflt)
  {
    filled := elts;
    var i := 0;
    while i < |filled|
      invariant 0 <= i <= |filled| && |filled| == |elts|
      invariant forall k :: 0 <= k < |elts| ==>
        filled[k] == if k < i && elts[k].None? then Some(dflt) else elts[k]
    {
      if filled[i].None? {
        filled := filled[i := Some(dflt)];
      }
      i := i + 1;
    }
  }

  // -------------------------------------------------------- result shape

  /** The largest ABI alignment among the types of the first n values. */
  function MaxAlignTo(vals: seq<Constant>, n: nat, tgt: Target): nat
    requires 1 <= n <= |vals|
  {
    if n == 1 then Align(TypeOf(vals[0]), tgt)
    else
      var m := MaxAlignTo(vals, n - 1, tgt);
      var a := Align(TypeOf(vals[n - 1]), tgt);
      if a > m then a else m
  }

  /** MaxAlignTo is the maximum: no value is more aligned, and one is that aligned. */
  lemma {:induction false} MaxAlignIsMax(vals: seq<Constant>, n: nat, tgt: Target)
    requires 1 <= n <= |vals|
    ensures forall k :: 0 <= k < n ==> Align(TypeOf(vals[k]), tgt) <= MaxAlignTo(vals, n, tgt)
    ensures exists k :: 0 <= k < n && Align(TypeOf(vals[k]), tgt) == MaxAlignTo(vals, n, tgt)
  {
    if n > 1 {
      MaxAlignIsMax(vals, n - 1, tgt);
    }
  }

  /** The values do not all have the type of the first one. */
  predicate Mixed(vals: seq<Constant>)
    requires |vals| > 0
  {
    exists i :: 0 <= i < |vals| && TypeOf(vals[i]) != TypeOf(vals[0])
  }

  /** The scan for differing element types, which also takes the maximum
      alignment of the first element and of every element whose type
      differs from it. */
  method ScanTypes(vals: seq<Constant>, tgt: Target) returns (useStruct: bool, maxAlign: nat)
    requires |vals| > 0
    ensures useStruct <==> Mixed(vals)
    ensures maxAlign == MaxAlignTo(vals, |vals|, tgt)
  {
    useStruct := false;
    var actual := TypeOf(vals[0]);
    maxAlign := Align(actual, tgt);
    var i := 1;
    while i < |vals|
      invariant 1 <= i <= |vals|
      invariant useStruct <==> exists k :: 0 <= k < i && TypeOf(vals[k]) != actual
      invariant maxAlign == MaxAlignTo(vals, i, tgt)
    {
      if TypeOf(vals[i]) != actual {
        var a := Align(TypeOf(vals[i]), tgt);
        maxAlign := if a > maxAlign then a else maxAlign;
        useStruct := true;
      } else {
        MaxAlignIsMax(vals, i, tgt);
      }
      i := i + 1;
    }
  }

  /** The elements a constant is made of (the fields of a struct). */
  function Parts(c: Const): seq<Const> {
    match c
    case ArrayC(_, es) => es
    case VectorC(_, es) => es
    case StructC(_, fs) => fs
    case _ => []
  }

  /** Values of one type as a vector of it, when the type is a vector type
      whose element type it is, or as an array of it otherwise. */
  function Homogeneous(vals: seq<Constant>, eltTy: Type, isVector: bool): (r: Constant)
    requires |vals| > 0 && !Mixed(vals)
    ensures r.VectorC? <==> isVector && TypeOf(vals[0]) == eltTy
    ensures (r.ArrayC? || r.VectorC?) && r.elt == TypeOf(vals[0]) && Parts(r) == vals
  {
    var actual := TypeOf(vals[0]);
    WfConstType(vals[0]);
    assert forall i :: 0 <= i < |vals| ==> WfConst(vals[i]) && TypeOf(vals[i]) == actual;
    if actual == eltTy && isVector then VectorC(actual, vals) else ArrayC(actual, vals)
  }

  /** The final value of slot k once every element is in: the value of the
      last element filling it, padded to the element size, or the default
      element when none does. */
  function SlotValue(es: seq<Elt>, lower: int, eltTy: Type, defaultInit: bool, k: nat, tgt: Target): Constant
    requires WfType(eltTy) && AllInBounds(es, lower)
    requires forall i :: 0 <= i < |es| ==> Alloc(TypeOf(es[i].value), tgt) <= Alloc(eltTy, tgt)
  {
    SizeFacts(eltTy, tgt);
    DefaultValueWf(eltTy, defaultInit, tgt);
    match Written(es, lower, Alloc(eltTy, tgt), k, |es|, tgt)
    case None => DefaultValue(eltTy, defaultInit, tgt)
    case Some(v) => v
  }

  /** The values of all slots, in order. */
  function SlotValues(es: seq<Elt>, lower: int, typeElts: Option<nat>, eltTy: Type, defaultInit: bool, tgt: Target)
    : seq<Constant>
    requires WfType(eltTy) && AllInBounds(es, lower)
    requires forall i :: 0 <= i < |es| ==> Alloc(TypeOf(es[i].value), tgt) <= Alloc(eltTy, tgt)
  {
    var n := SizeAt(es, lower, InitialSize(typeElts), |es|);
    seq(n, k requires 0 <= k < n => SlotValue(es, lower, eltTy, defaultInit, k, tgt))
  }

  /** Every slot value is at least an element in size: the default element
      has the element type, and a written value is padded up to it. */
  lemma SlotValueSize(es: seq<Elt>, lower: int, eltTy: Type, defaultInit: bool, k: nat, tgt: Target)
    requires WfType(eltTy) && AllInBounds(es, lower)
    requires forall i :: 0 <= i < |es| ==> Alloc(TypeOf(es[i].value), tgt) <= Alloc(eltTy, tgt)
    ensures Alloc(TypeOf(SlotValue(es, lower, eltTy, defaultInit, k, tgt)), tgt) >= Alloc(eltTy, tgt)
  {
    DefaultValueWf(eltTy, defaultInit, tgt);
  }

  /** The shape of the converted array for slot values vals: a struct exactly
      when the values are of different types, they fall short of the type's
      alloc size typeSize, or one is more aligned than the array type (and
      then packed exactly in the last case); the values come first, followed,
      when they fall short, by one undefined byte array making up the
      difference; a homogeneous result is a vector when the type is a vector
      type and the values have its element type, and an array otherwise,
      either way of the first value's type. */
  ghost predicate ArrayShape(r: Const, vals: seq<Constant>, eltTy: Type, typeSize: nat, isVector: bool,
                             gccAlign: nat, tgt: Target)
    requires |vals| > 0
  {
    var n := |vals|;
    var padded := Mul(n, Alloc(eltTy, tgt)) < typeSize;
    var pack := MaxAlignTo(vals, n, tgt) > gccAlign;
    (r.StructC? || r.ArrayC? || r.VectorC?) &&
    (r.StructC? <==> Mixed(vals) || padded || pack) &&
    (r.StructC? ==> r.packed == pack) &&
    (!r.StructC? ==> r.elt == TypeOf(vals[0])) &&
    |Parts(r)| >= n && Parts(r)[..n] == vals &&
    (padded ==> |Parts(r)| == n + 1 && IsPad(Parts(r)[n]) &&
                Mul(n, Alloc(eltTy, tgt)) + Store(Parts(r)[n].ty, tgt) == typeSize) &&
    (!padded ==> |Parts(r)| == n) &&
    (r.VectorC? <==> !r.StructC? && isVector && TypeOf(vals[0]) == eltTy)
  }

  /** Undefined bytes taking a whole-byte size up to a larger one. */
  function PadBytes(from: nat, to: nat, tgt: Target): (c: Constant)
    requires from <= to && Mod(from, 8) == 0 && Mod(to, 8) == 0
    ensures IsPad(c) && from + Store(c.ty, tgt) == to
  {
    var units := PadUnits(from, to);
    UnitStore(units, tgt);
    var t := UnitTy(units);
    assert WfType(t.elt) && WfType(t);
    Undef(t)
  }

  /** Undefined bytes: the padding the struct gets in gaps and at its tail. */
  predicate IsPad(e: Const) {
    e.Undef? && e.ty.ArrayTy? && e.ty == UnitTy(e.ty.count)
  }

  /** No element is more aligned than m. */
  predicate AlignedBelow(es: seq<Constant>, m: nat, tgt: Target) {
    forall k :: 0 <= k < |es| ==> Align(TypeOf(es[k]), tgt) <= m
  }

  /** Padding is byte-aligned. */
  lemma PadAligned(es: seq<Constant>, from: nat, to: nat, m: nat, tgt: Target)
    requires AlignedBelow(es, m, tgt) && m >= 8
    requires from <= to && Mod(from, 8) == 0 && Mod(to, 8) == 0
    ensures AlignedBelow(es + [PadBytes(from, to, tgt)], m, tgt)
  {
    var pad := PadBytes(from, to, tgt);
    UnitTySize(pad.ty.count, tgt);
    var es' := es + [pad];
    assert forall k :: 0 <= k < |es| ==> es'[k] == es[k];
  }

  /** ConvertArrayCONSTRUCTOR.  typeElts is the type's length when known,
      lower the array's lower bound (0 when it has none), gccAlign the
      alignment the front end gives the array type, in bits.  With no slots
      the result is the default value of the array type; otherwise it has
      the shape ArrayShape gives the slot values. */
  method ConvertArray(es: seq<Elt>, lower: int, typeElts: Option<nat>, initTy: Type, eltTy: Type,
                      isVector: bool, gccAlign: nat, defaultInit: bool, tgt: Target)
    returns (r: Constant)
    requires WfType(initTy) && WfType(eltTy) && AllInBounds(es, lower)
    requires forall i :: 0 <= i < |es| ==> Alloc(TypeOf(es[i].value), tgt) <= Alloc(eltTy, tgt)
    ensures SizeAt(es, lower, InitialSize(typeElts), |es|) == 0 ==> r == DefaultValue(initTy, defaultInit, tgt)
    ensures SizeAt(es, lower, InitialSize(typeElts), |es|) > 0 ==>
      ArrayShape(r, SlotValues(es, lower, typeElts, eltTy, defaultInit, tgt), eltTy, Alloc(initTy, tgt),
                 isVector, gccAlign, tgt)
    ensures Alloc(TypeOf(r), tgt) >= Alloc(initTy, tgt)
    ensures SizeAt(es, lower, InitialSize(typeElts), |es|) > 0 ==>
      Align(TypeOf(r), tgt) <= (if gccAlign < 8 then 8 else gccAlign)
  {
    var eltSize := Alloc(eltTy, tgt);
    SizeFacts(eltTy, tgt);
    var slots := FillSlots(es, lower, typeElts, eltSize, tgt);
    var n := |slots|;
    if n == 0 {
      DefaultValueWf(initTy, defaultInit, tgt);
      return DefaultValue(initTy, defaultInit, tgt);
    }
    DefaultValueWf(eltTy, defaultInit, tgt);
    var dflt: Constant := DefaultValue(eltTy, defaultInit, tgt);
    var filled := DefaultFill(slots, dflt);
    var vals: seq<Constant> := seq(n, k requires 0 <= k < n => if filled[k].Some? then filled[k].value else dflt);
    assert vals == SlotValues(es, lower, typeElts, eltTy, defaultInit, tgt);
    SizeFacts(initTy, tgt);
    r := Assemble(vals, eltTy, Alloc(initTy, tgt), isVector, gccAlign, tgt);
    SlotsFit(r, es, lower, typeElts, initTy, eltTy, isVector, gccAlign, defaultInit, tgt);
  }

  /** The slot values assembled are at least as big as the array type and no
      more aligned than it (or a byte). */
  lemma SlotsFit(r: Constant, es: seq<Elt>, lower: int, typeElts: Option<nat>, initTy: Type, eltTy: Type,
                 isVector: bool, gccAlign: nat, defaultInit: bool, tgt: Target)
    requires WfType(initTy) && WfType(eltTy) && AllInBounds(es, lower)
    requires forall i :: 0 <= i < |es| ==> Alloc(TypeOf(es[i].value), tgt) <= Alloc(eltTy, tgt)
    requires SizeAt(es, lower, InitialSize(typeElts), |es|) > 0
    requires ArrayShape(r, SlotValues(es, lower, typeElts, eltTy, defaultInit, tgt), eltTy, Alloc(initTy, tgt),
                        isVector, gccAlign, tgt)
    ensures Alloc(TypeOf(r), tgt) >= Alloc(initTy, tgt)
    ensures Align(TypeOf(r), tgt) <= (if gccAlign < 8 then 8 else gccAlign)
  {
    var vals := SlotValues(es, lower, typeElts, eltTy, defaultInit, tgt);
    forall k | 0 <= k < |vals| ensures Alloc(TypeOf(vals[k]), tgt) >= Alloc(eltTy, tgt) {
      SlotValueSize(es, lower, eltTy, defaultInit, k, tgt);
    }
    ShapeSize(r, vals, eltTy, Alloc(initTy, tgt), isVector, gccAlign, tgt);
    ShapeAlign(r, vals, eltTy, Alloc(initTy, tgt), isVector, gccAlign, tgt);
  }

  /** The last part of ConvertArrayCONSTRUCTOR: the scan of the slot values'
      types, the padding up to the type's alloc size, and the choice between
      struct, vector and array. */
  method Assemble(vals: seq<Constant>, eltTy: Type, typeSize: nat, isVector: bool, gccAlign: nat, tgt: Target)
    returns (r: Constant)
    requires |vals| > 0 && Mod(typeSize, 8) == 0
    ensures ArrayShape(r, vals, eltTy, typeSize, isVector, gccAlign, tgt)
  {
    var n := |vals|;
    var eltSize := Alloc(eltTy, tgt);
    SizeFacts(eltTy, tgt);
    var useStruct, maxAlign := ScanTypes(vals, tgt);
    var pack := maxAlign > gccAlign;
    if Mul(n, eltSize) < typeSize {
      Mul8(n, eltSize);
      var elts := vals + [PadBytes(Mul(n, eltSize), typeSize, tgt)];
      assert elts[..n] == vals;
      return StructC(pack, elts);
    }
    if useStruct || pack {
      assert vals[..n] == vals;
      return StructC(pack, vals);
    }
    r := Homogeneous(vals, eltTy, isVector);
    assert vals[..n] == vals;
  }

  /** A result of that shape is at least as big as the type when every value
      is at least an element in size: the values and the tail padding make
      up the type's alloc size. */
  lemma ShapeSize(r: Constant, vals: seq<Constant>, eltTy: Type, typeSize: nat, isVector: bool,
                  gccAlign: nat, tgt: Target)
    requires |vals| > 0 && ArrayShape(r, vals, eltTy, typeSize, isVector, gccAlign, tgt)
    requires forall k :: 0 <= k < |vals| ==> Alloc(TypeOf(vals[k]), tgt) >= Alloc(eltTy, tgt)
    ensures Alloc(TypeOf(r), tgt) >= typeSize
  {
    var n, m := |vals|, Alloc(eltTy, tgt);
    var t := TypeOf(r);
    if r.StructC? {
      assert forall k :: 0 <= k < n ==> r.fields[k] == vals[k];
      StructSize(r.fields, r.packed, n, m, typeSize, tgt);
    } else {
      var e := TypeOf(vals[0]);
      assert Store(t, tgt) == Mul(n, Alloc(e, tgt));
      MulLe(m, Alloc(e, tgt), n);
      SizeFacts(t, tgt);
    }
  }

  /** A struct of n values, each at least m in size, followed by the padding
      making n * m up to typeSize when it falls short, is at least typeSize big. */
  lemma StructSize(fs: seq<Constant>, packed: bool, n: nat, m: nat, typeSize: nat, tgt: Target)
    requires n <= |fs| && forall k :: 0 <= k < n ==> Alloc(TypeOf(fs[k]), tgt) >= m
    requires Mul(n, m) < typeSize ==> |fs| == n + 1 && IsPad(fs[n]) && Mul(n, m) + Store(fs[n].ty, tgt) == typeSize
    requires Mul(n, m) >= typeSize ==> |fs| == n
    ensures Alloc(TypeOf(StructC(packed, fs)), tgt) >= typeSize
  {
    var t := TypeOf(StructC(packed, fs));
    StructOf(packed, fs, tgt);
    var sizes, aligns := FieldAllocs(t, tgt), FieldAligns(t, tgt);
    LayoutEndAtLeast(sizes, aligns, packed, n, m);
    if Mul(n, m) < typeSize {
      UnitTySize(fs[n].ty.count, tgt);
      PlaceAtLeast(LayoutEndTo(sizes, aligns, packed, n), aligns[n], packed);
    }
    StructCovers(t, tgt);
  }

  /** A result of that shape is never more aligned than the array type (or a
      byte): packed, it is byte-aligned; otherwise no value is more aligned
      than the type, and the tail padding is byte-aligned. */
  lemma ShapeAlign(r: Constant, vals: seq<Constant>, eltTy: Type, typeSize: nat, isVector: bool,
                   gccAlign: nat, tgt: Target)
    requires |vals| > 0 && ArrayShape(r, vals, eltTy, typeSize, isVector, gccAlign, tgt)
    ensures Align(TypeOf(r), tgt) <= (if gccAlign < 8 then 8 else gccAlign)
  {
    var n := |vals|;
    var m := if gccAlign < 8 then 8 else gccAlign;
    MaxAlignIsMax(vals, n, tgt);
    if r.StructC? && !r.packed {
      assert AlignedBelow(vals, m, tgt);
      if |r.fields| > n {
        UnitTySize(r.fields[n].ty.count, tgt);
        assert r.fields == vals + [r.fields[n]];
      } else {
        assert r.fields == vals;
      }
      UnpackedAlign(r.fields, m, tgt);
    }
  }

  /** An unpacked struct is no more aligned than its most aligned element (or a byte). */
  lemma UnpackedAlign(es: seq<Constant>, m: nat, tgt: Target)
    requires AlignedBelow(es, m, tgt) && m >= 8
    ensures Align(TypeOf(StructC(false, es)), tgt) <= m
  {
    var t := TypeOf(StructC(false, es));
    var aligns := seq(|t.fields|, k requires 0 <= k < |t.fields| => Align(t.fields[k], tgt));
    assert forall k :: 0 <= k < |aligns| ==> aligns[k] == Align(TypeOf(es[k]), tgt);
    MaxOfAtMost(8, aligns, m);
  }
}
