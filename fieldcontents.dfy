/**
 * FieldContents: a constant restricted to a range of bits, as the record
 * converter collects the initial values of fields and bitfields.  The first
 * bit of the constant sits at position Starts; positions of the range that the
 * constant does not cover are undefined.  Whatever the constant, the bits of
 * the field are those of the slice AsSlice: the range paired with the bits the
 * constant leaves there, read as one integer (getAsBits).
 */
module Fields {
  import opened Wrappers
  import opened Ranges
  import opened Bits
  import opened Arith
  import opened Types
  import opened BitSlices
  import opened BitView
  import opened Interpretation

  /** Where the value bits of an integer of width w start inside its store:
      the padding of a width that is not whole bytes comes first on a
      big-endian target and last on a little-endian one. */
  function Pad(w: nat, tgt: Target): (d: nat)
    requires w >= 1
    ensures d == ScalarRange(IntTy(w), tgt).first
    ensures !tgt.bigEndian || Mod(w, 8) == 0 ==> d == 0
  {
    PadOfBytes(w);
    var r := ScalarRange(IntTy(w), tgt);
    assert Range(0, Store(IntTy(w), tgt)).Includes(r);
    r.first
  }

  /** A width of whole bytes is its own store size. */
  lemma PadOfBytes(w: nat)
    ensures Mod(w, 8) == 0 ==> RoundUp(w, 8) == w
  {
    if Mod(w, 8) == 0 {
      RoundUpOfAligned(w, 8);
    }
  }

  /** The bit of a field's constant at which its range r begins, when the
      constant's first bit sits at position starts. */
  function FirstBit(r: Range, starts: int): int {
    r.first - starts
  }

  /** getAsBits for a field over r holding c with its first bit at starts:
      the integer of r's width loaded from c's image at r.first (none for an
      empty range). */
  function AsBits(r: Range, c: Option<Constant>, starts: int, tgt: Target): (b: Option<Constant>)
    requires r.Empty() || c.Some?
    ensures b.None? <==> r.Empty()
    ensures b.Some? ==> TypeOf(b.value) == IntTy(r.Width())
  {
    if r.Empty() then None
    else Some(InterpretAsType(c.value, IntTy(r.Width()), FirstBit(r, starts), tgt))
  }

  /** The bits of such a field as a slice: the range paired with getAsBits. */
  function FieldSlice(r: Range, c: Option<Constant>, starts: int, tgt: Target): (s: BitSlice)
    requires r.Empty() || c.Some?
    ensures s.Valid() && s.r == r
  {
    if r.Empty() then BitSlice(r, None)
    else BitSlice(r, Some(ScalarBits(AsBits(r, c, starts, tgt).value, tgt)))
  }

  /** isSafeToReturnContentsDirectly: the constant exists, its first bit is
      the first bit of the range, and it is no wider than the range. */
  predicate SafeDirectly(r: Range, c: Option<Constant>, starts: int, tgt: Target) {
    c.Some? && (r.Empty() || r.first == starts) && Alloc(TypeOf(c.value), tgt) <= r.Width()
  }

  /** The memory image of c, from bit 0 on, spells out the bits of s from
      the first position of its range on. */
  ghost predicate LaidOut(c: Constant, s: BitSlice, tgt: Target)
    requires s.Valid()
  {
    forall p {:trigger s.BitAt(p, tgt.bigEndian)} ::
      s.r.Has(p) ==> ImageBit(c, p - s.r.first, tgt) == s.BitAt(p, tgt.bigEndian)
  }

  class FieldContents {
    /** The range of bits occupied by the constant. */
    var R: Range
    /** The constant; absent only when the range is empty. */
    var C: Option<Constant>
    /** The position of the constant's first bit. */
    var Starts: int

    /** A constant is present whenever the range is not empty. */
    predicate Valid()
      reads this
    {
      R.Empty() || C.Some?
    }

    /** A field over r holding c, whose first bit is at starts. */
    constructor (r: Range, c: Option<Constant>, starts: int)
      requires r.Empty() || c.Some?
      ensures Valid() && R == r && C == c && Starts == starts
    {
      R := r;
      C := c;
      Starts := starts;
    }

    /** The default field: an empty range and no constant. */
    constructor Default()
      ensures Valid() && R == EmptyRange && C.None? && Starts == 0
    {
      R := EmptyRange;
      C := None;
      Starts := 0;
    }

    /** The field filling [first, last) with c, c's first bit at first. */
    static method Get(first: int, last: int, c: Constant) returns (f: FieldContents)
      ensures fresh(f) && f.Valid()
      ensures f.R == Range(first, last) && f.C == Some(c) && f.Starts == first
    {
      f := new FieldContents(Range(first, last), Some(c), first);
    }

    /** Change the range the field occupies, keeping its constant. */
    method ChangeRangeTo(r: Range)
      modifies this
      ensures R == r && C == old(C) && Starts == old(Starts)
    {
      R := r;
    }

    /** The bits in the range as an integer (getAsBits). */
    function GetAsBits(tgt: Target): Option<Constant>
      reads this
      requires Valid()
    {
      AsBits(R, C, Starts, tgt)
    }

    /** The field's bits as a slice over its range. */
    function AsSlice(tgt: Target): BitSlice
      reads this
      requires Valid()
    {
      FieldSlice(R, C, Starts, tgt)
    }

    predicate IsSafeToReturnContentsDirectly(tgt: Target)
      reads this
    {
      SafeDirectly(R, C, Starts, tgt)
    }

    /** The contained bits as a constant whose alloc size fits the range; the
        field keeps the result, so a later call returns it directly.  The
        range must be a whole number of bytes. */
    method ExtractContents(tgt: Target) returns (r: Constant)
      requires Valid() && Mod(R.Width(), 8) == 0
      modifies this
      ensures Valid() && R == old(R) && C == Some(r)
      ensures !R.Empty() ==> Starts == R.first
      ensures IsSafeToReturnContentsDirectly(tgt)
      ensures Alloc(TypeOf(r), tgt) <= R.Width()
      ensures AsSlice(tgt) == old(AsSlice(tgt))
      ensures LaidOut(r, AsSlice(tgt), tgt)
    {
      if IsSafeToReturnContentsDirectly(tgt) {
        SafeImage(R, C.value, Starts, tgt);
        return C.value;
      }
      if R.Empty() {
        UnitAlloc(0, tgt);
        C := Some(Undef(UnitTy(0)));
        return C.value;
      }
      var w := R.Width();
      var units := Div(w, 8);
      DivMod(w, 8);
      var ints := GetAsBits(tgt).value;
      ghost var before := BitSlice(R, Some(ScalarBits(ints, tgt)));
      assert AsSlice(tgt) == before;
      C, Starts := Some(ints), R.first;
      IntField(R, ints, tgt);
      if IsSafeToReturnContentsDirectly(tgt) {
        SafeImage(R, ints, Starts, tgt);
        return ints;
      }
      r := InterpretAsType(ints, UnitTy(units), 0, tgt);
      BytesResult(R, ints, units, r, tgt);
      C := Some(r);
    }

    /** Form the union with a disjoint field S: the range becomes the convex
        hull of the two ranges, holding each field's bits in its own range. */
    method JoinWith(S: FieldContents, tgt: Target)
      requires Valid() && S.Valid()
      requires !R.Intersects(S.R) && !(R.Empty() && S.R.Empty())
      modifies this
      ensures Valid() && R == old(R).Join(old(S.R)) && Starts == R.first
      ensures C.Some? && TypeOf(C.value) == IntTy(R.Width())
      ensures AsSlice(tgt) == old(AsSlice(tgt)).Merge(old(S.AsSlice(tgt)), tgt.bigEndian)
      ensures forall p :: old(R).Has(p) ==>
        AsSlice(tgt).BitAt(p, tgt.bigEndian) == old(AsSlice(tgt)).BitAt(p, tgt.bigEndian)
      ensures forall p :: old(S.R).Has(p) ==>
        AsSlice(tgt).BitAt(p, tgt.bigEndian) == old(S.AsSlice(tgt)).BitAt(p, tgt.bigEndian)
    {
      var bits := AsSlice(tgt);
      bits := bits.Merge(S.AsSlice(tgt), tgt.bigEndian);
      var c: Constant := IntC(bits.GetBits(bits.r, tgt.bigEndian));
      IntFastPath(c, bits.r.Width(), tgt);
      R, C, Starts := bits.r, Some(c), if bits.r.Empty() then 0 else bits.r.first;
      assert AsSlice(tgt) == bits;
    }
  }

  // ------------------------------------------------------------ properties

  /** An integer of the requested width is returned by InterpretAsType as it is. */
  lemma IntFastPath(c: Constant, w: nat, tgt: Target)
    requires w >= 1 && TypeOf(c) == IntTy(w)
    ensures InterpretAsType(c, IntTy(w), 0, tgt) == c
  {
  }

  /** A field holding an integer of its range's width from the range's first
      bit on holds exactly that integer's bits. */
  lemma IntField(r: Range, c: Constant, tgt: Target)
    requires !r.Empty() && TypeOf(c) == IntTy(r.Width())
    ensures FieldSlice(r, Some(c), r.first, tgt) == BitSlice(r, Some(ScalarBits(c, tgt)))
  {
    assert FirstBit(r, r.first) == 0;
    IntFastPath(c, r.Width(), tgt);
    assert AsBits(r, Some(c), r.first, tgt).value == c;
  }

  /** Value bit q of an integer (undefined bits being zero) is its image bit. */
  lemma IntValueBit(i: Constant, w: nat, q: int, tgt: Target)
    requires w >= 1 && TypeOf(i) == IntTy(w) && ScalarRange(IntTy(w), tgt).Has(q)
    ensures ImageBit(i, q, tgt) == ScalarBits(i, tgt)[Index(ScalarRange(IntTy(w), tgt), q, tgt.bigEndian)]
  {
    if i.IntC? {
      IntBit(i, w, ScalarRange(IntTy(w), tgt), q, tgt);
    }
  }

  /** A position of an integer's value bits is a value bit of its type. */
  lemma IntValue(w: nat, q: int, tgt: Target)
    requires w >= 1 && ScalarRange(IntTy(w), tgt).Has(q)
    ensures ValueBit(IntTy(w), q, tgt)
  {
  }

  /** Value bit q of an integer loaded from c at start is the bit of c at x = start + q. */
  lemma LoadedIntBit(c: Constant, w: nat, start: int, q: int, x: int, tgt: Target)
    requires w >= 1 && ScalarRange(IntTy(w), tgt).Has(q) && x == start + q
    ensures ImageBit(InterpretAsType(c, IntTy(w), start, tgt), q, tgt) == ImageBit(c, x, tgt)
  {
    IntValue(w, q, tgt);
    InterpretImage(c, IntTy(w), start, q, tgt);
  }

  /** Position p of a range of width w is value bit p - r.first + Pad of an
      integer of that width, held in the same content bit. */
  lemma RangeIndex(r: Range, w: nat, p: int, tgt: Target)
    requires r.Has(p) && w == r.last - r.first
    ensures ScalarRange(IntTy(w), tgt).Has(p - r.first + Pad(w, tgt))
    ensures Index(ScalarRange(IntTy(w), tgt), p - r.first + Pad(w, tgt), tgt.bigEndian) == Index(r, p, tgt.bigEndian)
  {
  }

  /** The slice bit of a field at p is value bit p - r.first + Pad of its getAsBits. */
  lemma SliceBit(r: Range, c: Constant, starts: int, p: int, tgt: Target)
    requires r.Has(p)
    ensures FieldSlice(r, Some(c), starts, tgt).BitAt(p, tgt.bigEndian) ==
            ImageBit(InterpretAsType(c, IntTy(r.Width()), FirstBit(r, starts), tgt), p - r.first + Pad(r.Width(), tgt), tgt)
  {
    var b := AsBits(r, Some(c), starts, tgt).value;
    IntSliceBit(r, b, p, tgt);
  }

  /** The bit at p of a range holding the bits of an integer b of its width
      is value bit p - r.first + Pad of b. */
  lemma IntSliceBit(r: Range, b: Constant, p: int, tgt: Target)
    requires r.Has(p) && TypeOf(b) == IntTy(r.Width())
    ensures BitSlice(r, Some(ScalarBits(b, tgt))).BitAt(p, tgt.bigEndian) == ImageBit(b, p - r.first + Pad(r.Width(), tgt), tgt)
  {
    var w := r.Width();
    RangeIndex(r, w, p, tgt);
    IntValueBit(b, w, p - r.first + Pad(w, tgt), tgt);
  }

  /** The bit a field holds at position p of its range is the bit its constant
      leaves Pad positions past p - starts: each bit where it belongs on a
      little-endian target or for a range of whole bytes, but shifted by the
      integer's padding on a big-endian target. */
  lemma SliceImage(r: Range, c: Constant, starts: int, p: int, x: int, tgt: Target)
    requires r.Has(p) && x == p - starts + Pad(r.Width(), tgt)
    ensures FieldSlice(r, Some(c), starts, tgt).BitAt(p, tgt.bigEndian) == ImageBit(c, x, tgt)
  {
    var w := r.Width();
    var q := p - r.first + Pad(w, tgt);
    SliceBit(r, c, starts, p, tgt);
    RangeIndex(r, w, p, tgt);
    LoadedIntBit(c, w, FirstBit(r, starts), q, x, tgt);
  }

  /** One bit of a field safe to return directly: the image bit of its
      constant at the same distance from the start of the range. */
  lemma SafeBit(r: Range, c: Constant, starts: int, p: int, tgt: Target)
    requires SafeDirectly(r, Some(c), starts, tgt) && Mod(r.Width(), 8) == 0 && r.Has(p)
    ensures FieldSlice(r, Some(c), starts, tgt).BitAt(p, tgt.bigEndian) == ImageBit(c, p - r.first, tgt)
  {
    assert Pad(r.Width(), tgt) == 0;
    SliceImage(r, c, starts, p, p - r.first, tgt);
  }

  /** A field safe to return directly holds at each position of a byte-sized
      range the image bit of its constant there. */
  lemma SafeImage(r: Range, c: Constant, starts: int, tgt: Target)
    requires SafeDirectly(r, Some(c), starts, tgt) && Mod(r.Width(), 8) == 0
    ensures LaidOut(c, FieldSlice(r, Some(c), starts, tgt), tgt)
  {
    var s := FieldSlice(r, Some(c), starts, tgt);
    assert s.r == r;
    forall p | r.Has(p)
      ensures ImageBit(c, p - r.first, tgt) == s.BitAt(p, tgt.bigEndian)
    {
      SafeBit(r, c, starts, p, tgt);
    }
  }


  /** Every bit of an array of n bytes is a value bit. */
  lemma UnitValueBit(n: nat, q: int, tgt: Target)
    requires 0 <= q < n * 8
    ensures ValueBit(UnitTy(n), q, tgt)
  {
    UnitStore(n, tgt);
    var t := UnitTy(n);
    SeqValueBit(t, q, tgt);
    var a := Alloc(t.elt, tgt);
    ByteAlloc(tgt);
    assert a == 8;
    DivSlot(q, a);
    ByteValueBit(q - Mul(Div(q, a), a), tgt);
  }

  /** Bit q of a sequential type is a value bit when its offset inside its
      element is one. */
  lemma SeqValueBit(t: Type, q: int, tgt: Target)
    requires WfType(t) && t.IsSequential() && 0 <= q < Store(t, tgt)
    ensures Alloc(t.elt, tgt) > 0
    ensures ValueBit(t, q, tgt) == ValueBit(t.elt, q - Mul(Div(q, Alloc(t.elt, tgt)), Alloc(t.elt, tgt)), tgt)
  {
    SequentialStride(t, tgt);
  }

  /** Every bit of a byte is a value bit. */
  lemma ByteValueBit(x: int, tgt: Target)
    requires 0 <= x < 8
    ensures ValueBit(IntTy(8), x, tgt)
  {
    ByteRange(tgt);
    IntValue(8, x, tgt);
  }

  /** A byte's value bits fill its store. */
  lemma ByteRange(tgt: Target)
    ensures ScalarRange(IntTy(8), tgt) == Range(0, 8)
  {
    ByteSize(tgt);
  }

  /** Turning the integer of a byte-sized field into bytes keeps its bits. */
  lemma BytesKeepBits(r: Range, ints: Constant, units: nat, tgt: Target)
    requires !r.Empty() && r.Width() == units * 8 && TypeOf(ints) == IntTy(r.Width())
    ensures FieldSlice(r, Some(InterpretAsType(ints, UnitTy(units), 0, tgt)), r.first, tgt)
            == BitSlice(r, Some(ScalarBits(ints, tgt)))
  {
    var now, before := FieldSlice(r, Some(InterpretAsType(ints, UnitTy(units), 0, tgt)), r.first, tgt), BitSlice(r, Some(ScalarBits(ints, tgt)));
    forall p {:trigger now.BitAt(p, tgt.bigEndian)} | r.Has(p)
      ensures now.BitAt(p, tgt.bigEndian) == before.BitAt(p, tgt.bigEndian)
    {
      BytesKeepBit(r, ints, units, p, tgt);
    }
    EqualByBits(now, before, tgt.bigEndian);
  }

  /** The bytes extractContents falls back on are safe to return directly,
      hold the bits of the integer they were made from, and lay each of them
      out where the range puts it. */
  lemma BytesResult(r: Range, ints: Constant, units: nat, bytes: Constant, tgt: Target)
    requires !r.Empty() && r.Width() == units * 8 && TypeOf(ints) == IntTy(r.Width())
    requires bytes == InterpretAsType(ints, UnitTy(units), 0, tgt)
    ensures SafeDirectly(r, Some(bytes), r.first, tgt)
    ensures FieldSlice(r, Some(bytes), r.first, tgt) == FieldSlice(r, Some(ints), r.first, tgt)
    ensures LaidOut(bytes, FieldSlice(r, Some(bytes), r.first, tgt), tgt)
  {
    UnitAlloc(units, tgt);
    DivOfMul(units, 0, 8);
    assert Mod(r.Width(), 8) == 0;
    BytesKeepBits(r, ints, units, tgt);
    IntField(r, ints, tgt);
    SafeImage(r, bytes, r.first, tgt);
  }

  /** One bit of that: position p of the byte field holds content bit
      Index(r, p) of the integer. */
  lemma BytesKeepBit(r: Range, ints: Constant, units: nat, p: int, tgt: Target)
    requires r.Has(p) && r.Width() == units * 8 && TypeOf(ints) == IntTy(r.Width())
    ensures FieldSlice(r, Some(InterpretAsType(ints, UnitTy(units), 0, tgt)), r.first, tgt).BitAt(p, tgt.bigEndian)
            == ScalarBits(ints, tgt)[Index(r, p, tgt.bigEndian)]
  {
    var w := r.Width();
    var q := p - r.first;
    DivOfMul(units, 0, 8);
    assert Pad(w, tgt) == 0;
    SliceImage(r, InterpretAsType(ints, UnitTy(units), 0, tgt), r.first, p, q, tgt);
    BytesImage(ints, units, q, tgt);
    RangeIndex(r, w, p, tgt);
    IntValueBit(ints, w, q, tgt);
  }

  /** Reading an integer as n bytes keeps each of its bits in place. */
  lemma BytesImage(ints: Constant, n: nat, q: int, tgt: Target)
    requires 0 <= q < n * 8
    ensures ImageBit(InterpretAsType(ints, UnitTy(n), 0, tgt), q, tgt) == ImageBit(ints, q, tgt)
  {
    UnitValueBit(n, q, tgt);
    InterpretImage(ints, UnitTy(n), 0, q, tgt);
  }
}
