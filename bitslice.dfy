/**
 * BitSlice: a contiguous range of bits held in memory, paired with the integer
 * constant holding exactly those bits.  The contents are absent exactly when
 * the range is empty.  Where the bits sit depends on the target's byte order:
 * on a little-endian target the least significant bit of the contents is the
 * first position of the range, on a big-endian target it is the last position
 * (Last - 1).  Every operation takes that byte order as the flag bigEndian.
 */
module BitSlices {
  import opened Wrappers
  import opened Ranges
  import opened Bits

  /** The index, in the contents, of the bit at memory position p of range r. */
  function Index(r: Range, p: int, bigEndian: bool): (i: nat)
    requires r.Has(p)
    ensures i < r.Width()
  {
    if bigEndian then r.last - 1 - p else p - r.first
  }

  /** The memory position of the contents' bit i (the inverse of Index). */
  function Position(r: Range, i: nat, bigEndian: bool): (p: int)
    requires i < r.Width()
    ensures r.Has(p) && Index(r, p, bigEndian) == i
  {
    if bigEndian then r.last - 1 - i else r.first + i
  }

  datatype BitSlice = BitSlice(r: Range, contents: Option<Bits>) {

    /** The slice invariant (contentsValid): no contents for an empty range,
        otherwise contents exactly as wide as the range. */
    predicate Valid() {
      if r.Empty() then contents.None?
      else contents.Some? && |contents.value| == r.Width()
    }

    /** The bit held at memory position p. */
    function BitAt(p: int, bigEndian: bool): bool
      requires Valid() && r.Has(p)
    {
      contents.value[Index(r, p, bigEndian)]
    }

    /** Slide every bit by offset positions. */
    function Displace(offset: int): (s: BitSlice)
      requires Valid()
      ensures s.Valid() && s.r == r.Displace(offset) && s.contents == contents
    {
      BitSlice(r.Displace(offset), contents)
    }

    /** Widen the slice to nr; the added bits are undefined (here: zero). */
    function ExtendRange(nr: Range, bigEndian: bool): (s: BitSlice)
      requires Valid() && nr.Includes(r)
      ensures s.Valid() && s.r.Same(nr)
      ensures !r.Same(nr) ==> s.r == nr
      ensures forall p :: r.Has(p) ==> s.BitAt(p, bigEndian) == BitAt(p, bigEndian)
      ensures !r.Empty() ==>
        forall p :: nr.Has(p) && !r.Has(p) ==> !s.BitAt(p, bigEndian)
    {
      if r.Same(nr) then this
      else if r.Empty() then BitSlice(nr, Some(Zeros(nr.Width())))
      else
        var c := ZExt(contents.value, nr.Width());
        var deltaFirst := r.first - nr.first;
        var deltaLast := nr.last - r.last;
        var shifted :=
          if bigEndian && deltaLast != 0 then Shl(c, deltaLast)
          else if !bigEndian && deltaFirst != 0 then Shl(c, deltaFirst)
          else c;
        BitSlice(nr, Some(shifted))
    }

    /** Narrow the slice to nr, discarding the bits outside nr. */
    function ReduceRange(nr: Range, bigEndian: bool): (s: BitSlice)
      requires Valid() && r.Includes(nr)
      ensures s.Valid() && s.r.Same(nr)
      ensures !r.Same(nr) && !nr.Empty() ==> s.r == nr
      ensures forall p :: nr.Has(p) ==> s.BitAt(p, bigEndian) == BitAt(p, bigEndian)
    {
      if r.Same(nr) then this
      else if nr.Empty() then BitSlice(EmptyRange, None)
      else
        var c := contents.value;
        var deltaFirst := nr.first - r.first;
        var deltaLast := r.last - nr.last;
        var shifted :=
          if bigEndian && deltaLast != 0 then LShr(c, deltaLast)
          else if !bigEndian && deltaFirst != 0 then LShr(c, deltaFirst)
          else c;
        BitSlice(nr, Some(Trunc(shifted, nr.Width())))
    }

    /** The bits in range nr as an integer of nr's width; bits of nr outside
        the slice are undefined (here: zero). */
    function GetBits(nr: Range, bigEndian: bool): (b: Bits)
      requires Valid() && !nr.Empty()
      ensures |b| == nr.Width()
      ensures r.Same(nr) ==> b == contents.value
      ensures r.Empty() ==> b == Zeros(nr.Width())
      ensures forall p :: nr.Has(p) && r.Has(p) ==> b[Index(nr, p, bigEndian)] == BitAt(p, bigEndian)
      ensures forall p :: nr.Has(p) && !r.Has(p) ==> !b[Index(nr, p, bigEndian)]
    {
      if r.Same(nr) then contents.value
      else if r.Empty() then Zeros(nr.Width())
      else ExtendRange(r.Join(nr), bigEndian).ReduceRange(nr, bigEndian).contents.value
    }

    /** Join with a disjoint slice, forming the convex hull of the ranges.  The
        bits in the range of either slice are that slice's; others are undefined. */
    function Merge(o: BitSlice, bigEndian: bool): (s: BitSlice)
      requires Valid() && o.Valid()
      requires !r.Intersects(o.r)
      ensures s.Valid()
      ensures o.r.Empty() ==> s == this
      ensures r.Empty() && !o.r.Empty() ==> s == o
      ensures !r.Empty() && !o.r.Empty() ==> s.r == r.Join(o.r)
      ensures s.r.Includes(r) && s.r.Includes(o.r)
      ensures forall p :: r.Has(p) ==> s.r.Has(p) && s.BitAt(p, bigEndian) == BitAt(p, bigEndian)
      ensures forall p :: o.r.Has(p) ==> s.r.Has(p) && s.BitAt(p, bigEndian) == o.BitAt(p, bigEndian)
    {
      if o.r.Empty() then this
      else if r.Empty() then o
      else
        var hull := r.Join(o.r);
        var extThis := ExtendRange(hull, bigEndian);
        var extOther := o.ExtendRange(hull, bigEndian);
        var thisBits := MaskOf(hull, r, bigEndian);
        var otherBits := MaskOf(hull, o.r, bigEndian);
        var thisPart := And(extThis.contents.value, Not(otherBits));
        var otherPart := And(extOther.contents.value, Not(thisBits));
        BitSlice(hull, Some(Or(thisPart, otherPart)))
    }
  }

  /** The mask, in the contents of a slice over hull, of the bits of sub. */
  function MaskOf(hull: Range, sub: Range, bigEndian: bool): (m: Bits)
    requires !sub.Empty() && hull.Includes(sub)
    ensures |m| == hull.Width()
    ensures forall p :: hull.Has(p) ==> m[Index(hull, p, bigEndian)] == sub.Has(p)
  {
    if bigEndian then BitsSet(hull.Width(), hull.last - sub.last, hull.last - sub.first)
    else BitsSet(hull.Width(), sub.first - hull.first, sub.last - hull.first)
  }

  /** The default constructor: an empty slice. */
  const EmptySlice := BitSlice(EmptyRange, None)

  /** Two valid slices over one range that agree at every position are equal. */
  lemma {:induction false} EqualByBits(a: BitSlice, b: BitSlice, bigEndian: bool)
    requires a.Valid() && b.Valid() && a.r == b.r
    requires forall p :: a.r.Has(p) ==> a.BitAt(p, bigEndian) == b.BitAt(p, bigEndian)
    ensures a == b
  {
    if !a.r.Empty() {
      var ca, cb := a.contents.value, b.contents.value;
      forall i | 0 <= i < |ca| ensures ca[i] == cb[i] {
        var p := Position(a.r, i, bigEndian);
        assert a.BitAt(p, bigEndian) == b.BitAt(p, bigEndian);
      }
      assert ca == cb;
    }
  }

  /** Reducing an extended slice back to its own range gives back the slice
      (up to the choice of empty range), on either byte order. */
  lemma ExtendReduceRoundTrip(s: BitSlice, nr: Range, bigEndian: bool)
    requires s.Valid() && nr.Includes(s.r)
    ensures s.ExtendRange(nr, bigEndian).r.Includes(s.r)
    ensures var t := s.ExtendRange(nr, bigEndian).ReduceRange(s.r, bigEndian);
      (s.r.Empty() ==> t.r.Empty() && t.contents.None?) &&
      (!s.r.Empty() ==> t == s)
  {
    var e := s.ExtendRange(nr, bigEndian);
    var t := e.ReduceRange(s.r, bigEndian);
    if !s.r.Empty() {
      assert t.r == s.r;
      EqualByBits(t, s, bigEndian);
    }
  }

  /** Bits of a merge that lie in neither operand are zero in this model. */
  lemma MergeOutside(a: BitSlice, b: BitSlice, bigEndian: bool, p: int)
    requires a.Valid() && b.Valid() && !a.r.Empty() && !b.r.Empty()
    requires !a.r.Intersects(b.r)
    requires a.r.Join(b.r).Has(p) && !a.r.Has(p) && !b.r.Has(p)
    ensures !a.Merge(b, bigEndian).BitAt(p, bigEndian)
  {
    var hull := a.r.Join(b.r);
    var ea, eb := a.ExtendRange(hull, bigEndian), b.ExtendRange(hull, bigEndian);
    assert !ea.BitAt(p, bigEndian) && !eb.BitAt(p, bigEndian);
  }

  /** Merging disjoint slices does not depend on their order. */
  lemma MergeCommutes(a: BitSlice, b: BitSlice, bigEndian: bool)
    requires a.Valid() && b.Valid() && !(a.r.Empty() && b.r.Empty())
    requires !a.r.Intersects(b.r)
    ensures a.Merge(b, bigEndian) == b.Merge(a, bigEndian)
  {
    var ab, ba := a.Merge(b, bigEndian), b.Merge(a, bigEndian);
    if !a.r.Empty() && !b.r.Empty() {
      assert ab.r == ba.r;
      forall p | ab.r.Has(p) ensures ab.BitAt(p, bigEndian) == ba.BitAt(p, bigEndian) {
        if !a.r.Has(p) && !b.r.Has(p) {
          MergeOutside(a, b, bigEndian, p);
          MergeOutside(b, a, bigEndian, p);
        }
      }
      EqualByBits(ab, ba, bigEndian);
    }
  }

  /** Displacements compose by adding their offsets. */
  lemma DisplaceTwice(s: BitSlice, a: int, b: int)
    requires s.Valid()
    ensures s.Displace(a).Displace(b) == s.Displace(a + b)
  {
  }
}
