/**
 * The last stage of converting a record initializer: once the bits of every
 * field have been merged into intervals whose boundaries lie on bytes, the
 * intervals become the elements of an LLVM struct.  The struct is packed when
 * some field could not sit at its offset in an ordinary struct; gaps the
 * fields' alignments do not close, and the tail up to the type's alloc size,
 * are filled with undefined byte arrays.
 */
module Records {
  import opened Arith
  import opened Types
  import opened ArrayCtor

  /** One interval of the record's layout: its first bit and its contents. */
  datatype Placed = Placed(first: nat, val: Constant)

  /** The ABI alignment the contents would have as a field of an ordinary struct. */
  function ValAlign(f: Placed, tgt: Target): (a: nat)
    ensures a >= 8
  {
    Align(TypeOf(f.val), tgt)
  }

  /** The contents would make an ordinary struct more aligned than the
      record's type, or its alignment would move it off its offset. */
  predicate Misaligned(f: Placed, maxAlign: nat, tgt: Target) {
    ValAlign(f, tgt) > maxAlign || Mod(f.first, ValAlign(f, tgt)) != 0
  }

  /** The record must become a packed struct. */
  predicate PackNeeded(fields: seq<Placed>, maxAlign: nat, tgt: Target) {
    exists i :: 0 <= i < |fields| && Misaligned(fields[i], maxAlign, tgt)
  }

  /** The first bit after the contents of interval i - 1 (0 before the first). */
  function EndBefore(fields: seq<Placed>, i: nat, tgt: Target): nat
    requires i <= |fields|
  {
    if i == 0 then 0 else fields[i - 1].first + Alloc(TypeOf(fields[i - 1].val), tgt)
  }

  /** What the interval list guarantees once its boundaries are aligned to
      bytes: every interval starts on a byte, at or after the end of the
      contents of the one before it. */
  predicate Ordered(fields: seq<Placed>, tgt: Target) {
    && (forall i :: 0 <= i < |fields| ==> Mod(fields[i].first, 8) == 0)
    && (forall i {:trigger EndBefore(fields, i, tgt)} :: 0 <= i < |fields| ==>
          EndBefore(fields, i, tgt) <= fields[i].first)
  }

  lemma EndBytes(fields: seq<Placed>, i: nat, tgt: Target)
    requires Ordered(fields, tgt) && i <= |fields|
    ensures Mod(EndBefore(fields, i, tgt), 8) == 0
  {
    if i == 0 {
      DivOfMul(0, 0, 8);
    } else {
      SizeFacts(TypeOf(fields[i - 1].val), tgt);
      Add8(fields[i - 1].first, Alloc(TypeOf(fields[i - 1].val), tgt));
    }
  }

  /** Interval f, after contents ending at end, needs undefined bytes before
      it: there is a gap, and either the struct is packed or the alignment
      of f's contents does not carry it to its first bit. */
  predicate NeedsPadding(end: nat, f: Placed, pack: bool, tgt: Target) {
    f.first > end && (pack || f.first != RoundUp(end, ValAlign(f, tgt)))
  }

  /** What interval i contributes to the struct: its contents, preceded by
      undefined bytes up to its first bit when it needs padding. */
  function Piece(fields: seq<Placed>, pack: bool, i: nat, tgt: Target): (p: seq<Constant>)
    requires Ordered(fields, tgt) && i < |fields|
    ensures 1 <= |p| <= 2 && p[|p| - 1] == fields[i].val
    ensures |p| == 2 <==> NeedsPadding(EndBefore(fields, i, tgt), fields[i], pack, tgt)
  {
    var f, end := fields[i], EndBefore(fields, i, tgt);
    EndBytes(fields, i, tgt);
    (if NeedsPadding(end, f, pack, tgt) then [PadBytes(end, f.first, tgt)] else []) + [f.val]
  }

  /** The struct elements for the first n intervals. */
  function Elements(fields: seq<Placed>, pack: bool, n: nat, tgt: Target): seq<Constant>
    requires Ordered(fields, tgt) && n <= |fields|
  {
    if n == 0 then [] else Elements(fields, pack, n - 1, tgt) + Piece(fields, pack, n - 1, tgt)
  }

  /** The elements of the struct: those of all intervals, then undefined
      bytes up to typeSize when the contents end before it. */
  function Layout(fields: seq<Placed>, pack: bool, typeSize: nat, tgt: Target): seq<Constant>
    requires Ordered(fields, tgt) && Mod(typeSize, 8) == 0
  {
    var end := EndBefore(fields, |fields|, tgt);
    EndBytes(fields, |fields|, tgt);
    Elements(fields, pack, |fields|, tgt)
      + (if end < typeSize then [PadBytes(end, typeSize, tgt)] else [])
  }

  /** The position of interval i's contents among the elements. */
  function Index(fields: seq<Placed>, pack: bool, i: nat, tgt: Target): nat
    requires Ordered(fields, tgt) && i < |fields|
  {
    |Elements(fields, pack, i, tgt)| + |Piece(fields, pack, i, tgt)| - 1
  }

  // ------------------------------------------------------------ the methods

  /** The packing decision: scan the intervals until one is misaligned. */
  method DecidePack(fields: seq<Placed>, maxAlign: nat, tgt: Target) returns (pack: bool)
    ensures pack == PackNeeded(fields, maxAlign, tgt)
  {
    pack := false;
    var i := 0;
    while i < |fields|
      invariant i <= |fields|
      invariant forall j :: 0 <= j < i ==> !Misaligned(fields[j], maxAlign, tgt)
    {
      var first := fields[i].first;
      var alignment := Align(TypeOf(fields[i].val), tgt);
      if alignment > maxAlign || Mod(first, alignment) != 0 {
        pack := true;
        break;
      }
      i := i + 1;
    }
  }

  /** ConvertRecordCONSTRUCTOR from the aligned intervals on: decide on
      packing, then append each interval's contents after whatever padding
      it needs, and pad the tail up to typeSize (the alloc size of the
      record's type).  maxAlign is the alignment of the record's type. */
  method ConvertRecord(fields: seq<Placed>, typeSize: nat, maxAlign: nat, tgt: Target)
    returns (c: Constant)
    requires Ordered(fields, tgt) && Mod(typeSize, 8) == 0
    ensures c.StructC? && c.packed == PackNeeded(fields, maxAlign, tgt)
    ensures c.fields == Layout(fields, c.packed, typeSize, tgt)
  {
    var pack := DecidePack(fields, maxAlign, tgt);
    var elts: seq<Constant> := [];
    var endOfPrevious := 0;
    var i := 0;
    while i < |fields|
      invariant i <= |fields| && elts == Elements(fields, pack, i, tgt) && endOfPrevious == EndBefore(fields, i, tgt)
      decreases |fields| - i
    {
      elts, endOfPrevious := AddInterval(fields, pack, i, elts, endOfPrevious, tgt);
      i := i + 1;
    }
    elts := AddTail(fields, pack, typeSize, elts, endOfPrevious, tgt);
    c := StructC(pack, elts);
  }

  /** The tail: undefined bytes from the end of the last contents up to typeSize. */
  method AddTail(fields: seq<Placed>, pack: bool, typeSize: nat, elts: seq<Constant>, endOfPrevious: nat,
                 tgt: Target) returns (all: seq<Constant>)
    requires Ordered(fields, tgt) && Mod(typeSize, 8) == 0
    requires elts == Elements(fields, pack, |fields|, tgt) && endOfPrevious == EndBefore(fields, |fields|, tgt)
    ensures all == Layout(fields, pack, typeSize, tgt)
  {
    all := elts;
    if endOfPrevious < typeSize {
      EndBytes(fields, |fields|, tgt);
      all := all + [PadBytes(endOfPrevious, typeSize, tgt)];
    }
  }

  /** One interval: padding if the gap before it needs it, then its contents. */
  method AddInterval(fields: seq<Placed>, pack: bool, i: nat, elts: seq<Constant>, endOfPrevious: nat,
                     tgt: Target) returns (next: seq<Constant>, end: nat)
    requires Ordered(fields, tgt) && i < |fields|
    requires endOfPrevious == EndBefore(fields, i, tgt)
    ensures next == elts + Piece(fields, pack, i, tgt) && end == EndBefore(fields, i + 1, tgt)
  {
    var first, val := fields[i].first, fields[i].val;
    next := elts;
    if first > endOfPrevious {
      var needPadding := true;
      if !pack {
        var alignment := Align(TypeOf(val), tgt);
        if first == RoundUp(endOfPrevious, alignment) {
          needPadding := false;
        }
      }
      if needPadding {
        EndBytes(fields, i, tgt);
        next := next + [PadBytes(endOfPrevious, first, tgt)];
      }
    }
    next := next + [val];
    end := first + Alloc(TypeOf(val), tgt);
  }

  // ------------------------------------------------------- the layout facts

  /** Appending elements leaves the layout of the earlier ones alone. */
  lemma EndKept(es: seq<Constant>, more: seq<Constant>, pack: bool, k: nat, tgt: Target)
    requires k <= |es|
    ensures LayoutEndTo(Allocs(es + more, tgt), Aligns(es + more, tgt), pack, k)
         == LayoutEndTo(Allocs(es, tgt), Aligns(es, tgt), pack, k)
  {
    var s, a := Allocs(es + more, tgt), Aligns(es + more, tgt);
    assert forall j :: 0 <= j < k ==> (es + more)[j] == es[j];
    LayoutEndKept(s, a, Allocs(es, tgt), Aligns(es, tgt), pack, k);
  }

  /** Appending one element extends the layout by one field. */
  lemma LayoutSnoc(es: seq<Constant>, e: Constant, pack: bool, tgt: Target)
    ensures var s, a := Allocs(es + [e], tgt), Aligns(es + [e], tgt);
      && LayoutOffset(s, a, pack, |es|)
         == Place(LayoutEnd(Allocs(es, tgt), Aligns(es, tgt), pack), Align(TypeOf(e), tgt), pack)
      && LayoutEnd(s, a, pack) == LayoutOffset(s, a, pack, |es|) + Alloc(TypeOf(e), tgt)
  {
    EndKept(es, [e], pack, |es|, tgt);
  }

  /** Appending elements leaves the offsets of the earlier ones alone. */
  lemma OffsetKept(es: seq<Constant>, more: seq<Constant>, pack: bool, k: nat, tgt: Target)
    requires k < |es|
    ensures LayoutOffset(Allocs(es + more, tgt), Aligns(es + more, tgt), pack, k)
         == LayoutOffset(Allocs(es, tgt), Aligns(es, tgt), pack, k)
  {
    EndKept(es, more, pack, k, tgt);
    assert (es + more)[k] == es[k];
  }

  /** Padding from end to first, after contents ending at end, ends where
      first begins. */
  lemma PadLayout(es: seq<Constant>, end: nat, first: nat, pack: bool, tgt: Target)
    requires end <= first && Mod(end, 8) == 0 && Mod(first, 8) == 0
    requires LayoutEnd(Allocs(es, tgt), Aligns(es, tgt), pack) == end
    ensures var es' := es + [PadBytes(end, first, tgt)];
      && LayoutOffset(Allocs(es', tgt), Aligns(es', tgt), pack, |es|) == end
      && LayoutEnd(Allocs(es', tgt), Aligns(es', tgt), pack) == first
  {
    var pad := PadBytes(end, first, tgt);
    UnitTySize(pad.ty.count, tgt);
    LayoutSnoc(es, pad, pack, tgt);
    RoundUpOfAligned(end, 8);
  }

  /** Contents whose first bit is a multiple of its alignment (or of 8, when
      packed) are placed at that bit when the previous contents end at end. */
  lemma ValLayout(es: seq<Constant>, end: nat, f: Placed, pack: bool, tgt: Target)
    requires LayoutEnd(Allocs(es, tgt), Aligns(es, tgt), pack) == end
    requires Mod(f.first, 8) == 0 && Place(end, ValAlign(f, tgt), pack) == f.first
    ensures var es' := es + [f.val];
      && LayoutOffset(Allocs(es', tgt), Aligns(es', tgt), pack, |es|) == f.first
      && LayoutEnd(Allocs(es', tgt), Aligns(es', tgt), pack) == f.first + Alloc(TypeOf(f.val), tgt)
  {
    LayoutSnoc(es, f.val, pack, tgt);
  }

  /** Every interval's contents fit their offset: the struct is packed, or
      no interval is misaligned. */
  predicate PackFits(fields: seq<Placed>, pack: bool, tgt: Target) {
    pack || forall i :: 0 <= i < |fields| ==> Mod(fields[i].first, ValAlign(fields[i], tgt)) == 0
  }

  /** The struct packing chosen for the record fits every interval. */
  lemma PackNeededFits(fields: seq<Placed>, maxAlign: nat, tgt: Target)
    ensures PackFits(fields, PackNeeded(fields, maxAlign, tgt), tgt)
  {
  }

  /** Contents after the padding that fills the gap up to their first bit. */
  lemma PaddedPiece(es: seq<Constant>, end: nat, f: Placed, pack: bool, tgt: Target)
    requires end <= f.first && Mod(end, 8) == 0 && Mod(f.first, 8) == 0
    requires pack || Mod(f.first, ValAlign(f, tgt)) == 0
    requires LayoutEnd(Allocs(es, tgt), Aligns(es, tgt), pack) == end
    ensures var es' := es + [PadBytes(end, f.first, tgt)] + [f.val];
      && LayoutOffset(Allocs(es', tgt), Aligns(es', tgt), pack, |es'| - 1) == f.first
      && LayoutEnd(Allocs(es', tgt), Aligns(es', tgt), pack) == f.first + Alloc(TypeOf(f.val), tgt)
  {
    var pad := PadBytes(end, f.first, tgt);
    PadLayout(es, end, f.first, pack, tgt);
    RoundUpOfAligned(f.first, if pack then 8 else ValAlign(f, tgt));
    ValLayout(es + [pad], f.first, f, pack, tgt);
  }

  /** Contents that need no padding: they follow the previous ones directly,
      or their alignment carries them to their first bit. */
  lemma PlainPiece(es: seq<Constant>, end: nat, f: Placed, pack: bool, tgt: Target)
    requires end <= f.first && Mod(end, 8) == 0 && Mod(f.first, 8) == 0
    requires pack || Mod(f.first, ValAlign(f, tgt)) == 0
    requires !NeedsPadding(end, f, pack, tgt)
    requires LayoutEnd(Allocs(es, tgt), Aligns(es, tgt), pack) == end
    ensures var es' := es + [f.val];
      && LayoutOffset(Allocs(es', tgt), Aligns(es', tgt), pack, |es'| - 1) == f.first
      && LayoutEnd(Allocs(es', tgt), Aligns(es', tgt), pack) == f.first + Alloc(TypeOf(f.val), tgt)
  {
    if f.first == end {
      RoundUpOfAligned(end, if pack then 8 else ValAlign(f, tgt));
    }
    ValLayout(es, end, f, pack, tgt);
  }

  /** Where interval i's piece lands after elements es that end where the
      previous contents end: its contents at the interval's first bit, its
      padding, if any, where es ends. */
  lemma PieceLayout(fields: seq<Placed>, pack: bool, i: nat, es: seq<Constant>, es': seq<Constant>, tgt: Target)
    requires Ordered(fields, tgt) && i < |fields| && PackFits(fields, pack, tgt)
    requires LayoutEnd(Allocs(es, tgt), Aligns(es, tgt), pack) == EndBefore(fields, i, tgt)
    requires es' == es + Piece(fields, pack, i, tgt)
    ensures var s, a := Allocs(es', tgt), Aligns(es', tgt);
      && LayoutOffset(s, a, pack, |es'| - 1) == fields[i].first
      && LayoutEnd(s, a, pack) == EndBefore(fields, i + 1, tgt)
      && (NeedsPadding(EndBefore(fields, i, tgt), fields[i], pack, tgt) ==>
            IsPad(es'[|es|]) && LayoutOffset(s, a, pack, |es|) == EndBefore(fields, i, tgt))
  {
    EndBytes(fields, i, tgt);
    if NeedsPadding(EndBefore(fields, i, tgt), fields[i], pack, tgt) {
      PaddedStep(fields, pack, i, es, es', tgt);
    } else {
      var f := fields[i];
      assert es' == es + [f.val];
      PlainPiece(es, EndBefore(fields, i, tgt), f, pack, tgt);
    }
  }

  lemma PaddedStep(fields: seq<Placed>, pack: bool, i: nat, es: seq<Constant>, es': seq<Constant>, tgt: Target)
    requires Ordered(fields, tgt) && i < |fields| && PackFits(fields, pack, tgt)
    requires NeedsPadding(EndBefore(fields, i, tgt), fields[i], pack, tgt)
    requires LayoutEnd(Allocs(es, tgt), Aligns(es, tgt), pack) == EndBefore(fields, i, tgt)
    requires es' == es + Piece(fields, pack, i, tgt)
    ensures var s, a := Allocs(es', tgt), Aligns(es', tgt);
      && LayoutOffset(s, a, pack, |es'| - 1) == fields[i].first
      && LayoutEnd(s, a, pack) == EndBefore(fields, i + 1, tgt)
      && IsPad(es'[|es|]) && LayoutOffset(s, a, pack, |es|) == EndBefore(fields, i, tgt)
  {
    var f, end := fields[i], EndBefore(fields, i, tgt);
    EndBytes(fields, i, tgt);
    var pad := PadBytes(end, f.first, tgt);
    var es1 := es + [pad];
    var es2 := es1 + [f.val];
    assert es' == es2;
    PaddedPiece(es, end, f, pack, tgt);
    PadLayout(es, end, f.first, pack, tgt);
    OffsetKept(es1, [f.val], pack, |es|, tgt);
    assert es2[|es|] == pad;
  }

  /** In the elements for the first n intervals, interval i's contents
      sit at its index, with padding just before it when it needs padding. */
  predicate HeldIn(fields: seq<Placed>, pack: bool, n: nat, i: nat, tgt: Target)
    requires Ordered(fields, tgt) && i < n <= |fields|
  {
    var es, k := Elements(fields, pack, n, tgt), Index(fields, pack, i, tgt);
    && k < |es| && es[k] == fields[i].val
    && (NeedsPadding(EndBefore(fields, i, tgt), fields[i], pack, tgt) ==> k >= 1 && IsPad(es[k - 1]))
  }

  /** The elements hold every interval's contents at its index, with
      padding just before it when it needs padding. */
  lemma {:induction false} ElementsHold(fields: seq<Placed>, pack: bool, n: nat, i: nat, tgt: Target)
    requires Ordered(fields, tgt) && i < n <= |fields|
    ensures HeldIn(fields, pack, n, i, tgt)
    decreases n
  {
    if i < n - 1 {
      ElementsHold(fields, pack, n - 1, i, tgt);
      HeldKept(fields, pack, n, i, tgt);
    } else {
      LastHeld(fields, pack, n, tgt);
    }
  }

  /** Adding the piece for interval n-1 keeps what the earlier elements hold. */
  lemma HeldKept(fields: seq<Placed>, pack: bool, n: nat, i: nat, tgt: Target)
    requires Ordered(fields, tgt) && i < n - 1 && n <= |fields|
    requires HeldIn(fields, pack, n - 1, i, tgt)
    ensures HeldIn(fields, pack, n, i, tgt)
  {
    var prev := Elements(fields, pack, n - 1, tgt);
    var es := Elements(fields, pack, n, tgt);
    assert es == prev + Piece(fields, pack, n - 1, tgt);
    var k := Index(fields, pack, i, tgt);
    assert es[k] == prev[k];
    if NeedsPadding(EndBefore(fields, i, tgt), fields[i], pack, tgt) {
      assert es[k - 1] == prev[k - 1];
    }
  }

  /** The last of the first n intervals is held by the piece added for it. */
  lemma LastHeld(fields: seq<Placed>, pack: bool, n: nat, tgt: Target)
    requires Ordered(fields, tgt) && 0 < n <= |fields|
    ensures HeldIn(fields, pack, n, n - 1, tgt)
  {
    var prev := Elements(fields, pack, n - 1, tgt);
    var es := Elements(fields, pack, n, tgt);
    assert es == prev + Piece(fields, pack, n - 1, tgt);
    if NeedsPadding(EndBefore(fields, n - 1, tgt), fields[n - 1], pack, tgt) {
      EndBytes(fields, n - 1, tgt);
    }
  }

  /** The elements for the first n intervals end where the contents of
      the last of them end. */
  lemma {:induction false} ElementsEnd(fields: seq<Placed>, pack: bool, n: nat, tgt: Target)
    requires Ordered(fields, tgt) && n <= |fields| && PackFits(fields, pack, tgt)
    ensures var es := Elements(fields, pack, n, tgt);
      LayoutEnd(Allocs(es, tgt), Aligns(es, tgt), pack) == EndBefore(fields, n, tgt)
    decreases n
  {
    if n > 0 {
      var prev, es := Elements(fields, pack, n - 1, tgt), Elements(fields, pack, n, tgt);
      assert es == prev + Piece(fields, pack, n - 1, tgt);
      ElementsEnd(fields, pack, n - 1, tgt);
      PieceLayout(fields, pack, n - 1, prev, es, tgt);
    }
  }

  /** In the elements for the first n intervals, the contents of interval
      i sit at its first bit, and its padding, if any, where the contents
      before it end. */
  predicate PlacedIn(fields: seq<Placed>, pack: bool, n: nat, i: nat, tgt: Target)
    requires Ordered(fields, tgt) && i < n <= |fields|
  {
    var es, k := Elements(fields, pack, n, tgt), Index(fields, pack, i, tgt);
    var s, a := Allocs(es, tgt), Aligns(es, tgt);
    && k < |es| && LayoutOffset(s, a, pack, k) == fields[i].first
    && (NeedsPadding(EndBefore(fields, i, tgt), fields[i], pack, tgt) ==>
          k >= 1 && LayoutOffset(s, a, pack, k - 1) == EndBefore(fields, i, tgt))
  }

  lemma {:induction false} ElementPlaced(fields: seq<Placed>, pack: bool, n: nat, i: nat, tgt: Target)
    requires Ordered(fields, tgt) && i < n <= |fields| && PackFits(fields, pack, tgt)
    ensures PlacedIn(fields, pack, n, i, tgt)
    decreases n
  {
    if i == n - 1 {
      LastPlaced(fields, pack, i, tgt);
    } else {
      ElementPlaced(fields, pack, n - 1, i, tgt);
      PlacedKept(fields, pack, n, i, tgt);
    }
  }

  /** The last of the first i + 1 intervals is placed. */
  lemma LastPlaced(fields: seq<Placed>, pack: bool, i: nat, tgt: Target)
    requires Ordered(fields, tgt) && i < |fields| && PackFits(fields, pack, tgt)
    ensures PlacedIn(fields, pack, i + 1, i, tgt)
  {
    ElementsLast(fields, pack, i, i + 1, tgt);
  }

  /** Appending interval n - 1's piece leaves interval i where it was. */
  lemma PlacedKept(fields: seq<Placed>, pack: bool, n: nat, i: nat, tgt: Target)
    requires Ordered(fields, tgt) && i < n - 1 && n <= |fields|
    requires PlacedIn(fields, pack, n - 1, i, tgt)
    ensures PlacedIn(fields, pack, n, i, tgt)
  {
    var prev := Elements(fields, pack, n - 1, tgt);
    var more := Piece(fields, pack, n - 1, tgt);
    var k := Index(fields, pack, i, tgt);
    assert Elements(fields, pack, n, tgt) == prev + more;
    OffsetKept(prev, more, pack, k, tgt);
    if k >= 1 {
      OffsetKept(prev, more, pack, k - 1, tgt);
    }
  }

  /** The elements for the first i + 1 intervals end with interval i's
      contents, at its first bit, after its padding, if any, where the
      contents before it end. */
  lemma ElementsLast(fields: seq<Placed>, pack: bool, i: nat, n: nat, tgt: Target)
    requires Ordered(fields, tgt) && n == i + 1 <= |fields| && PackFits(fields, pack, tgt)
    ensures var es := Elements(fields, pack, n, tgt);
      var s, a := Allocs(es, tgt), Aligns(es, tgt);
      && Index(fields, pack, i, tgt) == |es| - 1
      && LayoutOffset(s, a, pack, |es| - 1) == fields[i].first
      && (NeedsPadding(EndBefore(fields, i, tgt), fields[i], pack, tgt) ==>
            |es| >= 2 && LayoutOffset(s, a, pack, |es| - 2) == EndBefore(fields, i, tgt))
  {
    var ei, p := Elements(fields, pack, i, tgt), Piece(fields, pack, i, tgt);
    var es := Elements(fields, pack, n, tgt);
    assert es == ei + p;
    assert |es| == |ei| + |p|;
    ElementsEnd(fields, pack, i, tgt);
    PieceLayout(fields, pack, i, ei, es, tgt);
  }

  /** The struct a record becomes places every interval's contents at the
      interval's first bit, with undefined bytes just before it when there
      is padding, and that padding starts where the previous contents end. */
  lemma RecordFields(fields: seq<Placed>, maxAlign: nat, typeSize: nat, i: nat, tgt: Target)
    requires Ordered(fields, tgt) && Mod(typeSize, 8) == 0 && i < |fields|
    ensures var pack := PackNeeded(fields, maxAlign, tgt);
      var es := Layout(fields, pack, typeSize, tgt);
      var t := TypeOf(StructC(pack, es));
      var k := Index(fields, pack, i, tgt);
      && k < |es| && es[k] == fields[i].val
      && FieldOffset(t, k, tgt) == fields[i].first
      && (NeedsPadding(EndBefore(fields, i, tgt), fields[i], pack, tgt) ==>
            IsPad(es[k - 1]) && FieldOffset(t, k - 1, tgt) == EndBefore(fields, i, tgt))
  {
    var pack := PackNeeded(fields, maxAlign, tgt);
    var es := Layout(fields, pack, typeSize, tgt);
    PackNeededFits(fields, maxAlign, tgt);
    LayoutPlaced(fields, pack, typeSize, i, tgt);
    StructOf(pack, es, tgt);
  }

  /** The elements of a record hold interval i's contents at its index and
      first bit, after its padding, if any, where the contents before it end. */
  lemma LayoutPlaced(fields: seq<Placed>, pack: bool, typeSize: nat, i: nat, tgt: Target)
    requires Ordered(fields, tgt) && Mod(typeSize, 8) == 0 && i < |fields| && PackFits(fields, pack, tgt)
    ensures var es, k := Layout(fields, pack, typeSize, tgt), Index(fields, pack, i, tgt);
      var s, a := Allocs(es, tgt), Aligns(es, tgt);
      && k < |es| && es[k] == fields[i].val
      && LayoutOffset(s, a, pack, k) == fields[i].first
      && (NeedsPadding(EndBefore(fields, i, tgt), fields[i], pack, tgt) ==>
            k >= 1 && IsPad(es[k - 1]) && LayoutOffset(s, a, pack, k - 1) == EndBefore(fields, i, tgt))
  {
    var n := |fields|;
    var body, es := Elements(fields, pack, n, tgt), Layout(fields, pack, typeSize, tgt);
    var k, end := Index(fields, pack, i, tgt), EndBefore(fields, i, tgt);
    var padded := NeedsPadding(end, fields[i], pack, tgt);
    assert HeldIn(fields, pack, n, i, tgt) && PlacedIn(fields, pack, n, i, tgt) by {
      ElementPlaced(fields, pack, n, i, tgt);
      ElementsHold(fields, pack, n, i, tgt);
    }
    LayoutPrefix(fields, pack, typeSize, tgt);
    PlacedAfter(body, es[|body|..], pack, k, fields[i].val, fields[i].first, padded, end, tgt);
  }

  /** The elements of a record are those of its intervals, then the tail. */
  lemma LayoutPrefix(fields: seq<Placed>, pack: bool, typeSize: nat, tgt: Target)
    requires Ordered(fields, tgt) && Mod(typeSize, 8) == 0
    ensures var body, es := Elements(fields, pack, |fields|, tgt), Layout(fields, pack, typeSize, tgt);
      |body| <= |es| && es == body + es[|body|..]
  {
  }

  /** An element placed among the first elements of a struct stays where it
      is when more elements follow. */
  lemma PlacedAfter(body: seq<Constant>, more: seq<Constant>, pack: bool, k: nat, v: Constant, first: nat,
                    padded: bool, end: nat, tgt: Target)
    requires k < |body| && body[k] == v
    requires LayoutOffset(Allocs(body, tgt), Aligns(body, tgt), pack, k) == first
    requires padded ==>
      k >= 1 && IsPad(body[k - 1]) && LayoutOffset(Allocs(body, tgt), Aligns(body, tgt), pack, k - 1) == end
    ensures var es := body + more;
      var s, a := Allocs(es, tgt), Aligns(es, tgt);
      && k < |es| && es[k] == v && LayoutOffset(s, a, pack, k) == first
      && (padded ==> k >= 1 && IsPad(es[k - 1]) && LayoutOffset(s, a, pack, k - 1) == end)
  {
    OffsetKept(body, more, pack, k, tgt);
    if padded {
      OffsetKept(body, more, pack, k - 1, tgt);
    }
  }

  /** The elements of a record end at typeSize, or where the last contents
      end if that is later; the tail padding starts where they end. */
  lemma TailLayout(fields: seq<Placed>, pack: bool, typeSize: nat, tgt: Target)
    requires Ordered(fields, tgt) && Mod(typeSize, 8) == 0 && PackFits(fields, pack, tgt)
    ensures var es := Layout(fields, pack, typeSize, tgt);
      var s, a := Allocs(es, tgt), Aligns(es, tgt);
      var end := EndBefore(fields, |fields|, tgt);
      && LayoutEnd(s, a, pack) == (if end < typeSize then typeSize else end)
      && (end < typeSize ==> IsPad(es[|es| - 1]) && LayoutOffset(s, a, pack, |es| - 1) == end)
  {
    var n := |fields|;
    var body, es := Elements(fields, pack, n, tgt), Layout(fields, pack, typeSize, tgt);
    var end := EndBefore(fields, n, tgt);
    ElementsEnd(fields, pack, n, tgt);
    EndBytes(fields, n, tgt);
    if end < typeSize {
      PadLayout(body, end, typeSize, pack, tgt);
      assert es == body + [PadBytes(end, typeSize, tgt)];
    } else {
      assert es == body;
    }
  }

  /** The struct is at least as big as the record's type: its fields end at
      typeSize, or where the last contents end if that is later, and the
      tail padding starts where the last contents end. */
  lemma RecordSize(fields: seq<Placed>, maxAlign: nat, typeSize: nat, tgt: Target)
    requires Ordered(fields, tgt) && Mod(typeSize, 8) == 0
    ensures var pack := PackNeeded(fields, maxAlign, tgt);
      var es := Layout(fields, pack, typeSize, tgt);
      var t := TypeOf(StructC(pack, es));
      var end := EndBefore(fields, |fields|, tgt);
      && LayoutEnd(FieldAllocs(t, tgt), FieldAligns(t, tgt), pack) == (if end < typeSize then typeSize else end)
      && typeSize <= Store(t, tgt)
      && (end < typeSize ==> IsPad(es[|es| - 1]) && FieldOffset(t, |es| - 1, tgt) == end)
  {
    var pack := PackNeeded(fields, maxAlign, tgt);
    var es := Layout(fields, pack, typeSize, tgt);
    var t := TypeOf(StructC(pack, es));
    PackNeededFits(fields, maxAlign, tgt);
    TailLayout(fields, pack, typeSize, tgt);
    StructOf(pack, es, tgt);
    var total := LayoutEnd(FieldAllocs(t, tgt), FieldAligns(t, tgt), pack);
    assert total == LayoutEnd(Allocs(es, tgt), Aligns(es, tgt), pack);
    assert Store(t, tgt) == RoundUp(total, Align(t, tgt));
    RoundUpBounds(total, Align(t, tgt));
  }

  lemma ValAligned(es: seq<Constant>, v: Constant, m: nat, tgt: Target)
    requires AlignedBelow(es, m, tgt) && Align(TypeOf(v), tgt) <= m
    ensures AlignedBelow(es + [v], m, tgt)
  {
    var es' := es + [v];
    assert forall k :: 0 <= k < |es| ==> es'[k] == es[k];
  }

  /** Unpacked, no element of the first n intervals is more aligned than m:
      the contents are not misaligned, and padding is byte-aligned. */
  lemma {:induction false} ElementsAligned(fields: seq<Placed>, maxAlign: nat, n: nat, m: nat, tgt: Target)
    requires Ordered(fields, tgt) && n <= |fields| && !PackNeeded(fields, maxAlign, tgt)
    requires m >= 8 && m >= maxAlign
    ensures AlignedBelow(Elements(fields, false, n, tgt), m, tgt)
  {
    if n > 0 {
      var prev := Elements(fields, false, n - 1, tgt);
      ElementsAligned(fields, maxAlign, n - 1, m, tgt);
      var f, end := fields[n - 1], EndBefore(fields, n - 1, tgt);
      assert !Misaligned(f, maxAlign, tgt);
      EndBytes(fields, n - 1, tgt);
      if NeedsPadding(end, f, false, tgt) {
        var pad := PadBytes(end, f.first, tgt);
        PadAligned(prev, end, f.first, m, tgt);
        ValAligned(prev + [pad], f.val, m, tgt);
        assert Elements(fields, false, n, tgt) == prev + [pad] + [f.val];
      } else {
        ValAligned(prev, f.val, m, tgt);
        assert Elements(fields, false, n, tgt) == prev + [f.val];
      }
    }
  }

  /** The struct is never more aligned than the record's type (or a byte):
      packed, it is byte-aligned; otherwise no contents are more aligned than
      the type, and padding is byte-aligned. */
  lemma RecordAlign(fields: seq<Placed>, maxAlign: nat, typeSize: nat, tgt: Target)
    requires Ordered(fields, tgt) && Mod(typeSize, 8) == 0
    ensures var pack := PackNeeded(fields, maxAlign, tgt);
      var t := TypeOf(StructC(pack, Layout(fields, pack, typeSize, tgt)));
      Align(t, tgt) <= (if maxAlign < 8 then 8 else maxAlign)
  {
    var pack := PackNeeded(fields, maxAlign, tgt);
    var es := Layout(fields, pack, typeSize, tgt);
    var t := TypeOf(StructC(pack, es));
    var m := if maxAlign < 8 then 8 else maxAlign;
    if !pack {
      var body := Elements(fields, false, |fields|, tgt);
      var end := EndBefore(fields, |fields|, tgt);
      ElementsAligned(fields, maxAlign, |fields|, m, tgt);
      if end < typeSize {
        EndBytes(fields, |fields|, tgt);
        PadAligned(body, end, typeSize, m, tgt);
      }
      assert AlignedBelow(es, m, tgt);
      var aligns := seq(|t.fields|, k requires 0 <= k < |t.fields| => Align(t.fields[k], tgt));
      assert forall k :: 0 <= k < |aligns| ==> aligns[k] == Align(TypeOf(es[k]), tgt);
      MaxOfAtMost(8, aligns, m);
    }
  }
}
