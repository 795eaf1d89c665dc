# dragonegg constant conversion: bit views and aggregate initializers

This project models the part of dragonegg's `src/Constants.cpp` that turns
GCC initializers into LLVM constants by way of their memory image:

- **BitSlice**: a range of bit positions paired with the integer holding
  exactly those bits. It supports `Displace`, `ExtendRange`, `ReduceRange`,
  `getBits` and `Merge`. Its bit order depends on the target's byte order.
- **ViewAsBits**: the bits a constant leaves in memory, within a window.
  It handles scalars, arrays, vectors and structs.
- **InterpretAsType**: the constant of a given type that loading from that
  memory image would produce, starting at a given bit.
- **FieldContents**: a constant restricted to a range of bits. It offers
  `getAsBits`, `isSafeToReturnContentsDirectly`, `extractContents` and
  `JoinWith`. The record converter collects field and bitfield values in it.
- **The aggregate builders**:
  - the slot bookkeeping and result shape of `ConvertArrayCONSTRUCTOR`;
  - the layout finalisation of `ConvertRecordCONSTRUCTOR`: the packing
    decision, gap padding and tail padding;
  - the length logic of `ConvertSTRING_CST`.

## How the model is built

- **Bits.** A bit pattern is a `seq<bool>` whose element 0 is the least
  significant bit. An undefined bit is read as zero.
- **Constants and layout.** Constants are a datatype of integers, pointers,
  floating-point values (kept as bit patterns), arrays, vectors, structs and
  undefined values. Store size, alloc size, ABI alignment and field offsets
  come from a concrete layout (`Types`). That layout is parameterised by the
  target's byte order, pointer width and largest scalar alignment.
- **The reference definition.** `BitView.Image` gives, bit by bit, what
  storing a constant leaves in memory. `ViewAsBits` and `InterpretAsType`
  are proved against it:
  - a view holds exactly the image bits of its range;
  - a view keeps every defined bit of the window;
  - every value bit of an interpreted constant is the image bit at the same
    position past the starting bit.
- **Loops.** The source's loops are methods with invariants: the element and
  field loops of `ViewAsBits`, the slot loop, default fill and type scan of
  the array builder, the packing scan and padding loop of the record
  builder, and the character and null-padding loops of the string builder.
  Each method is proved equal to a function. The source's promises are
  lemmas about those functions.
- **FieldContents** is a class whose fields its methods update. Its
  contracts are stated through `AsSlice`, the bits it holds as a slice.

## Model

| member | source | states |
|---|---|---|
| Ranges.Range.Meet | src/Constants.cpp:282 | a position is in the meet exactly when it is in both ranges; both ranges include the meet |
| Ranges.Range.Join | src/Constants.cpp:212 | the hull includes both ranges, is the other range when one is empty, and otherwise runs from the smaller first to the larger last |
| Ranges.Range.Displace | src/Constants.cpp:118-121 | the range slides by the offset and keeps its width |
| BitSlices.Position | src/Constants.cpp:77-82 | the memory position of content bit i lies in the range and maps back to i: the least significant bit sits at First on little-endian targets and at Last-1 on big-endian ones |
| BitSlices.BitSlice.Displace | src/Constants.cpp:118-121 | the slice keeps its contents, and its range slides by the offset |
| BitSlices.BitSlice.ExtendRange | src/Constants.cpp:146-171 | the result covers the new range; every bit of the old range is kept at its position; every added bit is undefined (zero) |
| BitSlices.BitSlice.ReduceRange | src/Constants.cpp:243-269 | the result covers exactly the smaller range, and every bit in it is the bit the slice held there |
| BitSlices.BitSlice.GetBits | src/Constants.cpp:173-195 | an integer as wide as the requested range; it holds the slice's bit at each position the slice covers and an undefined bit elsewhere; it is the contents themselves when the ranges agree |
| BitSlices.MaskOf | src/Constants.cpp:221-231 | bit i of the mask is set exactly when the position of bit i in the hull lies in the sub-range, for either byte order |
| BitSlices.BitSlice.Merge | src/Constants.cpp:197-241 | merging with an empty slice leaves the other slice; otherwise the result spans the convex hull, and each operand's bits are kept at their positions |
| BitSlices.MergeOutside | src/Constants.cpp:232-240 | a bit of the hull that lies in neither operand is undefined (zero) |
| BitSlices.MergeCommutes | src/Constants.cpp:197-241 | merging two disjoint slices gives the same slice in either order |
| BitSlices.ExtendReduceRoundTrip | src/Constants.cpp:243-269 | reducing an extended slice back to its own range gives back the original slice |
| BitView.ViewAsBits | src/Constants.cpp:271-390 | the slice returned is `View`, the memory image of the constant over the sanitized window and the elements or fields it visits |
| BitView.ViewHolds | src/Constants.cpp:271-274 | every bit of the view is the bit storing the constant leaves at that position |
| BitView.ViewCovers | src/Constants.cpp:271-274 | every defined bit of the constant inside the window lies in the view's range, so no needed bit is dropped |
| BitView.ScalarView | src/Constants.cpp:292-315 | a scalar's view is its value bits, placed after the padding on big-endian targets and before it on little-endian ones |
| BitView.SequentialBits | src/Constants.cpp:317-340 | for an array or vector: the image over the elements from first/Stride to (last+Stride-1)/Stride |
| BitView.ElemLoop | src/Constants.cpp:330-339 | merging the whole-stride view of each element i, displaced by i*Stride, gives the image over the hull of those elements |
| BitView.AddElem | src/Constants.cpp:332-338 | one element's step extends the merged image by that element's stride |
| BitView.StructBits | src/Constants.cpp:342-362 | for a struct: the image over the fields from StructFirstIdx to StructLastIdx |
| BitView.FieldLoop | src/Constants.cpp:351-361 | merging the store-size view of each field, displaced by the field's offset, gives the image over the hull of those fields |
| BitView.AddField | src/Constants.cpp:352-360 | one field's step extends the merged image by that field |
| BitView.StructFirstIdx | src/Constants.cpp:346 | the first field visited starts at or before the window's first bit, and every later field starts after the byte holding that bit begins (rounding the byte down) |
| BitView.StructFirstIdxAsWritten | src/Constants.cpp:346 | the first field visited when the byte is rounded up, (first+7)/8: it starts at or before that rounded-up byte |
| BitView.StructLastIdx | src/Constants.cpp:347 | one past the field containing byte (last+6)/8; every field from it on starts at or after the window's end |
| BitView.FirstIdxRoundsUp | src/Constants.cpp:346 | when field 1 starts at byte 1 and the window starts inside byte 0, rounding up skips field 0, though field 0 holds the first bit when it is one byte |
| BitView.FirstIdxCounterexample | src/Constants.cpp:346 | for the struct {i8, i8} and a window from bit 3: rounding up starts at field 1, while bit 3 lies in field 0 |
| Interpretation.InterpretAsType | src/Constants.cpp:392-478 | the result has the requested type; its image is given by InterpretImage |
| Interpretation.InterpretImage | src/Constants.cpp:392-396 | store-then-load: every value bit of the result is the image bit of the constant at the same position past the starting bit |
| Interpretation.WindowBit | src/Constants.cpp:409-419 | one bit of the displaced view read by getBits is the image bit there; a bit the view left out is undefined |
| Interpretation.IntImage | src/Constants.cpp:404-420 | each value bit of a loaded integer is the image bit at the starting bit plus its position |
| Interpretation.IntToPtrImage | src/Constants.cpp:422-428 | the pointer keeps the bits of the pointer-sized integer it was made from |
| Interpretation.InterpretElem | src/Constants.cpp:442-452 | element k of an interpreted array or vector is the element type interpreted at start + k*Stride |
| Interpretation.ElemImage | src/Constants.cpp:466-476 | the array and vector case of InterpretImage |
| Interpretation.InterpretField | src/Constants.cpp:454-464 | field i of an interpreted struct is the field type interpreted at start plus the field's bit offset |
| Interpretation.FieldImage | src/Constants.cpp:454-464 | the struct case of InterpretImage |
| Interpretation.InterpretAsTypeAsWritten | src/Constants.cpp:398-399 | the fast path taken whatever StartingBit is: a constant already of type Ty comes back unchanged |
| Interpretation.FastPathIgnoresStart | src/Constants.cpp:398-399 | an integer read from a nonzero starting bit: the unguarded fast path returns it unchanged, while value bit q of the store-then-load result is the image bit at start + q, so the two differ whenever the integer's bits at q and at start + q differ |
| Interpretation.FastPathCounterexample | src/Constants.cpp:398-399 | for the i16 whose low byte is all ones, read as an i16 from bit 8: bits 0 and 8 of its store are both defined and differ on either byte order; the unguarded fast path returns it, and InterpretAsType does not |
| Fields.Pad | src/Constants.cpp:305-314 | where the value bits of an integer start in its store: after the padding on big-endian targets, at 0 on little-endian targets and for whole-byte widths |
| Fields.AsBits | src/Constants.cpp:768-773 | getAsBits is absent exactly when the range is empty; otherwise it is an integer as wide as the range |
| Fields.FieldSlice | src/Constants.cpp:859-860 | the slice of a field's bits is valid and has the field's range |
| Fields.FieldContents.constructor | src/Constants.cpp:761-764 | sets the range, the constant and its starting bit; a constant is present unless the range is empty |
| Fields.FieldContents.Default | src/Constants.cpp:796 | an empty range, no constant, starting at 0 |
| Fields.FieldContents.Get | src/Constants.cpp:799-801 | the field [first, last) holding c, whose first bit is at first |
| Fields.FieldContents.ChangeRangeTo | src/Constants.cpp:807 | only the range changes |
| Fields.SafeImage | src/Constants.cpp:778-792 | a constant that is safe to return directly lays out, from bit 0, exactly the bits the field holds |
| Fields.IntField | src/Constants.cpp:839-840 | once the constant is getAsBits and Starts is the range's first bit, the field holds exactly that integer's bits |
| Fields.BytesResult | src/Constants.cpp:843-848 | the byte-array fallback is safe to return directly, holds the same bits as the integer it came from, and lays them out in order |
| Fields.FieldContents.ExtractContents | src/Constants.cpp:819-849 | the field keeps its range and its bits; the result is stored as the field's constant, is safe to return directly, has alloc size within the range, and lays out every bit of the range in order |
| Fields.FieldContents.JoinWith | src/Constants.cpp:852-864 | the range becomes the hull; the constant is an integer as wide as it, starting at its first bit; the bits are the merge of the two fields' slices, so each field's bits survive in its own range |
| ArrayCtor.WriterAt | src/Constants.cpp:694-695 | the element that last wrote slot k is one of the elements so far, and its slots include k |
| ArrayCtor.SizeAtLeastInit | src/Constants.cpp:630-633 | the slot vector never falls below the type's known length |
| ArrayCtor.SlotsBelowSize | src/Constants.cpp:692-693 | every slot any element fills is below the slot count |
| ArrayCtor.RangeFills | src/Constants.cpp:666-697 | an element for an index range fills every slot from its first to its last index; a later element may overwrite it |
| ArrayCtor.NextSlotAfterPrevious | src/Constants.cpp:666-697 | an element with no index goes in the slot after the previous element's last slot, or in slot 0 if it is first; after an element whose range is empty, in that range's first slot, since NextIndex is left there |
| ArrayCtor.PadTo | src/Constants.cpp:651-658 | a value as big as the element is kept; a smaller one becomes the unpacked struct {value, undefined bytes}, the bytes making up the difference between the value's alloc size and the element size; the result is at least the element size (more when the value's alignment rounds the struct up) |
| ArrayCtor.PadToOversized | src/Constants.cpp:651-658 | the padded element can exceed the element size: an i32 padded to 48 bits becomes a 64-bit struct when i32 is 32-bit aligned |
| ArrayCtor.FillSlots | src/Constants.cpp:645-698 | the slot vector has the grown size; each slot holds the padded value of the last element that filled it, or nothing |
| ArrayCtor.Grow | src/Constants.cpp:692-693 | the resized slot vector is LastIndex + 1 long, and its new slots hold nothing, matching that no element so far wrote them |
| ArrayCtor.FillRange | src/Constants.cpp:694-697 | slots FirstIndex to LastIndex get the value and no other slot changes; NextIndex ends one past LastIndex, or at FirstIndex when the range is empty |
| ArrayCtor.DefaultFill | src/Constants.cpp:706-710 | every empty slot gets the default element; filled slots are unchanged |
| ArrayCtor.MaxAlignIsMax | src/Constants.cpp:716-723 | the computed alignment is that of some value, and no value is more aligned |
| ArrayCtor.ScanTypes | src/Constants.cpp:712-723 | UseStruct holds exactly when some value's type differs from the first one's; MaxAlign is the largest alignment among the values |
| ArrayCtor.Homogeneous | src/Constants.cpp:745-749 | values of one type become a vector exactly when the type is a vector type and the values have its element type, otherwise an array; either way they keep their order |
| ArrayCtor.PadBytes | src/Constants.cpp:733-737 | undefined bytes whose store size makes up the difference between two whole-byte sizes |
| ArrayCtor.Assemble | src/Constants.cpp:712-749 | a struct exactly when the types differ, padding is needed, or an element is more aligned than the array type; packed exactly in that last case; the values in order, then the tail padding making up the type's alloc size |
| ArrayCtor.ConvertArray | src/Constants.cpp:610-751 | no slots give the type's default value; otherwise the result has Assemble's shape over the slot values: the last value written to each slot, padded, or the default element; the result is at least as big as the type, and with slots no more aligned than the array type (or a byte) |
| ArrayCtor.SlotValueSize | src/Constants.cpp:651-658 | every slot value is at least the element size: the default element has the element type, and a written value is padded |
| ArrayCtor.ShapeSize | src/Constants.cpp:730-737 | a result of that shape over values each at least the element size is at least the type's alloc size |
| ArrayCtor.ShapeAlign | src/Constants.cpp:725-728 | a result of that shape is no more aligned than the array type (or a byte): packed it is byte-aligned, unpacked no value is more aligned than the type and the padding is bytes |
| ArrayCtor.SlotsFit | src/Constants.cpp:730-731 | the converted slots are at least as big as the type and no more aligned than it (or a byte) |
| Records.Piece | src/Constants.cpp:987-1009 | an interval contributes its contents, preceded by undefined bytes exactly when there is a gap that the contents' alignment does not close, or any gap in a packed struct |
| Records.DecidePack | src/Constants.cpp:958-973 | Pack holds exactly when some interval's contents are more aligned than the record type, or are not aligned at the interval's first bit |
| Records.PackNeededFits | src/Constants.cpp:958-962 | with that decision, every interval's contents can sit at its first bit: the struct is packed or they are aligned there |
| Records.AddInterval | src/Constants.cpp:981-1010 | one step appends the interval's piece, and the end becomes its first bit plus the alloc size of its contents |
| Records.AddTail | src/Constants.cpp:1015-1020 | undefined bytes up to TypeSize are appended when the contents end before it |
| Records.ConvertRecord | src/Constants.cpp:954-1023 | the struct is packed by the packing decision, and its elements are every interval's piece followed by the tail padding |
| Records.LayoutPlaced | src/Constants.cpp:975-1011 | in the struct's own layout, each interval's contents sit at the interval's first bit; padding before them, when present, starts where the previous contents end |
| Records.RecordFields | src/Constants.cpp:975-1011 | the same for the packing the record gets: the initializer puts every field's bits where the record type has them |
| Records.RecordSize | src/Constants.cpp:1013-1020 | the struct ends at TypeSize, or later if the contents run past it; it is never smaller than the record type; the tail padding starts where the contents end |
| Records.RecordAlign | src/Constants.cpp:958-962 | the struct is never more aligned than the record type (or a byte) |
| Strings.ByteChar | src/Constants.cpp:543-544 | each byte of the literal becomes an i8 constant |
| Strings.ByteCharRoundTrip | src/Constants.cpp:543-544 | reading the byte back from its i8 constant gives the byte |
| Strings.Chars8 | src/Constants.cpp:541-544 | one i8 character per byte of the literal, in order |
| Strings.StringSize | src/Constants.cpp:582-590 | the array's length is the type's length, except for an unbounded type of length 0, which takes the literal's length |
| Strings.Fixed | src/Constants.cpp:592-601 | the fixed characters are the literal's first n, then nulls where the literal is shorter |
| Strings.FixedPads | src/Constants.cpp:597-600 | fixing a literal to at least its length appends nulls |
| Strings.NullChar | src/Constants.cpp:598 | the null character has the element type |
| Strings.FixLength | src/Constants.cpp:578-601 | the length logic returns that size and those characters; nothing changes when the literal already has the type's length |
| Strings.ConvertString8 | src/Constants.cpp:534-603 | an i8 array with StringSize elements: the literal's bytes, then zero bytes |
| Strings.StringImage | src/Constants.cpp:541-544 | in memory, byte k of the array holds byte k of the literal (zero past its end), each bit in the target's bit order |

## Left out

- PrimAlign: the layout is a concrete one, not LLVM's TargetData. A scalar's ABI alignment is the smallest power of two, in bytes, holding its store size, capped at the target's largest alignment. Every layout-dependent lemma holds for this layout only.
- Store: a vector's store size is n times the element's alloc size, like an array's. LLVM's vector layout is not modelled.
- Align: a vector's alignment is its element's alignment, and a struct's is its most aligned field's (a byte when packed). Target-specific alignments are not modelled.
- ArrayCtor.FillSlots: FirstIndex, LastIndex and NextIndex are unsigned 32-bit in the source; here they are unbounded naturals. The model leaves out:
  - the truncation of indices by tree_low_cst;
  - the wrap of LastIndex+1 when LastIndex is UINT_MAX;
  - the endless fill loop at that index.
  Indices below the lower bound are excluded by a precondition; the source asserts host_integerp instead.
- BitView.ImageBit: an undefined bit is read as zero. LLVM's undef is not a value, so the model cannot show that it is free to choose any bit there. The same holds for the added bits of `ExtendRange`, `GetBits` and `Merge`.
- ArrayCtor.ConvertArray: the element values arrive already converted to the element type. ConvertInitializerWithCast, and the conversion of the front end's trees (ConvertCST, ConvertCONSTRUCTOR, ConvertInitializer, AddressOf and the other converters), are not part of this model.
- Records.ConvertRecord: the intervals arrive already merged and aligned to bytes, with their contents extracted. The rest of ConvertRecordCONSTRUCTOR is not modelled:
  - the default initialisation of fields (flag_default_initialize_globals);
  - the field loop;
  - the IntervalList operations that overlap and merge intervals (AddInterval, AlignBoundaries).
  The IntervalList is not part of this model. The precondition `Ordered` states what it guarantees.
- Strings.ConvertString8: only literals of 8-bit characters are built here. The 16- and 32-bit loops are left out, because they byte-swap the characters according to the host's byte order, and the host is not part of this model. The length logic (`FixLength`) is modelled for characters of any type.
- Fields.AsBits: getAsBits (line 772), and with it `GetAsBits`, `ExtractContents` and `JoinWith`, calls the corrected InterpretAsType, whose fast path needs a zero starting bit. As written, a field whose constant already has type i(width) comes back unshifted when R.first != Starts, for example after ChangeRangeTo. The as-written fast path is modelled only in `InterpretAsTypeAsWritten` (see Findings).
- ArrayCtor.PadTo: the padded element is an unpacked struct, as in the source, so its alloc size can exceed the element size when the value's alignment rounds the struct up. `PadToOversized` shows an i32 padded to 48 bits taking 64 bits when i32 is 32-bit aligned. `PadTo` therefore promises only that the result is at least the element size. Whether a value smaller than its element and aligned that way can reach this code depends on ConvertInitializerWithCast, which is not part of this model.
- Fields.FieldContents.ExtractContents: requires a range of whole bytes on every call. The source asserts this only once the two early returns have been passed.
- Floating-point and MMX values are kept as opaque bit patterns. No floating-point arithmetic is involved in the conversions modelled.
- TheFolder's constant folding is not modelled: a ZExt, a shift, a mask or a bitcast is computed directly on the bit pattern.
- DieAbjectly, and the source's assertions on impossible types, become preconditions or cases the datatypes rule out.

## Findings

| source | as written | input that shows it | evidently intended | confidence | as-written member | corrected member |
|---|---|---|---|---|---|---|
| src/Constants.cpp:398-399 | InterpretAsType returns C as it is whenever C already has type Ty, whatever StartingBit is | the i16 whose low byte is all ones and high byte zero, with Ty = i16 and StartingBit = 8: bit 8 of C's store is a defined bit, different from bit 0 on either byte order, so the i16 loaded there differs from C, yet C is returned | the fast path only when StartingBit is 0, as the store-then-load contract at lines 392-396 says | not executed | Interpretation.FastPathCounterexample | Interpretation.InterpretImage |
| src/Constants.cpp:346 | the first struct field visited is the one containing byte (First+7)/8, so a window's first byte is rounded up | the struct {i8, i8} with the window [3, 16): FirstIdx is 1, so bits 3 to 7 of field 0 are left out of the view | the field containing byte First/8, rounded down, so that every field overlapping the window is visited, as the comment at line 345 says | not executed | BitView.FirstIdxCounterexample | BitView.ViewCovers |
