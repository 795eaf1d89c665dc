/**
 * Half-open ranges of bit positions, [first, last).  A range is empty when
 * first >= last; the range algebra used by the bit slices and the field
 * contents needs only membership, containment, intersection, the convex hull,
 * the meet and displacement.
 */
module Ranges {

  datatype Range = Range(first: int, last: int) {

    /** The range holds no position at all. */
    predicate Empty() {
      first >= last
    }

    /** The number of positions in the range. */
    function Width(): (w: nat)
      ensures w == 0 <==> Empty()
      ensures !Empty() ==> first + w == last
    {
      if Empty() then 0 else last - first
    }

    /** Position p lies inside the range. */
    predicate Has(p: int) {
      first <= p < last
    }

    /** Two ranges denote the same set of positions (all empty ranges are equal). */
    predicate Same(o: Range) {
      (Empty() && o.Empty()) || this == o
    }

    /** Every position of o is a position of this range. */
    predicate Includes(o: Range)
    {
      o.Empty() || (first <= o.first && o.last <= last)
    }

    /** The intersection of the two ranges. */
    function Meet(o: Range): (m: Range)
      ensures forall p :: m.Has(p) <==> Has(p) && o.Has(p)
      ensures Includes(m) && o.Includes(m)
    {
      if Empty() then this
      else if o.Empty() then o
      else Range(if first < o.first then o.first else first,
                 if last < o.last then last else o.last)
    }

    /** The two ranges share a position. */
    predicate Intersects(o: Range) {
      !Meet(o).Empty()
    }

    /** The convex hull: the smallest range including both ranges. */
    function Join(o: Range): (h: Range)
      ensures h.Includes(this) && h.Includes(o)
      ensures Empty() ==> h == o
      ensures !Empty() && o.Empty() ==> h == this
      ensures !Empty() && !o.Empty() ==>
        h.first == (if first < o.first then first else o.first) &&
        h.last == (if last < o.last then o.last else last)
    {
      if Empty() then o
      else if o.Empty() then this
      else Range(if first < o.first then first else o.first,
                 if last < o.last then o.last else last)
    }

    /** The range slid by offset positions. */
    function Displace(offset: int): (d: Range)
      ensures d.Width() == Width()
      ensures d.first == first + offset && d.last == last + offset
    {
      Range(first + offset, last + offset)
    }
  }

  /** The empty range a default-constructed range or slice holds. */
  const EmptyRange := Range(0, 0)

  /** The hull is the LEAST range including both operands. */
  lemma JoinLeast(a: Range, b: Range, c: Range)
    requires c.Includes(a) && c.Includes(b)
    ensures c.Includes(a.Join(b))
  {
  }

  /** Inclusion is transitive. */
  lemma IncludesTrans(a: Range, b: Range, c: Range)
    requires a.Includes(b) && b.Includes(c)
    ensures a.Includes(c)
  {
  }

  /** Adjacent ranges: the hull is exactly as wide as the two together. */
  lemma JoinAdjacentWidth(a: Range, b: Range)
    requires !a.Empty() && !b.Empty() && a.last == b.first
    ensures !a.Intersects(b)
    ensures a.Join(b).Width() == a.Width() + b.Width()
  {
  }
}
