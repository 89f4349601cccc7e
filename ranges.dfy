/**
 * Range<T> of hnbase/range.h: an inclusive interval [begin, end] of unsigned
 * values, ordered by midpoint, with merge, erase, containment and bordering.
 * Values are unbounded naturals here; the unsigned wrap-around at 0 and at
 * the type's maximum is not modelled.
 */
module Ranges {
  import opened Wrappers

  datatype Bounds = Range(begin: nat, end: nat)

  /** A range always has begin <= end: the constructor checks it. */
  type Range = r: Bounds | r.begin <= r.end witness Range(0, 0)

  /** Range(begin, end): throws unless begin <= end. */
  function MakeRange(b: nat, e: nat): (r: Result<Range>)
    ensures r.Ok? <==> b <= e
    ensures r.Ok? ==> r.value.begin == b && r.value.end == e
  {
    if b <= e then Ok(Range(b, e)) else Err("m_begin <= m_end")
  }

  /** The midpoint that operator< compares; it lies inside the range. */
  function Mid(r: Range): (m: nat)
    ensures r.begin <= m <= r.end
  {
    r.begin + (r.end - r.begin) / 2
  }

  /** contains(value). */
  predicate Has(r: Range, p: nat) { r.begin <= p <= r.end }

  /** containsFull(x): x lies completely inside a. */
  predicate CoversFull(a: Range, x: Range) {
    a.begin <= x.begin && a.end >= x.end
  }

  lemma CoversFullPoints(a: Range, x: Range)
    ensures CoversFull(a, x) <==> forall p :: Has(x, p) ==> Has(a, p)
  {
    assert Has(x, x.begin) && Has(x, x.end);
  }

  /** contains(x): true on any overlap, found by testing both ends of x and then whether x covers a. */
  function Overlaps(a: Range, x: Range): (b: bool)
    ensures b <==> a.begin <= x.end && x.begin <= a.end
  {
    Has(a, x.begin) || Has(a, x.end) || CoversFull(x, a)
  }

  lemma OverlapsPoints(a: Range, x: Range)
    ensures Overlaps(a, x) <==> exists p :: Has(a, p) && Has(x, p)
  {
    var p := if a.begin <= x.begin then x.begin else a.begin;
    assert Overlaps(a, x) ==> Has(a, p) && Has(x, p);
  }

  /** borders(x): x starts right after a ends, or a starts right after x ends. */
  predicate Borders(a: Range, x: Range) {
    (a.begin > 0 && a.begin - 1 == x.end) || a.end + 1 == x.begin
  }

  /** Neither overlapping nor bordering: at least one value lies between the two. */
  predicate Apart(a: Range, x: Range) {
    a.end + 1 < x.begin || x.end + 1 < a.begin
  }

  lemma ApartOf(a: Range, x: Range)
    ensures Apart(a, x) <==> !Overlaps(a, x) && !Borders(a, x)
  {
  }

  /**
   * merge(x): the four in-place adjustments of range.h. The result is the
   * hull of both ranges; when they overlap or border it holds exactly their
   * values.
   */
  function Merge(a: Range, x: Range): (r: Range)
    ensures r.begin == (if a.begin <= x.begin then a.begin else x.begin)
    ensures r.end == (if a.end >= x.end then a.end else x.end)
    ensures Overlaps(a, x) || Borders(a, x) ==> forall p :: Has(r, p) <==> Has(a, p) || Has(x, p)
  {
    var b1 := if a.begin > x.begin then x.begin else a.begin;
    var e1 := if a.end < x.end then x.end else a.end;
    var e2 := if e1 + 1 == x.begin then x.end else e1;
    var b2 := if b1 > 0 && b1 - 1 == x.end then x.begin else b1;
    Range(b2, e2)
  }

  /** The tribool outcome of erase(x): false, true, or indeterminate with the second half. */
  datatype Erased = Cleared | Truncated(one: Range) | Split(one: Range, two: Range)

  /** Values that remain after an erase. */
  predicate Remains(e: Erased, p: nat) {
    match e
    case Cleared => false
    case Truncated(one) => Has(one, p)
    case Split(one, two) => Has(one, p) || Has(two, p)
  }

  /** Every piece left by an erase satisfies q. */
  predicate Pieces(e: Erased, q: Range -> bool) {
    match e
    case Cleared => true
    case Truncated(one) => q(one)
    case Split(one, two) => q(one) && q(two)
  }

  /**
   * erase(x): cut x out of a. The pieces never overlap x; when a overlaps x
   * they lie inside a and hold exactly the values of a outside x, and the two
   * halves of a split are apart from each other.
   */
  function Erase(a: Range, x: Range): (e: Erased)
    ensures Pieces(e, (y: Range) => !Overlaps(y, x))
    ensures e.Split? ==> Apart(e.one, e.two) && e.one.end < e.two.begin
    ensures Overlaps(a, x) ==> Pieces(e, (y: Range) => a.begin <= y.begin && y.end <= a.end)
    ensures Overlaps(a, x) ==> forall p :: Remains(e, p) <==> Has(a, p) && !Has(x, p)
  {
    if x.begin <= a.begin && x.end >= a.end then
      Cleared
    else if a.begin >= x.begin then
      Truncated(Range(x.end + 1, a.end))
    else if a.end <= x.end then
      Truncated(Range(a.begin, x.begin - 1))
    else if Has(a, x.begin) && Has(a, x.end) then
      Split(Range(a.begin, x.begin - 1), Range(x.end + 1, a.end))
    else
      Truncated(a)
  }
}
