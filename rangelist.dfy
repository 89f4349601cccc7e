/**
 * RangeList<RangeType> of hnbase/rangelist.h: a std::multiset of ranges
 * ordered by midpoint, with push/remove of exact ranges and merge/erase of
 * regions. The multiset is a sequence sorted by midpoint; std::multiset
 * insertion puts a new element after the elements equivalent to it.
 *
 * The searches (getContains, getBorders) look at the lower bound and its
 * neighbours only, exactly as the C++ code does. They are exact on
 * "normal" lists (every two ranges are apart), which is what merge and
 * erase build and keep.
 */
module RangeLists {
  import opened Wrappers
  import opened Ranges
  import opened Streams

  const OP_RANGE: nat := 0x10
  const OP_RANGELIST: nat := 0x11

  /** The multiset order: midpoints never decrease. */
  predicate SortedMid(s: seq<Range>) {
    forall i, j :: 0 <= i < j < |s| ==> Mid(s[i]) <= Mid(s[j])
  }

  /** Ranges in increasing order with at least one value between neighbours. */
  predicate Normal(s: seq<Range>) {
    forall i, j :: 0 <= i < j < |s| ==> s[i].end + 1 < s[j].begin
  }

  /** The value p lies in some range of s. */
  predicate Covered(s: seq<Range>, p: nat) {
    exists i :: 0 <= i < |s| && Has(s[i], p)
  }

  lemma NormalSorted(s: seq<Range>)
    requires Normal(s)
    ensures SortedMid(s)
  {
  }

  lemma NormalApart(s: seq<Range>, i: nat, j: nat)
    requires Normal(s) && i < |s| && j < |s| && i != j
    ensures Apart(s[i], s[j])
  {
  }

  // ------------------------------------------------- multiset primitives

  /** multiset::lower_bound: the first range whose midpoint is not below m. */
  function LowerBound(s: seq<Range>, m: nat): (k: nat)
    ensures k <= |s|
    ensures forall i :: 0 <= i < k ==> Mid(s[i]) < m
    ensures k < |s| ==> Mid(s[k]) >= m
  {
    if s == [] || Mid(s[0]) >= m then 0 else 1 + LowerBound(s[1..], m)
  }

  /** multiset::upper_bound: the first range whose midpoint is above m. */
  function UpperBound(s: seq<Range>, m: nat): (k: nat)
    ensures k <= |s|
    ensures forall i :: 0 <= i < k ==> Mid(s[i]) <= m
    ensures k < |s| ==> Mid(s[k]) > m
  {
    if s == [] || Mid(s[0]) > m then 0 else 1 + UpperBound(s[1..], m)
  }

  /** multiset::insert: after every range whose midpoint is not above x's. */
  function Insert(s: seq<Range>, x: Range): seq<Range>
  {
    var k := UpperBound(s, Mid(x));
    s[..k] + ([x] + s[k..])
  }

  function RemoveAt(s: seq<Range>, k: nat): seq<Range>
    requires k < |s|
  {
    s[..k] + s[k + 1..]
  }

  /** x placed at index k of s: s before it, the rest of s shifted up by one after it. */
  lemma ConcatAt(s: seq<Range>, x: Range, k: nat)
    requires k <= |s|
    ensures var t := s[..k] + ([x] + s[k..]);
      |t| == |s| + 1 && t[k] == x &&
      (forall i :: 0 <= i < k ==> t[i] == s[i]) &&
      (forall i :: k < i < |s| + 1 ==> t[i] == s[i - 1])
  {
    var t := s[..k] + ([x] + s[k..]);
    forall i | k < i < |s| + 1 ensures t[i] == s[i - 1] {
      assert t[i] == s[k..][i - k - 1];
    }
  }

  lemma InsertAt(s: seq<Range>, x: Range)
    ensures var k := UpperBound(s, Mid(x));
      |Insert(s, x)| == |s| + 1 && Insert(s, x)[k] == x &&
      (forall i :: 0 <= i < k ==> Insert(s, x)[i] == s[i]) &&
      (forall i :: k < i < |s| + 1 ==> Insert(s, x)[i] == s[i - 1])
  {
    ConcatAt(s, x, UpperBound(s, Mid(x)));
  }

  lemma InsertSorted(s: seq<Range>, x: Range)
    requires SortedMid(s)
    ensures SortedMid(Insert(s, x))
  {
    var k := UpperBound(s, Mid(x));
    var t := Insert(s, x);
    InsertAt(s, x);
    forall i, j | 0 <= i < j < |t| ensures Mid(t[i]) <= Mid(t[j]) {
      if j < k {
        assert t[i] == s[i] && t[j] == s[j];
      } else if j == k {
        assert t[i] == s[i] && t[j] == x;
      } else if i < k {
        assert t[i] == s[i] && t[j] == s[j - 1];
      } else if i == k {
        assert t[i] == x && t[j] == s[j - 1];
        assert Mid(s[k]) <= Mid(s[j - 1]);
      } else {
        assert t[i] == s[i - 1] && t[j] == s[j - 1];
      }
    }
  }

  /** Insert splits s in two around the new range. */
  lemma InsertParts(s: seq<Range>, x: Range) returns (a: seq<Range>, b: seq<Range>)
    ensures s == a + b && Insert(s, x) == a + ([x] + b)
  {
    var k := UpperBound(s, Mid(x));
    a, b := s[..k], s[k..];
  }

  lemma Assoc3(p: seq<Range>, q: seq<Range>, r: seq<Range>)
    ensures p + q + r == p + (q + r)
  {
  }

  lemma InsertMultiset(s: seq<Range>, x: Range)
    ensures multiset(Insert(s, x)) == multiset(s) + multiset{x}
  {
    var a, b := InsertParts(s, x);
    assert multiset(a + ([x] + b)) == multiset(a) + multiset([x] + b);
    assert multiset([x] + b) == multiset{x} + multiset(b);
    assert multiset(a + b) == multiset(a) + multiset(b);
  }

  lemma InsertCovered(s: seq<Range>, x: Range)
    ensures forall p :: Covered(Insert(s, x), p) <==> Covered(s, p) || Has(x, p)
  {
    var k := UpperBound(s, Mid(x));
    var t := Insert(s, x);
    InsertAt(s, x);
    forall p
      ensures Covered(t, p) <==> Covered(s, p) || Has(x, p)
    {
      if Covered(t, p) {
        var i :| 0 <= i < |t| && Has(t[i], p);
        if i < k { assert Has(s[i], p); } else if i > k { assert Has(s[i - 1], p); }
      }
      if Covered(s, p) {
        var i :| 0 <= i < |s| && Has(s[i], p);
        if i < k { assert Has(t[i], p); } else { assert Has(t[i + 1], p); }
      }
      if Has(x, p) { assert Has(t[k], p); }
    }
  }

  lemma ApartSides(s: seq<Range>, x: Range)
    requires Normal(s)
    requires forall i :: 0 <= i < |s| ==> Apart(s[i], x)
    ensures var k := UpperBound(s, Mid(x));
      (forall i :: 0 <= i < |s[..k]| ==> s[..k][i].end + 1 < x.begin) &&
      (forall i :: 0 <= i < |s[k..]| ==> x.end + 1 < s[k..][i].begin)
  {
    var k := UpperBound(s, Mid(x));
    forall i | 0 <= i < k ensures s[i].end + 1 < x.begin {
      assert Apart(s[i], x) && Mid(s[i]) <= Mid(x);
    }
    forall i | k <= i < |s| ensures x.end + 1 < s[i].begin {
      assert Apart(s[i], x) && Apart(s[k], x);
      assert Mid(s[k]) > Mid(x);
      if i > k { assert s[k].end + 1 < s[i].begin; }
    }
  }

  /** Inserting a range that is apart from every stored range keeps a list normal. */
  lemma InsertNormal(s: seq<Range>, x: Range)
    requires Normal(s)
    requires forall i :: 0 <= i < |s| ==> Apart(s[i], x)
    ensures Normal(Insert(s, x))
  {
    var k := UpperBound(s, Mid(x));
    ApartSides(s, x);
    Assoc3(s[..k], [x], s[k..]);
    NormalJoin(s[..k], x, s[k..]);
  }

  lemma NormalJoin(a: seq<Range>, x: Range, b: seq<Range>)
    requires Normal(a + b)
    requires forall i :: 0 <= i < |a| ==> a[i].end + 1 < x.begin
    requires forall i :: 0 <= i < |b| ==> x.end + 1 < b[i].begin
    ensures Normal(a + [x] + b)
  {
    var t := a + [x] + b;
    var ab := a + b;
    forall i, j | 0 <= i < j < |t| ensures t[i].end + 1 < t[j].begin {
      if j < |a| {
        assert t[i] == ab[i] && t[j] == ab[j];
      } else if j == |a| {
        assert t[i] == a[i] && t[j] == x;
      } else if i < |a| {
        assert t[i] == ab[i] && t[j] == ab[j - 1];
      } else if i == |a| {
        assert t[i] == x && t[j] == b[j - |a| - 1];
      } else {
        assert t[i] == ab[i - 1] && t[j] == ab[j - 1];
      }
    }
  }

  lemma RemoveAtIndex(s: seq<Range>, k: nat)
    requires k < |s|
    ensures |RemoveAt(s, k)| == |s| - 1
    ensures forall i :: 0 <= i < |s| - 1 ==> RemoveAt(s, k)[i] == if i < k then s[i] else s[i + 1]
  {
  }

  lemma RemoveAtSorted(s: seq<Range>, k: nat)
    requires k < |s| && SortedMid(s)
    ensures SortedMid(RemoveAt(s, k))
  {
    var t := RemoveAt(s, k);
    RemoveAtIndex(s, k);
    forall i, j | 0 <= i < j < |t| ensures Mid(t[i]) <= Mid(t[j]) {
      var i', j' := if i < k then i else i + 1, if j < k then j else j + 1;
      assert t[i] == s[i'] && t[j] == s[j'];
    }
  }

  lemma RemoveAtNormal(s: seq<Range>, k: nat)
    requires k < |s| && Normal(s)
    ensures Normal(RemoveAt(s, k))
  {
    var t := RemoveAt(s, k);
    RemoveAtIndex(s, k);
    forall i, j | 0 <= i < j < |t| ensures t[i].end + 1 < t[j].begin {
      var i', j' := if i < k then i else i + 1, if j < k then j else j + 1;
      assert t[i] == s[i'] && t[j] == s[j'];
    }
  }

  lemma RemoveAtMultiset(s: seq<Range>, k: nat)
    requires k < |s|
    ensures multiset(RemoveAt(s, k)) == multiset(s) - multiset{s[k]}
  {
    calc {
      multiset(s);
      { assert s == s[..k] + [s[k]] + s[k + 1..]; }
      multiset(s[..k]) + multiset{s[k]} + multiset(s[k + 1..]);
      multiset(RemoveAt(s, k)) + multiset{s[k]};
    }
  }

  lemma RemoveAtCovered(s: seq<Range>, k: nat)
    requires k < |s|
    ensures forall p :: Covered(s, p) <==> Covered(RemoveAt(s, k), p) || Has(s[k], p)
  {
    var t := RemoveAt(s, k);
    RemoveAtIndex(s, k);
    forall p ensures Covered(s, p) <==> Covered(t, p) || Has(s[k], p) {
      if Covered(s, p) {
        var i :| 0 <= i < |s| && Has(s[i], p);
        if i < k { assert Has(t[i], p); } else if i > k { assert Has(t[i - 1], p); }
      }
      if Covered(t, p) {
        var i :| 0 <= i < |t| && Has(t[i], p);
        if i < k { assert Has(s[i], p); } else { assert Has(s[i + 1], p); }
      }
    }
  }

  // ----------------------------------------------------- search lemmas

  /**
   * On a normal list, if the range at the lower bound and the one before it
   * both miss r, then no range overlaps r.
   */
  lemma LowerBoundOverlap(s: seq<Range>, r: Range)
    requires Normal(s)
    ensures var k := LowerBound(s, Mid(r));
      ((k < |s| && Overlaps(s[k], r)) || (k > 0 && Overlaps(s[k - 1], r))) <==>
      exists j :: 0 <= j < |s| && Overlaps(s[j], r)
  {
    var k := LowerBound(s, Mid(r));
    if (k < |s| ==> !Overlaps(s[k], r)) && (k > 0 ==> !Overlaps(s[k - 1], r)) {
      forall j | 0 <= j < |s| ensures !Overlaps(s[j], r) {
        if j >= k {
          // s[k] lies right of r, and so does everything after it
          assert s[k].begin > r.end;
          if j > k { assert s[k].end + 1 < s[j].begin; }
        } else {
          // s[k-1] lies left of r, and so does everything before it
          assert s[k - 1].end < r.begin;
          if j < k - 1 { assert s[j].end + 1 < s[k - 1].begin; }
        }
      }
    }
  }

  /** On a normal list, the first of two neighbours to miss r cuts off everything on its side. */
  lemma FirstOverlap(s: seq<Range>, r: Range, k: nat)
    requires Normal(s) && 0 < k < |s|
    requires Overlaps(s[k], r) && !Overlaps(s[k - 1], r)
    ensures forall j :: 0 <= j < k ==> !Overlaps(s[j], r)
  {
    forall j | 0 <= j < k ensures !Overlaps(s[j], r) {
      if j < k - 1 { assert s[j].end + 1 < s[k - 1].begin; }
    }
  }

  /**
   * On a normal list with no range overlapping r, a range bordering r can
   * only sit at the lower bound (on r's right) or just before it (on r's left).
   */
  lemma LowerBoundBorder(s: seq<Range>, r: Range)
    requires Normal(s)
    requires forall j :: 0 <= j < |s| ==> !Overlaps(s[j], r)
    ensures var k := LowerBound(s, Mid(r));
      (exists j :: 0 <= j < |s| && Borders(s[j], r)) ==>
      (k < |s| && Borders(s[k], r)) || (k > 0 && Borders(s[k - 1], r))
  {
    var k := LowerBound(s, Mid(r));
    if j :| 0 <= j < |s| && Borders(s[j], r) {
      if s[j].begin > r.end {
        BorderRight(s, r, j, k);
      } else {
        BorderLeft(s, r, j, k);
      }
    }
  }

  lemma BorderRight(s: seq<Range>, r: Range, j: nat, k: nat)
    requires Normal(s) && j < |s| && k == LowerBound(s, Mid(r))
    requires forall i :: 0 <= i < |s| ==> !Overlaps(s[i], r)
    requires s[j].begin == r.end + 1
    ensures k == j
  {
    assert Mid(s[j]) > Mid(r);
    assert k <= j;
  }

  lemma BorderLeft(s: seq<Range>, r: Range, j: nat, k: nat)
    requires Normal(s) && j < |s| && k == LowerBound(s, Mid(r))
    requires forall i :: 0 <= i < |s| ==> !Overlaps(s[i], r)
    requires s[j].end + 1 == r.begin
    ensures j + 1 == k
  {
    BeforeBorder(s, r, j);
    if j + 1 < |s| {
      AfterBorder(s, r, j);
    }
    LowerBoundIs(s, Mid(r), j + 1);
  }

  /** The ranges up to one that r borders on the right lie below r. */
  lemma BeforeBorder(s: seq<Range>, r: Range, j: nat)
    requires Normal(s) && j < |s| && s[j].end + 1 == r.begin
    ensures forall i :: 0 <= i < j + 1 ==> Mid(s[i]) < Mid(r)
  {
    forall i | 0 <= i < j + 1 ensures Mid(s[i]) < Mid(r) {
      if i < j { assert s[i].end + 1 < s[j].begin; }
    }
  }

  /** The range after one that r borders on the right lies above r unless it overlaps it. */
  lemma AfterBorder(s: seq<Range>, r: Range, j: nat)
    requires Normal(s) && j + 1 < |s| && s[j].end + 1 == r.begin && !Overlaps(s[j + 1], r)
    ensures Mid(s[j + 1]) >= Mid(r)
  {
    assert s[j].end + 1 < s[j + 1].begin;
  }

  /** The lower bound is the one index with smaller midpoints before it and a midpoint not below m at it. */
  lemma {:induction false} LowerBoundIs(s: seq<Range>, m: nat, k: nat)
    requires k <= |s|
    requires forall i :: 0 <= i < k ==> Mid(s[i]) < m
    requires k < |s| ==> Mid(s[k]) >= m
    ensures LowerBound(s, m) == k
  {
    if k > 0 {
      assert Mid(s[0]) < m;
      forall i | 0 <= i < k - 1 ensures Mid(s[1..][i]) < m {
        assert s[1..][i] == s[i + 1];
      }
      LowerBoundIs(s[1..], m, k - 1);
    }
  }

  /**
   * Merging r with a bordering range of a non-overlapping list gives a range
   * that still overlaps none of the other ranges.
   */
  lemma MergeBorderKeepsClear(s: seq<Range>, r: Range, i: nat)
    requires i < |s| && Borders(s[i], r)
    requires forall j :: 0 <= j < |s| ==> !Overlaps(s[j], r)
    requires forall j :: 0 <= j < |s| && j != i ==> !Overlaps(s[j], s[i])
    ensures forall j :: 0 <= j < |s| && j != i ==> !Overlaps(s[j], Merge(r, s[i]))
  {
  }

  /** One step of merge's loops: s[i] is taken out and folded into m. */
  lemma AbsorbStep(s: seq<Range>, m: Range, i: nat)
    requires i < |s| && (Overlaps(s[i], m) || Borders(s[i], m))
    ensures SortedMid(s) ==> SortedMid(RemoveAt(s, i))
    ensures Normal(s) ==> Normal(RemoveAt(s, i))
    ensures forall p :: Covered(RemoveAt(s, i), p) || Has(Merge(m, s[i]), p) <==> Covered(s, p) || Has(m, p)
  {
    if SortedMid(s) { RemoveAtSorted(s, i); }
    if Normal(s) { RemoveAtNormal(s, i); }
    RemoveAtCovered(s, i);
  }

  /** Folding a bordering range into m keeps m clear of the other ranges of a normal list. */
  lemma AbsorbBorderClear(s: seq<Range>, m: Range, i: nat)
    requires Normal(s) && i < |s| && Borders(s[i], m)
    requires forall j :: 0 <= j < |s| ==> !Overlaps(s[j], m)
    ensures forall j :: 0 <= j < |RemoveAt(s, i)| ==> !Overlaps(RemoveAt(s, i)[j], Merge(m, s[i]))
  {
    RemoveAtIndex(s, i);
    forall j | 0 <= j < |s| && j != i ensures !Overlaps(s[j], s[i]) {
      NormalApart(s, j, i);
    }
    MergeBorderKeepsClear(s, m, i);
  }

  // ---------------------------------------------- counting for erase's loop

  function CountOverlapping(s: seq<Range>, r: Range): nat
  {
    if s == [] then 0 else (if Overlaps(s[0], r) then 1 else 0) + CountOverlapping(s[1..], r)
  }

  lemma {:induction false} CountAppend(a: seq<Range>, b: seq<Range>, r: Range)
    ensures CountOverlapping(a + b, r) == CountOverlapping(a, r) + CountOverlapping(b, r)
  {
    if a == [] {
      assert a + b == b;
    } else {
      assert (a + b)[0] == a[0];
      assert (a + b)[1..] == a[1..] + b;
      CountAppend(a[1..], b, r);
    }
  }

  lemma CountRemove(s: seq<Range>, k: nat, r: Range)
    requires k < |s| && Overlaps(s[k], r)
    ensures CountOverlapping(RemoveAt(s, k), r) + 1 == CountOverlapping(s, r)
  {
    assert s == s[..k] + ([s[k]] + s[k + 1..]);
    CountAppend(s[..k], [s[k]] + s[k + 1..], r);
    CountAppend([s[k]], s[k + 1..], r);
    CountAppend(s[..k], s[k + 1..], r);
  }

  lemma CountInsert(s: seq<Range>, x: Range, r: Range)
    requires !Overlaps(x, r)
    ensures CountOverlapping(Insert(s, x), r) == CountOverlapping(s, r)
  {
    var a, b := InsertParts(s, x);
    CountAppend(a, [x] + b, r);
    CountAppend([x], b, r);
    CountAppend(a, b, r);
    assert [x][1..] == [];
  }

  lemma CountZero(s: seq<Range>, r: Range)
    requires CountOverlapping(s, r) == 0
    ensures forall j :: 0 <= j < |s| ==> !Overlaps(s[j], r)
  {
    forall j | 0 <= j < |s| ensures !Overlaps(s[j], r) {
      assert s == s[..j] + ([s[j]] + s[j + 1..]);
      CountAppend(s[..j], [s[j]] + s[j + 1..], r);
      CountAppend([s[j]], s[j + 1..], r);
    }
  }

  // ------------------------------------------------------- find-by-midpoint

  predicate DistinctMids(s: seq<Range>) {
    forall i, j :: 0 <= i < j < |s| ==> Mid(s[i]) != Mid(s[j])
  }

  lemma NormalDistinct(s: seq<Range>)
    requires Normal(s)
    ensures DistinctMids(s)
  {
  }

  /** multiset::find lands on the exact range when no two midpoints are equal. */
  lemma FindExact(s: seq<Range>, r: Range)
    requires SortedMid(s) && DistinctMids(s) && r in s
    ensures LowerBound(s, Mid(r)) < |s| && s[LowerBound(s, Mid(r))] == r
  {
    var j :| 0 <= j < |s| && s[j] == r;
    var k := LowerBound(s, Mid(r));
    assert k <= j;
  }

  /** A range covering r is the only range of a normal list that overlaps r. */
  lemma CoverIsOnlyOverlap(s: seq<Range>, r: Range, j: nat, k: nat)
    requires Normal(s) && j < |s| && k < |s|
    requires CoversFull(s[j], r) && Overlaps(s[k], r)
    ensures j == k
  {
    if j != k { NormalApart(s, j, k); }
  }

  /** Every range of s is apart from y. */
  predicate AllApart(s: seq<Range>, y: Range) {
    forall i :: 0 <= i < |s| ==> Apart(s[i], y)
  }

  lemma PieceApart(s: seq<Range>, i: nat, y: Range)
    requires Normal(s) && i < |s| && s[i].begin <= y.begin && y.end <= s[i].end
    ensures AllApart(RemoveAt(s, i), y)
  {
    RemoveAtIndex(s, i);
    forall j | 0 <= j < |RemoveAt(s, i)| ensures Apart(RemoveAt(s, i)[j], y) {
      NormalApart(s, i, if j < i then j else j + 1);
    }
  }

  lemma InsertApart(s: seq<Range>, x: Range, y: Range)
    requires AllApart(s, y) && Apart(x, y)
    ensures AllApart(Insert(s, x), y)
  {
    InsertAt(s, x);
  }

  // ------------------------------------------------------- getFirstFree

  /** Every stored value fits the range's size_type of w bytes. */
  predicate Bounded(s: seq<Range>, w: nat) {
    forall i :: 0 <= i < |s| ==> s[i].end < Pow256(w)
  }

  /**
   * getFirstFree(limit) over a list of size_type ranges of w bytes, with
   * the unsigned wrap-around of size_type written out.
   */
  function FirstFree(s: seq<Range>, limit: nat, w: nat): Result<Range> {
    if |s| == 0 then
      MakeRange(0, Wrap(limit - 1, w))
    else if s[0].begin > 0 then
      var endPos := s[0].begin - 1;
      MakeRange(0, if Wrap(endPos + 1, w) > limit then Wrap(limit - 1, w) else endPos)
    else
      var curPos := Wrap(s[0].end + 1, w);
      MakeRange(curPos, if |s| == 1 then Wrap(curPos + limit - 1, w) else Wrap(s[1].begin - 1, w))
  }

  /** curPos + limit - 1 in size_type, clipped to the largest value instead of wrapping. */
  function ClipEnd(curPos: nat, limit: nat, w: nat): (r: nat)
    ensures r < Pow256(w)
    ensures curPos + limit <= Pow256(w) ==> r == Wrap(curPos + limit - 1, w)
    ensures 1 <= limit && curPos < Pow256(w) ==> curPos <= r <= curPos + limit - 1
  {
    if curPos + limit <= Pow256(w) then Wrap(curPos + limit - 1, w) else MaxOf(w)
  }

  /**
   * getFirstFree corrected: the gap before the second range is also clipped
   * to limit values, and curPos + limit - 1 stops at the largest value
   * instead of wrapping below curPos.
   */
  function FirstFreeClipped(s: seq<Range>, limit: nat, w: nat): (r: Result<Range>)
    ensures Bounded(s, w) && 1 <= limit && r.Ok? ==> r.value.end - r.value.begin + 1 <= limit
  {
    if |s| == 0 then
      MakeRange(0, ClipEnd(0, limit, w))
    else if s[0].begin > 0 then
      var endPos := s[0].begin - 1;
      MakeRange(0, if Wrap(endPos + 1, w) > limit then Wrap(limit - 1, w) else endPos)
    else
      var curPos := Wrap(s[0].end + 1, w);
      var endPos := if |s| == 1 then ClipEnd(curPos, limit, w) else Wrap(s[1].begin - 1, w);
      MakeRange(curPos, if |s| > 1 && endPos - curPos + 1 > limit then ClipEnd(curPos, limit, w) else endPos)
  }

  /**
   * A normal list of w-byte ranges that leaves some value free, and a limit
   * of at least 1 that size_type can hold, the default limit (its largest
   * value) included.
   */
  predicate SearchFits(s: seq<Range>, limit: nat, w: nat) {
    Normal(s) && Bounded(s, w) && 1 <= limit < Pow256(w) &&
    (|s| == 1 && s[0].begin == 0 ==> s[0].end < MaxOf(w))
  }

  /** r starts at the lowest value no stored range covers, and overlaps no stored range. */
  ghost predicate FirstGap(s: seq<Range>, r: Range) {
    !Covered(s, r.begin) &&
    (forall p: nat :: p < r.begin ==> Covered(s, p)) &&
    (forall i :: 0 <= i < |s| ==> !Overlaps(s[i], r))
  }

  /**
   * On a normal list of w-byte ranges, with limit at least 1 and no wrap-around
   * past the last value, getFirstFree returns the first free gap. Its length
   * is at most limit except when the list starts at 0 and has a second range.
   */
  lemma FirstFreeGap(s: seq<Range>, limit: nat, w: nat)
    requires Normal(s) && Bounded(s, w) && 1 <= limit < Pow256(w)
    requires |s| == 1 && s[0].begin == 0 ==> s[0].end + limit < Pow256(w)
    ensures FirstFree(s, limit, w).Ok?
    ensures FirstGap(s, FirstFree(s, limit, w).value)
    ensures !(|s| > 1 && s[0].begin == 0) ==>
      FirstFree(s, limit, w).value.end - FirstFree(s, limit, w).value.begin + 1 <= limit
  {
    if |s| > 0 {
      assert Pow256(w) > s[0].end;
      if |s| > 1 {
        assert s[0].end + 1 < s[1].begin;
        assert s[1].end < Pow256(w);
      }
      FirstGapOf(s, FirstFree(s, limit, w).value);
    }
  }

  lemma FirstGapOf(s: seq<Range>, r: Range)
    requires Normal(s) && |s| > 0
    requires s[0].begin > 0 ==> r.begin == 0 && r.end < s[0].begin
    requires s[0].begin == 0 ==> r.begin == s[0].end + 1 && (|s| > 1 ==> r.end < s[1].begin)
    ensures FirstGap(s, r)
  {
    forall p: nat | p < r.begin ensures Covered(s, p) {
      assert Has(s[0], p);
    }
    forall i | 0 <= i < |s| ensures !Overlaps(s[i], r) {
      if i > 1 { assert s[1].end + 1 < s[i].begin; }
      if i > 0 { assert s[0].end + 1 < s[i].begin; }
    }
  }

  /** The gap before the second range is returned whole, however long it is. */
  lemma FirstFreeExceedsLimit()
    ensures FirstFree([Range(0, 9), Range(30, 40)], 10, 2) == Ok(Range(10, 29))
  {
    assert Wrap(10, 2) == 10 && Wrap(29, 2) == 29;
  }

  /**
   * With the default limit, the largest size_type value, a list holding
   * one range from 0 makes curPos + limit - 1 wrap below curPos: the Range
   * constructor's check throws instead of the free rest of the file being
   * returned. The corrected search returns that rest.
   */
  lemma FirstFreeDefaultThrows(w: nat)
    requires w >= 1
    ensures FirstFree([Range(0, 9)], MaxOf(w), w).Err?
    ensures FirstFreeClipped([Range(0, 9)], MaxOf(w), w) == Ok(Range(10, MaxOf(w)))
  {
    assert Pow256(w) >= 256 by {
      PowAtLeast(w);
    }
    assert Wrap(10, w) == 10;
    WrapOnce(10 + MaxOf(w) - 1, w);
  }

  /** A value between Pow256(w) and twice that wraps to itself less Pow256(w). */
  lemma WrapOnce(x: int, w: nat)
    requires Pow256(w) <= x < 2 * Pow256(w)
    ensures Wrap(x, w) == x - Pow256(w)
  {
    ModOnce(x, Pow256(w));
  }

  lemma ModOnce(x: int, p: int)
    requires 0 < p <= x < 2 * p
    ensures x % p == x - p
  {
    var q, r := x / p, x % p;
    assert x == q * p + r && 0 <= r < p;
    assert q >= 2 ==> q * p >= 2 * p;
    assert q <= 0 ==> q * p <= 0;
    assert q == 1;
  }

  lemma {:induction false} PowAtLeast(w: nat)
    requires w >= 1
    ensures Pow256(w) >= 256
  {
    if w > 1 {
      PowAtLeast(w - 1);
    }
  }

  /** The corrected search returns the first free gap, never longer than limit. */
  lemma FirstFreeClippedGap(s: seq<Range>, limit: nat, w: nat)
    requires SearchFits(s, limit, w)
    ensures FirstFreeClipped(s, limit, w).Ok?
    ensures FirstGap(s, FirstFreeClipped(s, limit, w).value)
    ensures FirstFreeClipped(s, limit, w).value.end - FirstFreeClipped(s, limit, w).value.begin + 1 <= limit
  {
    if |s| > 0 {
      assert Pow256(w) > s[0].end;
      if |s| > 1 {
        assert s[0].end + 1 < s[1].begin;
        assert s[1].end < Pow256(w);
      }
      FirstGapOf(s, FirstFreeClipped(s, limit, w).value);
    }
  }

  // ---------------------------------------------------------- stream format

  /** Range's operator<<: OP_RANGE, u16 2*sizeof(T), begin, end. */
  function EncodeRange(x: Range, w: nat): bytes {
    PutLE(OP_RANGE, 1) + PutLE(2 * w, 2) + PutLE(x.begin, w) + PutLE(x.end, w)
  }

  function EncodeRanges(s: seq<Range>, w: nat): bytes {
    if s == [] then [] else EncodeRanges(s[..|s| - 1], w) + EncodeRange(s[|s| - 1], w)
  }

  /** RangeList's operator<<: OP_RANGELIST, u16 size*(2*sizeof+3), u32 size, then each range. */
  function EncodeList(s: seq<Range>, w: nat): bytes {
    PutLE(OP_RANGELIST, 1) + PutLE(|s| * (2 * w + 3), 2) + PutLE(|s|, 4) + EncodeRanges(s, w)
  }

  /** The u16 length field counts the range records: 2*sizeof+3 bytes each. */
  lemma {:induction false} EncodeRangesLength(s: seq<Range>, w: nat)
    ensures |EncodeRanges(s, w)| == |s| * (2 * w + 3)
  {
    if s != [] {
      var x := s[|s| - 1];
      EncodeRangesLength(s[..|s| - 1], w);
      assert |EncodeRange(x, w)| == 2 * w + 3;
      assert |s| * (2 * w + 3) == (|s| - 1) * (2 * w + 3) + (2 * w + 3);
    }
  }

  lemma {:induction false} EncodeRangesCons(x: Range, s: seq<Range>, w: nat)
    ensures EncodeRanges([x] + s, w) == EncodeRange(x, w) + EncodeRanges(s, w)
    decreases |s|
  {
    if s == [] {
      assert [x] + s == [x];
      assert [x][..0] == [];
    } else {
      var init, last := s[..|s| - 1], s[|s| - 1];
      var xs := [x] + s;
      assert xs[..|xs| - 1] == [x] + init;
      assert xs[|xs| - 1] == last;
      assert EncodeRanges(xs, w) == EncodeRanges([x] + init, w) + EncodeRange(last, w);
      EncodeRangesCons(x, init, w);
      assert EncodeRanges(s, w) == EncodeRanges(init, w) + EncodeRange(last, w);
    }
  }

  /** Range(std::istream&) preceded by the two checks of RangeList(std::istream&). */
  function ParseRange(s: bytes, w: nat): Result<(Range, bytes)> {
    match ReadUint(s, 1, false)
    case Err(e) => Err(e)
    case Ok((op, s1)) =>
      if op != OP_RANGE then Err("getVal<uint8_t>(i) == CGComm::OP_RANGE")
      else match ReadUint(s1, 2, false)
      case Err(e) => Err(e)
      case Ok((len, s2)) =>
        if len != 2 * w then Err("getVal<uint16_t>(i) == sizeof(size_type)*2")
        else match ReadUint(s2, w, false)
        case Err(e) => Err(e)
        case Ok((b, s3)) =>
          match ReadUint(s3, w, false)
          case Err(e) => Err(e)
          case Ok((e, s4)) =>
            if e < b then Err("m_end >= m_begin")
            else var x: Range := Range(b, e); Ok((x, s4))
  }

  /** cnt consecutive ranges, in stream order. */
  function ParseRanges(s: bytes, cnt: nat, w: nat): Result<(seq<Range>, bytes)>
    decreases cnt
  {
    if cnt == 0 then Ok(([], s))
    else match ParseRange(s, w)
    case Err(e) => Err(e)
    case Ok((x, t)) =>
      match ParseRanges(t, cnt - 1, w)
      case Err(e) => Err(e)
      case Ok((xs, u)) => Ok(([x] + xs, u))
  }

  /** The body of RangeList(std::istream&): a u32 count, then the ranges. */
  function ParseList(s: bytes, w: nat): Result<(seq<Range>, bytes)> {
    match ReadUint(s, 4, false)
    case Err(e) => Err(e)
    case Ok((cnt, t)) => ParseRanges(t, cnt, w)
  }

  /** The multiset built by inserting the ranges in stream order. */
  function Build(xs: seq<Range>): seq<Range> {
    if xs == [] then [] else Insert(Build(xs[..|xs| - 1]), xs[|xs| - 1])
  }

  lemma BuildSnoc(xs: seq<Range>, x: Range)
    ensures Build(xs + [x]) == Insert(Build(xs), x)
  {
    assert (xs + [x])[..|xs|] == xs;
  }

  lemma {:induction false} BuildSorted(xs: seq<Range>)
    ensures SortedMid(Build(xs))
  {
    if xs != [] {
      BuildSorted(xs[..|xs| - 1]);
      InsertSorted(Build(xs[..|xs| - 1]), xs[|xs| - 1]);
    }
  }

  lemma {:induction false} BuildOfSorted(xs: seq<Range>)
    requires SortedMid(xs)
    ensures Build(xs) == xs
  {
    if xs != [] {
      var init := xs[..|xs| - 1];
      BuildOfSorted(init);
      assert UpperBound(init, Mid(xs[|xs| - 1])) == |init|;
      assert init + [xs[|xs| - 1]] == xs;
    }
  }

  lemma Assoc4(a: bytes, l: bytes, b: bytes, e: bytes, tail: bytes)
    ensures a + l + b + e + tail == a + (l + (b + (e + tail)))
  {
  }

  lemma RangeRoundTrip(x: Range, w: nat, tail: bytes)
    requires x.end < Pow256(w) && 2 * w < 0x1_0000
    ensures ParseRange(EncodeRange(x, w) + tail, w) == Ok((x, tail))
  {
    assert Pow256(2) == 0x1_0000 by { assert Pow256(1) == 256; }
    var a, l, b, e := PutLE(OP_RANGE, 1), PutLE(2 * w, 2), PutLE(x.begin, w), PutLE(x.end, w);
    Assoc4(a, l, b, e, tail);
    ReadPutLE(OP_RANGE, 1, l + (b + (e + tail)));
    ReadPutLE(2 * w, 2, b + (e + tail));
    ReadPutLE(x.begin, w, e + tail);
    ReadPutLE(x.end, w, tail);
  }

  lemma ParseRangesStep(s: bytes, cnt: nat, w: nat, x: Range, t: bytes, xs: seq<Range>, u: bytes)
    requires cnt > 0 && ParseRange(s, w) == Ok((x, t)) && ParseRanges(t, cnt - 1, w) == Ok((xs, u))
    ensures ParseRanges(s, cnt, w) == Ok(([x] + xs, u))
  {
  }

  lemma {:induction false} RangesRoundTrip(s: seq<Range>, w: nat, tail: bytes)
    requires Bounded(s, w) && 2 * w < 0x1_0000
    ensures ParseRanges(EncodeRanges(s, w) + tail, |s|, w) == Ok((s, tail))
  {
    if s != [] {
      var rest := EncodeRanges(s[1..], w) + tail;
      EncodeRangesCons(s[0], s[1..], w);
      assert [s[0]] + s[1..] == s;
      assert EncodeRanges(s, w) + tail == EncodeRange(s[0], w) + rest;
      RangeRoundTrip(s[0], w, rest);
      RangesRoundTrip(s[1..], w, tail);
      ParseRangesStep(EncodeRanges(s, w) + tail, |s|, w, s[0], rest, s[1..], tail);
    } else {
      assert EncodeRanges(s, w) + tail == tail;
    }
  }

  /**
   * Writing a list and reading it back (after the OP_RANGELIST byte and the
   * u16 length, which the reader's caller consumes) gives the same ranges in
   * the same order, and loading them rebuilds the same multiset.
   */
  lemma ListRoundTrip(s: seq<Range>, w: nat, tail: bytes)
    requires SortedMid(s) && Bounded(s, w) && |s| < Pow256(4) && 2 * w < 0x1_0000
    ensures EncodeList(s, w)[3..] + tail == PutLE(|s|, 4) + EncodeRanges(s, w) + tail
    ensures ParseList(EncodeList(s, w)[3..] + tail, w) == Ok((s, tail))
    ensures Build(s) == s
  {
    var body := EncodeRanges(s, w) + tail;
    assert EncodeList(s, w)[3..] + tail == PutLE(|s|, 4) + body;
    ReadPutLE(|s|, 4, body);
    RangesRoundTrip(s, w, tail);
    BuildOfSorted(s);
  }

  /** The bytes of one more range, appended field by field, extend the encoding by that range. */
  lemma WriteRangeStep(head: bytes, s: seq<Range>, j: nat, w: nat)
    requires j < |s|
    ensures head + EncodeRanges(s[..j], w) + PutLE(OP_RANGE, 1) + PutLE(2 * w, 2)
      + PutLE(s[j].begin, w) + PutLE(s[j].end, w) == head + EncodeRanges(s[..j + 1], w)
  {
    assert s[..j + 1][..j] == s[..j];
    var e := EncodeRanges(s[..j], w);
    var a, l, b, c := PutLE(OP_RANGE, 1), PutLE(2 * w, 2), PutLE(s[j].begin, w), PutLE(s[j].end, w);
    assert EncodeRanges(s[..j + 1], w) == e + (a + l + b + c);
    assert head + e + a + l + b + c == head + (e + (a + l + b + c));
  }

  // ------------------------------------------------------------ the class

  class RangeList {
    var ranges: seq<Range>
    /** sizeof(size_type): the byte width of the range values on the wire. */
    const width: nat

    ghost predicate Valid()
      reads this
    {
      SortedMid(ranges)
    }

    constructor (width: nat)
      ensures Valid() && ranges == [] && this.width == width
    {
      ranges := [];
      this.width := width;
    }

    /** push(r): refuse the range found by find() if it equals r; otherwise insert r. */
    method Push(r: Range) returns (ok: bool)
      requires Valid()
      modifies this
      ensures Valid()
      ensures !ok ==> r in old(ranges) && ranges == old(ranges)
      ensures ok ==> ranges == Insert(old(ranges), r)
      ensures DistinctMids(old(ranges)) ==> (ok <==> r !in old(ranges))
    {
      var i := LowerBound(ranges, Mid(r));
      if i < |ranges| && ranges[i] == r {
        ok := false;
        return;
      }
      if DistinctMids(ranges) && r in ranges {
        FindExact(ranges, r);
      }
      InsertSorted(ranges, r);
      ranges := Insert(ranges, r);
      ok := true;
    }

    /** remove(r): erase the range found by find() if it equals r. */
    method Remove(r: Range) returns (ok: bool)
      requires Valid()
      modifies this
      ensures Valid()
      ensures ok ==> r in old(ranges) && multiset(ranges) == multiset(old(ranges)) - multiset{r}
      ensures !ok ==> ranges == old(ranges)
      ensures DistinctMids(old(ranges)) ==> (ok <==> r in old(ranges))
      ensures old(Normal(ranges)) ==> Normal(ranges)
    {
      var i := LowerBound(ranges, Mid(r));
      if i < |ranges| && ranges[i] == r {
        RemoveAtSorted(ranges, i);
        RemoveAtMultiset(ranges, i);
        if Normal(ranges) { RemoveAtNormal(ranges, i); }
        ranges := RemoveAt(ranges, i);
        ok := true;
      } else {
        if DistinctMids(ranges) && r in ranges {
          FindExact(ranges, r);
        }
        ok := false;
      }
    }

    /**
     * getContains(r): from the lower bound, or the range before it, step back
     * over the ranges that overlap r. On a normal list it finds an
     * overlapping range exactly when there is one.
     */
    method GetContains(r: Range) returns (k: nat)
      requires Valid()
      ensures k <= |ranges|
      ensures k < |ranges| ==> Overlaps(ranges[k], r)
      ensures Normal(ranges) ==> (k < |ranges| <==> exists j :: 0 <= j < |ranges| && Overlaps(ranges[j], r))
    {
      var s := ranges;
      var n := |s|;
      var i := LowerBound(s, Mid(r));
      if i < n && Overlaps(s[i], r) {
        var stop := false;
        while i > 0 && !stop
          invariant 0 <= i < n
          invariant !stop ==> Overlaps(s[i], r)
          invariant stop ==> i + 1 < n && Overlaps(s[i + 1], r)
        {
          i := i - 1;
          stop := !Overlaps(s[i], r);
        }
        k := if Overlaps(s[i], r) then i else i + 1;
      } else if i > 0 && Overlaps(s[i - 1], r) {
        k := i - 1;
      } else {
        if Normal(s) { LowerBoundOverlap(s, r); }
        k := n;
      }
    }

    /** contains(r): some stored range overlaps r (exact on a normal list). */
    method Contains(r: Range) returns (b: bool)
      requires Valid()
      ensures b ==> exists j :: 0 <= j < |ranges| && Overlaps(ranges[j], r)
      ensures Normal(ranges) ==> (b <==> exists p :: Has(r, p) && Covered(ranges, p))
    {
      var k := GetContains(r);
      b := k < |ranges|;
      if Normal(ranges) {
        if b {
          OverlapsPoints(ranges[k], r);
        } else {
          forall p | Has(r, p) ensures !Covered(ranges, p) {
            if Covered(ranges, p) {
              var j :| 0 <= j < |ranges| && Has(ranges[j], p);
              OverlapsPoints(ranges[j], r);
            }
          }
        }
      }
    }

    /** containsFull(r): the range found by getContains, or the one before it, covers r. */
    method ContainsFull(r: Range) returns (b: bool)
      requires Valid()
      ensures b ==> exists j :: 0 <= j < |ranges| && CoversFull(ranges[j], r)
      ensures Normal(ranges) ==> (b <==> exists j :: 0 <= j < |ranges| && CoversFull(ranges[j], r))
    {
      var i := GetContains(r);
      if i < |ranges| && CoversFull(ranges[i], r) {
        b := true;
      } else if i > 0 && CoversFull(ranges[i - 1], r) {
        b := true;
      } else {
        b := false;
      }
    }

    /**
     * getBorders(r): the range at the lower bound, else the one before it,
     * else (at the front) the second one, if it borders r. Exact on a normal
     * list none of whose ranges overlaps r.
     */
    function GetBorders(r: Range): (k: nat)
      requires Valid()
      reads this
      ensures k <= |ranges|
      ensures k < |ranges| ==> Borders(ranges[k], r)
      ensures Normal(ranges) && (forall j :: 0 <= j < |ranges| ==> !Overlaps(ranges[j], r)) ==>
        (k < |ranges| <==> exists j :: 0 <= j < |ranges| && Borders(ranges[j], r))
    {
      var n := |ranges|;
      var i := LowerBound(ranges, Mid(r));
      var k :=
        if i < n && Borders(ranges[i], r) then i
        else if i > 0 then (if Borders(ranges[i - 1], r) then i - 1 else n)
        else if i + 1 < n && Borders(ranges[i + 1], r) then i + 1
        else n;
      if Normal(ranges) && (forall j :: 0 <= j < |ranges| ==> !Overlaps(ranges[j], r)) then
        LowerBoundBorder(ranges, r); k
      else k
    }

    /**
     * getFirstFree(limit), with the gap before the second range clipped to
     * limit values as in the other branches (FirstFree is the search as
     * written): on a normal list the first free gap, at most limit long.
     */
    function GetFirstFree(limit: nat): (r: Result<Range>)
      reads this
      ensures SearchFits(ranges, limit, width) ==>
        r.Ok? && FirstGap(ranges, r.value) && r.value.end - r.value.begin + 1 <= limit
    {
      if SearchFits(ranges, limit, width) then
        FirstFreeClippedGap(ranges, limit, width);
        FirstFreeClipped(ranges, limit, width)
      else
        FirstFreeClipped(ranges, limit, width)
    }

    /**
     * merge(r): absorb every overlapping range, then every bordering one,
     * into r and insert the result. A normal list stays normal and gains
     * exactly the values of r.
     */
    method Merge(r: Range)
      requires Valid()
      modifies this
      ensures Valid()
      ensures old(Normal(ranges)) ==> Normal(ranges)
      ensures old(Normal(ranges)) ==> forall p :: Covered(ranges, p) <==> Covered(old(ranges), p) || Has(r, p)
    {
      ghost var s0 := ranges;
      var m1 := AbsorbOverlapping(r);
      ghost var s1 := ranges;
      var m := AbsorbBordering(m1);
      InsertSorted(ranges, m);
      InsertCovered(ranges, m);
      if Normal(s0) {
        InsertNormal(ranges, m);
        forall p ensures Covered(Insert(ranges, m), p) <==> Covered(s0, p) || Has(r, p) {
          assert Covered(ranges, p) || Has(m, p) <==> Covered(s1, p) || Has(m1, p);
          assert Covered(s1, p) || Has(m1, p) <==> Covered(s0, p) || Has(r, p);
        }
      }
      ranges := Insert(ranges, m);
    }

    /** The first loop of merge(r): take out every range that overlaps r and fold it into r. */
    method AbsorbOverlapping(r: Range) returns (m: Range)
      requires Valid()
      modifies this
      ensures Valid()
      ensures old(Normal(ranges)) ==> Normal(ranges) && forall j :: 0 <= j < |ranges| ==> !Overlaps(ranges[j], m)
      ensures old(Normal(ranges)) ==> forall p :: Covered(ranges, p) || Has(m, p) <==> Covered(old(ranges), p) || Has(r, p)
    {
      ghost var s0 := ranges;
      m := r;
      var i := GetContains(m);
      while i < |ranges|
        invariant Valid()
        invariant 0 <= i <= |ranges| && (i < |ranges| ==> Overlaps(ranges[i], m))
        invariant Normal(s0) ==> Normal(ranges)
        invariant Normal(s0) && i == |ranges| ==> forall j :: 0 <= j < |ranges| ==> !Overlaps(ranges[j], m)
        invariant Normal(s0) ==> forall p :: Covered(ranges, p) || Has(m, p) <==> Covered(s0, p) || Has(r, p)
        decreases |ranges|
      {
        var x := ranges[i];
        AbsorbStep(ranges, m, i);
        m := Ranges.Merge(m, x);
        ranges := RemoveAt(ranges, i);
        i := GetContains(m);
      }
    }

    /**
     * The second loop of merge(r): take out every range that borders r and
     * fold it into r. On a normal list none of whose ranges overlaps r, no
     * range overlaps or borders the result afterwards.
     */
    method AbsorbBordering(r: Range) returns (m: Range)
      requires Valid()
      modifies this
      ensures Valid()
      ensures old(Normal(ranges)) && (forall j :: 0 <= j < |old(ranges)| ==> !Overlaps(old(ranges)[j], r)) ==>
        Normal(ranges) && AllApart(ranges, m)
      ensures old(Normal(ranges)) ==> forall p :: Covered(ranges, p) || Has(m, p) <==> Covered(old(ranges), p) || Has(r, p)
    {
      ghost var s0 := ranges;
      ghost var clear := Normal(s0) && forall j :: 0 <= j < |s0| ==> !Overlaps(s0[j], r);
      m := r;
      var i := GetBorders(m);
      while i < |ranges|
        invariant Valid()
        invariant 0 <= i <= |ranges| && (i < |ranges| ==> Borders(ranges[i], m))
        invariant Normal(s0) ==> Normal(ranges)
        invariant clear ==> forall j :: 0 <= j < |ranges| ==> !Overlaps(ranges[j], m)
        invariant clear && i == |ranges| ==> forall j :: 0 <= j < |ranges| ==> !Borders(ranges[j], m)
        invariant Normal(s0) ==> forall p :: Covered(ranges, p) || Has(m, p) <==> Covered(s0, p) || Has(r, p)
        decreases |ranges|
      {
        var x := ranges[i];
        AbsorbStep(ranges, m, i);
        if clear { AbsorbBorderClear(ranges, m, i); }
        m := Ranges.Merge(m, x);
        ranges := RemoveAt(ranges, i);
        i := GetBorders(m);
      }
      if clear {
        forall j | 0 <= j < |ranges| ensures Apart(ranges[j], m) {
          ApartOf(ranges[j], m);
        }
      }
    }

    /**
     * erase(r): cut r out of every range that overlaps it, re-inserting the
     * pieces. A normal list stays normal, loses exactly the values of r, and
     * afterwards no range overlaps r.
     */
    method Erase(r: Range)
      requires Valid()
      modifies this
      ensures Valid()
      ensures old(Normal(ranges)) ==> Normal(ranges) && forall j :: 0 <= j < |ranges| ==> !Overlaps(ranges[j], r)
      ensures old(Normal(ranges)) ==> forall p :: Covered(ranges, p) <==> Covered(old(ranges), p) && !Has(r, p)
    {
      ghost var s0 := ranges;
      var i := GetContains(r);
      while i < |ranges|
        invariant Valid()
        invariant 0 <= i <= |ranges| && (i < |ranges| ==> Overlaps(ranges[i], r))
        invariant Normal(s0) ==> Normal(ranges)
        invariant Normal(s0) && i == |ranges| ==> forall j :: 0 <= j < |ranges| ==> !Overlaps(ranges[j], r)
        invariant Normal(s0) ==> forall p :: !Has(r, p) ==> (Covered(ranges, p) <==> Covered(s0, p))
        decreases CountOverlapping(ranges, r)
      {
        var x := ranges[i];
        var e := Ranges.Erase(x, r);
        var rest := RemoveAt(ranges, i);
        RemoveAtSorted(ranges, i);
        RemoveAtCovered(ranges, i);
        CountRemove(ranges, i, r);
        if Normal(s0) { RemoveAtNormal(ranges, i); }
        match e {
          case Cleared =>
            ranges := rest;
          case Truncated(one) =>
            InsertSorted(rest, one);
            InsertCovered(rest, one);
            CountInsert(rest, one, r);
            if Normal(s0) {
              PieceApart(ranges, i, one);
              InsertNormal(rest, one);
            }
            ranges := Insert(rest, one);
          case Split(one, two) =>
            var mid := Insert(rest, one);
            InsertSorted(rest, one);
            InsertCovered(rest, one);
            CountInsert(rest, one, r);
            InsertSorted(mid, two);
            InsertCovered(mid, two);
            CountInsert(mid, two, r);
            if Normal(s0) {
              PieceApart(ranges, i, one);
              InsertNormal(rest, one);
              PieceApart(ranges, i, two);
              InsertApart(rest, one, two);
              InsertNormal(mid, two);
            }
            ranges := Insert(mid, two);
        }
        i := GetContains(r);
      }
      if Normal(s0) {
        forall p | Covered(ranges, p) ensures !Has(r, p) {
          var j :| 0 <= j < |ranges| && Has(ranges[j], p);
          if Has(r, p) { OverlapsPoints(ranges[j], r); }
        }
      }
    }

    /** operator<<. */
    method Write(o: OutStream)
      requires !o.bigEndian
      modifies o
      ensures o.bytes == old(o.bytes) + EncodeList(ranges, width)
    {
      var n := |ranges|;
      o.PutVal(OP_RANGELIST, 1);
      o.PutVal(n * (2 * width + 3), 2);
      o.PutVal(n, 4);
      ghost var head := o.bytes;
      var j := 0;
      while j < n
        invariant 0 <= j <= n
        invariant o.bytes == head + EncodeRanges(ranges[..j], width)
      {
        var x := ranges[j];
        o.PutVal(OP_RANGE, 1);
        o.PutVal(2 * width, 2);
        o.PutVal(x.begin, width);
        o.PutVal(x.end, width);
        WriteRangeStep(head, ranges, j, width);
        j := j + 1;
      }
      assert ranges[..j] == ranges;
    }

    /** RangeList(std::istream&): read the count and the ranges, inserting each. */
    static method Load(i: InStream, w: nat) returns (r: Result<RangeList>)
      requires !i.bigEndian
      modifies i
      ensures r.Ok? <==> ParseList(old(i.rest), w).Ok?
      ensures r.Ok? ==> fresh(r.value) && r.value.Valid() && r.value.width == w
      ensures r.Ok? ==> r.value.ranges == Build(ParseList(old(i.rest), w).value.0)
      ensures r.Ok? ==> i.rest == ParseList(old(i.rest), w).value.1
    {
      var cnt := i.GetVal(4);
      if cnt.Err? {
        return Err(cnt.msg);
      }
      assert ParseList(old(i.rest), w) == ParseRanges(i.rest, cnt.value, w);
      var loaded := LoadRanges(i, cnt.value, w);
      if loaded.Err? {
        return Err(loaded.msg);
      }
      var rl := new RangeList(w);
      rl.ranges := loaded.value;
      return Ok(rl);
    }
  }

  /**
   * The loop of RangeList(std::istream&): cnt ranges, each read and inserted
   * in turn. The ranges are collected locally: when a read throws, the
   * half-built list is never seen.
   */
  method LoadRanges(i: InStream, cnt: nat, w: nat) returns (r: Result<seq<Range>>)
    requires !i.bigEndian
    modifies i
    ensures r.Ok? <==> ParseRanges(old(i.rest), cnt, w).Ok?
    ensures r.Ok? ==> SortedMid(r.value)
    ensures r.Ok? ==> r.value == Build(ParseRanges(old(i.rest), cnt, w).value.0)
    ensures r.Ok? ==> i.rest == ParseRanges(old(i.rest), cnt, w).value.1
  {
    var acc: seq<Range> := [];
    ghost var read: seq<Range> := [];
    ghost var whole := ParseRanges(i.rest, cnt, w);
    PrependNone(whole);
    var left := cnt;
    while left > 0
      invariant acc == Build(read)
      invariant whole == Prepend(read, ParseRanges(i.rest, left, w))
    {
      ghost var before := i.rest;
      var x := ReadRange(i, w);
      if x.Err? {
        PrependErr(read, before, left, w);
        return Err(x.msg);
      }
      PrependStep(read, before, left, w, x.value, i.rest);
      BuildSnoc(read, x.value);
      acc := Insert(acc, x.value);
      read := read + [x.value];
      left := left - 1;
    }
    PrependDone(read, i.rest, w);
    BuildSorted(read);
    return Ok(acc);
  }

  /** Range(std::istream&), after RangeList's checks of the OP_RANGE byte and the length. */
  method ReadRange(i: InStream, w: nat) returns (r: Result<Range>)
    requires !i.bigEndian
    modifies i
    ensures r.Ok? <==> ParseRange(old(i.rest), w).Ok?
    ensures r.Ok? ==> ParseRange(old(i.rest), w) == Ok((r.value, i.rest))
  {
    var op := i.GetVal(1);
    if op.Err? { return Err(op.msg); }
    if op.value != OP_RANGE { return Err("getVal<uint8_t>(i) == CGComm::OP_RANGE"); }
    var len := i.GetVal(2);
    if len.Err? { return Err(len.msg); }
    if len.value != 2 * w { return Err("getVal<uint16_t>(i) == sizeof(size_type)*2"); }
    var b := i.GetVal(w);
    if b.Err? { return Err(b.msg); }
    var e := i.GetVal(w);
    if e.Err? { return Err(e.msg); }
    if e.value < b.value { return Err("m_end >= m_begin"); }
    return Ok(Range(b.value, e.value));
  }

  /** The ranges already read, in front of what the rest of the stream gives. */
  function Prepend(read: seq<Range>, res: Result<(seq<Range>, bytes)>): Result<(seq<Range>, bytes)> {
    match res
    case Err(e) => Err(e)
    case Ok((xs, u)) => Ok((read + xs, u))
  }

  lemma PrependNone(res: Result<(seq<Range>, bytes)>)
    ensures Prepend([], res) == res
  {
    if res.Ok? { assert [] + res.value.0 == res.value.0; }
  }

  lemma PrependStep(read: seq<Range>, s: bytes, cnt: nat, w: nat, x: Range, t: bytes)
    requires cnt > 0 && ParseRange(s, w) == Ok((x, t))
    ensures Prepend(read, ParseRanges(s, cnt, w)) == Prepend(read + [x], ParseRanges(t, cnt - 1, w))
  {
    var rest := ParseRanges(t, cnt - 1, w);
    if rest.Ok? {
      assert read + ([x] + rest.value.0) == read + [x] + rest.value.0;
    }
  }

  lemma PrependDone(read: seq<Range>, rest: bytes, w: nat)
    ensures Prepend(read, ParseRanges(rest, 0, w)) == Ok((read, rest))
  {
    assert read + [] == read;
  }

  lemma PrependErr(read: seq<Range>, s: bytes, cnt: nat, w: nat)
    requires cnt > 0 && ParseRange(s, w).Err?
    ensures Prepend(read, ParseRanges(s, cnt, w)).Err?
  {
  }
}
