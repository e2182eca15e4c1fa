/**
 * Half-open address ranges [begin, end) over usize, as the Span type of
 * crates/spanner.
 */
module Spanner {
  import opened Wrappers

  const WORD: int := 0x1_0000_0000_0000_0000
  const ISIZE_MIN: int := -0x8000_0000_0000_0000
  const ISIZE_MAX: int := 0x7fff_ffff_ffff_ffff

  type usize = x: int | 0 <= x < WORD
  type isize = x: int | ISIZE_MIN <= x <= ISIZE_MAX

  /**
   * A span. Span::new only builds spans with begin <= end; `offset` can wrap
   * and break that, so it is a predicate rather than part of the type.
   */
  datatype Span = Span(begin: usize, end: usize)

  predicate Valid(s: Span) {
    s.begin <= s.end
  }

  /** Address x lies in the span: the reference every operation is stated against */
  predicate In(s: Span, x: int) {
    s.begin <= x < s.end
  }

  function Max(a: int, b: int): int {
    if a >= b then a else b
  }

  function Min(a: int, b: int): int {
    if a <= b then a else b
  }

  /** Span::new and From<Range<usize>>: the assert on the ordering is a precondition */
  function New(begin: usize, end: usize): (s: Span)
    requires begin <= end
    ensures Valid(s) && forall x :: In(s, x) <==> begin <= x < end
  {
    Span(begin, end)
  }

  /** Span::intersect: the overlap, if it is not empty */
  function Intersect(s: Span, o: Span): (r: Option<Span>)
    ensures r.Some? <==> Max(s.begin, o.begin) < Min(s.end, o.end)
    ensures r.Some? ==> Valid(r.value) && r.value.begin < r.value.end
    ensures r.Some? ==> forall x :: In(r.value, x) <==> In(s, x) && In(o, x)
    ensures r.None? ==> forall x :: !(In(s, x) && In(o, x))
  {
    var lo := Max(s.begin, o.begin);
    var hi := Min(s.end, o.end);
    if lo >= hi then
      None
    else
      Some(Span(lo, hi))
  }

  /** Span::merge: the smallest span over both when they overlap or touch */
  function Merge(s: Span, o: Span): (r: Option<Span>)
    ensures r.Some? <==> Max(s.begin, o.begin) <= Min(s.end, o.end)
    ensures r.Some? && Valid(s) && Valid(o) ==> Valid(r.value) && forall x :: In(r.value, x) <==> In(s, x) || In(o, x)
    ensures r.None? && Valid(s) && Valid(o) ==> s.end < o.begin || o.end < s.begin
  {
    if Max(s.begin, o.begin) > Min(s.end, o.end) then
      None
    else
      Some(Span(Min(s.begin, o.begin), Max(s.end, o.end)))
  }

  /**
   * Span::offset: both ends move by `offs`. The `as isize` / `as usize` casts
   * make the sum wrap modulo 2^64.
   */
  function Offset(s: Span, offs: isize): (r: Span)
    ensures 0 <= s.begin + offs < WORD ==> r.begin == s.begin + offs
    ensures 0 <= s.end + offs < WORD ==> r.end == s.end + offs
  {
    Span((s.begin + offs) % WORD, (s.end + offs) % WORD)
  }

  /** Span::len: `end - begin`, which panics on underflow */
  function Len(s: Span): (n: usize)
    requires Valid(s)
    ensures forall x :: In(s, x) <==> s.begin <= x < s.begin + n
  {
    s.end - s.begin
  }

  /** Span::contains as written: `begin >= addr && addr < end` */
  predicate Contains(s: Span, addr: usize) {
    s.begin >= addr && addr < s.end
  }

  /** Span::contains as its name and comment mean it: addr lies in [begin, end) */
  predicate ContainsIntended(s: Span, addr: usize) {
    s.begin <= addr < s.end
  }

  /**
   * The intended check is, by its definition, membership in the span; it
   * also agrees with `intersect` against the one-address span [addr, addr + 1).
   */
  lemma ContainsIntendedIsMembership(s: Span, addr: usize)
    ensures ContainsIntended(s, addr) <==> In(s, addr)
    ensures addr + 1 < WORD ==> (ContainsIntended(s, addr) <==> Intersect(s, Span(addr, addr + 1)).Some?)
  {
  }

  /** The check as written rejects an inner address and accepts one below the span. */
  lemma ContainsAsWrittenWrong()
    ensures In(Span(0, 10), 5) && !Contains(Span(0, 10), 5)
    ensures !In(Span(5, 10), 3) && Contains(Span(5, 10), 3)
  {
  }

  /** The check as written agrees with membership only at the first address. */
  lemma ContainsAsWrittenOnlyBegin(s: Span, addr: usize)
    requires Valid(s)
    ensures Contains(s, addr) && In(s, addr) <==> addr == s.begin < s.end
  {
  }

  /** intersect does not depend on the order of its operands. */
  lemma IntersectSymmetric(s: Span, o: Span)
    ensures Intersect(s, o) == Intersect(o, s)
  {
  }

  /** A non-empty span intersected with itself is itself; an empty one gives None. */
  lemma IntersectSelf(s: Span)
    requires Valid(s)
    ensures Intersect(s, s) == if s.begin < s.end then Some(s) else None
  {
  }

  /** Spans that only touch share no address, so their intersection is None. */
  lemma IntersectTouching(s: Span, o: Span)
    requires Valid(s) && Valid(o) && s.end == o.begin
    ensures Intersect(s, o).None?
  {
  }

  /** The result of intersect lies inside both operands. */
  lemma IntersectInside(s: Span, o: Span)
    requires Intersect(s, o).Some?
    ensures s.begin <= Intersect(s, o).value.begin && Intersect(s, o).value.end <= s.end
    ensures o.begin <= Intersect(s, o).value.begin && Intersect(s, o).value.end <= o.end
  {
  }

  /** merge does not depend on the order of its operands. */
  lemma MergeCommutative(s: Span, o: Span)
    ensures Merge(s, o) == Merge(o, s)
  {
  }

  /** Merging a span with itself gives it back. */
  lemma MergeSelf(s: Span)
    requires Valid(s)
    ensures Merge(s, s) == Some(s)
  {
  }

  /** Touching spans merge into one. */
  lemma MergeTouching(s: Span, o: Span)
    requires Valid(s) && Valid(o) && s.end == o.begin
    ensures Merge(s, o) == Some(Span(s.begin, o.end))
  {
  }

  /** Shifting a valid span without wrapping keeps it valid and keeps its length. */
  lemma OffsetKeepsLen(s: Span, offs: isize)
    requires Valid(s) && 0 <= s.begin + offs && s.end + offs < WORD
    ensures Valid(Offset(s, offs)) && Len(Offset(s, offs)) == Len(s)
  {
  }

  /** The documentation examples of intersect and merge. */
  lemma DocExamples()
    ensures Intersect(Span(1, 2), Span(3, 4)) == Intersect(Span(3, 4), Span(1, 2)) == None
    ensures Intersect(Span(1, 2), Span(2, 3)) == Intersect(Span(2, 3), Span(1, 2)) == None
    ensures Intersect(Span(1, 1), Span(1, 1)) == None
    ensures Intersect(Span(1, 3), Span(2, 3)) == Some(Span(2, 3))
    ensures Intersect(Span(1, 2), Span(1, 2)) == Some(Span(1, 2))
    ensures Merge(Span(1, 2), Span(2, 3)) == Merge(Span(2, 3), Span(1, 2)) == Some(Span(1, 3))
    ensures Merge(Span(1, 2), Span(3, 4)) == Merge(Span(3, 4), Span(1, 2)) == None
    ensures Merge(Span(1, 3), Span(1, 3)) == Some(Span(1, 3))
    ensures Merge(Merge(Span(1, 3), Span(1, 2)).value, Span(2, 3)) == Some(Span(1, 3))
  {
  }
}
