/** Three-dimensional ranges and the page arithmetic of a data region
    (include/hipSYCL/runtime/data.hpp, include/hipSYCL/runtime/operations.hpp). */
module Geometry {

  datatype Vec3 = Vec3(x: nat, y: nat, z: nat)

  /** A rectangle of cells: its first cell and its extent in each dimension. */
  datatype Rect = Rect(first: Vec3, extent: Vec3)

  /** Page sizes are asserted to be positive when a data region is constructed. */
  type PageSize = v: Vec3 | v.x > 0 && v.y > 0 && v.z > 0 witness Vec3(1, 1, 1)

  /** `i` lies in the half-open interval of `len` cells starting at `first`. */
  predicate Within(i: nat, first: nat, len: nat) {
    first <= i < first + len
  }

  predicate InBounds(c: Vec3, size: Vec3) {
    c.x < size.x && c.y < size.y && c.z < size.z
  }

  predicate InRect(c: Vec3, r: Rect) {
    && Within(c.x, r.first.x, r.extent.x)
    && Within(c.y, r.first.y, r.extent.y)
    && Within(c.z, r.first.z, r.extent.z)
  }

  /** The page of one coordinate, and of an element. */
  function PageOf(e: Vec3, ps: PageSize): Vec3 {
    Vec3(e.x / ps.x, e.y / ps.y, e.z / ps.z)
  }

  /** First page after the interval `[off, off + len)`. */
  function PageEnd(off: nat, len: nat, ps: nat): (e: nat)
    requires ps > 0
    ensures off / ps <= e
  {
    DivMonotone(off, off + len + ps - 1, ps);
    (off + len + ps - 1) / ps
  }

  /** get_page_range: the pages touched by an element range. */
  function PageRange(off: Vec3, len: Vec3, ps: PageSize): (r: Rect) {
    var b := PageOf(off, ps);
    Rect(b, Vec3(PageEnd(off.x, len.x, ps.x) - b.x,
                 PageEnd(off.y, len.y, ps.y) - b.y,
                 PageEnd(off.z, len.z, ps.z) - b.z))
  }

  /** The test of one dimension in page_ranges_intersect. */
  predicate Overlaps(b1: nat, n1: nat, b2: nat, n2: nat) {
    b1 < b2 + n2 && b2 < b1 + n1
  }

  /** page_ranges_intersect: all three dimensions overlap. */
  predicate RectsOverlap(a: Rect, b: Rect) {
    && Overlaps(a.first.x, a.extent.x, b.first.x, b.extent.x)
    && Overlaps(a.first.y, a.extent.y, b.first.y, b.extent.y)
    && Overlaps(a.first.z, a.extent.z, b.first.z, b.extent.z)
  }

  /** The covering test of replaces_user in one dimension, on elements. */
  predicate Spans(off: nat, len: nat, off': nat, len': nat) {
    off <= off' && off' + len' <= off + len
  }

  /** `outer` contains the element range of `inner` in every dimension. */
  predicate Covers(outer: Rect, inner: Rect) {
    && Spans(outer.first.x, outer.extent.x, inner.first.x, inner.extent.x)
    && Spans(outer.first.y, outer.extent.y, inner.first.y, inner.extent.y)
    && Spans(outer.first.z, outer.extent.z, inner.first.z, inner.extent.z)
  }

  /** The pages of an access: the set the conflict test is about. */
  ghost predicate TouchesPage(p: Vec3, elements: Rect, ps: PageSize) {
    InRect(p, PageRange(elements.first, elements.extent, ps))
  }

  lemma DivMonotone(a: nat, b: nat, d: nat)
    requires a <= b && d > 0
    ensures a / d <= b / d
  {
    if b / d < a / d {
      MulLe(b / d + 1, a / d, d);
      assert false;
    }
  }

  lemma MulLe(a: int, b: int, c: nat)
    requires a <= b
    ensures a * c <= b * c
  {
  }

  /** Covering in elements is covering in pages. */
  lemma CoverIsPageCover(outer: Rect, inner: Rect, ps: PageSize, p: Vec3)
    requires Covers(outer, inner) && TouchesPage(p, inner, ps)
    ensures TouchesPage(p, outer, ps)
  {
    PageSpan(outer.first.x, outer.extent.x, inner.first.x, inner.extent.x, ps.x);
    PageSpan(outer.first.y, outer.extent.y, inner.first.y, inner.extent.y, ps.y);
    PageSpan(outer.first.z, outer.extent.z, inner.first.z, inner.extent.z, ps.z);
  }

  lemma PageSpan(off: nat, len: nat, off': nat, len': nat, ps: nat)
    requires ps > 0 && Spans(off, len, off', len')
    ensures off / ps <= off' / ps && PageEnd(off', len', ps) <= PageEnd(off, len, ps)
  {
    DivMonotone(off, off', ps);
    DivMonotone(off' + len' + ps - 1, off + len + ps - 1, ps);
  }

  /** The intersection test accepts every pair of accesses that share a page. */
  lemma SharedPageOverlaps(a: Rect, b: Rect, ps: PageSize, p: Vec3)
    requires TouchesPage(p, a, ps) && TouchesPage(p, b, ps)
    ensures RectsOverlap(PageRange(a.first, a.extent, ps), PageRange(b.first, b.extent, ps))
  {
  }

  /** Conversely, the test only accepts pairs that share a page when neither page range is empty. */
  lemma OverlapSharesPage(a: Rect, b: Rect) returns (p: Vec3)
    requires RectsOverlap(a, b)
    requires a.extent.x > 0 && a.extent.y > 0 && a.extent.z > 0
    requires b.extent.x > 0 && b.extent.y > 0 && b.extent.z > 0
    ensures InRect(p, a) && InRect(p, b)
  {
    p := Vec3(Max(a.first.x, b.first.x), Max(a.first.y, b.first.y), Max(a.first.z, b.first.z));
  }

  function Max(a: nat, b: nat): nat {
    if a < b then b else a
  }

  /** Every element of a range lies on one of the range's pages. */
  lemma ElementOnPage(e: Vec3, r: Rect, ps: PageSize)
    requires InRect(e, r)
    ensures TouchesPage(PageOf(e, ps), r, ps)
  {
    ElementOnPage1(e.x, r.first.x, r.extent.x, ps.x);
    ElementOnPage1(e.y, r.first.y, r.extent.y, ps.y);
    ElementOnPage1(e.z, r.first.z, r.extent.z, ps.z);
  }

  lemma ElementOnPage1(e: nat, off: nat, len: nat, ps: nat)
    requires ps > 0 && Within(e, off, len)
    ensures off / ps <= e / ps < PageEnd(off, len, ps)
  {
    DivMonotone(off, e, ps);
    DivMonotone(e + ps, off + len + ps - 1, ps);
    DivShift(e, ps);
  }

  /** Every page of a non-empty interval has one of its elements. */
  lemma PageHasElement1(p: nat, off: nat, len: nat, ps: nat) returns (e: nat)
    requires ps > 0 && len > 0 && off / ps <= p < PageEnd(off, len, ps)
    ensures Within(e, off, len) && e / ps == p
  {
    e := Max(off, p * ps);
    StartsBeforeEnd(p, off + len, ps);
    if p * ps < off {
      DivMonotone(p * ps, off, ps);
    }
    DivUnique(p * ps, ps, p, 0);
  }

  lemma StartsBeforeEnd(p: nat, n: nat, d: nat)
    requires d > 0 && p < (n + d - 1) / d
    ensures p * d < n
  {
    var m := n + d - 1;
    assert m == m / d * d + m % d;
    MulLe(p + 1, m / d, d);
    assert (p + 1) * d == p * d + d;
  }

  /** The pages of a non-empty range are exactly those of its elements. */
  lemma TouchesIffElement(p: Vec3, r: Rect, ps: PageSize)
    requires r.extent.x > 0 && r.extent.y > 0 && r.extent.z > 0
    ensures TouchesPage(p, r, ps) <==>
            exists e :: InRect(e, r) && e.x / ps.x == p.x && e.y / ps.y == p.y && e.z / ps.z == p.z
  {
    if TouchesPage(p, r, ps) {
      var x := PageHasElement1(p.x, r.first.x, r.extent.x, ps.x);
      var y := PageHasElement1(p.y, r.first.y, r.extent.y, ps.y);
      var z := PageHasElement1(p.z, r.first.z, r.extent.z, ps.z);
      var e := Vec3(x, y, z);
      assert InRect(e, r) && e.x / ps.x == p.x && e.y / ps.y == p.y && e.z / ps.z == p.z;
    }
    if e :| InRect(e, r) && e.x / ps.x == p.x && e.y / ps.y == p.y && e.z / ps.z == p.z {
      ElementOnPage(e, r, ps);
      assert PageOf(e, ps) == p;
    }
  }

  lemma DivShift(e: nat, d: nat)
    requires d > 0
    ensures (e + d) / d == e / d + 1
  {
    var q := e / d;
    assert e == q * d + e % d;
    assert e + d == (q + 1) * d + e % d;
    DivUnique(e + d, d, q + 1, e % d);
  }

  lemma DivUnique(n: nat, d: nat, q: int, r: int)
    requires d > 0 && n == q * d + r && 0 <= r < d
    ensures n / d == q && n % d == r
  {
    var q', r' := n / d, n % d;
    assert (q - q') * d == r' - r;
    if q > q' { MulLe(1, q - q', d); } else if q < q' { MulLe(q - q', -1, d); }
  }
}
