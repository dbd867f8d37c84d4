/** Conversion between page rectangles and element rectangles of a data region
    (include/hipSYCL/runtime/data.hpp). */
module PageElements {
  import opened Geometry

  function Min(a: nat, b: nat): nat {
    if a < b then a else b
  }

  /** An access lies inside the buffer. */
  predicate AccessFits(acc: Rect, elements: Vec3) {
    && acc.first.x + acc.extent.x <= elements.x
    && acc.first.y + acc.extent.y <= elements.y
    && acc.first.z + acc.extent.z <= elements.z
  }

  /** Number of pages in one dimension, and of the whole region. */
  function PageCount(elements: nat, ps: nat): nat
    requires ps > 0
  {
    (elements + ps - 1) / ps
  }

  function NumPages(elements: Vec3, ps: PageSize): Vec3 {
    Vec3(PageCount(elements.x, ps.x), PageCount(elements.y, ps.y), PageCount(elements.z, ps.z))
  }

  /** A non-empty page rectangle inside the page table. */
  predicate PagesFit(r: Rect, elements: Vec3, ps: PageSize) {
    && r.extent.x > 0 && r.first.x + r.extent.x <= PageCount(elements.x, ps.x)
    && r.extent.y > 0 && r.first.y + r.extent.y <= PageCount(elements.y, ps.y)
    && r.extent.z > 0 && r.first.z + r.extent.z <= PageCount(elements.z, ps.z)
  }

  /** The conversion back to elements at the end of get_outdated_regions: scale, then clamp. */
  function Scaled(first: nat, extent: nat, ps: nat, elements: nat): (r: (nat, nat)) {
    var f := Min(first * ps, elements);
    (f, Min(extent * ps, elements - f))
  }

  function ToElements(r: Rect, elements: Vec3, ps: PageSize): Rect {
    var x := Scaled(r.first.x, r.extent.x, ps.x, elements.x);
    var y := Scaled(r.first.y, r.extent.y, ps.y, elements.y);
    var z := Scaled(r.first.z, r.extent.z, ps.z, elements.z);
    Rect(Vec3(x.0, y.0, z.0), Vec3(x.1, y.1, z.1))
  }

  lemma DivBounds(n: nat, d: nat, q: nat)
    requires d > 0
    ensures n / d >= q <==> n >= q * d
    ensures n / d < q <==> n < q * d
  {
    var k := n / d;
    assert k * d <= n < k * d + d;
    if k >= q {
      MulLe(q, k, d);
    } else {
      MulLe(k + 1, q, d);
      assert (k + 1) * d == k * d + d;
    }
  }

  /** A page exists exactly when its first element does. */
  lemma PageExists(p: nat, elements: nat, ps: nat)
    requires ps > 0
    ensures p < PageCount(elements, ps) <==> p * ps < elements
  {
    DivBounds(elements + ps - 1, ps, p + 1);
    assert (p + 1) * ps == p * ps + ps;
  }

  /** In one dimension, the clamped elements of a page interval are exactly the existing elements on its pages. */
  lemma ScaledMembers(first: nat, extent: nat, ps: nat, elements: nat, e: nat)
    requires ps > 0 && extent > 0 && first + extent <= PageCount(elements, ps)
    ensures var s := Scaled(first, extent, ps, elements);
            Within(e, s.0, s.1) <==> e < elements && Within(e / ps, first, extent)
  {
    PageExists(first + extent - 1, elements, ps);
    MulLe(first, first + extent - 1, ps);
    DivBounds(e, ps, first);
    DivBounds(e, ps, first + extent);
    assert (first + extent) * ps == first * ps + extent * ps;
  }

  /** In one dimension, scaling to elements and mapping back gives the same pages. */
  lemma ScaledRoundTrip(first: nat, extent: nat, ps: nat, elements: nat)
    requires ps > 0 && extent > 0 && first + extent <= PageCount(elements, ps)
    ensures var s := Scaled(first, extent, ps, elements);
            s.0 / ps == first && PageEnd(s.0, s.1, ps) == first + extent
  {
    var s := Scaled(first, extent, ps, elements);
    PageExists(first + extent - 1, elements, ps);
    MulLe(first, first + extent - 1, ps);
    assert s.0 == first * ps;
    DivUnique(first * ps, ps, first, 0);
    assert (first + extent - 1) * ps == first * ps + extent * ps - ps;
    var end := s.0 + s.1;
    DivBounds(end + ps - 1, ps, first + extent);
    DivBounds(end + ps - 1, ps, first + extent + 1);
    assert (first + extent) * ps == first * ps + extent * ps;
    assert (first + extent + 1) * ps == first * ps + extent * ps + ps;
  }

  /** The copied elements of an outdated rectangle are exactly the existing elements on its pages,
      also when the buffer size is not a multiple of the page size. */
  lemma CopyCoversPages(r: Rect, elements: Vec3, ps: PageSize, e: Vec3)
    requires PagesFit(r, elements, ps)
    ensures InRect(e, ToElements(r, elements, ps)) <==> InBounds(e, elements) && InRect(PageOf(e, ps), r)
  {
    ScaledMembers(r.first.x, r.extent.x, ps.x, elements.x, e.x);
    ScaledMembers(r.first.y, r.extent.y, ps.y, elements.y, e.y);
    ScaledMembers(r.first.z, r.extent.z, ps.z, elements.z, e.z);
  }

  /** Page/element round trip of outdated regions. */
  lemma PageRoundTrip(r: Rect, elements: Vec3, ps: PageSize)
    requires PagesFit(r, elements, ps)
    ensures var s := ToElements(r, elements, ps); AccessFits(s, elements) && PageRange(s.first, s.extent, ps) == r
  {
    ScaledRoundTrip(r.first.x, r.extent.x, ps.x, elements.x);
    ScaledRoundTrip(r.first.y, r.extent.y, ps.y, elements.y);
    ScaledRoundTrip(r.first.z, r.extent.z, ps.z, elements.z);
  }

  /** The pages of an access exist. */
  lemma AccessPagesExist(acc: Rect, elements: Vec3, ps: PageSize, p: Vec3)
    requires AccessFits(acc, elements) && InRect(p, PageRange(acc.first, acc.extent, ps))
    ensures p.x < PageCount(elements.x, ps.x) && p.y < PageCount(elements.y, ps.y) && p.z < PageCount(elements.z, ps.z)
  {
    DivMonotone(acc.first.x + acc.extent.x + ps.x - 1, elements.x + ps.x - 1, ps.x);
    DivMonotone(acc.first.y + acc.extent.y + ps.y - 1, elements.y + ps.y - 1, ps.y);
    DivMonotone(acc.first.z + acc.extent.z + ps.z - 1, elements.z + ps.z - 1, ps.z);
  }

  /** Every existing page holds an element of the buffer. */
  lemma PageHasElement(p: Vec3, elements: Vec3, ps: PageSize) returns (e: Vec3)
    requires p.x < PageCount(elements.x, ps.x) && p.y < PageCount(elements.y, ps.y) && p.z < PageCount(elements.z, ps.z)
    ensures InBounds(e, elements) && PageOf(e, ps) == p
  {
    PageExists(p.x, elements.x, ps.x);
    PageExists(p.y, elements.y, ps.y);
    PageExists(p.z, elements.z, ps.z);
    DivUnique(p.x * ps.x, ps.x, p.x, 0);
    DivUnique(p.y * ps.y, ps.y, p.y, 0);
    DivUnique(p.z * ps.z, ps.z, p.z, 0);
    e := Vec3(p.x * ps.x, p.y * ps.y, p.z * ps.z);
  }
}
