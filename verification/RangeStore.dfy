/** The page state table of one allocation and its decomposition into rectangles
    (src/runtime/data.cpp, include/hipSYCL/runtime/data.hpp). */
module RangeStore {
  import opened Geometry

  /** get_index. */
  function Index(c: Vec3, size: Vec3): nat {
    c.x * size.y * size.z + c.y * size.z + c.z
  }

  function Volume(size: Vec3): nat {
    size.x * size.y * size.z
  }

  lemma FlatBound(a: nat, b: nat, m: nat, n: nat)
    requires a < m && b < n
    ensures a * n + b < m * n
  {
    MulLe(a + 1, m, n);
    assert (a + 1) * n == a * n + n;
  }

  lemma FlatInjective(a: nat, b: nat, a': nat, b': nat, n: nat)
    requires b < n && b' < n && a * n + b == a' * n + b'
    ensures a == a' && b == b'
  {
    assert (a + 1) * n == a * n + n && (a' + 1) * n == a' * n + n;
    if a < a' {
      MulLe(a + 1, a', n);
    } else if a' < a {
      MulLe(a' + 1, a, n);
    }
  }

  lemma IndexForm(c: Vec3, size: Vec3)
    ensures Index(c, size) == (c.x * size.y + c.y) * size.z + c.z
  {
    assert (c.x * size.y + c.y) * size.z == c.x * size.y * size.z + c.y * size.z;
  }

  lemma IndexInRange(c: Vec3, size: Vec3)
    requires InBounds(c, size)
    ensures Index(c, size) < Volume(size)
  {
    IndexForm(c, size);
    FlatBound(c.x, c.y, size.x, size.y);
    FlatBound(c.x * size.y + c.y, c.z, size.x * size.y, size.z);
  }

  /** Different pages have different slots. */
  lemma IndexInjective(c: Vec3, d: Vec3, size: Vec3)
    requires InBounds(c, size) && InBounds(d, size) && Index(c, size) == Index(d, size)
    ensures c == d
  {
    var u, v := c.x * size.y + c.y, d.x * size.y + d.y;
    assert u * size.z + c.z == v * size.z + d.z by {
      IndexForm(c, size);
      IndexForm(d, size);
    }
    FlatInjective(u, c.z, v, d.z, size.z);
    FlatInjective(c.x, c.y, d.x, d.y, size.y);
  }

  /** The page table seen as the set of its available cells. */
  ghost function View(data: seq<bool>, size: Vec3): (cells: iset<Vec3>) {
    iset c | InBounds(c, size) && Index(c, size) < |data| && data[Index(c, size)]
  }

  lemma ViewUpdate(data: seq<bool>, size: Vec3, c: Vec3, v: bool)
    requires |data| == Volume(size) && InBounds(c, size)
    ensures Index(c, size) < |data|
    ensures View(data[Index(c, size) := v], size) == if v then View(data, size) + iset{c}
            else View(data, size) - iset{c}
  {
    IndexInRange(c, size);
    forall d | InBounds(d, size) && d != c ensures Index(d, size) < |data| && Index(d, size) != Index(c, size) {
      IndexInRange(d, size);
      if Index(d, size) == Index(c, size) { IndexInjective(c, d, size); }
    }
  }

  /** All cells of `r` are pages of the table. */
  ghost predicate Fits(r: Rect, size: Vec3) {
    forall c :: InRect(c, r) ==> InBounds(c, size)
  }

  /** A non-empty rectangle that fits ends inside the table. */
  lemma FitsEnd(r: Rect, size: Vec3)
    requires Fits(r, size) && r.extent.x > 0 && r.extent.y > 0 && r.extent.z > 0
    ensures r.first.x + r.extent.x <= size.x && r.first.y + r.extent.y <= size.y && r.first.z + r.extent.z <= size.z
  {
    var c := Vec3(r.first.x + r.extent.x - 1, r.first.y + r.extent.y - 1, r.first.z + r.extent.z - 1);
    assert InRect(c, r);
  }

  // ---------------------------------------------------------------------------------------------
  // Runs of wanted cells

  /** `n` is the length of the longest run of wanted cells in z direction from `b`, up to `endZ`. */
  ghost predicate ZRun(want: iset<Vec3>, b: Vec3, endZ: nat, n: nat) {
    && b.z + n <= endZ
    && (forall k :: b.z <= k < b.z + n ==> Vec3(b.x, b.y, k) in want)
    && (b.z + n < endZ ==> Vec3(b.x, b.y, b.z + n) !in want)
  }

  /** The first `n` rows from `b` have exactly the run `zs`. */
  ghost predicate Rows(want: iset<Vec3>, b: Vec3, endZ: nat, zs: nat, n: nat) {
    forall y :: b.y <= y < b.y + n ==> ZRun(want, Vec3(b.x, y, b.z), endZ, zs)
  }

  /** `n` is the number of consecutive rows from `b` whose run is exactly `zs`. */
  ghost predicate YRun(want: iset<Vec3>, b: Vec3, end: Vec3, zs: nat, n: nat) {
    && b.y + n <= end.y && Rows(want, b, end.z, zs, n)
    && (b.y + n < end.y ==> !ZRun(want, Vec3(b.x, b.y + n, b.z), end.z, zs))
  }

  /** The first `n` surfaces from `b` have exactly `ys` rows of run `zs`. */
  ghost predicate Surfaces(want: iset<Vec3>, b: Vec3, end: Vec3, zs: nat, ys: nat, n: nat) {
    forall x :: b.x <= x < b.x + n ==> YRun(want, Vec3(x, b.y, b.z), end, zs, ys)
  }

  /** `n` is the number of such surfaces. */
  ghost predicate XRun(want: iset<Vec3>, b: Vec3, end: Vec3, zs: nat, ys: nat, n: nat) {
    && b.x + n <= end.x && Surfaces(want, b, end, zs, ys, n)
    && (b.x + n < end.x ==> !YRun(want, Vec3(b.x + n, b.y, b.z), end, zs, ys))
  }

  /** Surfaces and rows of wanted cells make up a rectangle of wanted cells. */
  lemma RectOfSurfaces(want: iset<Vec3>, b: Vec3, end: Vec3, e: Vec3)
    requires Surfaces(want, b, end, e.z, e.y, e.x)
    ensures forall c :: InRect(c, Rect(b, e)) ==> c in want
  {
    forall c | InRect(c, Rect(b, e)) ensures c in want {
      assert YRun(want, Vec3(c.x, b.y, b.z), end, e.z, e.y);
      assert ZRun(want, Vec3(c.x, c.y, b.z), end.z, e.z);
      assert c == Vec3(c.x, c.y, c.z);
    }
  }

  lemma OneRow(want: iset<Vec3>, b: Vec3, end: Vec3, zs: nat)
    requires ZRun(want, b, end.z, zs) && b.y + 1 == end.y
    ensures YRun(want, b, end, zs, 1)
  {
    assert Vec3(b.x, b.y, b.z) == b;
  }

  lemma OneSurface(want: iset<Vec3>, b: Vec3, end: Vec3, zs: nat, ys: nat)
    requires YRun(want, b, end, zs, ys) && b.x + 1 == end.x
    ensures XRun(want, b, end, zs, ys, 1)
  {
    assert Vec3(b.x, b.y, b.z) == b;
  }

  lemma NextSurface(want: iset<Vec3>, b: Vec3, end: Vec3, zs: nat, ys: nat, n: nat)
    requires Surfaces(want, b, end, zs, ys, n) && YRun(want, Vec3(b.x + n, b.y, b.z), end, zs, ys)
    ensures Surfaces(want, b, end, zs, ys, n + 1)
  {
  }

  lemma NextRow(want: iset<Vec3>, b: Vec3, endZ: nat, zs: nat, n: nat)
    requires Rows(want, b, endZ, zs, n) && ZRun(want, Vec3(b.x, b.y + n, b.z), endZ, zs)
    ensures Rows(want, b, endZ, zs, n + 1)
  {
  }

  /** Two lengths of the same run agree. */
  lemma SameRun(want: iset<Vec3>, c: Vec3, endZ: nat, zs: nat, found: nat)
    requires ZRun(want, c, endZ, found)
    ensures found == zs <==> ZRun(want, c, endZ, zs)
  {
    if ZRun(want, c, endZ, zs) { ZRunUnique(want, c, endZ, zs, found); }
  }

  /** From a wanted cell both runs are at least one long. */
  lemma NonEmptyRun(want: iset<Vec3>, b: Vec3, end: Vec3, zs: nat, ys: nat)
    requires b in want && b.y < end.y && b.z < end.z && ZRun(want, b, end.z, zs) && YRun(want, b, end, zs, ys)
    ensures zs >= 1 && ys >= 1
  {
    assert Vec3(b.x, b.y, b.z) == b;
  }

  /** Two counts for the same surface agree. */
  lemma SameRows(want: iset<Vec3>, c: Vec3, end: Vec3, zs: nat, ys: nat, found: nat)
    requires YRun(want, c, end, zs, found)
    ensures found == ys <==> YRun(want, c, end, zs, ys)
  {
    if YRun(want, c, end, zs, ys) { YRunUnique(want, c, end, zs, ys, found); }
  }

  lemma ZRunUnique(want: iset<Vec3>, b: Vec3, endZ: nat, n: nat, m: nat)
    requires ZRun(want, b, endZ, n) && ZRun(want, b, endZ, m)
    ensures n == m
  {
    var atN, atM := Vec3(b.x, b.y, b.z + n) in want, Vec3(b.x, b.y, b.z + m) in want;
  }

  lemma YRunUnique(want: iset<Vec3>, b: Vec3, end: Vec3, zs: nat, n: nat, m: nat)
    requires YRun(want, b, end, zs, n) && YRun(want, b, end, zs, m)
    ensures n == m
  {
    var atN, atM := ZRun(want, Vec3(b.x, b.y + n, b.z), end.z, zs), ZRun(want, Vec3(b.x, b.y + m, b.z), end.z, zs);
  }

  // ---------------------------------------------------------------------------------------------
  // Decomposition into rectangles

  ghost predicate Covered(out: seq<Rect>, c: Vec3) {
    exists i :: 0 <= i < |out| && InRect(c, out[i])
  }

  predicate NonEmpty(r: Rect) {
    r.extent.x > 0 && r.extent.y > 0 && r.extent.z > 0
  }

  function EndOf(r: Rect): Vec3 {
    Vec3(r.first.x + r.extent.x, r.first.y + r.extent.y, r.first.z + r.extent.z)
  }

  /** `c` comes before position (x, y, z) in a sweep with x outermost and z innermost. */
  predicate Precedes(c: Vec3, x: nat, y: nat, z: nat) {
    c.x < x || (c.x == x && (c.y < y || (c.y == y && c.z < z)))
  }

  /** The cells of `state` that no rectangle covers. */
  ghost function Uncovered(state: iset<Vec3>, out: seq<Rect>): iset<Vec3> {
    iset c | c in state && !Covered(out, c)
  }

  /** `next` starts at the first cell of `want` in the query, and extends as far as possible in z, then in y,
      then in x direction. */
  ghost predicate Greedy(query: Rect, want: iset<Vec3>, next: Rect) {
    && next.first in want && InRect(next.first, query)
    && (forall c :: c in want && InRect(c, query) ==> !Precedes(c, next.first.x, next.first.y, next.first.z))
    && ZRun(want, next.first, EndOf(query).z, next.extent.z)
    && YRun(want, next.first, EndOf(query), next.extent.z, next.extent.y)
    && XRun(want, next.first, EndOf(query), next.extent.z, next.extent.y, next.extent.x)
  }

  /** Every rectangle is the greedy one for what the earlier ones leave. */
  ghost predicate AllGreedy(query: Rect, state: iset<Vec3>, out: seq<Rect>) {
    forall i :: 0 <= i < |out| ==> Greedy(query, Uncovered(state, out[..i]), out[i])
  }

  lemma NextGreedy(query: Rect, state: iset<Vec3>, out: seq<Rect>, next: Rect)
    requires AllGreedy(query, state, out) && Greedy(query, Uncovered(state, out), next)
    ensures AllGreedy(query, state, out + [next])
  {
    var out' := out + [next];
    forall i | 0 <= i < |out'| ensures Greedy(query, Uncovered(state, out'[..i]), out'[i]) {
      if i < |out| { assert out'[..i] == out[..i]; } else { assert out'[..i] == out; }
    }
  }

  /** Where all cells are wanted, runs go to the end. */
  lemma FullRuns(query: Rect, want: iset<Vec3>, next: Rect)
    requires Greedy(query, want, next) && NonEmpty(query) && forall c :: InRect(c, query) ==> c in want
    ensures next == query
  {
    var b, end := query.first, EndOf(query);
    assert next.first == b by { assert InRect(b, query); }
    assert next.extent.z == query.extent.z by { FullZRun(query, want, b.x, b.y, next.extent.z); }
    assert next.extent.y == query.extent.y by { FullYRun(query, want, b.x, next.extent.y); }
    if next.extent.x < query.extent.x {
      var c := Vec3(b.x + next.extent.x, b.y, b.z);
      AllRows(query, want, c.x);
    }
  }

  lemma FullZRun(query: Rect, want: iset<Vec3>, x: nat, y: nat, n: nat)
    requires (forall c :: InRect(c, query) ==> c in want) && Within(x, query.first.x, query.extent.x)
    requires Within(y, query.first.y, query.extent.y)
    ensures ZRun(want, Vec3(x, y, query.first.z), EndOf(query).z, n) <==> n == query.extent.z
  {
    var last := Vec3(x, y, query.first.z + n);
    assert n < query.extent.z ==> InRect(last, query);
    forall k | query.first.z <= k < EndOf(query).z ensures Vec3(x, y, k) in want {
      assert InRect(Vec3(x, y, k), query);
    }
  }

  /** All rows of a surface have the full run. */
  lemma AllRows(query: Rect, want: iset<Vec3>, x: nat)
    requires (forall c :: InRect(c, query) ==> c in want) && Within(x, query.first.x, query.extent.x)
    ensures YRun(want, Vec3(x, query.first.y, query.first.z), EndOf(query), query.extent.z, query.extent.y)
  {
    forall y | query.first.y <= y < EndOf(query).y
      ensures ZRun(want, Vec3(x, y, query.first.z), EndOf(query).z, query.extent.z)
    {
      FullZRun(query, want, x, y, query.extent.z);
    }
  }

  lemma FullYRun(query: Rect, want: iset<Vec3>, x: nat, n: nat)
    requires (forall c :: InRect(c, query) ==> c in want) && Within(x, query.first.x, query.extent.x)
    requires YRun(want, Vec3(x, query.first.y, query.first.z), EndOf(query), query.extent.z, n)
    ensures n == query.extent.y
  {
    AllRows(query, want, x);
    YRunUnique(want, Vec3(x, query.first.y, query.first.z), EndOf(query), query.extent.z, n, query.extent.y);
  }

  /** A query that is wholly in the desired state is one rectangle. */
  lemma WholeIsOne(query: Rect, state: iset<Vec3>, out: seq<Rect>)
    requires AllGreedy(query, state, out) && NonEmpty(query) && forall c :: InRect(c, query) ==>
             c in state && Covered(out, c)
    ensures out == [query]
  {
    assert InRect(query.first, query);
    assert Greedy(query, Uncovered(state, out[..0]), out[0]);
    FullRuns(query, Uncovered(state, out[..0]), out[0]);
    if |out| > 1 { SecondStartsOutside(query, state, out); }
  }

  lemma SecondStartsOutside(query: Rect, state: iset<Vec3>, out: seq<Rect>)
    requires AllGreedy(query, state, out) && |out| > 1
    ensures InRect(out[1].first, query) && !InRect(out[1].first, out[0])
  {
    assert Greedy(query, Uncovered(state, out[..1]), out[1]);
    assert out[..1][0] == out[0];
  }

  // ---------------------------------------------------------------------------------------------
  // The table

  /** Cells that are in the desired state and not yet covered by a rectangle. */
  ghost function Wanted(data: seq<bool>, visited: seq<bool>, size: Vec3, desired: bool): iset<Vec3> {
    iset c | InBounds(c, size) && (c in View(data, size) <==> desired) && c !in View(visited, size)
  }

  class Store {
    const size: Vec3
    const data: array<bool>

    ghost predicate Valid() {
      data.Length == Volume(size)
    }

    /** The pages in state "available". */
    ghost function Available(): iset<Vec3>
      reads data
    {
      View(data[..], size)
    }

    constructor (size: Vec3)
      ensures Valid() && this.size == size && Available() == iset{} && fresh(data)
    {
      this.size := size;
      data := new bool[Volume(size)](_ => false);
    }

    /** for_each_element_in_range assigning `v`: the loops of add and remove, on the table or on
        the table of visited entries. */
    method Assign(table: array<bool>, r: Rect, v: bool)
      requires table.Length == Volume(size) && Fits(r, size)
      modifies table
      ensures forall c :: c in View(table[..], size) <==> if InRect(c, r) then v else c in old(View(table[..], size))
    {
      ghost var before := View(table[..], size);
      for x := r.first.x to r.first.x + r.extent.x
        invariant forall c :: c in View(table[..], size) <==> if InRect(c, r) && c.x < x then v else c in before
      {
        for y := r.first.y to r.first.y + r.extent.y
          invariant forall c :: c in View(table[..], size) <==>
            if InRect(c, r) && (c.x < x || (c.x == x && c.y < y)) then v else c in before
        {
          for z := r.first.z to r.first.z + r.extent.z
            invariant forall c :: c in View(table[..], size) <==>
              if InRect(c, r) && (c.x < x || (c.x == x && (c.y < y || (c.y == y && c.z < z)))) then v else c in before
          {
            ghost var c := Vec3(x, y, z);
            assert InRect(c, r);
            ViewUpdate(table[..], size, c, v);
            table[Index(Vec3(x, y, z), size)] := v;
          }
        }
      }
    }

    method Add(r: Rect)
      requires Valid() && Fits(r, size)
      modifies data
      ensures forall c :: c in Available() <==> InRect(c, r) || c in old(Available())
    {
      Assign(data, r, true);
    }

    method Remove(r: Rect)
      requires Valid() && Fits(r, size)
      modifies data
      ensures forall c :: c in Available() <==> !InRect(c, r) && c in old(Available())
    {
      Assign(data, r, false);
    }

    /** entire_range_equals. */
    method EntireRangeEquals(r: Rect, desired: bool) returns (b: bool)
      requires Valid() && Fits(r, size)
      ensures b <==> forall c :: InRect(c, r) ==> (c in Available() <==> desired)
    {
      for x := r.first.x to r.first.x + r.extent.x
        invariant forall c :: InRect(c, r) && c.x < x ==> (c in Available() <==> desired)
      {
        for y := r.first.y to r.first.y + r.extent.y
          invariant forall c :: InRect(c, r) && (c.x < x || (c.x == x && c.y < y)) ==> (c in Available() <==> desired)
        {
          for z := r.first.z to r.first.z + r.extent.z
            invariant forall c | InRect(c, r) && (c.x < x || (c.x == x && (c.y < y || (c.y == y && c.z < z))))
                        :: c in Available() <==> desired
          {
            ghost var c := Vec3(x, y, z);
            assert InRect(c, r);
            IndexInRange(c, size);
            if data[Index(Vec3(x, y, z), size)] != desired { return false; }
          }
        }
      }
      b := true;
    }

    // -------------------------------------------------------------------------------------------
    // Rectangle search

    ghost function Want(visited: array<bool>, desired: bool): iset<Vec3>
      reads data, visited
    {
      Wanted(data[..], visited[..], size, desired)
    }

    /** The entry selection predicate of intersections_with. */
    predicate Selects(visited: array<bool>, desired: bool, c: Vec3)
      requires Valid() && visited.Length == Volume(size) && InBounds(c, size)
      reads data, visited
      ensures Selects(visited, desired, c) <==> c in Want(visited, desired)
    {
      IndexInRange(c, size);
      data[Index(c, size)] == desired && !visited[Index(c, size)]
    }

    /** find_z_size. */
    method FindZSize(b: Vec3, end: Vec3, visited: array<bool>, desired: bool) returns (n: nat)
      requires Valid() && visited.Length == Volume(size)
      requires b.x < size.x && b.y < size.y && b.z <= end.z <= size.z
      ensures ZRun(Want(visited, desired), b, end.z, n)
    {
      for offset := 0 to end.z - b.z
        invariant forall k :: b.z <= k < b.z + offset ==> Vec3(b.x, b.y, k) in Want(visited, desired)
      {
        if !Selects(visited, desired, Vec3(b.x, b.y, b.z + offset)) { return offset; }
      }
      n := end.z - b.z;
    }

    /** find_y_size. */
    method FindYSize(b: Vec3, end: Vec3, zs: nat, visited: array<bool>, desired: bool) returns (n: nat)
      requires Valid() && visited.Length == Volume(size)
      requires b.x < size.x && b.y <= end.y <= size.y && b.z <= end.z <= size.z
      ensures YRun(Want(visited, desired), b, end, zs, n)
    {
      ghost var want := Want(visited, desired);
      for offset := 0 to end.y - b.y
        invariant Rows(want, b, end.z, zs, offset)
      {
        var c := Vec3(b.x, b.y + offset, b.z);
        var row := FindZSize(c, end, visited, desired);
        SameRun(want, c, end.z, zs, row);
        if row != zs {
          return offset;
        }
        NextRow(want, b, end.z, zs, offset);
      }
      n := end.y - b.y;
    }

    /** find_x_size. */
    method FindXSize(b: Vec3, end: Vec3, zs: nat, ys: nat, visited: array<bool>, desired: bool) returns (n: nat)
      requires Valid() && visited.Length == Volume(size)
      requires b.x < end.x <= size.x && b.y <= end.y <= size.y && b.z <= end.z <= size.z
      requires YRun(Want(visited, desired), b, end, zs, ys)
      ensures n >= 1 && XRun(Want(visited, desired), b, end, zs, ys, n)
    {
      ghost var want := Want(visited, desired);
      for offset := 0 to end.x - b.x
        invariant Surfaces(want, b, end, zs, ys, offset)
      {
        var c := Vec3(b.x + offset, b.y, b.z);
        var surface := FindYSize(c, end, zs, visited, desired);
        SameRows(want, c, end, zs, ys, surface);
        if surface != ys {
          assert offset == 0 ==> c == b;
          return offset;
        }
        NextSurface(want, b, end, zs, ys, offset);
      }
      n := end.x - b.x;
    }

    /** find_max_contiguous_rect_extent: the rectangle of wanted cells starting at `b` that is grown
        first in z, then in y, then in x direction, each as far as it goes. */
    method FindMaxExtent(b: Vec3, end: Vec3, visited: array<bool>, desired: bool) returns (e: Vec3)
      requires Valid() && visited.Length == Volume(size)
      requires b.x < end.x <= size.x && b.y < end.y <= size.y && b.z < end.z <= size.z && b in Want(visited, desired)
      ensures e.x >= 1 && e.y >= 1 && e.z >= 1 && b.x + e.x <= end.x && b.y + e.y <= end.y && b.z + e.z <= end.z
      ensures forall c :: InRect(c, Rect(b, e)) ==> c in Want(visited, desired)
      ensures ZRun(Want(visited, desired), b, end.z, e.z) && YRun(Want(visited, desired), b, end, e.z, e.y)
      ensures XRun(Want(visited, desired), b, end, e.z, e.y, e.x)
    {
      ghost var want := Want(visited, desired);
      var zs := FindZSize(b, end, visited, desired);
      var ys, xs := 1, 1;
      if size.y > 1 {
        ys := FindYSize(b, end, zs, visited, desired);
      } else {
        OneRow(want, b, end, zs);
      }
      if size.x > 1 {
        xs := FindXSize(b, end, zs, ys, visited, desired);
      } else {
        OneSurface(want, b, end, zs, ys);
      }
      e := Vec3(xs, ys, zs);
      RectOfSurfaces(want, b, end, e);
      NonEmptyRun(want, b, end, zs, ys);
    }

    // -------------------------------------------------------------------------------------------
    // intersections_with

    /** The rectangles found so far: inside the query, of wanted cells only, pairwise disjoint, and
        exactly the visited cells. */
    ghost predicate Sweep(r: Rect, desired: bool, visited: array<bool>, out: seq<Rect>)
      reads data, visited
    {
      && visited.Length == Volume(size)
      && Parts(r, desired, Available(), out) && AllGreedy(r, InState(desired), out)
      && (forall c :: c in View(visited[..], size) <==> Covered(out, c))
    }

    static ghost predicate Parts(r: Rect, desired: bool, available: iset<Vec3>, out: seq<Rect>) {
      && (forall i, c :: 0 <= i < |out| && InRect(c, out[i]) ==> InRect(c, r) && (c in available <==> desired))
      && (forall i, j, c :: 0 <= i < j < |out| && InRect(c, out[i]) ==> !InRect(c, out[j]))
      && (forall i :: 0 <= i < |out| ==> NonEmpty(out[i]))
    }

    /** The cells of the table that are in the desired state. */
    ghost function InState(desired: bool): iset<Vec3>
      reads data
    {
      iset c | InBounds(c, size) && (c in Available() <==> desired)
    }

    /** Every cell of the query in the desired state before position (x, y, z) is covered. */
    ghost predicate Swept(r: Rect, desired: bool, out: seq<Rect>, x: nat, y: nat, z: nat)
      reads data
    {
      forall c :: InRect(c, r) && Precedes(c, x, y, z) && (c in Available() <==> desired) ==> Covered(out, c)
    }

    /** The largest rectangle from a cell that is still wanted; its cells become visited. */
    method StartRectangle(r: Rect, desired: bool, visited: array<bool>, out: seq<Rect>, pos: Vec3) returns (next: Rect)
      requires Valid() && Fits(r, size) && InRect(pos, r) && visited != data && visited.Length == Volume(size)
      requires (forall c :: c in View(visited[..], size) <==> Covered(out, c)) && pos in Want(visited, desired)
      requires Swept(r, desired, out, pos.x, pos.y, pos.z)
      modifies visited
      ensures next.first == pos && NonEmpty(next) && Greedy(r, Uncovered(InState(desired), out), next)
      ensures forall c :: InRect(c, next) ==> InRect(c, r) && (c in Available() <==> desired) && !Covered(out, c)
      ensures forall c :: c in View(visited[..], size) <==> InRect(c, next) || Covered(out, c)
    {
      FitsEnd(r, size);
      var end := Vec3(r.first.x + r.extent.x, r.first.y + r.extent.y, r.first.z + r.extent.z);
      var e := FindMaxExtent(pos, end, visited, desired);
      next := Rect(pos, e);
      WantIsUncovered(visited, desired, out);
      FirstUncovered(r, desired, out, pos);
      Assign(visited, next, true);
    }

    lemma WantIsUncovered(visited: array<bool>, desired: bool, out: seq<Rect>)
      requires forall c :: c in View(visited[..], size) <==> Covered(out, c)
      ensures Want(visited, desired) == Uncovered(InState(desired), out)
    {
    }

    /** After a sweep up to `pos` no uncovered cell of the query comes before it. */
    lemma FirstUncovered(r: Rect, desired: bool, out: seq<Rect>, pos: Vec3)
      requires Swept(r, desired, out, pos.x, pos.y, pos.z)
      ensures forall c :: c in Uncovered(InState(desired), out) && InRect(c, r) ==> !Precedes(c, pos.x, pos.y, pos.z)
    {
    }

    /** One cell of the sweep: start a new rectangle if it is wanted and not covered yet. */
    method VisitCell(r: Rect, desired: bool, visited: array<bool>, out: seq<Rect>, pos: Vec3) returns (out': seq<Rect>)
      requires Valid() && Fits(r, size) && InRect(pos, r) && visited != data && Sweep(r, desired, visited, out)
      requires Swept(r, desired, out, pos.x, pos.y, pos.z)
      modifies visited
      ensures Sweep(r, desired, visited, out') && Swept(r, desired, out', pos.x, pos.y, pos.z + 1)
    {
      out' := out;
      if Selects(visited, desired, pos) {
        ghost var before := View(visited[..], size);
        var next := StartRectangle(r, desired, visited, out, pos);
        out' := out + [next];
        SweepExtends(r, desired, Available(), out, next, before);
        NextGreedy(r, InState(desired), out, next);
        SweptFurther(r, desired, out, next);
      } else {
        assert pos in View(visited[..], size) || !(pos in Available() <==> desired);
        SweptOver(r, desired, out, pos);
      }
    }

    lemma SweptOver(r: Rect, desired: bool, out: seq<Rect>, pos: Vec3)
      requires Swept(r, desired, out, pos.x, pos.y, pos.z) && ((pos in Available() <==> desired) ==> Covered(out, pos))
      ensures Swept(r, desired, out, pos.x, pos.y, pos.z + 1)
    {
      forall c | InRect(c, r) && Precedes(c, pos.x, pos.y, pos.z + 1) && (c in Available() <==> desired)
        ensures Covered(out, c)
      {
        if !Precedes(c, pos.x, pos.y, pos.z) { assert c == pos; }
      }
    }

    lemma SweptFurther(r: Rect, desired: bool, out: seq<Rect>, next: Rect)
      requires Swept(r, desired, out, next.first.x, next.first.y, next.first.z) && NonEmpty(next)
      ensures Swept(r, desired, out + [next], next.first.x, next.first.y, next.first.z + 1)
    {
      CoveredGrows(out, out + [next]);
      assert InRect(next.first, (out + [next])[|out|]);
      SweptOver(r, desired, out + [next], next.first);
    }

    static lemma SweepExtends(
      r: Rect, desired: bool, available: iset<Vec3>, out: seq<Rect>, next: Rect, before: iset<Vec3>)
      requires Parts(r, desired, available, out) && (forall c :: c in before <==> Covered(out, c)) && NonEmpty(next)
      requires forall c :: InRect(c, next) ==> InRect(c, r) && (c in available <==> desired) && c !in before
      ensures Parts(r, desired, available, out + [next])
      ensures forall c :: (InRect(c, next) || c in before) <==> Covered(out + [next], c)
    {
      CoveredAppends(out, next, before);
      var out' := out + [next];
      forall i, j, c | 0 <= i < j < |out'| && InRect(c, out'[i]) ensures !InRect(c, out'[j]) {
        if j == |out| { assert Covered(out, c) by { assert InRect(c, out[i]); } }
      }
    }

    static lemma CoveredAppends(out: seq<Rect>, next: Rect, before: iset<Vec3>)
      requires forall c :: c in before <==> Covered(out, c)
      ensures forall c :: (InRect(c, next) || c in before) <==> Covered(out + [next], c)
    {
      var out' := out + [next];
      forall c ensures (InRect(c, next) || c in before) <==> Covered(out', c) {
        if InRect(c, next) { assert InRect(c, out'[|out|]); }
        if Covered(out, c) {
          var i :| 0 <= i < |out| && InRect(c, out[i]);
          assert out'[i] == out[i];
        }
      }
    }

    static lemma CoveredGrows(out: seq<Rect>, out': seq<Rect>)
      requires out <= out'
      ensures forall c :: Covered(out, c) ==> Covered(out', c)
    {
      forall c | Covered(out, c) ensures Covered(out', c) {
        var i :| 0 <= i < |out| && InRect(c, out[i]);
        assert out'[i] == out[i];
      }
    }

    method SweepRow(
      r: Rect, desired: bool, visited: array<bool>, out: seq<Rect>, x: nat, y: nat)
      returns (out': seq<Rect>)
      requires Valid() && Fits(r, size) && visited != data && Sweep(r, desired, visited, out)
      requires Within(x, r.first.x, r.extent.x) && Within(y, r.first.y, r.extent.y)
      requires Swept(r, desired, out, x, y, r.first.z)
      modifies visited
      ensures Sweep(r, desired, visited, out') && Swept(r, desired, out', x, y + 1, r.first.z)
    {
      out' := out;
      for z := r.first.z to r.first.z + r.extent.z
        invariant Sweep(r, desired, visited, out') && Swept(r, desired, out', x, y, z)
      {
        out' := VisitCell(r, desired, visited, out', Vec3(x, y, z));
      }
    }

    method SweepPlane(r: Rect, desired: bool, visited: array<bool>, out: seq<Rect>, x: nat) returns (out': seq<Rect>)
      requires Valid() && Fits(r, size) && visited != data && Sweep(r, desired, visited, out)
      requires Within(x, r.first.x, r.extent.x) && Swept(r, desired, out, x, r.first.y, r.first.z)
      modifies visited
      ensures Sweep(r, desired, visited, out') && Swept(r, desired, out', x + 1, r.first.y, r.first.z)
    {
      out' := out;
      for y := r.first.y to r.first.y + r.extent.y
        invariant Sweep(r, desired, visited, out') && Swept(r, desired, out', x, y, r.first.z)
      {
        out' := SweepRow(r, desired, visited, out', x, y);
      }
    }

    /** intersections_with: an exact partition of the query's cells in the desired state, by greedy
        rectangles in the order of their first cells. */
    method IntersectionsWith(r: Rect, desired: bool) returns (out: seq<Rect>)
      requires Valid() && Fits(r, size)
      ensures Parts(r, desired, Available(), out) && AllGreedy(r, InState(desired), out)
      ensures forall c :: InRect(c, r) && (c in Available() <==> desired) ==> Covered(out, c)
      ensures NonEmpty(r) && (forall c :: InRect(c, r) ==> (c in Available() <==> desired)) ==> out == [r]
    {
      out := SweepAll(r, desired);
      WholeQuery(r, desired, out);
    }

    lemma WholeQuery(r: Rect, desired: bool, out: seq<Rect>)
      requires Fits(r, size) && AllGreedy(r, InState(desired), out)
      requires Swept(r, desired, out, r.first.x + r.extent.x, r.first.y, r.first.z)
      ensures forall c :: InRect(c, r) && (c in Available() <==> desired) ==> Covered(out, c)
      ensures NonEmpty(r) && (forall c :: InRect(c, r) ==> (c in Available() <==> desired)) ==> out == [r]
    {
      if NonEmpty(r) && forall c :: InRect(c, r) ==> (c in Available() <==> desired) {
        WholeIsOne(r, InState(desired), out);
      }
    }

    method SweepAll(r: Rect, desired: bool) returns (out: seq<Rect>)
      requires Valid() && Fits(r, size)
      ensures Parts(r, desired, Available(), out) && AllGreedy(r, InState(desired), out)
      ensures Swept(r, desired, out, r.first.x + r.extent.x, r.first.y, r.first.z)
    {
      var visited := new bool[data.Length](_ => false);
      out := [];
      for x := r.first.x to r.first.x + r.extent.x
        invariant Sweep(r, desired, visited, out) && Swept(r, desired, out, x, r.first.y, r.first.z)
        modifies visited
      {
        out := SweepPlane(r, desired, visited, out, x);
      }
    }
  }
}
