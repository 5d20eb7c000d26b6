/**
 * Rectangles and regions as the snapshot node consumes them.
 *
 * Coordinates are integers. A region is the finite set of unit cells it
 * covers: the cell (x, y) stands for the square [x, x+1) x [y, y+1). A
 * rectangle covers the cells from its left/top edge (inclusive) to its
 * right/bottom edge (exclusive), so a rectangle with left >= right or
 * top >= bottom covers nothing.
 */
module Geometry {

  /** An axis-aligned rectangle, stored as its four edges. */
  datatype Rect = Rect(left: int, top: int, right: int, bottom: int) {
    /** A rectangle is empty when it has no width or no height. */
    predicate IsEmpty() {
      left >= right || top >= bottom
    }
  }

  /** The rectangle a default-constructed or `setEmpty`-ed rectangle holds. */
  const EmptyRect := Rect(0, 0, 0, 0)

  /** A unit cell, (x, y). */
  type Cell = (int, int)

  /** A clip or dirty region: the set of cells it covers. */
  type Region = set<Cell>

  predicate InRect(r: Rect, c: Cell) {
    r.left <= c.0 < r.right && r.top <= c.1 < r.bottom
  }

  /** The cells covered by a rectangle. */
  function RectCells(r: Rect): (cells: Region)
    ensures forall c :: c in cells <==> InRect(r, c)
  {
    set x: int, y: int | r.left <= x < r.right && r.top <= y < r.bottom :: (x, y)
  }

  /** A rectangle covers no cell exactly when it is empty. */
  lemma RectCellsEmpty(r: Rect)
    ensures RectCells(r) == {} <==> r.IsEmpty()
  {
    if !r.IsEmpty() {
      assert InRect(r, (r.left, r.top));
    }
  }

  /** The overlap of two rectangles, edge by edge. */
  function Intersection(a: Rect, b: Rect): Rect {
    Rect(Max(a.left, b.left), Max(a.top, b.top), Min(a.right, b.right), Min(a.bottom, b.bottom))
  }

  /** The smallest rectangle enclosing two rectangles. */
  function BoundingBox(a: Rect, b: Rect): Rect {
    Rect(Min(a.left, b.left), Min(a.top, b.top), Max(a.right, b.right), Max(a.bottom, b.bottom))
  }

  function Min(a: int, b: int): int { if a <= b then a else b }
  function Max(a: int, b: int): int { if a >= b then a else b }

  /** The overlap of two rectangles covers exactly the cells both cover. */
  lemma IntersectionCells(a: Rect, b: Rect)
    ensures RectCells(Intersection(a, b)) == RectCells(a) * RectCells(b)
  {
  }

  /** The bounding box of two rectangles covers both. */
  lemma BoundingBoxCovers(a: Rect, b: Rect)
    ensures RectCells(a) + RectCells(b) <= RectCells(BoundingBox(a, b))
  {
  }

  /** Every non-empty finite set of integers has a least element. */
  lemma {:induction false} MinExists(s: set<int>)
    requires exists x :: x in s
    ensures exists m :: m in s && forall y :: y in s ==> m <= y
    decreases |s|
  {
    var w :| w in s;
    if !forall y :: y in s ==> w <= y {
      var y :| y in s && y < w;
      var rest := s - {w};
      assert y in rest;
      MinExists(rest);
      var m :| m in rest && forall z :: z in rest ==> m <= z;
      assert forall z :: z in s ==> z == w || z in rest;
    }
  }

  /** The least element of a non-empty finite set of integers. */
  function MinOf(s: set<int>): (m: int)
    requires exists x :: x in s
    ensures m in s && forall y :: y in s ==> m <= y
  {
    MinExists(s);
    var m :| m in s && forall y :: y in s ==> m <= y; m
  }

  /** The greatest element of a non-empty finite set of integers. */
  function MaxOf(s: set<int>): (m: int)
    requires exists x :: x in s
    ensures m in s && forall y :: y in s ==> y <= m
  {
    var negated := set y | y in s :: -y;
    assert exists z :: z in negated by {
      var y0 :| y0 in s;
      assert -y0 in negated;
    }
    var least := MinOf(negated);
    assert forall y :: y in s ==> -y in negated;
    -least
  }

  lemma Occupied(s: set<int>, w: int)
    requires w in s
    ensures exists x :: x in s
  {
  }

  function Columns(reg: Region): set<int> { set c | c in reg :: c.0 }
  function Rows(reg: Region): set<int> { set c | c in reg :: c.1 }

  /**
   * The bounding rectangle of a region: the smallest rectangle covering
   * every cell of it, and the empty rectangle for the empty region.
   */
  function Bounds(reg: Region): (b: Rect)
    ensures reg <= RectCells(b)
    ensures reg == {} <==> b.IsEmpty()
    ensures reg == {} ==> b == EmptyRect
    ensures reg != {} ==> (exists c :: c in reg && c.0 == b.left) && (exists c :: c in reg && c.0 == b.right - 1)
    ensures reg != {} ==> (exists c :: c in reg && c.1 == b.top) && (exists c :: c in reg && c.1 == b.bottom - 1)
  {
    if reg == {} then EmptyRect
    else
      assert (exists x :: x in Columns(reg)) && (exists y :: y in Rows(reg)) by {
        var c :| c in reg;
        Occupied(Columns(reg), c.0);
        Occupied(Rows(reg), c.1);
      }
      var b := Rect(MinOf(Columns(reg)), MinOf(Rows(reg)), MaxOf(Columns(reg)) + 1, MaxOf(Rows(reg)) + 1);
      assert forall d :: d in reg ==> d.0 in Columns(reg) && d.1 in Rows(reg);
      b
  }

  /** A region is a rectangle when it is non-empty and fills its bounds. */
  predicate IsRect(reg: Region) {
    reg != {} && RectCells(Bounds(reg)) == reg
  }

  /** The bounds of a non-empty rectangle's cells are that rectangle. */
  lemma BoundsOfRect(r: Rect)
    requires !r.IsEmpty()
    ensures Bounds(RectCells(r)) == r
    ensures IsRect(RectCells(r))
  {
    var cells := RectCells(r);
    assert InRect(r, (r.left, r.top)) && InRect(r, (r.right - 1, r.bottom - 1));
    var b := Bounds(cells);
    var cl :| cl in cells && cl.0 == b.left;
    var cr :| cr in cells && cr.0 == b.right - 1;
    var ct :| ct in cells && ct.1 == b.top;
    var cb :| cb in cells && cb.1 == b.bottom - 1;
    assert InRect(b, (r.left, r.top)) && InRect(b, (r.right - 1, r.bottom - 1));
  }

  /** A region is a rectangle exactly when it is the cells of some non-empty rectangle. */
  lemma RectRegions(reg: Region)
    ensures IsRect(reg) <==> exists r: Rect :: !r.IsEmpty() && RectCells(r) == reg
  {
    if IsRect(reg) {
      assert !Bounds(reg).IsEmpty() && RectCells(Bounds(reg)) == reg;
    }
    if r: Rect :| !r.IsEmpty() && RectCells(r) == reg {
      BoundsOfRect(r);
    }
  }
}
