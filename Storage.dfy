/**
 * The value types a snapshot node holds, each wrapped in a heap box so that
 * a child node can point at its parent's box (an alias) or at its own.
 *
 * RectBox stands for a `Rect` member, RegionBox for an `android::Region`
 * member and TransformBox for a `mat4` member. Their operations are the ones
 * the snapshot node calls, specified by what they do to the stored value.
 */
module Storage {
  import opened Geometry

  /** A 4x4 transform, kept as its sixteen entries in column-major order. */
  datatype Mat4 = Mat4(data: seq<real>)

  /** The identity transform a default-constructed matrix holds. */
  function Identity(): Mat4 {
    Translation(0.0, 0.0, 0.0)
  }

  /** The pure translation by (x, y, z). */
  function Translation(x: real, y: real, z: real): Mat4 {
    Mat4([1.0, 0.0, 0.0, 0.0,
          0.0, 1.0, 0.0, 0.0,
          0.0, 0.0, 1.0, 0.0,
          x,   y,   z,   1.0])
  }

  /** Storage for a clip rectangle. */
  class RectBox {
    var rect: Rect

    /** A default-constructed rectangle has all four edges at zero. */
    constructor ()
      ensures rect == EmptyRect
    {
      rect := EmptyRect;
    }

    method Set(r: Rect)
      modifies this
      ensures rect == r
    {
      rect := r;
    }

    method SetEmpty()
      modifies this
      ensures rect == EmptyRect && rect.IsEmpty()
    {
      rect := EmptyRect;
    }

    /**
     * Shrinks the rectangle to its overlap with r when that overlap is not
     * empty; otherwise leaves it as it is. Reports whether it shrank.
     */
    method Intersect(r: Rect) returns (overlaps: bool)
      modifies this
      ensures overlaps <==> !Intersection(old(rect), r).IsEmpty()
      ensures overlaps <==> RectCells(old(rect)) * RectCells(r) != {}
      ensures overlaps ==> RectCells(rect) == RectCells(old(rect)) * RectCells(r)
      ensures rect == if overlaps then Intersection(old(rect), r) else old(rect)
    {
      var tmp := Intersection(rect, r);
      IntersectionCells(rect, r);
      RectCellsEmpty(tmp);
      overlaps := !tmp.IsEmpty();
      if overlaps {
        rect := tmp;
      }
    }

    /**
     * Grows the rectangle to enclose r. An empty r changes nothing and
     * reports false; an empty rectangle is replaced by r.
     */
    method UnionWith(r: Rect) returns (grown: bool)
      modifies this
      ensures grown <==> !r.IsEmpty()
      ensures grown ==> RectCells(old(rect)) + RectCells(r) <= RectCells(rect)
      ensures rect == if r.IsEmpty() then old(rect)
                      else if old(rect).IsEmpty() then r
                      else BoundingBox(old(rect), r)
    {
      grown := false;
      if !r.IsEmpty() {
        if !rect.IsEmpty() {
          BoundingBoxCovers(rect, r);
          rect := BoundingBox(rect, r);
        } else {
          RectCellsEmpty(rect);
          rect := r;
        }
        grown := true;
      }
    }
  }

  /** Storage for a clip region or a dirty region. */
  class RegionBox {
    var cells: Region

    /** A default-constructed region is empty. */
    constructor ()
      ensures cells == {}
    {
      cells := {};
    }

    predicate IsEmpty()
      reads this
    {
      cells == {}
    }

    predicate IsRect()
      reads this
    {
      Geometry.IsRect(cells)
    }

    function Bounds(): (b: Rect)
      reads this
      ensures cells <= RectCells(b)
    {
      Geometry.Bounds(cells)
    }

    method Set(r: Rect)
      modifies this
      ensures cells == RectCells(r)
    {
      cells := RectCells(r);
    }

    method Clear()
      modifies this
      ensures cells == {}
    {
      cells := {};
    }

    /**
     * The union of this region and another, as a new value: neither
     * region is changed (the const `merge` of `android::Region`).
     */
    method Merge(other: RegionBox) returns (merged: Region)
      ensures forall c :: c in merged <==> c in cells || c in other.cells
    {
      merged := cells + other.cells;
    }

    /** Adds the cells of another region in place (`orSelf` with a region). */
    method OrRegion(other: RegionBox)
      modifies this
      ensures cells == old(cells) + old(other.cells)
    {
      cells := cells + other.cells;
    }

    method OrSelf(r: Rect)
      modifies this
      ensures cells == old(cells) + RectCells(r)
    {
      cells := cells + RectCells(r);
    }

    method AndSelf(r: Rect)
      modifies this
      ensures cells == old(cells) * RectCells(r)
    {
      cells := cells * RectCells(r);
    }

    method XorSelf(r: Rect)
      modifies this
      ensures cells == (old(cells) - RectCells(r)) + (RectCells(r) - old(cells))
    {
      cells := (cells - RectCells(r)) + (RectCells(r) - cells);
    }

    method SubtractSelf(r: Rect)
      modifies this
      ensures cells == old(cells) - RectCells(r)
    {
      cells := cells - RectCells(r);
    }
  }

  /** Storage for a transform. */
  class TransformBox {
    var m: Mat4

    /** A default-constructed matrix is the identity. */
    constructor ()
      ensures m == Identity()
    {
      m := Identity();
    }

    method Load(other: Mat4)
      modifies this
      ensures m == other
    {
      m := other;
    }

    method LoadTranslate(x: real, y: real, z: real)
      modifies this
      ensures m == Translation(x, y, z)
    {
      m := Translation(x, y, z);
    }
  }
}
