/**
 * The clip algebra of a snapshot node, as values.
 *
 * A node's clip is a fast rectangle plus, when some operation produced a
 * shape a rectangle cannot hold, a region. `Apply` gives, for each set
 * operation, the clip a node holds afterwards and whether the call reports
 * "clipped"; the snapshot node's `ClipTransformed` is proved to follow it
 * step for step. The lemmas below say what `Apply` means for the area the
 * clip covers.
 *
 * The operation table is the one the node implements, including its
 * inversion: in region mode an intersect ORs the new rectangle into the
 * region and a union ANDs it.
 */
module ClipAlgebra {
  import opened Geometry

  /** The set operations a clip call can ask for. */
  datatype ClipOp = Difference | Intersect | Union | Xor | ReverseDifference | Replace

  /** The four in-place combinators of a region with a rectangle. */
  datatype Combinator = Or | And | XorWith | Subtract

  datatype Option<T> = None | Some(value: T)

  /** A node's clip: the clip rectangle and, in region mode, the region. */
  datatype ClipState = ClipState(rect: Rect, region: Option<Region>)

  /** The cells a clip lets through: the region when there is one, else the rectangle. */
  function Area(s: ClipState): Region {
    if s.region.Some? then s.region.value else RectCells(s.rect)
  }

  /** The region a clip holds, or the empty region when it holds none. */
  function RegionOrEmpty(s: ClipState): Region {
    if s.region.Some? then s.region.value else {}
  }

  /**
   * The shape a clip keeps between operations: a region is only held when
   * it is non-empty and not a rectangle, and the rectangle is its bounds.
   */
  predicate Collapsed(s: ClipState) {
    s.region.Some? ==>
      s.region.value != {} && !IsRect(s.region.value) && s.rect == Bounds(s.region.value)
  }

  /**
   * The region after combining r into reg: OR only adds r's cells, AND and
   * subtraction only remove cells, and XOR flips exactly r's cells.
   */
  function Combine(k: Combinator, reg: Region, r: Rect): (res: Region)
    ensures res <= reg + RectCells(r)
    ensures k == Or ==> reg <= res && RectCells(r) <= res
    ensures k == And ==> res <= reg && res <= RectCells(r)
    ensures k == Subtract ==> res <= reg && res !! RectCells(r)
    ensures k == XorWith ==> forall c :: c in res <==> (c in reg <==> !InRect(r, c))
  {
    match k
    case Or => reg + RectCells(r)
    case And => reg * RectCells(r)
    case XorWith => (reg - RectCells(r)) + (RectCells(r) - reg)
    case Subtract => reg - RectCells(r)
  }

  /** Enters region mode, seeding the region with the clip rectangle's cells. */
  function EnsureRegion(enabled: bool, s: ClipState): (t: ClipState)
    ensures Area(t) == Area(s) && t.rect == s.rect
    ensures enabled ==> t.region.Some?
    ensures !enabled ==> t == s
  {
    if enabled && s.region.None? then ClipState(s.rect, Some(RectCells(s.rect))) else s
  }

  /**
   * Drops back from a region: the rectangle becomes the region's bounds,
   * and the region is let go when it is empty or a single rectangle.
   */
  function Collapse(reg: Region): (t: ClipState)
    ensures Collapsed(t)
    ensures Area(t) == reg
    ensures t.rect == Bounds(reg)
    ensures t.region.None? <==> reg == {} || IsRect(reg)
    ensures reg == {} ==> t.rect == EmptyRect
  {
    if reg != {} then
      if IsRect(reg) then ClipState(Bounds(reg), None) else ClipState(Bounds(reg), Some(reg))
    else
      RectCellsEmpty(EmptyRect);
      ClipState(EmptyRect, None)
  }

  /**
   * One region operation: combine the rectangle into the region, then
   * collapse. With regions disabled it does nothing and reports false.
   */
  function RegionStep(enabled: bool, s: ClipState, r: Rect, k: Combinator): (res: (ClipState, bool))
    requires enabled ==> s.region.Some?
    ensures enabled ==> res.1 && Collapsed(res.0) && Area(res.0) == Combine(k, s.region.value, r)
    ensures enabled ==> res.0.rect == Bounds(Combine(k, s.region.value, r))
    ensures !enabled ==> res == (s, false)
  {
    if enabled then (Collapse(Combine(k, s.region.value, r)), true) else (s, false)
  }

  /**
   * The clip after `op` with the (already transformed) rectangle r, and the
   * report. A call that reports false leaves the clip as it was, and with
   * regions disabled a clip without a region never gains one.
   */
  function Apply(enabled: bool, s: ClipState, r: Rect, op: ClipOp): (res: (ClipState, bool))
    ensures !res.1 ==> res.0 == s
    ensures !enabled && s.region.None? ==> res.0.region.None?
  {
    match op
    case Difference => RegionStep(enabled, EnsureRegion(enabled, s), r, Subtract)
    case Intersect =>
      if s.region.Some? then RegionStep(enabled, s, r, Or)
      else if !Intersection(s.rect, r).IsEmpty() then (ClipState(Intersection(s.rect, r), None), true)
      else (ClipState(EmptyRect, None), true)
    case Union =>
      if s.region.Some? then RegionStep(enabled, s, r, And)
      else if r.IsEmpty() then (s, false)
      else if s.rect.IsEmpty() then (ClipState(r, None), true)
      else (ClipState(BoundingBox(s.rect, r), None), true)
    case Xor => RegionStep(enabled, EnsureRegion(enabled, s), r, XorWith)
    case ReverseDifference => (s, false)
    case Replace => (ClipState(r, None), true)
  }

  /** Every operation leaves a collapsed clip collapsed. */
  lemma ApplyKeepsCollapsed(enabled: bool, s: ClipState, r: Rect, op: ClipOp)
    requires Collapsed(s)
    ensures Collapsed(Apply(enabled, s, r, op).0)
  {
  }

  /** Difference removes the rectangle's cells from the clip, in region mode. */
  lemma DifferenceSubtracts(s: ClipState, r: Rect)
    ensures Apply(true, s, r, Difference).1
    ensures Area(Apply(true, s, r, Difference).0) == Area(s) - RectCells(r)
  {
  }

  /** Xor toggles the rectangle's cells in the clip, in region mode. */
  lemma XorToggles(s: ClipState, r: Rect)
    ensures Apply(true, s, r, Xor).1
    ensures Area(Apply(true, s, r, Xor).0) == (Area(s) - RectCells(r)) + (RectCells(r) - Area(s))
  {
  }

  /**
   * Intersect in rectangle mode: always reports clipped, stays in
   * rectangle mode, keeps exactly the cells both cover, and leaves the
   * empty rectangle when the two do not overlap.
   */
  lemma RectIntersect(enabled: bool, s: ClipState, r: Rect)
    requires s.region.None?
    ensures Apply(enabled, s, r, Intersect).1
    ensures Apply(enabled, s, r, Intersect).0.region.None?
    ensures Area(Apply(enabled, s, r, Intersect).0) == RectCells(s.rect) * RectCells(r)
    ensures RectCells(s.rect) * RectCells(r) == {} ==> Apply(enabled, s, r, Intersect).0.rect == EmptyRect
  {
    IntersectionCells(s.rect, r);
    RectCellsEmpty(Intersection(s.rect, r));
    RectCellsEmpty(EmptyRect);
  }

  /** Intersect in region mode adds the rectangle's cells to the region. */
  lemma RegionIntersect(s: ClipState, r: Rect)
    requires s.region.Some?
    ensures Apply(true, s, r, Intersect).1
    ensures Area(Apply(true, s, r, Intersect).0) == Area(s) + RectCells(r)
  {
  }

  /**
   * Union in rectangle mode: reports clipped exactly when r is not empty,
   * and then the rectangle grows to cover both; the region stays off.
   */
  lemma RectUnion(enabled: bool, s: ClipState, r: Rect)
    requires s.region.None?
    ensures Apply(enabled, s, r, Union).1 <==> !r.IsEmpty()
    ensures Apply(enabled, s, r, Union).0.region.None?
    ensures Area(s) + RectCells(r) <= Area(Apply(enabled, s, r, Union).0)
    ensures r.IsEmpty() ==> Apply(enabled, s, r, Union).0 == s
  {
  }

  /** Union in region mode keeps only the region's cells inside the rectangle. */
  lemma RegionUnion(s: ClipState, r: Rect)
    requires s.region.Some?
    ensures Apply(true, s, r, Union).1
    ensures Area(Apply(true, s, r, Union).0) == Area(s) * RectCells(r)
  {
  }

  /** Replace sets the clip rectangle to exactly r and drops any region. */
  lemma ReplaceSets(enabled: bool, s: ClipState, r: Rect)
    ensures Apply(enabled, s, r, Replace) == (ClipState(r, None), true)
    ensures Area(Apply(enabled, s, r, Replace).0) == RectCells(r)
  {
  }

  /** Reverse difference changes nothing and reports false. */
  lemma ReverseDifferenceIsNoop(enabled: bool, s: ClipState, r: Rect)
    ensures Apply(enabled, s, r, ReverseDifference) == (s, false)
  {
  }

  /**
   * With regions disabled, every operation that would use the region
   * changes nothing and reports false.
   */
  lemma DisabledRegionOpsAreNoops(s: ClipState, r: Rect, op: ClipOp)
    requires op == Difference || op == Xor || ((op == Intersect || op == Union) && s.region.Some?)
    ensures Apply(false, s, r, op) == (s, false)
  {
  }

  /**
   * Every region operation ends with the rectangle at the region's bounds;
   * an empty result leaves the empty rectangle and no region, and a
   * rectangular result leaves no region.
   */
  lemma RegionOpsCollapse(s: ClipState, r: Rect, op: ClipOp)
    requires op == Difference || op == Xor || ((op == Intersect || op == Union) && s.region.Some?)
    ensures var (t, clipped) := Apply(true, s, r, op);
      && clipped
      && t.rect == Bounds(Area(t))
      && (Area(t) == {} ==> t.rect == EmptyRect && t.region.None?)
      && (IsRect(Area(t)) ==> t.region.None?)
      && (Area(t) != {} && !IsRect(Area(t)) ==> t.region == Some(Area(t)))
  {
  }

  /**
   * The clip a child saved with the clip flag starts with, as the copy
   * constructor is written: the rectangle is copied, but the region the
   * child points at is its own default-empty one, because the merged
   * region is computed and discarded.
   */
  function SavedClipAsWritten(s: ClipState): (t: ClipState)
    ensures t.rect == s.rect && t.region.Some? == s.region.Some?
    ensures t.region.Some? ==> Area(t) == {}
  {
    ClipState(s.rect, if s.region.Some? then Some({}) else None)
  }

  /**
   * A saved clip that held a region loses it: the child's clip lets no
   * cell through, it is no longer collapsed, and the child's next intersect
   * with a non-empty r leaves exactly r, where the parent's would have kept
   * its own region as well.
   */
  lemma SavedRegionLost(s: ClipState, r: Rect)
    requires s.region.Some? && Collapsed(s) && !r.IsEmpty()
    ensures Area(SavedClipAsWritten(s)) != Area(s)
    ensures !Collapsed(SavedClipAsWritten(s))
    ensures Apply(true, SavedClipAsWritten(s), r, Intersect) == (ClipState(r, None), true)
    ensures Area(s) <= Area(Apply(true, s, r, Intersect).0)
  {
    var t := SavedClipAsWritten(s);
    assert Area(s) != {};
    assert Combine(Or, t.region.value, r) == RectCells(r);
    BoundsOfRect(r);
    assert Collapse(RectCells(r)) == ClipState(r, None);
  }

  /**
   * The clip (0,0,100,100) minus its top half (0,0,100,50) is the bottom
   * half (0,50,100,100), held as a rectangle with no region.
   */
  lemma DifferenceTopHalf()
    ensures Apply(true, ClipState(Rect(0, 0, 100, 100), None), Rect(0, 0, 100, 50), Difference)
         == (ClipState(Rect(0, 50, 100, 100), None), true)
  {
    var whole, top, bottom := Rect(0, 0, 100, 100), Rect(0, 0, 100, 50), Rect(0, 50, 100, 100);
    assert RectCells(whole) - RectCells(top) == RectCells(bottom);
    BoundsOfRect(bottom);
  }

  /** (0,0,100,100) intersected with (50,-10,150,50) is (50,0,100,50). */
  lemma IntersectExample()
    ensures Apply(true, ClipState(Rect(0, 0, 100, 100), None), Rect(50, -10, 150, 50), Intersect)
         == (ClipState(Rect(50, 0, 100, 50), None), true)
  {
  }

  /** The union of the disjoint (0,0,10,10) and (20,20,30,30) is their bounding box. */
  lemma UnionExample()
    ensures Apply(true, ClipState(Rect(0, 0, 10, 10), None), Rect(20, 20, 30, 30), Union)
         == (ClipState(Rect(0, 0, 30, 30), None), true)
  {
  }
}
