/**
 * A snapshot node of the hardware renderer's save/restore stack.
 *
 * A node bundles the current transform, the clip (a fast rectangle plus an
 * optional region), the render target and the visibility flags. Each of
 * transform, clip rectangle and clip region is a pointer that either
 * aliases the parent node's storage or points at the node's own storage
 * (`transformRoot`, `clipRectRoot`, `clipRegionRoot`).
 *
 * Whether region clipping is compiled in (a stencil buffer is available)
 * is the node's `regionEnabled`; a root is built with it and every child
 * inherits it, so both builds are covered by one model.
 */
module Snapshots {
  import opened Geometry
  import opened Storage
  import opened ClipAlgebra

  /** The node flags this core reads or writes. */
  datatype Flag =
    | ClipSet    // a clip was set on this node
    | FboTarget  // this node draws into an offscreen layer

  /** An offscreen layer, owned by the renderer; the node only refers to it. */
  class Layer {
    constructor () { }
  }

  class Snapshot {
    var flags: set<Flag>
    var previous: Snapshot?
    var layer: Layer?
    var fbo: nat
    var invisible: bool
    var empty: bool
    var viewport: Rect
    var height: int
    var alpha: real

    var transform: TransformBox
    var clipRect: RectBox
    var clipRegion: RegionBox?
    /** The layer's dirty region, shared with the parent while drawing into a layer. */
    var region: RegionBox?

    const transformRoot: TransformBox
    const clipRectRoot: RectBox
    const clipRegionRoot: RegionBox
    const regionEnabled: bool

    /** Without region support a node never holds a clip region. */
    ghost predicate Valid()
      reads this
    {
      !regionEnabled ==> clipRegion == null
    }

    /** The node's clip as a value. */
    ghost function ClipOf(): ClipState
      reads this, clipRect, clipRegion
    {
      ClipState(clipRect.rect, if clipRegion == null then None else Some(clipRegion.cells))
    }

    /** The root of a stack: no parent, nothing inherited, its own storage. */
    constructor Root(regionEnabled: bool)
      ensures Valid()
      ensures flags == {} && previous == null && layer == null && fbo == 0
      ensures !invisible && !empty && alpha == 1.0 && viewport == EmptyRect
      ensures transform == transformRoot && clipRect == clipRectRoot
      ensures region == null && clipRegion == null
      ensures transform.m == Identity() && clipRect.rect == EmptyRect && clipRegionRoot.cells == {}
      ensures fresh(transformRoot) && fresh(clipRectRoot) && fresh(clipRegionRoot)
      ensures this.regionEnabled == regionEnabled
    {
      var tr := new TransformBox();
      var cr := new RectBox();
      var rg := new RegionBox();
      flags, previous, layer, fbo := {}, null, null, 0;
      invisible, empty, alpha := false, false, 1.0;
      viewport := EmptyRect;
      transformRoot, clipRectRoot, clipRegionRoot := tr, cr, rg;
      this.regionEnabled := regionEnabled;
      transform := tr;
      clipRect := cr;
      region := null;
      clipRegion := null;
    }

    /**
     * Saves s: a child whose transform is a private copy when saveMatrix
     * is set and s's own transform otherwise, and likewise for the clip
     * under saveClip. As written, the private clip region stays empty:
     * the union with s's region is computed and thrown away.
     */
    constructor Child(s: Snapshot, saveMatrix: bool, saveClip: bool)
      ensures Valid()
      ensures previous == s && layer == null && !empty
      ensures fbo == s.fbo && invisible == s.invisible && viewport == s.viewport
      ensures height == s.height && alpha == s.alpha && regionEnabled == s.regionEnabled
      ensures fresh(transformRoot) && fresh(clipRectRoot) && fresh(clipRegionRoot)
      ensures saveMatrix ==> transform == transformRoot && transform.m == s.transform.m
      ensures !saveMatrix ==> transform == s.transform
      ensures saveClip ==> clipRect == clipRectRoot && clipRect.rect == s.clipRect.rect
      ensures saveClip ==> clipRegion == if regionEnabled && s.clipRegion != null then clipRegionRoot else null
      ensures saveClip && clipRegion != null ==> clipRegion.cells == {}
      ensures saveClip && s.Valid() ==> ClipOf() == SavedClipAsWritten(s.ClipOf())
      ensures !saveClip ==> clipRect == s.clipRect
      ensures !saveClip ==> clipRegion == if regionEnabled then s.clipRegion else null
      ensures FboTarget in s.flags ==> flags == {FboTarget} && region == s.region
      ensures FboTarget !in s.flags ==> flags == {} && region == null
      ensures IsIgnored() <==> s.invisible
      ensures unchanged(s)
    {
      var tr := new TransformBox();
      var cr := new RectBox();
      var rg := new RegionBox();
      flags, previous, layer, fbo := {}, s, null, s.fbo;
      invisible, empty := s.invisible, false;
      viewport, height, alpha := s.viewport, s.height, s.alpha;
      transformRoot, clipRectRoot, clipRegionRoot := tr, cr, rg;
      regionEnabled := s.regionEnabled;
      clipRegion := null;

      if saveMatrix {
        tr.Load(s.transform.m);
        transform := tr;
      } else {
        transform := s.transform;
      }

      if saveClip {
        cr.Set(s.clipRect.rect);
        clipRect := cr;
        if s.regionEnabled && s.clipRegion != null {
          var discarded := rg.Merge(s.clipRegion);
          clipRegion := rg;
        }
      } else {
        clipRect := s.clipRect;
        if s.regionEnabled {
          clipRegion := s.clipRegion;
        }
      }

      if FboTarget in s.flags {
        flags := flags + {FboTarget};
        region := s.region;
      } else {
        region := null;
      }
    }

    /** Enters region mode on first need, seeding the own region from the clip rectangle. */
    method EnsureClipRegion()
      requires Valid()
      modifies this`clipRegion, clipRegionRoot
      ensures Valid()
      ensures ClipOf() == EnsureRegion(regionEnabled, old(ClipOf()))
      ensures clipRegion == if regionEnabled && old(clipRegion) == null then clipRegionRoot else old(clipRegion)
      ensures (regionEnabled && old(clipRegion) == null) || unchanged(clipRegionRoot)
    {
      if regionEnabled && clipRegion == null {
        clipRegion := clipRegionRoot;
        clipRegion.Set(clipRect.rect);
      }
    }

    /**
     * Sets the clip rectangle to the region's bounds and lets the region
     * go when it is empty or a single rectangle; a region let go is left
     * empty.
     */
    method CopyClipRectFromRegion()
      requires regionEnabled && clipRegion != null
      modifies this`clipRegion, clipRect, clipRegion
      ensures Valid()
      ensures ClipOf() == Collapse(old(clipRegion.cells))
      ensures clipRegion == null || clipRegion == old(clipRegion)
      ensures clipRegion == null ==> old(clipRegion).cells == {}
    {
      if !clipRegion.IsEmpty() {
        var bounds := clipRegion.Bounds();
        clipRect.Set(bounds);
        if clipRegion.IsRect() {
          clipRegion.Clear();
          clipRegion := null;
        }
      } else {
        clipRect.SetEmpty();
        clipRegion := null;
      }
    }

    /** Ors r into the region, then collapses. */
    method ClipRegionOr(r: Rect) returns (clipped: bool)
      requires Valid() && (regionEnabled ==> clipRegion != null)
      modifies this`clipRegion, clipRect, clipRegion
      ensures Valid()
      ensures (ClipOf(), clipped) == RegionStep(regionEnabled, old(ClipOf()), r, Or)
      ensures !clipped ==> unchanged(clipRect)
      ensures clipRegion == null || clipRegion == old(clipRegion)
      ensures old(clipRegion) != null && clipRegion == null ==> old(clipRegion).cells == {}
    {
      if regionEnabled {
        clipRegion.OrSelf(r);
        CopyClipRectFromRegion();
        clipped := true;
      } else {
        clipped := false;
      }
    }

    /** Xors r into the region, then collapses. */
    method ClipRegionXor(r: Rect) returns (clipped: bool)
      requires Valid() && (regionEnabled ==> clipRegion != null)
      modifies this`clipRegion, clipRect, clipRegion
      ensures Valid()
      ensures (ClipOf(), clipped) == RegionStep(regionEnabled, old(ClipOf()), r, XorWith)
      ensures !clipped ==> unchanged(clipRect)
      ensures clipRegion == null || clipRegion == old(clipRegion)
      ensures old(clipRegion) != null && clipRegion == null ==> old(clipRegion).cells == {}
    {
      if regionEnabled {
        clipRegion.XorSelf(r);
        CopyClipRectFromRegion();
        clipped := true;
      } else {
        clipped := false;
      }
    }

    /** Ands r into the region, then collapses. */
    method ClipRegionAnd(r: Rect) returns (clipped: bool)
      requires Valid() && (regionEnabled ==> clipRegion != null)
      modifies this`clipRegion, clipRect, clipRegion
      ensures Valid()
      ensures (ClipOf(), clipped) == RegionStep(regionEnabled, old(ClipOf()), r, And)
      ensures !clipped ==> unchanged(clipRect)
      ensures clipRegion == null || clipRegion == old(clipRegion)
      ensures old(clipRegion) != null && clipRegion == null ==> old(clipRegion).cells == {}
    {
      if regionEnabled {
        clipRegion.AndSelf(r);
        CopyClipRectFromRegion();
        clipped := true;
      } else {
        clipped := false;
      }
    }

    /** Subtracts r from the region, then collapses. */
    method ClipRegionNand(r: Rect) returns (clipped: bool)
      requires Valid() && (regionEnabled ==> clipRegion != null)
      modifies this`clipRegion, clipRect, clipRegion
      ensures Valid()
      ensures (ClipOf(), clipped) == RegionStep(regionEnabled, old(ClipOf()), r, Subtract)
      ensures !clipped ==> unchanged(clipRect)
      ensures clipRegion == null || clipRegion == old(clipRegion)
      ensures old(clipRegion) != null && clipRegion == null ==> old(clipRegion).cells == {}
    {
      if regionEnabled {
        clipRegion.SubtractSelf(r);
        CopyClipRectFromRegion();
        clipped := true;
      } else {
        clipped := false;
      }
    }

    /**
     * Applies op with r, already in the node's coordinate space. The clip
     * becomes what `Apply` says, and the clip-set flag is added exactly
     * when the call reports clipped.
     */
    method ClipTransformed(r: Rect, op: ClipOp) returns (clipped: bool)
      requires Valid()
      modifies this`flags, this`clipRegion, clipRect, clipRegion, clipRegionRoot
      ensures Valid()
      ensures (ClipOf(), clipped) == Apply(regionEnabled, old(ClipOf()), r, op)
      ensures Collapsed(old(ClipOf())) ==> Collapsed(ClipOf())
      ensures flags == if clipped then old(flags) + {ClipSet} else old(flags)
      ensures clipRegion == null || clipRegion == old(clipRegion) || (old(clipRegion) == null && clipRegion == clipRegionRoot)
      ensures old(clipRegion) != null && clipRegion == null ==> old(clipRegion).cells == {}
      ensures old(clipRegion) != null && old(clipRegion) != clipRegionRoot ==> unchanged(clipRegionRoot)
      ensures !clipped ==> clipRect.rect == old(clipRect.rect) && clipRegion == old(clipRegion) && unchanged(clipRegionRoot)
      ensures !clipped && old(clipRegion) != null ==> unchanged(old(clipRegion))
      ensures IsIgnored() == old(IsIgnored())
    {
      if Collapsed(ClipOf()) {
        ApplyKeepsCollapsed(regionEnabled, ClipOf(), r, op);
      }
      clipped := false;
      match op {
        case Difference =>
          EnsureClipRegion();
          clipped := ClipRegionNand(r);
        case Intersect =>
          if clipRegion != null {
            clipped := ClipRegionOr(r);
          } else {
            clipped := clipRect.Intersect(r);
            if !clipped {
              clipRect.SetEmpty();
              clipped := true;
            }
          }
        case Union =>
          if clipRegion != null {
            clipped := ClipRegionAnd(r);
          } else {
            clipped := clipRect.UnionWith(r);
          }
        case Xor =>
          EnsureClipRegion();
          clipped := ClipRegionXor(r);
        case ReverseDifference =>
        case Replace =>
          SetClip(r);
          clipped := true;
      }

      if clipped {
        flags := flags + {ClipSet};
      }
    }

    /**
     * Clips with r given in the caller's space: r is first mapped through
     * the current transform by mapRect, the matrix's own mapping.
     */
    method Clip(r: Rect, op: ClipOp, mapRect: (Mat4, Rect) -> Rect) returns (clipped: bool)
      requires Valid()
      modifies this`flags, this`clipRegion, clipRect, clipRegion, clipRegionRoot
      ensures Valid()
      ensures (ClipOf(), clipped) == Apply(regionEnabled, old(ClipOf()), mapRect(transform.m, r), op)
      ensures flags == if clipped then old(flags) + {ClipSet} else old(flags)
      ensures clipRegion == null || clipRegion == old(clipRegion) || (old(clipRegion) == null && clipRegion == clipRegionRoot)
      ensures old(clipRegion) != null && clipRegion == null ==> old(clipRegion).cells == {}
      ensures old(clipRegion) != null && old(clipRegion) != clipRegionRoot ==> unchanged(clipRegionRoot)
      ensures !clipped ==> clipRect.rect == old(clipRect.rect) && clipRegion == old(clipRegion) && unchanged(clipRegionRoot)
      ensures !clipped && old(clipRegion) != null ==> unchanged(old(clipRegion))
      ensures IsIgnored() == old(IsIgnored())
    {
      var mapped := mapRect(transform.m, r);
      clipped := ClipTransformed(mapped, op);
    }

    /**
     * Sets the clip rectangle to exactly r, in the storage it points at,
     * and drops (and empties) any region.
     */
    method SetClip(r: Rect)
      requires Valid()
      modifies this`flags, this`clipRegion, clipRect, clipRegion
      ensures Valid()
      ensures clipRect.rect == r && clipRegion == null
      ensures ClipOf() == ClipState(r, None)
      ensures flags == old(flags) + {ClipSet}
      ensures old(clipRegion) != null ==> old(clipRegion).cells == {}
      ensures IsIgnored() == old(IsIgnored())
    {
      clipRect.Set(r);
      if regionEnabled && clipRegion != null {
        clipRegion.Clear();
        clipRegion := null;
      }
      flags := flags + {ClipSet};
    }

    /**
     * Points the clip rectangle at the node's own storage and sets it to r;
     * a clip rectangle borrowed from the parent is left as it was, but a
     * dropped region, borrowed or not, is cleared.
     */
    method ResetClip(r: Rect)
      requires Valid()
      modifies this`clipRect, this`flags, this`clipRegion, clipRectRoot, clipRegion
      ensures Valid()
      ensures clipRect == clipRectRoot && clipRect.rect == r && clipRegion == null
      ensures flags == old(flags) + {ClipSet}
      ensures old(clipRect) != clipRectRoot ==> unchanged(old(clipRect))
      ensures old(clipRegion) != null ==> old(clipRegion).cells == {}
      ensures IsIgnored() == old(IsIgnored())
    {
      clipRect := clipRectRoot;
      SetClip(r);
    }

    /**
     * Points the transform at the node's own storage and loads the
     * translation by (x, y, z); a transform borrowed from the parent is
     * left as it was.
     */
    method ResetTransform(x: real, y: real, z: real)
      modifies this`transform, transformRoot
      ensures transform == transformRoot && transform.m == Translation(x, y, z)
      ensures old(transform) != transformRoot ==> unchanged(old(transform))
      ensures IsIgnored() == old(IsIgnored())
    {
      transform := transformRoot;
      transform.LoadTranslate(x, y, z);
    }

    /** Drawing under a node is skipped when it is invisible or its clip is empty. */
    predicate IsIgnored()
      reads this
      ensures IsIgnored() <==> invisible || empty
    {
      invisible || empty
    }
  }

  /**
   * Saves parent with the clip flag and gives the child a real copy of the
   * parent's region: the intended effect of the copy constructor, where
   * the region is or-ed into the child's own empty region in place. The
   * child starts with exactly the parent's clip, in storage of its own.
   */
  method SaveCopyingClip(parent: Snapshot, saveMatrix: bool) returns (child: Snapshot)
    requires parent.Valid()
    ensures child.Valid() && child.previous == parent && child.regionEnabled == parent.regionEnabled
    ensures child.clipRect != parent.clipRect && (child.clipRegion == null || child.clipRegion != parent.clipRegion)
    ensures child.ClipOf() == parent.ClipOf()
    ensures fresh(child) && fresh(child.clipRect) && fresh(child.clipRegionRoot)
    ensures child.clipRegion == null || child.clipRegion == child.clipRegionRoot
  {
    child := new Snapshot.Child(parent, saveMatrix, true);
    if child.clipRegion != null {
      child.clipRegion.OrRegion(parent.clipRegion);
      assert child.clipRegion.cells == parent.clipRegion.cells;
    }
  }

  /**
   * Saves parent with the clip flag, copying its clip as intended, and
   * clips the child: the child ends
   * with the clip `Apply` gives from the parent's clip, and the parent,
   * whose storage the child does not share, is not modified.
   */
  method SaveThenClip(parent: Snapshot, saveMatrix: bool, r: Rect, op: ClipOp)
    returns (child: Snapshot, clipped: bool)
    requires parent.Valid()
    ensures child.previous == parent && child.clipRect != parent.clipRect
    ensures (child.ClipOf(), clipped) == Apply(parent.regionEnabled, parent.ClipOf(), r, op)
  {
    child := SaveCopyingClip(parent, saveMatrix);
    clipped := child.ClipTransformed(r, op);
  }

  /**
   * The same with the copy constructor as written: the child clips from
   * the parent's rectangle with an empty region in place of the parent's.
   */
  method SaveThenClipAsWritten(parent: Snapshot, saveMatrix: bool, r: Rect, op: ClipOp)
    returns (child: Snapshot, clipped: bool)
    requires parent.Valid()
    ensures child.previous == parent && child.clipRect != parent.clipRect
    ensures (child.ClipOf(), clipped) == Apply(parent.regionEnabled, SavedClipAsWritten(parent.ClipOf()), r, op)
  {
    child := new Snapshot.Child(parent, saveMatrix, true);
    clipped := child.ClipTransformed(r, op);
  }

  /**
   * Saves parent without the clip flag and clips the child: the child
   * borrows the parent's clip rectangle and region, so the parent's are
   * changed along with the child's. Nothing detaches the child first.
   */
  method SaveWithoutClipThenClip(parent: Snapshot, saveMatrix: bool, r: Rect, op: ClipOp)
    returns (child: Snapshot, clipped: bool)
    requires parent.Valid()
    modifies parent.clipRect, parent.clipRegion
    ensures child.previous == parent && child.clipRect == parent.clipRect
    ensures (child.ClipOf(), clipped) == Apply(parent.regionEnabled, old(parent.ClipOf()), r, op)
    ensures parent.clipRect.rect == Apply(parent.regionEnabled, old(parent.ClipOf()), r, op).0.rect
    ensures parent.clipRegion != null ==>
      parent.clipRegion.cells == RegionOrEmpty(Apply(parent.regionEnabled, old(parent.ClipOf()), r, op).0)
  {
    child := new Snapshot.Child(parent, saveMatrix, false);
    clipped := child.ClipTransformed(r, op);
  }
}
