# Snapshot node of the hwui renderer

This project models the save/restore snapshot node of Android's hardware
UI renderer (`libs/hwui/Snapshot.cpp`) in Dafny and proves properties of it.

A snapshot node bundles four kinds of state:

- the current transform;
- the clip, which is a fast rectangle plus an optional region;
- the render target (`fbo`, `viewport`, `height`, `layer`, and the layer's
  dirty `region`);
- the visibility flags `invisible` and `empty`.

Saving pushes a child node. For each of the transform and the clip, the
child either points at its parent's storage or copies it into its own.
Clip calls then work on the current node: a rectangle-only fast path,
a region path for set operations that a rectangle cannot hold, and a
collapse back to the rectangle when the region turns out to be empty or
rectangular.

Files:

- `Geometry.dfy` (module `Geometry`): integer rectangles, regions as
  finite sets of unit cells, the bounds of a region, and the "is a
  rectangle" test.
- `Storage.dfy` (module `Storage`): the three heap boxes a node points at.
  `RectBox` stands for a `Rect`, `RegionBox` for an `android::Region` and
  `TransformBox` for a `mat4`. With boxes, sharing between a parent and
  a child is observable.
- `ClipAlgebra.dfy` (module `ClipAlgebra`): the clip as a value, the
  operation table of `clipTransformed` as the function `Apply`, and
  lemmas about the area each operation leaves.
- `Snapshot.dfy` (module `Snapshots`): the `Snapshot` class itself. Its
  methods update fields and boxes in place. Each clip method is proved
  to leave the node's clip equal to what `ClipAlgebra` prescribes.

The model keeps the operation table exactly as the code has it. In region
mode, `kIntersect_Op` ORs the rectangle into the region and `kUnion_Op`
ANDs it. `kReverseDifference_Op` does nothing.

Whether region clipping is compiled in (`STENCIL_BUFFER_SIZE`) is a
`const regionEnabled` of each node. The root constructor takes it and
every child inherits it, so one model covers both builds. With it false,
every region path does nothing and reports `false`, and a node never
holds a clip region (`Snapshot.Valid`).

Four consequences of the code as written, which the model keeps:

- A child saved without the clip flag shares its parent's clip rectangle
  and clip region. Clipping that child changes the parent's clip
  rectangle and region as well, because nothing detaches the child first.
  `SaveWithoutClipThenClip` states this. `SaveThenClip` shows that a child
  saved with the clip flag leaves its parent alone.
- A child saved with the clip flag from a parent in region mode points at
  its own region, but that region stays empty: the copy constructor calls
  the const `merge` and discards the result (see "## Findings").
- Nothing in this file sets `empty`. In particular, collapsing to an empty
  region empties the clip rectangle but leaves `empty` as it was.
- `setClip` clears the region it drops. When the node borrowed that region
  from its parent, the parent's region is cleared too. This holds even
  through `resetClip`, which detaches only the clip rectangle.

## Model

| member | source | states |
|---|---|---|
| Snapshots.Snapshot.Root | libs/hwui/Snapshot.cpp:28-35 | A root starts with no flags, no parent, no layer, `fbo` 0, not invisible, not empty and alpha 1. Its transform and clip rectangle are its own storage (identity and the zero rectangle), and it has no clip region and no dirty region. |
| Snapshots.Snapshot.Child | libs/hwui/Snapshot.cpp:41-77 | A child copies `fbo`, `invisible`, `viewport`, `height` and `alpha` and starts with `layer` null and `empty` false, so it is ignored iff the parent is invisible. With the matrix flag its transform is its own fresh box holding the parent's value; without it, it is the parent's box. The same holds for the clip rectangle under the clip flag. With the clip flag, the clip region points at the child's own box exactly when regions are enabled and the parent has one, and that box is empty (the clip is `SavedClipAsWritten` of the parent's); without it, the region is the parent's pointer. The child has `FboTarget` and shares the parent's dirty region iff the parent has `FboTarget`; otherwise its flags are empty and its region is null. The parent is unchanged. |
| Snapshots.Snapshot.EnsureClipRegion | libs/hwui/Snapshot.cpp:83-91 | With regions enabled and no region, the clip region becomes the node's own box, seeded with the clip rectangle's cells. Otherwise the region pointer and the node's own region box are unchanged. The covered area stays the same. |
| Snapshots.Snapshot.CopyClipRectFromRegion | libs/hwui/Snapshot.cpp:93-108 | The clip becomes `Collapse` of the region. The rectangle becomes the region's bounds, or the zero rectangle when the region is empty. The region pointer is dropped when the region is empty or rectangular. A dropped region box is left empty. |
| Snapshots.Snapshot.ClipRegionOr | libs/hwui/Snapshot.cpp:110-119 | With regions enabled, ORs the rectangle into the region, collapses and returns true. Disabled, it changes nothing and returns false. |
| Snapshots.Snapshot.ClipRegionXor | libs/hwui/Snapshot.cpp:121-130 | The same as `ClipRegionOr`, with XOR. |
| Snapshots.Snapshot.ClipRegionAnd | libs/hwui/Snapshot.cpp:132-141 | The same as `ClipRegionOr`, with AND. |
| Snapshots.Snapshot.ClipRegionNand | libs/hwui/Snapshot.cpp:143-152 | The same as `ClipRegionOr`, with subtraction. |
| Snapshots.Snapshot.Clip | libs/hwui/Snapshot.cpp:154-158 | Clipping with a caller-space rectangle is `clipTransformed` applied to the rectangle as the current transform maps it: the clip and the report are `Apply` of the mapped rectangle, and `ClipSet` is added exactly when it returns true. The region pointer ends null, the old one, or (only when there was none) the node's own box; a region box let go is left empty, and the own box is untouched while the node borrows another. A call that returns false changes neither the rectangle, the region pointer, the region box nor the node's own box. Whether the node is ignored does not change. |
| Snapshots.Snapshot.ClipTransformed | libs/hwui/Snapshot.cpp:160-210 | The new clip and the returned report are exactly `Apply` of the op table on the old clip. `ClipSet` is added to the flags exactly when the call returns true. A collapsed clip stays collapsed. The region pointer ends null, the old one, or (only when there was none) the node's own box; a region box let go is left empty, and the node's own box is untouched while the node borrows another. A call that returns false changes neither the rectangle, the region pointer, the region box nor the node's own box. Whether the node is ignored does not change. |
| Snapshots.Snapshot.SetClip | libs/hwui/Snapshot.cpp:212-221 | The clip rectangle (in whatever box it points at) becomes exactly the given bounds. Any region is dropped and left empty. `ClipSet` is added. Whether the node is ignored does not change. |
| Snapshots.Snapshot.ResetClip | libs/hwui/Snapshot.cpp:233-236 | The clip rectangle is re-pointed at the node's own box and set to the bounds, with no region and `ClipSet` added. A clip-rectangle box borrowed from the parent is unchanged; a dropped region box, borrowed or not, is left empty. Whether the node is ignored does not change. |
| Snapshots.Snapshot.ResetTransform | libs/hwui/Snapshot.cpp:242-245 | The transform is re-pointed at the node's own box, which then holds the pure translation. A box borrowed from the parent is unchanged. Whether the node is ignored does not change. |
| Snapshots.Snapshot.IsIgnored | libs/hwui/Snapshot.cpp:251-253 | A node is ignored iff it is invisible or empty. Its partners are the `Child`, `Clip`, `ClipTransformed`, `SetClip`, `ResetClip` and `ResetTransform` rows: a child is ignored iff its parent is invisible, and none of these calls changes it. |
| Snapshots.SaveCopyingClip | libs/hwui/Snapshot.cpp:55-63 | The corrected save with the clip flag: the child starts with exactly the parent's clip, held in fresh boxes of its own, and the parent is not modified. |
| Snapshots.SaveThenClip | libs/hwui/Snapshot.cpp:55-63 | Saving with the clip flag (corrected) and then clipping the child gives the child the clip `Apply` computes from the parent's clip. The child's clip box is not the parent's, and the parent is not modified. |
| Snapshots.SaveThenClipAsWritten | libs/hwui/Snapshot.cpp:55-63 | Saving with the clip flag as written and then clipping the child gives the clip `Apply` computes from `SavedClipAsWritten` of the parent's clip: the parent's rectangle with an empty region. |
| Snapshots.SaveWithoutClipThenClip | libs/hwui/Snapshot.cpp:64-69 | Saving without the clip flag and then clipping the child changes the parent's clip rectangle to the child's new one, and the parent's region box to the child's new region (or empties it when the child lets the region go), because both boxes are shared. |
| ClipAlgebra.Combine | libs/hwui/Snapshot.cpp:110-152 | The four region combinators: OR only adds the rectangle's cells and keeps all of both; AND keeps only cells in both; subtraction keeps only the region's cells outside the rectangle; XOR flips exactly the rectangle's cells. |
| ClipAlgebra.RegionStep | libs/hwui/Snapshot.cpp:110-152 | With regions enabled, a region step reports true and leaves a collapsed clip whose area is the combined region and whose rectangle is its bounds. Disabled, it leaves the clip unchanged and reports false. |
| ClipAlgebra.Apply | libs/hwui/Snapshot.cpp:160-210 | The operation table. A call that reports false leaves the clip unchanged. With regions disabled, a clip without a region never gains one. |
| ClipAlgebra.SavedClipAsWritten | libs/hwui/Snapshot.cpp:55-63 | A clip saved by the copy constructor as written keeps the rectangle and whether there is a region, but any region it holds is empty. |
| ClipAlgebra.SavedRegionLost | libs/hwui/Snapshot.cpp:60 | For a collapsed clip with a region, the clip saved as written covers different cells and is not collapsed, and its next intersect with a non-empty r leaves exactly r, where the parent's intersect keeps all of the parent's cells. |
| ClipAlgebra.EnsureRegion | libs/hwui/Snapshot.cpp:83-91 | Entering region mode keeps the clip rectangle and the covered area. When enabled, it always leaves a region. When disabled, it is the identity. |
| ClipAlgebra.Collapse | libs/hwui/Snapshot.cpp:93-108 | Collapsing a region keeps its area and sets the rectangle to its bounds (the zero rectangle when the region is empty). It drops the region exactly when the region is empty or a rectangle, and leaves a collapsed clip. |
| ClipAlgebra.ApplyKeepsCollapsed | libs/hwui/Snapshot.cpp:160-210 | No clip operation leaves a non-empty, non-rectangular region whose bounds differ from the clip rectangle. |
| ClipAlgebra.RegionOpsCollapse | libs/hwui/Snapshot.cpp:93-108 | After every region operation, the rectangle equals the bounds of the clip area. An empty area gives the zero rectangle and no region. A rectangular area gives no region. Any other area is kept as the region. |
| ClipAlgebra.DifferenceSubtracts | libs/hwui/Snapshot.cpp:164-168 | With regions enabled, difference removes the rectangle's cells from the clip area and reports true. |
| ClipAlgebra.XorToggles | libs/hwui/Snapshot.cpp:189-193 | With regions enabled, XOR toggles the rectangle's cells in the clip area and reports true. |
| ClipAlgebra.RectIntersect | libs/hwui/Snapshot.cpp:172-178 | Without a region, intersect always reports true and stays in rectangle mode. It keeps exactly the cells both rectangles cover, and leaves the zero rectangle when they do not overlap. |
| ClipAlgebra.RegionIntersect | libs/hwui/Snapshot.cpp:170-171 | With a region, intersect adds the rectangle's cells to the clip area (the OR the code uses) and reports true. |
| ClipAlgebra.RectUnion | libs/hwui/Snapshot.cpp:184-186 | Without a region, union reports true iff the rectangle is not empty. It then grows the clip rectangle to cover both, in rectangle mode. An empty rectangle changes nothing. |
| ClipAlgebra.RegionUnion | libs/hwui/Snapshot.cpp:182-183 | With a region, union keeps only the clip cells inside the rectangle (the AND the code uses) and reports true. |
| ClipAlgebra.ReplaceSets | libs/hwui/Snapshot.cpp:198-201 | Replace sets the clip rectangle to exactly the given rectangle, drops any region and reports true. |
| ClipAlgebra.ReverseDifferenceIsNoop | libs/hwui/Snapshot.cpp:194-196 | Reverse difference leaves the clip unchanged and reports false. |
| ClipAlgebra.DisabledRegionOpsAreNoops | libs/hwui/Snapshot.cpp:110-152 | With regions disabled, difference, XOR, and region-mode intersect and union leave the clip unchanged and report false. |
| ClipAlgebra.DifferenceTopHalf | libs/hwui/Snapshot.cpp:164-168 | The clip (0,0,100,100) minus (0,0,100,50) is the rectangle (0,50,100,100), with no region left. |
| ClipAlgebra.IntersectExample | libs/hwui/Snapshot.cpp:172-178 | (0,0,100,100) intersected with (50,-10,150,50) is (50,0,100,50), in rectangle mode. |
| ClipAlgebra.UnionExample | libs/hwui/Snapshot.cpp:184-186 | The rectangle-mode union of (0,0,10,10) and (20,20,30,30) is (0,0,30,30). |
| Geometry.Bounds | libs/hwui/Snapshot.cpp:96 | A region's bounds cover every cell of it, and each edge is touched by some cell. The bounds are empty exactly for the empty region, and are then the zero rectangle. |
| Geometry.RectRegions | libs/hwui/Snapshot.cpp:99 | A region counts as a rectangle exactly when it is the cell set of some non-empty rectangle. |
| Geometry.BoundsOfRect | libs/hwui/Snapshot.cpp:99-102 | A non-empty rectangle's cells have that rectangle as their bounds and count as a rectangular region. |
| Geometry.IntersectionCells | libs/hwui/Snapshot.cpp:173 | The overlap of two rectangles covers exactly the cells both cover. |
| Geometry.BoundingBoxCovers | libs/hwui/Snapshot.cpp:185 | The bounding box of two rectangles covers the cells of both. |
| Storage.RectBox.Intersect | libs/hwui/Snapshot.cpp:173 | The rectangle shrinks to the overlap iff the overlap is non-empty, and the call reports that. Otherwise the rectangle is unchanged. |
| Storage.RegionBox.Merge | libs/hwui/Snapshot.cpp:60 | `merge` returns the union of the two regions as a new value (a cell is in it iff it is in either) and changes neither. |
| Storage.RectBox.UnionWith | libs/hwui/Snapshot.cpp:185 | An empty argument changes nothing and reports false. Otherwise the rectangle grows to cover both and the call reports true. |

## Left out

- `getLocalClip` (`libs/hwui/Snapshot.cpp:223-231`) is not part of this
  model. It inverts a 4x4 floating-point matrix and maps the clip through
  it.
- `Snapshot.Clip`: the `mat4::mapRect` mapping is a parameter of the
  method, not a definition. `mat4` is otherwise kept only as sixteen
  stored entries, loaded from a parent or set to a translation.
- The reference counting of `previous` (`sp<Snapshot>`) is not modelled;
  it is memory management. `previous` is a plain nullable reference.
- Coordinates are integers, not floats. The float-to-integer conversion
  when a clip rectangle is handed to `android::Region` is therefore not
  modelled.
- The internals of `android::Region` and of `Rect::intersect`,
  `Rect::unionWith` and `Rect::setEmpty` are not part of this model; their
  headers are not available. The model assumes these behaviours:
  - a region is the set of cells it covers;
  - `intersect` keeps the overlap and returns true only when the overlap
    is non-empty;
  - `unionWith` returns false for an empty argument, copies the argument
    into an empty rectangle, and otherwise grows to the bounding box;
  - `setEmpty` zeroes all four edges;
  - `Region::merge` is const: it returns the union and leaves its receiver
    unchanged, while `orSelf` is the in-place OR.
- The `SkCanvas` save flags are two booleans (`saveMatrix`, `saveClip`),
  and `SkRegion::Op` is the datatype `ClipOp`.
- Only the `kFlagClipSet` and `kFlagFboTarget` node flags are modelled,
  because they are the only ones this file reads or writes. The bitset
  is a set of flag names, and `|=` is set union.
- The root constructor does not initialise `height`, and the model leaves
  it unconstrained.
- The layer and its dirty region are only referred to, never inspected.

## Findings

| source | as written | input that shows it | evidently intended | confidence | as-written member | corrected member |
|---|---|---|---|---|---|---|
| libs/hwui/Snapshot.cpp:60 | `mClipRegionRoot.merge(*s->clipRegion)` discards the union that the const `merge` returns, so the saved child's own region stays empty while `clipRegion` points at it | a parent in region mode (say an L-shaped clip region), saved with the clip flag; the child's next `kIntersect_Op` with a non-empty r leaves the clip exactly r | the child's region is a copy of the parent's (an in-place OR into the empty own region) | medium, not executed; rests on the `Region::merge` signature, whose header is not part of this model | ClipAlgebra.SavedRegionLost | Snapshots.SaveCopyingClip |
