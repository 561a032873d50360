# KItemListHeader: column hit-testing, hover/press state and section layout

This project models the header widget of Dolphin's item views,
`KItemListHeader` (`src/kitemviews/kitemlistheader.cpp`), in Dafny and proves
properties of the model. The header shows one section per visible role
(column). Horizontal widths are stored per role, and a role missing from the
width map has width 0. The header keeps two indices, the hovered and the
pressed column, where -1 means "none".

The model has two parts, both in `kitemlistheader.dfy` (module `KItemViews`):

- Pure specification. `PrefixWidth` sums the widths of the first n roles and
  `RightEdge(i)` is the sum over roles 0..i. `IsRoleIndexAt` says which column
  a position hits. `PositionOf` is the section-position choice of `paintRole`.
  `IsSectionOf` and `IsLayoutOf` say what `paint` hands to the style.
- The class `KItemListHeader`. It has the widget's fields, a `repaints`
  counter that stands for calls of `update()`, and a `splitCursor` flag for
  the cursor. Its methods are the setters, getters, hit tests and event
  handlers. Each loop of the source is kept as a `while` loop with its
  invariants.

Widths (`qreal`) are Dafny `real`s because, apart from the integer rectangles
below, the code only adds and compares them. The sums are therefore exact: the rounding of accumulated `qreal`
sums, and NaN or infinite widths, are not modelled. Where the code hands a
`qreal` to an integer rectangle (the empty area in `paint`), the model
truncates toward zero as the C++ conversion does (`TruncToInt`).

An event is reduced to the horizontal coordinate of its position, since the
source never looks at the vertical one. The style's grip margin
(`PM_HeaderGripMargin`) and the widget's width are parameters.

`setVisibleRoles` does not reset the hovered and pressed indices. So the model
has no invariant that ties them to the role count. The "-1 or a valid column"
fact is stated only right after a hit test: `IsRoleIndexAt` implies it.

The hit test returns -1 only when there are no roles. With non-negative
widths, a position left of the origin hits column 0 and a position past the
right edge hits the last column (`LeftOfOriginHitsFirstColumn`,
`PastRightEdgeHitsLastColumn`). With a negative width this need not hold: a
position left of the origin can hit a later column
(`NegativeWidthLeftOfOrigin`).

## Model

| member | source | states |
|---|---|---|
| `KItemViews.PositionOf` | src/kitemviews/kitemlistheader.cpp:221-229 | for a section index in range: OnlyOneSection exactly when there is a single role; Beginning exactly for index 0 of two or more; End exactly for the last of two or more; Middle exactly for the indices strictly between |
| `KItemViews.TruncToInt` | src/kitemviews/kitemlistheader.cpp:127 | the int conversion of a qreal truncates toward zero: for a non-negative value the result is the largest whole number not above it, for a negative value the smallest whole number not below it |
| `KItemViews.RoleWidth` | src/kitemviews/kitemlistheader.cpp:117 | a role's width is its entry in the width map, and 0 for a role the map does not hold, as `QHash::value` returns a default value |
| `KItemViews.PrefixWidthMonotone` | src/kitemviews/kitemlistheader.cpp:114-122 | with non-negative widths, the accumulated left edges never decrease along the roles |
| `KItemViews.RoleIndexAtUnique` | src/kitemviews/kitemlistheader.cpp:258-272 | the hit-test specification determines a single column for every position |
| `KItemViews.RoleIndexAtMonotone` | src/kitemviews/kitemlistheader.cpp:258-272 | a position further right never hits a column further left |
| `KItemViews.PositionInColumnHitsColumn` | src/kitemviews/kitemlistheader.cpp:263-269 | with non-negative widths, a position after the left edge of column k and at or before its right edge hits column k |
| `KItemViews.PastRightEdgeHitsLastColumn` | src/kitemviews/kitemlistheader.cpp:263-271 | with non-negative widths and at least one role, a position beyond the total width hits the last column |
| `KItemViews.LeftOfOriginHitsFirstColumn` | src/kitemviews/kitemlistheader.cpp:263-268 | with non-negative widths and at least one role, a position at or left of 0 hits column 0 |
| `KItemViews.NegativeWidthLeftOfOrigin` | src/kitemviews/kitemlistheader.cpp:263-269 | with roles a and b of widths -5 and 10, the position -3 hits column 1, not column 0 |
| `KItemViews.LayoutIsContiguous` | src/kitemviews/kitemlistheader.cpp:114-127 | the first section starts at 0, each section ends where the next begins, the empty area begins at the truncated end of the last section, and with no roles it starts at 0 and is the truncated header width |
| `KItemViews.LayoutDoesNotOverlap` | src/kitemviews/kitemlistheader.cpp:114-122 | with non-negative widths, an earlier section ends at or before a later one starts, and every section ends less than one pixel past the start of the empty area |
| `KItemViews.HitColumnContainsPosition` | src/kitemviews/kitemlistheader.cpp:263-269 | for a position between 0 and the total width, the hit column is a drawn section whose extent contains the position, and every earlier section ends strictly before it |
| `KItemViews.EmptyAreaWithinHeader` | src/kitemviews/kitemlistheader.cpp:114-127 | with non-negative widths and sections no wider than the header, the empty area has a non-negative start and width and ends at the truncated header width or one pixel before it |
| `KItemViews.EmptyAreaFallsShort` | src/kitemviews/kitemlistheader.cpp:127 | in any layout of one role of width 10.5 in a header 100 wide, the empty area starts at 10 and is 89 wide, ending one pixel short of the truncated header width |
| `KItemViews.HoveredSectionIsUnique` | src/kitemviews/kitemlistheader.cpp:209-211 | when the hovered index comes from the hit test, exactly the hit section is drawn mouse-over if there are roles, and no other section ever is |
| `KItemViews.KItemListHeader.constructor` | src/kitemviews/kitemlistheader.cpp:31-38 | a new header has no model, no roles, no widths, both indices -1, no resize press, no repaint requested and the default cursor |
| `KItemViews.KItemListHeader.Update` | src/kitemviews/kitemlistheader.cpp:82 | one more repaint request is recorded |
| `KItemViews.KItemListHeader.SetModel` | src/kitemviews/kitemlistheader.cpp:51-72 | the model becomes the given one (an unchanged model when it was already set); nothing else changes |
| `KItemViews.KItemListHeader.Model` | src/kitemviews/kitemlistheader.cpp:74-77 | returns the current model |
| `KItemViews.KItemListHeader.SetVisibleRoles` | src/kitemviews/kitemlistheader.cpp:79-83 | the roles become the given list and one repaint is requested; the hovered and pressed indices are left as they were |
| `KItemViews.KItemListHeader.VisibleRoles` | src/kitemviews/kitemlistheader.cpp:85-88 | returns the current roles |
| `KItemViews.KItemListHeader.SetVisibleRolesWidths` | src/kitemviews/kitemlistheader.cpp:90-94 | the width map becomes the given one and one repaint is requested; nothing else changes |
| `KItemViews.KItemListHeader.VisibleRolesWidths` | src/kitemviews/kitemlistheader.cpp:96-99 | returns the current width map |
| `KItemViews.KItemListHeader.RoleIndexAt` | src/kitemviews/kitemlistheader.cpp:258-272 | -1 exactly when there are no roles; otherwise a column index, namely the first column whose right edge is at or beyond x, or the last column when none is |
| `KItemViews.KItemListHeader.IsAboveRoleGrip` | src/kitemviews/kitemlistheader.cpp:274-284 | for a column index below the role count: true exactly when x lies between that column's right edge minus the grip margin and the right edge (the edge is 0 for a negative index) |
| `KItemViews.KItemListHeader.UpdatePressedRoleIndex` | src/kitemviews/kitemlistheader.cpp:240-247 | the pressed index becomes the hit column of x, a repaint is requested exactly when it changed, and the hovered index is untouched |
| `KItemViews.KItemListHeader.UpdateHoveredRoleIndex` | src/kitemviews/kitemlistheader.cpp:249-256 | the hovered index becomes the hit column of x, a repaint is requested exactly when it changed, and the pressed index is untouched |
| `KItemViews.KItemListHeader.MousePressEvent` | src/kitemviews/kitemlistheader.cpp:132-136 | as UpdatePressedRoleIndex at the press position |
| `KItemViews.KItemListHeader.MouseReleaseEvent` | src/kitemviews/kitemlistheader.cpp:138-145 | the pressed index becomes -1, and a repaint is requested exactly when it was not -1 before |
| `KItemViews.KItemListHeader.MouseMoveEvent` | src/kitemviews/kitemlistheader.cpp:147-151 | as UpdatePressedRoleIndex at the new position |
| `KItemViews.KItemListHeader.HoverEnterEvent` | src/kitemviews/kitemlistheader.cpp:153-157 | as UpdateHoveredRoleIndex at the entry position |
| `KItemViews.KItemListHeader.HoverLeaveEvent` | src/kitemviews/kitemlistheader.cpp:159-166 | the hovered index becomes -1, and a repaint is requested exactly when it was not -1 before |
| `KItemViews.KItemListHeader.HoverMoveEvent` | src/kitemviews/kitemlistheader.cpp:168-179 | the hovered index is updated as by UpdateHoveredRoleIndex; then the split cursor is set exactly when the new hovered index is a column and x lies in the grip band at that column's right edge, otherwise the cursor is unset |
| `KItemViews.KItemListHeader.PaintRole` | src/kitemviews/kitemlistheader.cpp:193-229 | given section k's role, its summed left edge and its role width, the section has order index k, the position kind of PositionOf, and is mouse-over exactly when k is the hovered index and sunken exactly when k is the pressed index |
| `KItemViews.KItemListHeader.Paint` | src/kitemviews/kitemlistheader.cpp:101-130 | nothing is laid out exactly when there is no model; otherwise section k starts at the summed width of roles 0..k-1, has the width of role k, gets the position kind of PositionOf, is mouse-over exactly when k is the hovered index and sunken exactly when k is the pressed index, and the empty area starts at the total width truncated to an integer and its width is the header width minus the total width, truncated |

## Left out

- Drawing: the painter, font, palette, `QStyle::drawControl`, the enabled, active and raised state bits, `selectedPosition`, role descriptions and text elision are calls into the toolkit with no logic of their own.
- Paint: the rounding of each section's rectangle by `QRectF::toRect` is not modelled; sections carry their exact real extent. The empty area's conversion to integers is modelled.
- Widths and their sums are exact reals: floating-point rounding of the accumulated sums, NaN and infinite widths are not modelled.
- The constructor's `setAcceptHoverEvents(true)`, the widget's initial `resize` to the style's header height, and the section height are toolkit settings and sizes the toolkit supplies.
- SetModel: the connecting and disconnecting of the model's sort signals is toolkit plumbing, and the two slots they reach have empty bodies.
- MousePressEvent: accepting the event belongs to the toolkit's event dispatch.
- MouseReleaseEvent, MouseMoveEvent, HoverEnterEvent, HoverLeaveEvent, HoverMoveEvent: the call each makes to the base-class handler first is not modelled, and neither is anything that handler does. In particular the repaint that the toolkit's default hover-enter handler requests is not counted, so `repaints` counts only the requests made by the header's own code.
- The cursor is a flag, and the grip margin and header width are parameters, rather than style metrics and widget geometry.
- `m_resizePressedRole` is only initialised; the shown code never reads or changes it.
- PastRightEdgeHitsLastColumn, LeftOfOriginHitsFirstColumn, PositionInColumnHitsColumn, LayoutDoesNotOverlap, EmptyAreaWithinHeader, PrefixWidthMonotone: assume non-negative widths, which the source never checks; with negative widths the prefix sums need not increase.
- `src/views/versioncontrol/kversioncontrolplugin.h` and `src/panels/panel.h` are declarations of interfaces whose implementations are not part of this model.
